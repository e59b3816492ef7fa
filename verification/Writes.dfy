/** Building a command: option folding, expiry stamping, batch validation and the
    split of a batch into sets and deletes. */
module Writes {
  import opened Badger
  import opened Commands

  // ---------- time to live ----------

  const NANOS := 1_000_000_000

  /** Whole seconds since the epoch of a clock in nanoseconds, rounded down. */
  function UnixSeconds(t: int): int { t / NANOS }

  function ToUint64(x: int): uint64 { x % TWO_TO_THE_64 }

  function AbsExpiry(now: int, ttl: int): uint64 {
    if ttl == 0 then 0 else ToUint64(UnixSeconds(now + ttl))
  }

  /** A version with this stamp can be read at clock t. */
  predicate ReadableAt(stamp: uint64, t: nat) {
    !Expired(Item([], stamp), UnixSeconds(t))
  }

  /** The stamp rounds the deadline down to a whole second, so a version lives for
      more than ttl - 1s and at most ttl. */
  lemma StampedLifetime(now: nat, ttl: nat, t: nat)
    requires 0 < ttl && NANOS <= now + ttl < TWO_TO_THE_64 * NANOS
    ensures AbsExpiry(now, ttl) != 0
    ensures now + ttl - NANOS < AbsExpiry(now, ttl) * NANOS <= now + ttl
    ensures ReadableAt(AbsExpiry(now, ttl), t) <==> t < AbsExpiry(now, ttl) * NANOS
    ensures now + ttl <= t ==> !ReadableAt(AbsExpiry(now, ttl), t)
    ensures t <= now + ttl - NANOS ==> ReadableAt(AbsExpiry(now, ttl), t)
  {
    var e := (now + ttl) / NANOS;
    assert e * NANOS <= now + ttl < (e + 1) * NANOS;
    assert e % TWO_TO_THE_64 == e;
    assert t / NANOS * NANOS <= t < (t / NANOS + 1) * NANOS;
  }

  /** A positive TTL is honoured exactly when its deadline is at least one second
      after the epoch; below that the stamp is the 0 that means forever. */
  lemma TtlHonouredIff(now: nat, ttl: nat)
    requires 0 < ttl && now + ttl < TWO_TO_THE_64 * NANOS
    ensures (forall t: nat :: now + ttl <= t ==> !ReadableAt(AbsExpiry(now, ttl), t)) <==> NANOS <= now + ttl
  {
    if NANOS <= now + ttl {
      forall t: nat | now + ttl <= t
        ensures !ReadableAt(AbsExpiry(now, ttl), t)
      {
        StampedLifetime(now, ttl, t);
      }
    } else {
      assert AbsExpiry(now, ttl) == 0;
      assert ReadableAt(AbsExpiry(now, ttl), now + ttl);
    }
  }

  // ---------- set options ----------

  datatype SetOption = Ttl(ttl: int) | UnknownOption

  datatype Resolved = Stamp(expiresAt: uint64) | InvalidOption

  predicate OptionsValid(opts: seq<SetOption>) {
    && (forall i :: 0 <= i < |opts| ==> opts[i].Ttl?)
    && (opts != [] ==> 0 < opts[|opts| - 1].ttl)
  }

  lemma OptionsValidMeans(opts: seq<SetOption>)
    ensures OptionsValid(opts) <==> UnknownOption !in opts && (opts == [] || 0 < opts[|opts| - 1].ttl)
  {
    if UnknownOption !in opts {
      forall i | 0 <= i < |opts|
        ensures opts[i].Ttl?
      {
        assert opts[i] in opts;
      }
    }
  }

  /** The last TTL wins; none means forever. */
  function ExpiryOf(opts: seq<SetOption>, now: int): uint64 {
    if opts == [] || opts[|opts| - 1].UnknownOption? then 0 else AbsExpiry(now, opts[|opts| - 1].ttl)
  }

  method ResolveSetOptions(opts: seq<SetOption>, now: int) returns (r: Resolved)
    ensures r.Stamp? <==> OptionsValid(opts)
    ensures r.InvalidOption? <==> UnknownOption in opts || (opts != [] && opts[|opts| - 1].ttl <= 0)
    ensures r.Stamp? ==> r.expiresAt == ExpiryOf(opts, now)
    ensures r.Stamp? ==> r.expiresAt == if opts == [] then 0 else AbsExpiry(now, opts[|opts| - 1].ttl)
  {
    var ttl := 0;
    var hasTTL := false;
    for i := 0 to |opts|
      invariant forall j :: 0 <= j < i ==> opts[j].Ttl?
      invariant hasTTL <==> 0 < i
      invariant 0 < i ==> ttl == opts[i - 1].ttl
    {
      match opts[i] {
        case Ttl(t) =>
          ttl := t;
          hasTTL := true;
        case UnknownOption => return InvalidOption;
      }
    }
    if !hasTTL { return Stamp(0); }
    if ttl <= 0 { return InvalidOption; }
    return Stamp(AbsExpiry(now, ttl));
  }

  // ---------- batches ----------

  const MUT_SET := 1
  const MUT_DELETE := 2

  /** kind is 0 in a value not made by one of the constructors. */
  datatype Mutation = Mutation(kind: nat, key: Bytes, value: Bytes, opts: seq<SetOption>)

  datatype Reason = EmptyKey | DuplicateKey | BadOption | BadKind

  datatype WriteResult =
    | Submitted(cmd: Command) | NothingToDo | Rejected(index: nat, reason: Reason) | Closed | NotLeader

  /** What is wrong with mutation i, in the order the checks are made. */
  function Fault(ms: seq<Mutation>, i: nat): Option<Reason>
    requires i < |ms|
  {
    var m := ms[i];
    if m.key == [] then Some(EmptyKey)
    else if exists j :: 0 <= j < i && ms[j].key == m.key then Some(DuplicateKey)
    else if m.kind == MUT_SET then (if OptionsValid(m.opts) then None else Some(BadOption))
    else if m.kind == MUT_DELETE then None
    else Some(BadKind)
  }

  /** A batch the API accepts, as its documentation states it. */
  ghost predicate Acceptable(ms: seq<Mutation>) {
    && (forall m :: m in ms ==> m.key != [])
    && (forall i, j :: 0 <= i < j < |ms| ==> ms[i].key != ms[j].key)
    && (forall m :: m in ms ==> m.kind == MUT_SET || m.kind == MUT_DELETE)
    && (forall m :: m in ms && m.kind == MUT_SET ==> OptionsValid(m.opts))
  }

  ghost predicate NoFaultBefore(ms: seq<Mutation>, i: nat)
    requires i <= |ms|
  {
    forall j :: 0 <= j < i ==> Fault(ms, j).None?
  }

  lemma AcceptableIffNoFault(ms: seq<Mutation>)
    ensures Acceptable(ms) <==> NoFaultBefore(ms, |ms|)
  {
    if NoFaultBefore(ms, |ms|) {
      forall m | m in ms
        ensures m.key != [] && (m.kind == MUT_SET || m.kind == MUT_DELETE)
        ensures m.kind == MUT_SET ==> OptionsValid(m.opts)
      {
        var i :| 0 <= i < |ms| && ms[i] == m;
        assert Fault(ms, i).None?;
      }
      forall i, j | 0 <= i < j < |ms|
        ensures ms[i].key != ms[j].key
      {
        assert Fault(ms, j).None?;
      }
    }
  }

  /** The checks one mutation at a time: the rule, and which reason is given when
      several apply. */
  lemma AcceptableMeans(ms: seq<Mutation>)
    ensures Acceptable(ms) <==>
            forall i :: 0 <= i < |ms| ==>
              var m := ms[i];
              && m.key != [] && (forall j :: 0 <= j < i ==> ms[j].key != m.key)
              && (m.kind == MUT_DELETE ||
                  (m.kind == MUT_SET && UnknownOption !in m.opts && (m.opts == [] || 0 < m.opts[|m.opts| - 1].ttl)))
    ensures forall i :: 0 <= i < |ms| && Fault(ms, i).Some? ==>
              var m, reason := ms[i], Fault(ms, i).value;
              && (reason == EmptyKey <==> m.key == [])
              && (reason == DuplicateKey <==> m.key != [] && exists j :: 0 <= j < i && ms[j].key == m.key)
              && (reason == BadOption ==> m.kind == MUT_SET)
              && (reason == BadKind ==> m.kind != MUT_SET && m.kind != MUT_DELETE)
  {
    AcceptableIffNoFault(ms);
    forall i | 0 <= i < |ms|
      ensures Fault(ms, i).None? <==>
              && ms[i].key != [] && (forall j :: 0 <= j < i ==> ms[j].key != ms[i].key)
              && (ms[i].kind == MUT_DELETE || (ms[i].kind == MUT_SET && OptionsValid(ms[i].opts)))
      ensures OptionsValid(ms[i].opts) <==>
              UnknownOption !in ms[i].opts && (ms[i].opts == [] || 0 < ms[i].opts[|ms[i].opts| - 1].ttl)
    {
      OptionsValidMeans(ms[i].opts);
    }
  }

  /** One accepted mutation with its stamp. */
  datatype Op = Put(pair: Pair) | Del(key: Bytes)

  function KeyOf(op: Op): Bytes {
    match op
    case Put(p) => p.key
    case Del(k) => k
  }

  function Stamped(m: Mutation, now: int): Op {
    if m.kind == MUT_SET then Put(Pair(m.key, m.value, ExpiryOf(m.opts, now))) else Del(m.key)
  }

  function StampedAll(ms: seq<Mutation>, clock: seq<int>): seq<Op>
    requires |clock| == |ms|
  {
    seq(|ms|, i requires 0 <= i < |ms| => Stamped(ms[i], clock[i]))
  }

  function Puts(ops: seq<Op>): seq<Pair> {
    if ops == [] then []
    else
      var last := ops[|ops| - 1];
      Puts(ops[..|ops| - 1]) + (if last.Put? then [last.pair] else [])
  }

  function Dels(ops: seq<Op>): seq<Bytes> {
    if ops == [] then []
    else
      var last := ops[|ops| - 1];
      Dels(ops[..|ops| - 1]) + (if last.Del? then [last.key] else [])
  }

  function Split(ops: seq<Op>): Command {
    Command(Puts(ops), Dels(ops))
  }

  /** The check and hand-over shared by every write. */
  method Submit(open: bool, leader: bool, cmd: Command) returns (r: WriteResult)
    ensures r == if !open then Closed else if !leader then NotLeader else Submitted(cmd)
  {
    if !open { return Closed; }
    if !leader { return NotLeader; }
    return Submitted(cmd);
  }

  // ---------- one round of the batch loop ----------

  /** The keys of the first i mutations. */
  function KeysBefore(ms: seq<Mutation>, i: nat): set<Bytes>
    requires i <= |ms|
  {
    set j | 0 <= j < i :: ms[j].key
  }

  /** The command built from the first i mutations. */
  function SplitBefore(ms: seq<Mutation>, clock: seq<int>, i: nat): Command
    requires i <= |ms| == |clock|
  {
    Split(StampedAll(ms[..i], clock[..i]))
  }

  /** The checks of one round, on the set of keys seen so far, find the fault. */
  lemma FaultFromSeen(ms: seq<Mutation>, i: nat)
    requires i < |ms|
    ensures KeysBefore(ms, i + 1) == KeysBefore(ms, i) + {ms[i].key}
    ensures var m := ms[i];
            Fault(ms, i) == if m.key == [] then Some(EmptyKey)
                            else if m.key in KeysBefore(ms, i) then Some(DuplicateKey)
                            else if m.kind == MUT_SET then (if OptionsValid(m.opts) then None else Some(BadOption))
                            else if m.kind == MUT_DELETE then None
                            else Some(BadKind)
  {
    assert ms[i].key in KeysBefore(ms, i) <==> exists j :: 0 <= j < i && ms[j].key == ms[i].key;
  }

  lemma SplitGrows(ms: seq<Mutation>, clock: seq<int>, i: nat)
    requires i < |ms| == |clock|
    ensures var c, op := SplitBefore(ms, clock, i), Stamped(ms[i], clock[i]);
            SplitBefore(ms, clock, i + 1) == match op
              case Put(p) => c.(pairs := c.pairs + [p])
              case Del(k) => c.(deletes := c.deletes + [k])
  {
    var ops, grown := StampedAll(ms[..i], clock[..i]), StampedAll(ms[..i + 1], clock[..i + 1]);
    assert grown[..|grown| - 1] == ops;
  }

  // ---------- the split keeps the meaning ----------

  /** The mutations one at a time, in the caller's order. */
  function InOrder(ops: seq<Op>, s: Store): Store {
    if ops == [] then s
    else
      var before := InOrder(ops[..|ops| - 1], s);
      match ops[|ops| - 1]
      case Put(p) => before[p.key := Item(p.value, p.expiresAt)]
      case Del(k) => before - {k}
  }

  function LastOp(ops: seq<Op>, k: Bytes): Effect {
    if ops == [] then Untouched
    else
      var last := ops[|ops| - 1];
      if KeyOf(last) != k then LastOp(ops[..|ops| - 1], k)
      else match last
        case Put(p) => Written(Item(p.value, p.expiresAt))
        case Del(_) => Removed
  }

  lemma {:induction false} InOrderEffect(ops: seq<Op>, s: Store, k: Bytes)
    ensures Lookup(InOrder(ops, s), k) == Overwrite(Lookup(s, k), LastOp(ops, k))
  {
    if ops != [] {
      InOrderEffect(ops[..|ops| - 1], s, k);
    }
  }

  ghost predicate LastIsDel(ops: seq<Op>, k: Bytes) {
    Del(k) in ops ==> LastOp(ops, k) == Removed
  }

  lemma {:induction false} DelsAreDeleted(ops: seq<Op>, k: Bytes)
    ensures k in Dels(ops) <==> Del(k) in ops
    ensures LastOp(ops, k) == Removed ==> Del(k) in ops
  {
    if ops != [] {
      var front, last := ops[..|ops| - 1], ops[|ops| - 1];
      DelsAreDeleted(front, k);
      assert ops == front + [last];
    }
  }

  lemma LastOfGrown(pairs: seq<Pair>, p: Pair, k: Bytes)
    ensures LastPair(pairs + [p], k) == if p.key == k then Written(Item(p.value, p.expiresAt)) else LastPair(pairs, k)
  {
    assert (pairs + [p])[..|pairs|] == pairs;
  }

  lemma PutsGrow(front: seq<Op>, last: Op)
    ensures Puts(front + [last]) == Puts(front) + (if last.Put? then [last.pair] else [])
  {
    assert (front + [last])[..|front|] == front;
  }

  lemma {:induction false} PutsDecide(ops: seq<Op>, k: Bytes)
    requires Del(k) !in ops
    ensures LastPair(Puts(ops), k) == LastOp(ops, k)
  {
    if ops != [] {
      var front, last := ops[..|ops| - 1], ops[|ops| - 1];
      assert ops == front + [last];
      PutsGrow(front, last);
      PutsDecide(front, k);
      match last {
        case Put(p) =>
          LastOfGrown(Puts(front), p, k);
          assert Puts(ops) == Puts(front) + [p];
        case Del(d) =>
          assert Del(d) in ops && d != k;
          assert Puts(ops) == Puts(front);
          assert LastOp(ops, k) == LastOp(front, k);
      }
    }
  }

  lemma SplitEffect(ops: seq<Op>, k: Bytes)
    ensures k in Dels(ops) <==> Del(k) in ops
    ensures Del(k) !in ops ==> LastPair(Puts(ops), k) == LastOp(ops, k)
    ensures LastOp(ops, k) == Removed ==> Del(k) in ops
  {
    DelsAreDeleted(ops, k);
    if Del(k) !in ops { PutsDecide(ops, k); }
  }

  /** The built command, sets before deletes, means the caller's order for every
      store exactly when no key is set after its last delete. */
  lemma SplitMeansOrderIff(ops: seq<Op>)
    ensures (forall s :: Exec(Split(ops), s) == InOrder(ops, s)) <==> forall k :: LastIsDel(ops, k)
  {
    if forall k :: LastIsDel(ops, k) {
      forall s
        ensures Exec(Split(ops), s) == InOrder(ops, s)
      {
        forall k
          ensures Lookup(Exec(Split(ops), s), k) == Lookup(InOrder(ops, s), k)
        {
          assert LastIsDel(ops, k);
          SplitEffect(ops, k);
          InOrderEffect(ops, s, k);
          ExecEffect(Cmd(Split(ops)), s, k);
        }
        SameLookups(Exec(Split(ops), s), InOrder(ops, s));
      }
    } else {
      var k :| !LastIsDel(ops, k);
      SplitEffect(ops, k);
      DelTouches(ops, k);
      InOrderEffect(ops, map[], k);
      ExecEffect(Cmd(Split(ops)), map[], k);
      assert Exec(Split(ops), map[]) != InOrder(ops, map[]) by {
        assert Lookup(Exec(Split(ops), map[]), k) != Lookup(InOrder(ops, map[]), k);
      }
    }
  }

  lemma {:induction false} DelTouches(ops: seq<Op>, k: Bytes)
    requires Del(k) in ops
    ensures LastOp(ops, k) != Untouched
  {
    var last := ops[|ops| - 1];
    if KeyOf(last) != k {
      assert ops == ops[..|ops| - 1] + [last];
      DelTouches(ops[..|ops| - 1], k);
    }
  }

  ghost predicate DistinctKeys(ops: seq<Op>) {
    forall i, j :: 0 <= i < j < |ops| ==> KeyOf(ops[i]) != KeyOf(ops[j])
  }

  function EffectOfOp(op: Op): Effect {
    match op
    case Put(p) => Written(Item(p.value, p.expiresAt))
    case Del(_) => Removed
  }

  lemma {:induction false} DistinctEffect(ops: seq<Op>, k: Bytes)
    requires DistinctKeys(ops)
    ensures forall op :: op in ops && KeyOf(op) == k ==> LastOp(ops, k) == EffectOfOp(op)
    ensures (forall op :: op in ops ==> KeyOf(op) != k) ==> LastOp(ops, k) == Untouched
  {
    if ops != [] {
      var front, last := ops[..|ops| - 1], ops[|ops| - 1];
      assert ops == front + [last];
      DistinctEffect(front, k);
    }
  }

  lemma {:induction false} DistinctOccursOnce(ops: seq<Op>, op: Op)
    requires DistinctKeys(ops)
    ensures multiset(ops)[op] <= 1
  {
    if ops != [] {
      var front, last := ops[..|ops| - 1], ops[|ops| - 1];
      assert ops == front + [last];
      DistinctOccursOnce(front, op);
      forall i | 0 <= i < |front|
        ensures front[i] != last
      {
        assert KeyOf(ops[i]) != KeyOf(ops[|ops| - 1]);
      }
    }
  }

  lemma TwoOccurrences(ops: seq<Op>, i: nat, j: nat)
    requires i < j < |ops| && ops[i] == ops[j]
    ensures 2 <= multiset(ops)[ops[i]]
  {
    assert ops == ops[..j] + [ops[j]] + ops[j + 1..];
    assert ops[..j][i] == ops[i];
    assert ops[i] in multiset(ops[..j]);
  }

  lemma ShuffleKeepsDistinct(ops: seq<Op>, shuffled: seq<Op>)
    requires DistinctKeys(ops) && multiset(ops) == multiset(shuffled)
    ensures DistinctKeys(shuffled)
  {
    forall i, j | 0 <= i < j < |shuffled|
      ensures KeyOf(shuffled[i]) != KeyOf(shuffled[j])
    {
      DistinctOccursOnce(ops, shuffled[i]);
      if shuffled[i] == shuffled[j] {
        TwoOccurrences(shuffled, i, j);
      }
      assert shuffled[i] in multiset(ops) && shuffled[j] in multiset(ops);
      var m :| 0 <= m < |ops| && ops[m] == shuffled[i];
      var n :| 0 <= n < |ops| && ops[n] == shuffled[j];
      assert m < n || n < m;
    }
  }

  lemma SameLastOp(ops: seq<Op>, shuffled: seq<Op>, k: Bytes)
    requires DistinctKeys(ops) && DistinctKeys(shuffled) && multiset(ops) == multiset(shuffled)
    ensures LastOp(ops, k) == LastOp(shuffled, k)
  {
    DistinctEffect(ops, k);
    DistinctEffect(shuffled, k);
    assert forall op :: op in ops <==> op in multiset(ops);
    assert forall op :: op in shuffled <==> op in multiset(shuffled);
    if op :| op in ops && KeyOf(op) == k {
      assert op in shuffled;
    }
  }

  /** An accepted batch means its mutations in the caller's order, and in any other
      order with the same stamps. */
  lemma BatchMeansAnyOrder(ops: seq<Op>, shuffled: seq<Op>, s: Store)
    requires DistinctKeys(ops) && multiset(ops) == multiset(shuffled)
    ensures Exec(Split(ops), s) == InOrder(shuffled, s)
  {
    forall k
      ensures LastIsDel(ops, k)
    {
      DistinctEffect(ops, k);
    }
    SplitMeansOrderIff(ops);
    ShuffleKeepsDistinct(ops, shuffled);
    forall k
      ensures Lookup(InOrder(ops, s), k) == Lookup(InOrder(shuffled, s), k)
    {
      SameLastOp(ops, shuffled, k);
      InOrderEffect(ops, s, k);
      InOrderEffect(shuffled, s, k);
    }
    SameLookups(InOrder(ops, s), InOrder(shuffled, s));
  }

  /** What Batch submits has distinct keys, so the result above applies to it. */
  lemma AcceptedHasDistinctKeys(ms: seq<Mutation>, clock: seq<int>)
    requires |clock| == |ms| && Acceptable(ms)
    ensures DistinctKeys(StampedAll(ms, clock))
    ensures forall s :: Exec(Split(StampedAll(ms, clock)), s) == InOrder(StampedAll(ms, clock), s)
  {
    var ops := StampedAll(ms, clock);
    forall i, j | 0 <= i < j < |ops|
      ensures KeyOf(ops[i]) != KeyOf(ops[j])
    {
      assert ms[i] in ms && ms[j] in ms;
    }
    forall s
      ensures Exec(Split(ops), s) == InOrder(ops, s)
    {
      BatchMeansAnyOrder(ops, ops, s);
    }
  }

  // ---------- what a write asks for ----------

  /** Entry k of the store is this value for as long as the options ask: forever
      without a TTL, else for the last one, up to the second it is rounded down to. */
  ghost predicate LivesAsAsked(s: Store, k: Bytes, value: Bytes, opts: seq<SetOption>, now: int) {
    && (opts == [] ==> forall t: nat :: VisibleAt(s, k, t) == Some(value))
    && (opts != [] && opts[|opts| - 1].Ttl? ==>
          var ttl := opts[|opts| - 1].ttl;
          0 <= now && NANOS <= now + ttl < TWO_TO_THE_64 * NANOS ==>
            && (forall t: nat :: t <= now + ttl - NANOS ==> VisibleAt(s, k, UnixSeconds(t)) == Some(value))
            && (forall t: nat :: now + ttl <= t ==> VisibleAt(s, k, UnixSeconds(t)) == None))
  }

  lemma StampLives(s: Store, k: Bytes, value: Bytes, opts: seq<SetOption>, now: int)
    requires OptionsValid(opts) && Lookup(s, k) == Some(Item(value, ExpiryOf(opts, now)))
    ensures LivesAsAsked(s, k, value, opts, now)
  {
    if opts != [] {
      var ttl := opts[|opts| - 1].ttl;
      if 0 <= now && NANOS <= now + ttl < TWO_TO_THE_64 * NANOS {
        forall t: nat
          ensures t <= now + ttl - NANOS ==> VisibleAt(s, k, UnixSeconds(t)) == Some(value)
          ensures now + ttl <= t ==> VisibleAt(s, k, UnixSeconds(t)) == None
        {
          StampedLifetime(now, ttl, t);
        }
      }
    }
  }

  /** What the caller of Batch asked for, mutation by mutation. */
  ghost predicate MeansMutations(cmd: Command, ms: seq<Mutation>, clock: seq<int>, s: Store)
    requires |clock| == |ms|
  {
    var after := Exec(cmd, s);
    && (forall i :: 0 <= i < |ms| && ms[i].kind == MUT_SET ==>
          LivesAsAsked(after, ms[i].key, ms[i].value, ms[i].opts, clock[i]))
    && (forall i :: 0 <= i < |ms| && ms[i].kind == MUT_DELETE ==> ms[i].key !in after)
    && (forall k :: (forall m :: m in ms ==> m.key != k) ==> Lookup(after, k) == Lookup(s, k))
  }

  lemma MutationTakesEffect(ms: seq<Mutation>, clock: seq<int>, s: Store, i: nat)
    requires i < |ms| == |clock| && Acceptable(ms)
    ensures Lookup(Exec(Split(StampedAll(ms, clock)), s), ms[i].key) ==
            Overwrite(None, EffectOfOp(Stamped(ms[i], clock[i])))
  {
    var ops, k := StampedAll(ms, clock), ms[i].key;
    AcceptedHasDistinctKeys(ms, clock);
    InOrderEffect(ops, s, k);
    DistinctEffect(ops, k);
    assert ops[i] in ops && KeyOf(ops[i]) == k;
  }

  lemma OtherKeysStay(ms: seq<Mutation>, clock: seq<int>, s: Store, k: Bytes)
    requires |ms| == |clock| && Acceptable(ms) && forall m :: m in ms ==> m.key != k
    ensures Lookup(Exec(Split(StampedAll(ms, clock)), s), k) == Lookup(s, k)
  {
    var ops := StampedAll(ms, clock);
    AcceptedHasDistinctKeys(ms, clock);
    InOrderEffect(ops, s, k);
    DistinctEffect(ops, k);
    forall op | op in ops
      ensures KeyOf(op) != k
    {
      var i :| 0 <= i < |ops| && ops[i] == op;
      assert ms[i] in ms;
    }
  }

  /** The built command does to every store what its mutations ask for. */
  lemma AcceptedMeansMutations(ms: seq<Mutation>, clock: seq<int>, s: Store)
    requires |clock| == |ms| && Acceptable(ms)
    ensures MeansMutations(Split(StampedAll(ms, clock)), ms, clock, s)
  {
    var after := Exec(Split(StampedAll(ms, clock)), s);
    forall i | 0 <= i < |ms|
      ensures ms[i].kind == MUT_SET ==> LivesAsAsked(after, ms[i].key, ms[i].value, ms[i].opts, clock[i])
      ensures ms[i].kind == MUT_DELETE ==> ms[i].key !in after
    {
      MutationTakesEffect(ms, clock, s, i);
      if ms[i].kind == MUT_SET {
        assert ms[i] in ms;
        StampLives(after, ms[i].key, ms[i].value, ms[i].opts, clock[i]);
      }
    }
    forall k | forall m :: m in ms ==> m.key != k
      ensures Lookup(after, k) == Lookup(s, k)
    {
      OtherKeysStay(ms, clock, s, k);
    }
  }

  // ---------- the write calls ----------

  /** clock[i] is the time read while mutation i is validated; stillOpen and leader
      are the checks made again when the built command is handed over. */
  method Batch(open: bool, ms: seq<Mutation>, clock: seq<int>, stillOpen: bool, leader: bool) returns (r: WriteResult)
    requires |clock| == |ms|
    ensures !open ==> r == Closed
    ensures open && ms == [] ==> r == NothingToDo
    ensures open && ms != [] && Acceptable(ms) ==>
              r == if !stillOpen then Closed else if !leader then NotLeader else Submitted(Split(StampedAll(ms, clock)))
    ensures open ==> (!r.Rejected? <==> Acceptable(ms))
    ensures r.Submitted? ==> forall s :: MeansMutations(r.cmd, ms, clock, s)
    ensures open && !Acceptable(ms) ==>
              r.Rejected? && r.index < |ms| && Fault(ms, r.index) == Some(r.reason) && NoFaultBefore(ms, r.index)
  {
    if !open { return Closed; }
    if |ms| == 0 { return NothingToDo; }
    var seenKeys: set<Bytes> := {};
    var setPairs: seq<Pair> := [];
    var deleteKeys: seq<Bytes> := [];
    AcceptableIffNoFault(ms);
    for i := 0 to |ms|
      invariant NoFaultBefore(ms, i)
      invariant seenKeys == KeysBefore(ms, i)
      invariant Command(setPairs, deleteKeys) == SplitBefore(ms, clock, i)
    {
      var m := ms[i];
      FaultFromSeen(ms, i);
      SplitGrows(ms, clock, i);
      if |m.key| == 0 { return Rejected(i, EmptyKey); }
      if m.key in seenKeys { return Rejected(i, DuplicateKey); }
      seenKeys := seenKeys + {m.key};
      if m.kind == MUT_SET {
        var e := ResolveSetOptions(m.opts, clock[i]);
        if e.InvalidOption? { return Rejected(i, BadOption); }
        setPairs := setPairs + [Pair(m.key, m.value, e.expiresAt)];
      } else if m.kind == MUT_DELETE {
        deleteKeys := deleteKeys + [m.key];
      } else {
        return Rejected(i, BadKind);
      }
    }
    assert ms[..|ms|] == ms && clock[..|ms|] == clock;
    r := Submit(stillOpen, leader, Command(setPairs, deleteKeys));
    forall s
      ensures MeansMutations(Command(setPairs, deleteKeys), ms, clock, s)
    {
      AcceptedMeansMutations(ms, clock, s);
    }
  }

  method SetBytes(key: Bytes, value: Bytes, opts: seq<SetOption>, now: int, open: bool, leader: bool) returns (r: WriteResult)
    ensures r.Rejected? <==> key == [] || !OptionsValid(opts)
    ensures r.Rejected? ==> r.reason == if key == [] then EmptyKey else BadOption
    ensures !r.Rejected? ==> (r.Closed? <==> !open) && (r.NotLeader? <==> open && !leader) && (r.Submitted? <==> open && leader)
    ensures r.Submitted? ==> forall s, k ::
              Lookup(Exec(r.cmd, s), k) == if k == key then Some(Item(value, ExpiryOf(opts, now))) else Lookup(s, k)
    ensures r.Submitted? ==> forall s :: LivesAsAsked(Exec(r.cmd, s), key, value, opts, now)
  {
    if |key| == 0 { return Rejected(0, EmptyKey); }
    var e := ResolveSetOptions(opts, now);
    if e.InvalidOption? { return Rejected(0, BadOption); }
    var cmd := Command([Pair(key, value, e.expiresAt)], []);
    r := Submit(open, leader, cmd);
    forall s, k
      ensures Lookup(Exec(cmd, s), k) == if k == key then Some(Item(value, e.expiresAt)) else Lookup(s, k)
    {
      LastOfTwo(cmd.pairs[0], cmd.pairs[0], k);
      ExecEffect(Cmd(cmd), s, k);
    }
    forall s
      ensures LivesAsAsked(Exec(cmd, s), key, value, opts, now)
    {
      assert Lookup(Exec(cmd, s), key) == Some(Item(value, e.expiresAt));
      StampLives(Exec(cmd, s), key, value, opts, now);
    }
  }

  method DeleteBytes(key: Bytes, open: bool, leader: bool) returns (r: WriteResult)
    ensures r.Rejected? <==> key == []
    ensures !r.Rejected? ==> (r.Closed? <==> !open) && (r.NotLeader? <==> open && !leader) && (r.Submitted? <==> open && leader)
    ensures r.Submitted? ==> forall s :: Exec(r.cmd, s) == s - {key}
  {
    if |key| == 0 { return Rejected(0, EmptyKey); }
    var cmd := Command([], [key]);
    r := Submit(open, leader, cmd);
    forall s
      ensures Exec(cmd, s) == s - {key}
    {
      assert DeleteKeys(s, [key][..0]) == s;
      assert SetPairs(s, []) == s;
    }
  }
}
