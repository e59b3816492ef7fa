/** Reads: the consistency check, the point read and the prefix scan. Each call is
    given the store its callback resolves to at that moment (None when the handle
    is nil or the node is closed). */
module Reads {
  import opened Badger
  import opened Order

  const LINEARIZABLE := 0
  const LOCAL := 1

  datatype ReadOptions = ReadOptions(mode: nat, timeout: int)

  datatype BarrierResult = Passed | LostLeadership | RaftFailure

  /** What the library answers: whether the node leads, whether it is still open
      when the barrier is asked for, and how the barrier ends. */
  datatype RaftView = RaftView(leader: bool, stillOpen: bool, barrier: BarrierResult)

  datatype ReadError = InvalidArgument | Closed | NotLeader | RaftError | KeyNotFound

  datatype Result<T> = Ok(value: T) | Err(error: ReadError)

  datatype Entry = Entry(key: Bytes, value: Bytes)

  method Barrier(raft: RaftView) returns (e: Option<ReadError>)
    ensures e == if !raft.stillOpen then Some(Closed)
                 else if raft.barrier.Passed? then None
                 else if raft.barrier.LostLeadership? then Some(NotLeader) else Some(RaftError)
  {
    if !raft.stillOpen { return Some(Closed); }
    match raft.barrier {
      case Passed => return None;
      case LostLeadership => return Some(NotLeader);
      case RaftFailure => return Some(RaftError);
    }
  }

  /** A linearizable read is never downgraded: it goes ahead only on a leader
      behind a barrier that passed. */
  ghost predicate MayRead(open: bool, ro: ReadOptions, raft: RaftView) {
    && 0 <= ro.timeout && open
    && (ro.mode == LOCAL || (ro.mode == LINEARIZABLE && raft.leader && raft.stillOpen && raft.barrier.Passed?))
  }

  method PrepareRead(open: bool, ro: ReadOptions, raft: RaftView) returns (e: Option<ReadError>)
    ensures e.None? <==> MayRead(open, ro, raft)
    ensures e.None? && ro.mode == LINEARIZABLE ==> open && raft.leader && raft.stillOpen && raft.barrier.Passed?
    ensures 0 <= ro.timeout && open && ro.mode == LOCAL ==> e.None?
    ensures 0 <= ro.timeout && open && ro.mode == LINEARIZABLE && raft == RaftView(true, true, Passed) ==> e.None?
    ensures e == Some(InvalidArgument) <==> ro.timeout < 0 || ro.mode > LOCAL
    ensures e == Some(Closed) <==>
            0 <= ro.timeout && ro.mode <= LOCAL && (!open || (ro.mode == LINEARIZABLE && raft.leader && !raft.stillOpen))
    ensures e == Some(NotLeader) <==>
            && 0 <= ro.timeout && ro.mode == LINEARIZABLE && open
            && (!raft.leader || (raft.stillOpen && raft.barrier.LostLeadership?))
    ensures e != Some(KeyNotFound)
  {
    if ro.timeout < 0 { return Some(InvalidArgument); }
    if ro.mode == LINEARIZABLE {
      if !open { return Some(Closed); }
      if !raft.leader { return Some(NotLeader); }
      e := Barrier(raft);
    } else if ro.mode == LOCAL {
      return if open then None else Some(Closed);
    } else {
      return Some(InvalidArgument);
    }
  }

  method GetBytes(key: Bytes, open: bool, ro: ReadOptions, raft: RaftView, store: Option<Store>, now: nat)
    returns (r: Result<Bytes>)
    ensures r.Ok? <==> key != [] && MayRead(open, ro, raft) && store.Some? && VisibleAt(store.value, key, now).Some?
    ensures r.Ok? ==> Some(r.value) == VisibleAt(store.value, key, now)
    ensures r == Err(KeyNotFound) <==>
            key != [] && MayRead(open, ro, raft) && store.Some? && VisibleAt(store.value, key, now).None?
    ensures key != [] && MayRead(open, ro, raft) && store.None? ==> r == Err(Closed)
  {
    if |key| == 0 { return Err(InvalidArgument); }
    var e := PrepareRead(open, ro, raft);
    if e.Some? { return Err(e.value); }
    if store.None? { return Err(Closed); }
    var v := VisibleAt(store.value, key, now);
    if v.None? { return Err(KeyNotFound); }
    return Ok(v.value);
  }

  // ---------- the iterator ----------

  function LiveKeys(s: Store, now: nat): set<Bytes> {
    set k | k in s && !Expired(s[k], now)
  }

  /** The live entries of a read transaction in byte order. */
  function Items(s: Store, now: nat): (es: seq<Entry>)
    ensures |es| == |Ordered(LiveKeys(s, now))|
    ensures forall i :: 0 <= i < |es| ==> es[i].key == Ordered(LiveKeys(s, now))[i]
    ensures forall i :: 0 <= i < |es| ==> VisibleAt(s, es[i].key, now) == Some(es[i].value)
  {
    var ks := Ordered(LiveKeys(s, now));
    assert forall i :: 0 <= i < |ks| ==> ks[i] in ks;
    seq(|ks|, i requires 0 <= i < |ks| => Entry(ks[i], s[ks[i]].value))
  }

  ghost predicate Sorted(es: seq<Entry>) {
    forall i, j :: 0 <= i < j < |es| ==> Less(es[i].key, es[j].key)
  }

  /** The first position from i on whose key is not below the prefix. */
  function SeekFrom(es: seq<Entry>, p: Bytes, i: nat): (pos: nat)
    requires i <= |es|
    ensures i <= pos <= |es|
    decreases |es| - i
  {
    if i == |es| || Leq(p, es[i].key) then i else SeekFrom(es, p, i + 1)
  }

  lemma {:induction false} SeekSkipsSmaller(es: seq<Entry>, p: Bytes, i: nat)
    requires i <= |es|
    ensures var pos := SeekFrom(es, p, i);
            && (forall j :: i <= j < pos ==> !Leq(p, es[j].key))
            && (pos < |es| ==> Leq(p, es[pos].key))
    decreases |es| - i
  {
    if i < |es| && !Leq(p, es[i].key) { SeekSkipsSmaller(es, p, i + 1); }
  }

  class Iterator {
    const items: seq<Entry>
    var pos: nat

    constructor (s: Store, now: nat)
      ensures items == Items(s, now)
    {
      items := Items(s, now);
      pos := 0;
    }

    method Seek(p: Bytes)
      modifies this
      ensures pos == SeekFrom(items, p, 0)
    {
      pos := SeekFrom(items, p, 0);
    }

    predicate ValidForPrefix(p: Bytes)
      reads this
    {
      pos < |items| && p <= items[pos].key
    }

    method Next()
      modifies this
      ensures pos == old(pos) + 1
    {
      pos := pos + 1;
    }
  }

  // ---------- what a scan means ----------

  function Matching(es: seq<Entry>, p: Bytes): seq<Entry> {
    if es == [] then []
    else (if p <= es[0].key then [es[0]] else []) + Matching(es[1..], p)
  }

  /** The first `limit` entries; 0 means all. */
  function Take(es: seq<Entry>, limit: nat): seq<Entry> {
    if limit == 0 || |es| <= limit then es else es[..limit]
  }

  lemma {:induction false} NoneMatch(es: seq<Entry>, p: Bytes)
    requires forall i :: 0 <= i < |es| ==> !(p <= es[i].key)
    ensures Matching(es, p) == []
  {
    if es != [] { NoneMatch(es[1..], p); }
  }

  lemma {:induction false} AllMatch(es: seq<Entry>, p: Bytes)
    requires forall i :: 0 <= i < |es| ==> p <= es[i].key
    ensures Matching(es, p) == es
  {
    if es != [] { AllMatch(es[1..], p); }
  }

  lemma {:induction false} MatchingConcat(a: seq<Entry>, b: seq<Entry>, p: Bytes)
    ensures Matching(a + b, p) == Matching(a, p) + Matching(b, p)
  {
    if a == [] {
      assert a + b == b;
    } else {
      MatchingConcat(a[1..], b, p);
      var head := if p <= a[0].key then [a[0]] else [];
      assert (a + b)[0] == a[0] && (a + b)[1..] == a[1..] + b;
      assert head + (Matching(a[1..], p) + Matching(b, p)) == (head + Matching(a[1..], p)) + Matching(b, p);
    }
  }

  function BlockEnd(es: seq<Entry>, p: Bytes, i: nat): (e: nat)
    requires i <= |es|
    ensures i <= e <= |es|
    decreases |es| - i
  {
    if i == |es| || !(p <= es[i].key) then i else BlockEnd(es, p, i + 1)
  }

  lemma {:induction false} BlockRunsToEnd(es: seq<Entry>, p: Bytes, i: nat)
    requires i <= |es|
    ensures var e := BlockEnd(es, p, i);
            && (forall j :: i <= j < e ==> p <= es[j].key)
            && (e == |es| || !(p <= es[e].key))
    decreases |es| - i
  {
    if i < |es| && p <= es[i].key { BlockRunsToEnd(es, p, i + 1); }
  }

  lemma NoMatchBeforeSeek(es: seq<Entry>, p: Bytes)
    ensures Matching(es[..SeekFrom(es, p, 0)], p) == []
  {
    var start := SeekFrom(es, p, 0);
    SeekSkipsSmaller(es, p, 0);
    forall i | 0 <= i < start
      ensures !(p <= es[..start][i].key)
    {
      assert !Leq(p, es[i].key);
      if p <= es[i].key { PrefixIsLeq(p, es[i].key); }
    }
    NoneMatch(es[..start], p);
  }

  /** Past the first key that fails to match, nothing matches. */
  lemma NoMatchAfterBlock(es: seq<Entry>, p: Bytes, i: nat, j: nat)
    requires Sorted(es) && i < j < |es| && Leq(p, es[i].key) && !(p <= es[i].key)
    ensures !(p <= es[j].key)
  {
    assert Less(es[i].key, es[j].key);
    if p <= es[j].key { PrefixBlockIsContiguous(p, es[i].key, es[j].key); }
  }

  lemma NoMatchFromBlockEnd(es: seq<Entry>, p: Bytes, end: nat)
    requires Sorted(es) && end <= |es|
    requires end < |es| ==> Leq(p, es[end].key) && !(p <= es[end].key)
    ensures Matching(es[end..], p) == []
  {
    var tail := es[end..];
    forall j | 0 <= j < |tail|
      ensures !(p <= tail[j].key)
    {
      assert tail[j] == es[end + j];
      if 0 < j { NoMatchAfterBlock(es, p, end, end + j); }
    }
    NoneMatch(tail, p);
  }

  lemma BlockEndIsAbovePrefix(es: seq<Entry>, p: Bytes)
    requires Sorted(es)
    ensures var start := SeekFrom(es, p, 0);
            var end := BlockEnd(es, p, start);
            end < |es| ==> Leq(p, es[end].key)
  {
    var start := SeekFrom(es, p, 0);
    var end := BlockEnd(es, p, start);
    SeekSkipsSmaller(es, p, 0);
    if start < end < |es| {
      assert Less(es[start].key, es[end].key);
      LeqTransitive(p, es[start].key, es[end].key);
    }
  }

  lemma MatchingOfThree(a: seq<Entry>, b: seq<Entry>, c: seq<Entry>, p: Bytes)
    requires Matching(a, p) == [] && Matching(b, p) == b && Matching(c, p) == []
    ensures Matching(a + b + c, p) == b
  {
    MatchingConcat(a, b, p);
    MatchingConcat(a + b, c, p);
  }

  lemma Cut(es: seq<Entry>, i: nat, j: nat)
    requires i <= j <= |es|
    ensures es == es[..i] + es[i..j] + es[j..]
  {
  }

  /** In sorted entries the matches are one block that starts at the seek position. */
  lemma MatchesAreOneBlock(es: seq<Entry>, p: Bytes)
    requires Sorted(es)
    ensures var start := SeekFrom(es, p, 0); Matching(es, p) == es[start..BlockEnd(es, p, start)]
  {
    var start := SeekFrom(es, p, 0);
    var end := BlockEnd(es, p, start);
    NoMatchBeforeSeek(es, p);
    BlockRunsToEnd(es, p, start);
    AllMatch(es[start..end], p);
    BlockEndIsAbovePrefix(es, p);
    NoMatchFromBlockEnd(es, p, end);
    MatchingOfThree(es[..start], es[start..end], es[end..], p);
    Cut(es, start, end);
  }

  lemma ItemsAreSorted(s: Store, now: nat)
    ensures Sorted(Items(s, now))
  {
    OrderedIsAscending(LiveKeys(s, now));
  }

  lemma ScanBlock(s: Store, now: nat, p: Bytes)
    ensures var es := Items(s, now);
            var start := SeekFrom(es, p, 0);
            Matching(es, p) == es[start..BlockEnd(es, p, start)]
  {
    ItemsAreSorted(s, now);
    MatchesAreOneBlock(Items(s, now), p);
  }

  lemma SliceGrows(es: seq<Entry>, i: nat, j: nat)
    requires i <= j < |es|
    ensures es[i..j + 1] == es[i..j] + [es[j]]
  {
  }

  // ---------- the scan ----------

  const DEFAULT_SCAN_LIMIT := 100

  datatype ScanOptions = ScanOptions(read: ReadOptions, limit: int, unlimited: bool)

  /** The effective cap, 0 for none. */
  function ResolveLimit(so: ScanOptions): Option<nat> {
    if so.limit < 0 then None
    else if so.unlimited then Some(0)
    else if so.limit == 0 then Some(DEFAULT_SCAN_LIMIT)
    else Some(so.limit)
  }

  lemma TakeOfBlock(es: seq<Entry>, start: nat, pos: nat, end: nat, limit: nat)
    requires start <= pos <= end <= |es|
    requires limit != 0 ==> pos - start <= limit
    requires pos == end || (limit != 0 && pos - start == limit)
    ensures es[start..pos] == Take(es[start..end], limit)
  {
  }

  /** The iterator loop: seek, walk while the prefix holds, stop at the cap. It
      returns what sorting, filtering and taking would. */
  method ScanLoop(s: Store, now: nat, prefix: Bytes, limit: nat) returns (entries: seq<Entry>)
    ensures entries == Take(Matching(Items(s, now), prefix), limit)
  {
    entries := [];
    var it := new Iterator(s, now);
    it.Seek(prefix);
    ghost var es, start := it.items, it.pos;
    ghost var end := BlockEnd(es, prefix, start);
    ScanBlock(s, now, prefix);
    BlockRunsToEnd(es, prefix, start);
    while it.ValidForPrefix(prefix)
      invariant start <= it.pos <= end
      invariant entries == es[start..it.pos]
      invariant 0 < limit ==> |entries| <= limit
      decreases |es| - it.pos
    {
      assert prefix <= es[it.pos].key && it.pos != end;
      if 0 < limit && |entries| >= limit { break; }
      ghost var pos := it.pos;
      var item := it.items[it.pos];
      entries := entries + [Entry(item.key, item.value)];
      it.Next();
      assert entries == es[start..it.pos] by {
        SliceGrows(es, start, pos);
        assert Entry(item.key, item.value) == es[pos];
      }
    }
    TakeOfBlock(es, start, it.pos, end, limit);
  }

  method ScanPrefixBytes(prefix: Bytes, so: ScanOptions, open: bool, raft: RaftView, store: Option<Store>, now: nat)
    returns (r: Result<seq<Entry>>)
    ensures r.Ok? <==> 0 <= so.limit && MayRead(open, so.read, raft) && store.Some?
    ensures r.Ok? ==> r.value == Take(Matching(Items(store.value, now), prefix),
                                      if so.unlimited then 0 else if so.limit == 0 then 100 else so.limit)
    ensures so.limit < 0 ==> r == Err(InvalidArgument)
    ensures 0 <= so.limit && MayRead(open, so.read, raft) && store.None? ==> r == Err(Closed)
  {
    var limit := ResolveLimit(so);
    if limit.None? { return Err(InvalidArgument); }
    var e := PrepareRead(open, so.read, raft);
    if e.Some? { return Err(e.value); }
    if store.None? { return Err(Closed); }
    var entries := ScanLoop(store.value, now, prefix, limit.value);
    return Ok(entries);
  }

  lemma {:induction false} MatchingKeeps(es: seq<Entry>, p: Bytes)
    ensures forall e :: e in Matching(es, p) <==> e in es && p <= e.key
    ensures Sorted(es) ==> Sorted(Matching(es, p))
  {
    if es != [] {
      MatchingKeeps(es[1..], p);
      assert es == [es[0]] + es[1..];
      var rest := Matching(es[1..], p);
      if Sorted(es) {
        assert Sorted(es[1..]);
        forall j | 0 <= j < |rest|
          ensures Less(es[0].key, rest[j].key)
        {
          assert rest[j] in rest;
          var i :| 0 <= i < |es[1..]| && es[1..][i] == rest[j];
          assert es[i + 1] == rest[j];
        }
      }
    }
  }

  lemma LiveKeyIsItem(s: Store, now: nat, k: Bytes)
    requires VisibleAt(s, k, now).Some?
    ensures Entry(k, VisibleAt(s, k, now).value) in Items(s, now)
  {
    assert k in LiveKeys(s, now);
    assert k in Ordered(LiveKeys(s, now));
    var i :| 0 <= i < |Items(s, now)| && Ordered(LiveKeys(s, now))[i] == k;
    assert Items(s, now)[i] == Entry(k, VisibleAt(s, k, now).value);
  }

  lemma TakeKeepsOrFills(m: seq<Entry>, limit: nat, e: Entry)
    requires Sorted(m) && e in m
    ensures var r := Take(m, limit);
            e in r || (limit != 0 && |r| == limit && forall x :: x in r ==> Less(x.key, e.key))
  {
    var r := Take(m, limit);
    var j :| 0 <= j < |m| && m[j] == e;
    if limit != 0 && limit <= j {
      forall x | x in r
        ensures Less(x.key, e.key)
      {
        var i :| 0 <= i < |r| && r[i] == x;
        assert m[i] == x;
      }
    } else {
      assert r[j] == e;
    }
  }

  /** The meaning of a scan without its iterator: ascending keys, each entry what a
      point read returns, and no live key with the prefix is left out unless the
      cap was reached with smaller keys only. */
  lemma ScanIsFirstLiveMatches(s: Store, now: nat, p: Bytes, limit: nat)
    ensures var r := Take(Matching(Items(s, now), p), limit);
            && (forall i, j :: 0 <= i < j < |r| ==> Below(r[i].key, r[j].key))
            && (limit != 0 ==> |r| <= limit)
            && (forall e :: e in r ==> p <= e.key && VisibleAt(s, e.key, now) == Some(e.value))
            && (forall k :: p <= k && VisibleAt(s, k, now).Some? ==>
                  || Entry(k, VisibleAt(s, k, now).value) in r
                  || (limit != 0 && |r| == limit && forall e :: e in r ==> Below(e.key, k)))
  {
    var es := Items(s, now);
    var m := Matching(es, p);
    var r := Take(m, limit);
    ItemsAreSorted(s, now);
    MatchingKeeps(es, p);
    forall e | e in r
      ensures p <= e.key && VisibleAt(s, e.key, now) == Some(e.value)
    {
      assert e in m;
    }
    forall k | p <= k && VisibleAt(s, k, now).Some?
      ensures || Entry(k, VisibleAt(s, k, now).value) in r
              || (limit != 0 && |r| == limit && forall e :: e in r ==> Below(e.key, k))
    {
      LiveKeyIsItem(s, now, k);
      TakeKeepsOrFills(m, limit, Entry(k, VisibleAt(s, k, now).value));
      forall e | e in r ensures Less(e.key, k) <==> Below(e.key, k) { LessIsByteOrder(e.key, k); }
    }
    forall i, j | 0 <= i < j < |r|
      ensures Below(r[i].key, r[j].key)
    {
      assert r[i] == m[i] && r[j] == m[j];
      LessIsByteOrder(r[i].key, r[j].key);
    }
  }
}
