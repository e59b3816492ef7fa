/** The replicated command, its effect on a store, and the meaning of a log. */
module Commands {
  import opened Badger

  datatype Pair = Pair(key: Bytes, value: Bytes, expiresAt: uint64)

  datatype Command = Command(pairs: seq<Pair>, deletes: seq<Bytes>)

  /** A committed log entry. Only commands reach the state machine; barriers and
      configuration changes occupy an index and do nothing to the store. */
  datatype Entry = Cmd(cmd: Command) | Noop

  type Log = seq<Entry>

  // ---------- the effect of one command ----------

  function SetPairs(s: Store, pairs: seq<Pair>): Store {
    if pairs == [] then s
    else
      var p := pairs[|pairs| - 1];
      SetPairs(s, pairs[..|pairs| - 1])[p.key := Item(p.value, p.expiresAt)]
  }

  function DeleteKeys(s: Store, keys: seq<Bytes>): Store {
    if keys == [] then s
    else DeleteKeys(s, keys[..|keys| - 1]) - {keys[|keys| - 1]}
  }

  function Exec(cmd: Command, s: Store): Store {
    DeleteKeys(SetPairs(s, cmd.pairs), cmd.deletes)
  }

  function ExecEntry(e: Entry, s: Store): Store {
    match e
    case Cmd(cmd) => Exec(cmd, s)
    case Noop => s
  }

  /** What an entry does to one key, read off the entry alone. */
  datatype Effect = Untouched | Removed | Written(item: Item)

  function LastPair(pairs: seq<Pair>, k: Bytes): Effect {
    if pairs == [] then Untouched
    else
      var p := pairs[|pairs| - 1];
      if p.key == k then Written(Item(p.value, p.expiresAt)) else LastPair(pairs[..|pairs| - 1], k)
  }

  function EffectOf(e: Entry, k: Bytes): Effect {
    match e
    case Cmd(cmd) => if k in cmd.deletes then Removed else LastPair(cmd.pairs, k)
    case Noop => Untouched
  }

  function Overwrite(prior: Option<Item>, eff: Effect): Option<Item> {
    match eff
    case Untouched => prior
    case Removed => None
    case Written(item) => Some(item)
  }

  lemma {:induction false} SetPairsEffect(s: Store, pairs: seq<Pair>, k: Bytes)
    ensures Lookup(SetPairs(s, pairs), k) == Overwrite(Lookup(s, k), LastPair(pairs, k))
  {
    if pairs != [] {
      SetPairsEffect(s, pairs[..|pairs| - 1], k);
    }
  }

  lemma {:induction false} DeleteKeysEffect(s: Store, keys: seq<Bytes>, k: Bytes)
    ensures Lookup(DeleteKeys(s, keys), k) == if k in keys then None else Lookup(s, k)
  {
    if keys != [] {
      DeleteKeysEffect(s, keys[..|keys| - 1], k);
    }
  }

  /** Blind write: the new value of a key is fixed by the entry alone unless the
      entry leaves the key alone. A delete beats every set in the same command,
      and the last of several sets of a key wins. */
  lemma ExecEffect(e: Entry, s: Store, k: Bytes)
    ensures Lookup(ExecEntry(e, s), k) == Overwrite(Lookup(s, k), EffectOf(e, k))
  {
    if e.Cmd? {
      SetPairsEffect(s, e.cmd.pairs, k);
      DeleteKeysEffect(SetPairs(s, e.cmd.pairs), e.cmd.deletes, k);
    }
  }

  lemma SameLookups(s: Store, t: Store)
    requires forall k :: Lookup(s, k) == Lookup(t, k)
    ensures s == t
  {
    forall k
      ensures k in s <==> k in t
      ensures k in s ==> s[k] == t[k]
    {
      assert Lookup(s, k) == Lookup(t, k);
    }
  }

  // ---------- the meaning of a log ----------

  /** The state after the first n entries. */
  function Spec(log: Log, n: nat): Store
    requires n <= |log|
  {
    if n == 0 then map[] else ExecEntry(log[n - 1], Spec(log, n - 1))
  }

  /** Entries i+1..n replayed over whatever s holds. */
  function Replay(log: Log, i: nat, n: nat, s: Store): Store
    requires i <= n <= |log|
    decreases n
  {
    if n == i then s else ExecEntry(log[n - 1], Replay(log, i, n - 1, s))
  }

  ghost predicate Touched(log: Log, i: nat, n: nat, k: Bytes)
    requires i <= n <= |log|
  {
    exists m :: i <= m < n && EffectOf(log[m], k) != Untouched
  }

  lemma {:induction false} SpecOfPrefix(log: Log, more: Log, n: nat)
    requires n <= |log|
    ensures Spec(log + more, n) == Spec(log, n)
  {
    if n > 0 {
      SpecOfPrefix(log, more, n - 1);
      assert (log + more)[n - 1] == log[n - 1];
    }
  }

  /** Last writer wins over a stretch of log: a key written in the stretch ends
      with the specified value whatever the store held, any other key keeps it. */
  lemma {:induction false} ReplayLastWriter(log: Log, i: nat, n: nat, s: Store, k: Bytes)
    requires i <= n <= |log|
    ensures Lookup(Replay(log, i, n, s), k) ==
            if Touched(log, i, n, k) then Lookup(Spec(log, n), k) else Lookup(s, k)
  {
    if n > i {
      ReplayLastWriter(log, i, n - 1, s, k);
      ExecEffect(log[n - 1], Replay(log, i, n - 1, s), k);
      ExecEffect(log[n - 1], Spec(log, n - 1), k);
      assert Touched(log, i, n, k) <==> Touched(log, i, n - 1, k) || EffectOf(log[n - 1], k) != Untouched;
    }
  }

  lemma {:induction false} UntouchedStays(log: Log, i: nat, n: nat, k: Bytes)
    requires i <= n <= |log| && !Touched(log, i, n, k)
    ensures Lookup(Spec(log, i), k) == Lookup(Spec(log, n), k)
  {
    if n > i {
      assert EffectOf(log[n - 1], k) == Untouched;
      assert !Touched(log, i, n - 1, k);
      UntouchedStays(log, i, n - 1, k);
      ExecEffect(log[n - 1], Spec(log, n - 1), k);
    }
  }

  ghost predicate HeldBetween(s: Store, log: Log, i: nat, n: nat, k: Bytes)
    requires i <= n <= |log|
  {
    exists j: nat :: i <= j <= n && Lookup(s, k) == Lookup(Spec(log, j), k)
  }

  /** Snapshot convergence: replaying i+1..n over a store in which every key is
      fuzzy, that is holds its value at its own position between i and n, gives
      the fold of the first n entries. */
  lemma FuzzyReplayConverges(log: Log, i: nat, n: nat, s: Store)
    requires i <= n <= |log|
    requires forall k :: HeldBetween(s, log, i, n, k)
    ensures Replay(log, i, n, s) == Spec(log, n)
  {
    forall k
      ensures Lookup(Replay(log, i, n, s), k) == Lookup(Spec(log, n), k)
    {
      ReplayLastWriter(log, i, n, s, k);
      if !Touched(log, i, n, k) {
        assert HeldBetween(s, log, i, n, k);
        var j: nat :| i <= j <= n && Lookup(s, k) == Lookup(Spec(log, j), k);
        UntouchedStays(log, j, n, k);
      }
    }
    SameLookups(Replay(log, i, n, s), Spec(log, n));
  }

  /** The published form of the claim: a backup labelled i that already holds
      entries through j, followed by i+1..n, is the state after n entries. */
  lemma SnapshotConvergence(log: Log, i: nat, j: nat, n: nat)
    requires i <= j <= n <= |log|
    ensures Replay(log, i, n, Spec(log, j)) == Spec(log, n)
  {
    forall k
      ensures HeldBetween(Spec(log, j), log, i, n, k)
    {
      assert i <= j <= n;
    }
    FuzzyReplayConverges(log, i, n, Spec(log, j));
  }

  /** Every item in a log state was written by one entry and not touched since. */
  lemma {:induction false} Provenance(log: Log, n: nat, k: Bytes)
    requires n <= |log| && k in Spec(log, n)
    ensures exists m :: 0 <= m < n && EffectOf(log[m], k) == Written(Spec(log, n)[k]) && !Touched(log, m + 1, n, k)
  {
    ExecEffect(log[n - 1], Spec(log, n - 1), k);
    assert Lookup(Spec(log, n), k) == Some(Spec(log, n)[k]);
    if EffectOf(log[n - 1], k) == Untouched {
      assert Lookup(Spec(log, n - 1), k) == Some(Spec(log, n)[k]);
      Provenance(log, n - 1, k);
      var m :| 0 <= m < n - 1 && EffectOf(log[m], k) == Written(Spec(log, n - 1)[k]) && !Touched(log, m + 1, n - 1, k);
      assert !Touched(log, m + 1, n, k);
    } else {
      assert EffectOf(log[n - 1], k) == Written(Spec(log, n)[k]);
    }
  }

  // ---------- what a reader can see in the middle of a replay ----------

  /** A store that is the state after some number of entries. */
  ghost predicate IsPrefixState(log: Log, s: Store) {
    exists j :: 0 <= j <= |log| && s == Spec(log, j)
  }

  const KEY_A: Bytes := [97]
  const KEY_B: Bytes := [98]
  const ONE: Bytes := [49]
  const TWO: Bytes := [50]

  /** c entries that set a, then a tail of batches that set a and b together. */
  function SplitBatchLog(c: nat, n: nat): Log {
    seq(n, i requires 0 <= i < n =>
      if i < c then Cmd(Command([Pair(KEY_A, ONE, 0)], []))
      else Cmd(Command([Pair(KEY_A, TWO, 0), Pair(KEY_B, TWO, 0)], [])))
  }

  lemma {:induction false} SplitBatchSpec(c: nat, n: nat, m: nat)
    requires m <= n
    ensures Spec(SplitBatchLog(c, n), m) ==
            if m == 0 then map[]
            else if m <= c then map[KEY_A := Item(ONE, 0)]
            else map[KEY_A := Item(TWO, 0), KEY_B := Item(TWO, 0)]
  {
    if m > 0 {
      SplitBatchSpec(c, n, m - 1);
      var e := SplitBatchLog(c, n)[m - 1];
      var before := Spec(SplitBatchLog(c, n), m - 1);
      var after := if m <= c then map[KEY_A := Item(ONE, 0)]
                   else map[KEY_A := Item(TWO, 0), KEY_B := Item(TWO, 0)];
      forall k
        ensures Lookup(ExecEntry(e, before), k) == Lookup(after, k)
      {
        ExecEffect(e, before, k);
        LastOfTwo(Pair(KEY_A, ONE, 0), Pair(KEY_B, TWO, 0), k);
        LastOfTwo(Pair(KEY_A, TWO, 0), Pair(KEY_B, TWO, 0), k);
      }
      SameLookups(ExecEntry(e, before), after);
    }
  }

  lemma LastOfTwo(p: Pair, q: Pair, k: Bytes)
    ensures LastPair([p], k) == if p.key == k then Written(Item(p.value, p.expiresAt)) else Untouched
    ensures LastPair([p, q], k) ==
            if q.key == k then Written(Item(q.value, q.expiresAt))
            else if p.key == k then Written(Item(p.value, p.expiresAt)) else Untouched
  {
    assert [p][..0] == [];
    assert [p, q][..1] == [p];
  }

  /** The write API says no node ever observes a partial batch. During a replay
      that is false: a store that holds the entries through j and has replayed
      i+1..c shows a log prefix for every log exactly when the replay has not
      begun (c == i) or has reached everything the store already held (c == j). */
  lemma ReplayShowsPrefixIff(i: nat, c: nat, j: nat)
    requires i <= c <= j
    ensures (forall log: Log :: |log| == j ==> IsPrefixState(log, Replay(log, i, c, Spec(log, j)))) <==> c == i || c == j
  {
    if c == i || c == j {
      forall log: Log | |log| == j
        ensures IsPrefixState(log, Replay(log, i, c, Spec(log, j)))
      {
        if c == j {
          SnapshotConvergence(log, i, j, j);
        }
        assert Replay(log, i, c, Spec(log, j)) == Spec(log, j);
      }
    } else {
      var log := SplitBatchLog(c, j);
      PartialBatch(i, c, j);
      assert |log| == j && !IsPrefixState(log, Replay(log, i, c, Spec(log, j)));
    }
  }

  /** The family behind the failing half: b is the batch's, a is not. */
  lemma PartialBatch(i: nat, c: nat, j: nat)
    requires i < c < j
    ensures var log := SplitBatchLog(c, j);
            var s := Replay(log, i, c, Spec(log, j));
            && Lookup(s, KEY_A) == Some(Item(ONE, 0)) && Lookup(s, KEY_B) == Some(Item(TWO, 0))
            && !IsPrefixState(log, s)
  {
    var log := SplitBatchLog(c, j);
    var s := Replay(log, i, c, Spec(log, j));
    ReplayLastWriter(log, i, c, Spec(log, j), KEY_A);
    ReplayLastWriter(log, i, c, Spec(log, j), KEY_B);
    SplitBatchSpec(c, j, c);
    SplitBatchSpec(c, j, j);
    assert EffectOf(log[i], KEY_A) == Written(Item(ONE, 0));
    assert Touched(log, i, c, KEY_A);
    forall m | i <= m < c
      ensures EffectOf(log[m], KEY_B) == Untouched
    {
      LastOfTwo(Pair(KEY_A, ONE, 0), Pair(KEY_B, TWO, 0), KEY_B);
    }
    assert !Touched(log, i, c, KEY_B);
    forall n: nat | n <= j
      ensures s != Spec(log, n)
    {
      SplitBatchSpec(c, j, n);
    }
  }

  /** "An expired key can never resurrect" holds per written version, not per
      key: a key invisible in the full state comes back at replay position c
      exactly when a replayed entry wrote it and that state shows it. */
  lemma ResurrectsIff(log: Log, i: nat, c: nat, j: nat, k: Bytes, now: nat)
    requires i <= c <= j <= |log|
    requires VisibleAt(Spec(log, j), k, now).None?
    ensures VisibleAt(Replay(log, i, c, Spec(log, j)), k, now).Some? <==>
            Touched(log, i, c, k) && VisibleAt(Spec(log, c), k, now).Some?
  {
    ReplayLastWriter(log, i, c, Spec(log, j), k);
  }

  /** A concrete log in which an expired key comes back. */
  lemma ResurrectionExample()
    ensures var log := [Cmd(Command([Pair(KEY_A, ONE, 0)], [])), Cmd(Command([Pair(KEY_A, TWO, 10)], []))];
            && VisibleAt(Spec(log, 2), KEY_A, 20) == None
            && VisibleAt(Replay(log, 0, 1, Spec(log, 2)), KEY_A, 20) == Some(ONE)
  {
    var log := [Cmd(Command([Pair(KEY_A, ONE, 0)], [])), Cmd(Command([Pair(KEY_A, TWO, 10)], []))];
    ExecEffect(log[1], Spec(log, 1), KEY_A);
    ExecEffect(log[0], Spec(log, 2), KEY_A);
    assert Replay(log, 0, 1, Spec(log, 2)) == ExecEntry(log[0], Replay(log, 0, 0, Spec(log, 2)));
  }
}
