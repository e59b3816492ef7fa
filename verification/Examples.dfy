/** Concrete runs: why the hypotheses of the theorems are there, and that what they
    speak of does happen. */
module Examples {
  import opened Badger
  import opened Commands
  import opened Replication
  import opened Linearizability
  import StoreLock

  const SET_A := Command([Pair(KEY_A, ONE, 0)], [])
  const SET_BOTH := Command([Pair(KEY_A, TWO, 0), Pair(KEY_B, TWO, 0)], [])

  ghost function Last(tr: seq<Cluster>): Cluster
    requires tr != []
  {
    tr[|tr| - 1]
  }

  /** One more step of a run. */
  lemma Extend(tr: seq<Cluster>, steps: seq<Step>, s: Step) returns (tr': seq<Cluster>, steps': seq<Step>)
    requires Behaviour(tr, steps) && Enabled(Last(tr), s)
    ensures Behaviour(tr', steps') && Last(tr') == Do(Last(tr), s)
    ensures tr' == tr + [Do(Last(tr), s)] && steps' == steps + [s]
  {
    tr', steps' := tr + [Do(Last(tr), s)], steps + [s];
  }

  /** A run whose only failed apply leaves a node at its mark and cursor 1, holding
      less than the log: the mark alone does not make a node exact, and a snapshot
      labelled after the failure carries the gap along. */
  lemma FailedApplyLeavesGap()
    ensures exists tr, steps ::
              && Behaviour(tr, steps)
              && 0 in Last(tr).nodes
              && Last(tr).nodes[0].high <= Last(tr).nodes[0].cursor == |Last(tr).log|
              && Last(tr).nodes[0].store != Spec(Last(tr).log, |Last(tr).log|)
              && exists snap :: snap in Last(tr).nodes[0].snaps && snap.index == 1 && KEY_A !in snap.data
  {
    var tr, steps := [Cluster([], map[])], [];
    tr, steps := Extend(tr, steps, Join(0));
    tr, steps := Extend(tr, steps, Commit(Cmd(SET_A)));
    tr, steps := Extend(tr, steps, Apply(0, false));
    tr, steps := Extend(tr, steps, Label(0));
    tr, steps := Extend(tr, steps, Persist(0, 1, map[], 0));
    var c := Last(tr);
    assert c.log == [Cmd(SET_A)];
    assert Snap(1, 0, 0, map[]) in c.nodes[0].snaps;
    ExecEffect(Cmd(SET_A), map[], KEY_A);
    LastOfTwo(SET_A.pairs[0], SET_A.pairs[0], KEY_A);
    assert Lookup(Spec(c.log, 1), KEY_A) == Some(Item(ONE, 0));
  }

  /** A node that has been delivered one barrier entry. */
  const BARRED := FRESH.(cursor := 1, high := 1)

  const AFTER_BOTH := Exec(SET_BOTH, Exec(SET_A, map[]))

  const LATE := Snap(1, 3, 0, AFTER_BOTH)

  lemma JoinPhase() returns (tr: seq<Cluster>, steps: seq<Step>)
    ensures Behaviour(tr, steps) && steps == [Join(0), Join(1), Commit(Noop)]
    ensures 0 in tr[2].nodes && |tr[3].log| == 1
    ensures Last(tr) == Cluster([Noop], map[0 := FRESH, 1 := FRESH])
  {
    tr, steps := [Cluster([], map[])], [];
    tr, steps := Extend(tr, steps, Join(0));
    tr, steps := Extend(tr, steps, Join(1));
    tr, steps := Extend(tr, steps, Commit(Noop));
  }

  /** Both nodes pass the barrier entry; node 1 starts a snapshot. */
  lemma BarrierPhase(tr0: seq<Cluster>, steps0: seq<Step>) returns (tr: seq<Cluster>, steps: seq<Step>)
    requires Behaviour(tr0, steps0) && Last(tr0) == Cluster([Noop], map[0 := FRESH, 1 := FRESH])
    ensures Behaviour(tr, steps) && tr0 <= tr
    ensures steps == steps0 + [Apply(0, true), Apply(1, true), Label(1)]
    ensures |tr0| < |tr| && tr[|tr0|] == Cluster([Noop], map[0 := BARRED, 1 := FRESH])
    ensures Last(tr) == Cluster([Noop], map[0 := BARRED, 1 := BARRED.(pending := {1})])
  {
    tr, steps := Extend(tr0, steps0, Apply(0, true));
    tr, steps := Extend(tr, steps, Apply(1, true));
    tr, steps := Extend(tr, steps, Label(1));
    assert Last(tr).nodes[1].pending == {1};
  }

  /** A set and a batch are committed; node 1 applies both before it streams. */
  lemma LateBackupPhase(tr0: seq<Cluster>, steps0: seq<Step>) returns (tr: seq<Cluster>, steps: seq<Step>)
    requires Behaviour(tr0, steps0)
    requires Last(tr0) == Cluster([Noop], map[0 := BARRED, 1 := BARRED.(pending := {1})])
    ensures Behaviour(tr, steps) && tr0 <= tr
    ensures steps == steps0 + [Commit(Cmd(SET_A)), Commit(Cmd(SET_BOTH)), Apply(1, true), Apply(1, true), Persist(1, 1, AFTER_BOTH, 0)]
    ensures Last(tr) == Cluster([Noop, Cmd(SET_A), Cmd(SET_BOTH)],
                                map[0 := BARRED, 1 := Node(AFTER_BOTH, true, 3, 3, {}, {LATE}, 3, 0)])
  {
    tr, steps := Extend(tr0, steps0, Commit(Cmd(SET_A)));
    tr, steps := Extend(tr, steps, Commit(Cmd(SET_BOTH)));
    tr, steps := Extend(tr, steps, Apply(1, true));
    tr, steps := Extend(tr, steps, Apply(1, true));
    tr, steps := Extend(tr, steps, Persist(1, 1, AFTER_BOTH, 0));
    var c := Last(tr);
    var nd := c.nodes[1];
    assert nd.pending == {} && nd.snaps == {LATE};
    assert c.log == [Noop, Cmd(SET_A), Cmd(SET_BOTH)];
    assert c.nodes == map[0 := BARRED, 1 := Node(AFTER_BOTH, true, 3, 3, {}, {LATE}, 3, 0)];
  }

  /** Node 0 is handed that snapshot and replays the first entry after its label. */
  lemma InstallPhase(tr0: seq<Cluster>, steps0: seq<Step>, behind: Node) returns (tr: seq<Cluster>, steps: seq<Step>)
    requires Behaviour(tr0, steps0) && LATE in behind.snaps
    requires Last(tr0) == Cluster([Noop, Cmd(SET_A), Cmd(SET_BOTH)], map[0 := BARRED, 1 := behind])
    ensures Behaviour(tr, steps) && tr0 <= tr
    ensures steps == steps0 + [Receive(0, 1, LATE), Install(0, LATE), Apply(0, true)]
    ensures 0 in Last(tr).nodes && Last(tr).nodes[0].store == Exec(SET_A, AFTER_BOTH)
    ensures Last(tr).log == [Noop, Cmd(SET_A), Cmd(SET_BOTH)]
  {
    tr, steps := Extend(tr0, steps0, Receive(0, 1, LATE));
    tr, steps := Extend(tr, steps, Install(0, LATE));
    tr, steps := Extend(tr, steps, Apply(0, true));
  }

  lemma MixedStore()
    ensures !IsPrefixState([Noop, Cmd(SET_A), Cmd(SET_BOTH)], Exec(SET_A, AFTER_BOTH))
  {
    var log, s := [Noop, Cmd(SET_A), Cmd(SET_BOTH)], Exec(SET_A, AFTER_BOTH);
    var after1 := Exec(SET_A, map[]);
    forall k
      ensures Lookup(after1, k) == if k == KEY_A then Some(Item(ONE, 0)) else None
      ensures Lookup(AFTER_BOTH, k) == if k == KEY_A || k == KEY_B then Some(Item(TWO, 0)) else None
      ensures Lookup(s, k) == if k == KEY_A then Some(Item(ONE, 0)) else Lookup(AFTER_BOTH, k)
    {
      LastOfTwo(SET_A.pairs[0], SET_A.pairs[0], k);
      LastOfTwo(SET_BOTH.pairs[0], SET_BOTH.pairs[1], k);
      ExecEffect(Cmd(SET_A), map[], k);
      ExecEffect(Cmd(SET_BOTH), after1, k);
      ExecEffect(Cmd(SET_A), AFTER_BOTH, k);
    }
    forall j: nat | j <= 3
      ensures s != Spec(log, j)
    {
      assert Lookup(s, KEY_A) == Some(Item(ONE, 0)) && Lookup(s, KEY_B) == Some(Item(TWO, 0));
      assert Spec(log, 1) == ExecEntry(Noop, Spec(log, 0));
      assert Spec(log, 2) == ExecEntry(Cmd(SET_A), Spec(log, 1));
      assert Spec(log, 3) == ExecEntry(Cmd(SET_BOTH), Spec(log, 2));
    }
  }

  /** Every step of the run below; none fails and none restarts a process. */
  lemma QuietSteps(steps: seq<Step>)
    requires steps == [Join(0), Join(1), Commit(Noop), Apply(0, true), Apply(1, true), Label(1),
                       Commit(Cmd(SET_A)), Commit(Cmd(SET_BOTH)), Apply(1, true), Apply(1, true), Persist(1, 1, AFTER_BOTH, 0),
                       Receive(0, 1, LATE), Install(0, LATE), Apply(0, true)]
    ensures Faultless(steps, |steps|)
    ensures forall m :: 0 <= m < |steps| ==> !Restarts(steps[m], 0)
  {
  }

  /** Why the scan theorem excludes a restore: in this run, with no failed apply, a
      barrier passes on node 0, the node then installs a late snapshot, and a view
      of the whole store finds half of a batch. */
  lemma ViewAfterInstallCanSplitBatch()
    ensures exists tr, steps ::
              && Behaviour(tr, steps) && Faultless(steps, |steps|)
              && PassesBarrier(tr, steps, 0, 2, 2, 4) && Alive(tr, steps, 0, 4, |steps|)
              && 0 in Last(tr).nodes && !IsPrefixState(Last(tr).log, Last(tr).nodes[0].store)
  {
    var tr0, steps0 := JoinPhase();
    var tr1, steps1 := BarrierPhase(tr0, steps0);
    var tr2, steps2 := LateBackupPhase(tr1, steps1);
    var tr, steps := InstallPhase(tr2, steps2, Last(tr2).nodes[1]);
    QuietSteps(steps);
    assert PassesBarrier(tr, steps, 0, 2, 2, 4) by {
      assert tr[2] == tr0[2] && tr[3] == tr0[3] && tr[4] == tr1[4];
    }
    assert Alive(tr, steps, 0, 4, |steps|);
    MixedStore();
  }

  const ONLY_A := Exec(SET_A, map[])

  const WROTE_A := Node(ONLY_A, true, 1, 1, {}, {}, 1, 0)

  lemma WritePhase() returns (tr: seq<Cluster>, steps: seq<Step>)
    ensures Behaviour(tr, steps) && steps == [Join(0), Commit(Cmd(SET_A)), Apply(0, true)]
    ensures tr[1] == Cluster([], map[0 := FRESH]) && |tr[2].log| == 1
    ensures tr[3] == Cluster([Cmd(SET_A)], map[0 := WROTE_A])
  {
    tr, steps := [Cluster([], map[])], [];
    tr, steps := Extend(tr, steps, Join(0));
    tr, steps := Extend(tr, steps, Commit(Cmd(SET_A)));
    tr, steps := Extend(tr, steps, Apply(0, true));
  }

  lemma ReadPhase(tr0: seq<Cluster>, steps0: seq<Step>) returns (tr: seq<Cluster>, steps: seq<Step>)
    requires Behaviour(tr0, steps0) && |steps0| == 3 && tr0[3] == Cluster([Cmd(SET_A)], map[0 := WROTE_A])
    ensures Behaviour(tr, steps) && tr0 <= tr && steps == steps0 + [Commit(Noop), Apply(0, true)]
    ensures |tr[4].log| == 2
    ensures tr[5] == Cluster([Cmd(SET_A), Noop], map[0 := WROTE_A.(cursor := 2, high := 2)])
  {
    tr, steps := Extend(tr0, steps0, Commit(Noop));
    tr, steps := Extend(tr, steps, Apply(0, true));
  }

  /** A set is acknowledged on a node and then read back behind a barrier. */
  lemma ReadBack()
    ensures exists tr: seq<Cluster>, steps: seq<Step>, w: Op, r: Op ::
              && Behaviour(tr, steps) && w.Write? && w.cmd == SET_A && Completed(tr, steps, w)
              && r.Read? && r.key == KEY_A && w.ended <= r.began && Completed(tr, steps, r)
              && Healthy(tr, steps, r.node, r.ended) && Returned(tr, r) == Some(ONE)
  {
    var tr0, steps0 := WritePhase();
    var tr, steps := ReadPhase(tr0, steps0);
    assert tr[1] == tr0[1] && tr[2] == tr0[2] && tr[3] == tr0[3];
    var w, r := Write(0, SET_A, 1, 1, 3), Read(0, KEY_A, 3, 3, 5, 5, 0);
    FaultlessIsHealthy(tr, steps, 0, 5);
    ExecEffect(Cmd(SET_A), map[], KEY_A);
    LastOfTwo(SET_A.pairs[0], SET_A.pairs[0], KEY_A);
    assert Completed(tr, steps, w) && Completed(tr, steps, r);
  }

  /** A failed restore then loses the live data. */
  lemma LossPhase() returns (tr: seq<Cluster>, steps: seq<Step>)
    ensures Behaviour(tr, steps)
    ensures steps == [Join(0), Commit(Cmd(SET_A)), Apply(0, true), LoseLive(0, true, None)]
    ensures Last(tr) == Cluster([Cmd(SET_A)], map[0 := WROTE_A.(store := map[], high := 0)])
  {
    tr, steps := WritePhase();
    tr, steps := Extend(tr, steps, LoseLive(0, true, None));
  }

  lemma RestartPhase(tr0: seq<Cluster>, steps0: seq<Step>) returns (tr: seq<Cluster>, steps: seq<Step>)
    requires Behaviour(tr0, steps0)
    requires Last(tr0) == Cluster([Cmd(SET_A)], map[0 := WROTE_A.(store := map[], high := 0)])
    ensures Behaviour(tr, steps) && tr0 <= tr && steps == steps0 + [Reopen(0), Apply(0, true)]
    ensures Last(tr) == Cluster([Cmd(SET_A)], map[0 := WROTE_A])
  {
    tr, steps := Extend(tr0, steps0, Reopen(0));
    tr, steps := Extend(tr, steps, Apply(0, true));
  }

  /** Why a restore that loses the live data counts as a fault: in this run no apply
      fails, yet a node that has been delivered the whole log serves an empty store.
      A restart heals it. */
  lemma LostRestoreServesNothingThenHeals()
    ensures exists tr: seq<Cluster>, steps: seq<Step> ::
              && Behaviour(tr, steps) && 4 < |tr| && 0 in tr[4].nodes && 0 in Last(tr).nodes
              && (forall m :: 0 <= m < |steps| && steps[m].Apply? ==> steps[m].ok)
              && tr[4].nodes[0].serving && tr[4].nodes[0].cursor == |tr[4].log| && tr[4].nodes[0].store == map[]
              && Spec(tr[4].log, |tr[4].log|) != map[]
              && Last(tr).nodes[0].store == Spec(Last(tr).log, |Last(tr).log|)
  {
    var tr0, steps0 := LossPhase();
    var tr, steps := RestartPhase(tr0, steps0);
    assert tr[4] == tr0[4] == Last(tr0);
    var log := [Cmd(SET_A)];
    assert Spec(log, 1) == ExecEntry(log[0], Spec(log, 0)) == ONLY_A;
    ExecEffect(Cmd(SET_A), map[], KEY_A);
    LastOfTwo(SET_A.pairs[0], SET_A.pairs[0], KEY_A);
    assert KEY_A in ONLY_A;
  }

  /** One more step of the lock protocol. */
  lemma ExtendLock(tr: seq<StoreLock.State>, steps: seq<StoreLock.Step>, step: StoreLock.Step)
    returns (tr': seq<StoreLock.State>, steps': seq<StoreLock.Step>)
    requires StoreLock.Run(tr, steps) && StoreLock.Enabled(tr[|steps|], step)
    ensures StoreLock.Run(tr', steps') && steps' == steps + [step]
    ensures tr' == tr + [StoreLock.Do(tr[|steps|], step)]
  {
    tr', steps' := tr + [StoreLock.Do(tr[|steps|], step)], steps + [step];
  }

  /** Thread 0 has passed the open check and waits; thread 1 waits to close. */
  const CLOSING := StoreLock.State(Some(0), {}, None, true, true, false, 1, multiset{}, {},
                                   map[0 := StoreLock.Waiting, 1 := StoreLock.CloseWait])

  const GONE := CLOSING.(store := None, storeGone := true, closes := multiset{0},
                         pcs := map[0 := StoreLock.Waiting, 1 := StoreLock.Finished])

  lemma BeginClosePhase() returns (tr: seq<StoreLock.State>, steps: seq<StoreLock.Step>)
    ensures StoreLock.Run(tr, steps) && tr[|steps|] == CLOSING
    ensures steps == [StoreLock.CheckOpen(0), StoreLock.BeginClose(1), StoreLock.RaftStopped(1)]
  {
    tr, steps := [StoreLock.START], [];
    tr, steps := ExtendLock(tr, steps, StoreLock.CheckOpen(0));
    tr, steps := ExtendLock(tr, steps, StoreLock.BeginClose(1));
    tr, steps := ExtendLock(tr, steps, StoreLock.RaftStopped(1));
  }

  lemma TakeDownPhase(tr0: seq<StoreLock.State>, steps0: seq<StoreLock.Step>)
    returns (tr: seq<StoreLock.State>, steps: seq<StoreLock.Step>)
    requires StoreLock.Run(tr0, steps0) && tr0[|steps0|] == CLOSING
    ensures StoreLock.Run(tr, steps) && tr[|steps|] == GONE
    ensures steps == steps0 + [StoreLock.LockClose(1), StoreLock.CloseStore(1), StoreLock.Unlock(1)]
  {
    tr, steps := ExtendLock(tr0, steps0, StoreLock.LockClose(1));
    tr, steps := ExtendLock(tr, steps, StoreLock.CloseStore(1));
    tr, steps := ExtendLock(tr, steps, StoreLock.Unlock(1));
  }

  /** A caller passes the open check, Close runs to its end, and the caller then gets
      the lock and is refused: the only handle was closed once and is not used. */
  lemma LateCallerRun()
    ensures exists tr: seq<StoreLock.State>, steps: seq<StoreLock.Step> ::
              && StoreLock.Run(tr, steps) && 0 < |steps| && steps[0] == StoreLock.CheckOpen(0)
              && steps[|steps| - 1] == StoreLock.Resolve(0)
              && StoreLock.PcOf(tr[|steps|], 0).Refused? && tr[|steps|].closes == multiset{0}
  {
    var tr0, steps0 := BeginClosePhase();
    var tr, steps := TakeDownPhase(tr0, steps0);
    tr, steps := ExtendLock(tr, steps, StoreLock.LockShared(0));
    tr, steps := ExtendLock(tr, steps, StoreLock.Resolve(0));
  }
}
