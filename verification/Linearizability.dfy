/** Clients of the replicated store: acknowledged writes, linearizable point reads
    and linearizable scans, each located in a run by the steps it spans.

    A linearizable read appends a barrier entry to the log, waits until the node
    has been delivered that entry, and then views the local store. The node may
    lose leadership and install a snapshot between the barrier and the view; it
    does not restart, since that would end the call. */
module Linearizability {
  import opened Badger
  import opened Commands
  import opened Replication

  /** Positions in a run: the call begins, its entry is committed by the step at
      `entry`, the local part happens in the state at `ended`. For a read, `ended`
      is the view and `passed` the state in which the barrier was satisfied. */
  datatype Op =
    | Write(node: NodeId, cmd: Command, began: nat, entry: nat, ended: nat)
    | Read(node: NodeId, key: Bytes, began: nat, entry: nat, passed: nat, ended: nat, clock: nat)

  predicate Restarts(s: Step, n: NodeId) {
    (s.Reopen? || s.ReopenEmpty? || s.Recover?) && s.n == n
  }

  predicate RestoresOn(s: Step, n: NodeId) {
    Restarts(s, n) || ((s.Install? || s.LoseLive?) && s.n == n)
  }

  ghost predicate Alive(tr: seq<Cluster>, steps: seq<Step>, n: NodeId, i: nat, j: nat)
    requires |tr| == |steps| + 1
  {
    && i <= j < |tr| && n in tr[i].nodes
    && forall m :: i <= m < j ==> !Restarts(steps[m], n)
  }

  /** The log index given to the entry committed by step i. */
  function IndexOf(tr: seq<Cluster>, i: nat): nat
    requires i + 1 < |tr|
  {
    |tr[i + 1].log|
  }

  /** A barrier call on node n: begun, entry committed, satisfied. */
  ghost predicate PassesBarrier(tr: seq<Cluster>, steps: seq<Step>, n: NodeId, began: nat, entry: nat, passed: nat)
    requires |tr| == |steps| + 1
  {
    && began <= entry < passed < |tr|
    && steps[entry] == Commit(Noop)
    && Alive(tr, steps, n, began, passed)
    && n in tr[passed].nodes
    && IndexOf(tr, entry) <= tr[passed].nodes[n].cursor
  }

  ghost predicate Completed(tr: seq<Cluster>, steps: seq<Step>, op: Op)
    requires |tr| == |steps| + 1
  {
    match op
    case Read(n, _, began, entry, passed, ended, clock) =>
      && PassesBarrier(tr, steps, n, began, entry, passed)
      && Alive(tr, steps, n, passed, ended)
      && n in tr[ended].nodes && tr[ended].nodes[n].serving
      && tr[ended].nodes[n].horizon <= clock
    case Write(n, cmd, began, entry, ended) =>
      && began <= entry < ended < |tr|
      && steps[entry] == Commit(Cmd(cmd))
      && Alive(tr, steps, n, began, ended)
      && n in tr[ended].nodes && IndexOf(tr, entry) <= tr[ended].nodes[n].cursor
  }

  /** What the read hands to its caller. */
  ghost function Returned(tr: seq<Cluster>, op: Op): Option<Bytes>
    requires op.Read? && op.ended < |tr| && op.node in tr[op.ended].nodes
  {
    VisibleAt(tr[op.ended].nodes[op.node].store, op.key, op.clock)
  }

  // ---------- what only grows along a run ----------

  lemma {:induction false} LogGrows(tr: seq<Cluster>, steps: seq<Step>, i: nat, j: nat)
    requires Behaviour(tr, steps) && i <= j < |tr|
    ensures tr[i].log <= tr[j].log
  {
    if i < j {
      LogGrows(tr, steps, i, j - 1);
      assert Enabled(tr[j - 1], steps[j - 1]) && tr[j] == Do(tr[j - 1], steps[j - 1]);
    }
  }

  lemma {:induction false} CursorGrows(tr: seq<Cluster>, steps: seq<Step>, n: NodeId, i: nat, j: nat)
    requires Behaviour(tr, steps) && Alive(tr, steps, n, i, j)
    ensures n in tr[j].nodes && tr[i].nodes[n].cursor <= tr[j].nodes[n].cursor
  {
    if i < j {
      CursorGrows(tr, steps, n, i, j - 1);
      assert Enabled(tr[j - 1], steps[j - 1]) && tr[j] == Do(tr[j - 1], steps[j - 1]);
      assert !Restarts(steps[j - 1], n);
    }
  }

  /** Without a restore the mark stays under what was in it before or the cursor. */
  lemma {:induction false} HighFollowsCursor(tr: seq<Cluster>, steps: seq<Step>, n: NodeId, i: nat, j: nat)
    requires Behaviour(tr, steps) && i <= j < |tr| && n in tr[i].nodes
    requires forall m :: i <= m < j ==> !RestoresOn(steps[m], n)
    ensures n in tr[j].nodes
    ensures tr[j].nodes[n].high <= Max(tr[i].nodes[n].high, tr[j].nodes[n].cursor)
    ensures tr[i].nodes[n].cursor <= tr[j].nodes[n].cursor
  {
    if i < j {
      HighFollowsCursor(tr, steps, n, i, j - 1);
      assert Enabled(tr[j - 1], steps[j - 1]) && tr[j] == Do(tr[j - 1], steps[j - 1]);
      assert !RestoresOn(steps[j - 1], n);
    }
  }

  lemma CommitTakesNextIndex(tr: seq<Cluster>, steps: seq<Step>, i: nat)
    requires Behaviour(tr, steps) && i < |steps| && steps[i].Commit?
    ensures IndexOf(tr, i) == |tr[i].log| + 1 && tr[i + 1].log[|tr[i].log|] == steps[i].entry
  {
    assert tr[i + 1] == Do(tr[i], steps[i]);
  }

  // ---------- point reads ----------

  ghost predicate Explains(tr: seq<Cluster>, op: Op, j: nat)
    requires op.Read? && op.ended < |tr| && op.node in tr[op.ended].nodes
  {
    j <= |tr[op.ended].log| && Returned(tr, op) == VisibleAt(Spec(tr[op.ended].log, j), op.key, op.clock)
  }

  /** A linearizable read on a healthy node returns the key's value at a log
      position that includes everything committed before the call began, and nothing
      that was committed after it returned, even if the node was handed a snapshot
      streamed late in between. What failed on other nodes, or on this one before it
      started over, does not matter. */
  lemma ReadHasPosition(tr: seq<Cluster>, steps: seq<Step>, op: Op)
    requires Behaviour(tr, steps) && op.Read? && Completed(tr, steps, op) && Healthy(tr, steps, op.node, op.ended)
    ensures exists j :: |tr[op.began].log| < IndexOf(tr, op.entry) <= j <= |tr[op.ended].log| && Explains(tr, op, j)
  {
    var n := op.node;
    LogGrows(tr, steps, op.began, op.entry);
    CommitTakesNextIndex(tr, steps, op.entry);
    CursorGrows(tr, steps, n, op.passed, op.ended);
    HealthyIsClean(tr, steps, n, op.ended);
    var c, nd := tr[op.ended], tr[op.ended].nodes[n];
    assert ShownBetween(nd.store, c.log, nd.cursor, nd.high, op.key, nd.horizon);
    var j: nat :| nd.cursor <= j <= nd.high && ShownAt(nd.store, c.log, j, op.key, nd.horizon);
    StandsIsVisible(nd.store, Spec(c.log, j), op.key, nd.horizon, op.clock);
    assert Explains(tr, op, j);
  }

  // ---------- the whole history ----------

  /** Every operation has a position: a write its log index, a read a position that
      explains its result; an operation that ended before another began has the
      smaller position. Running the log in order, with each read placed after the
      entry at its position, is then a sequential history with the same results. */
  ghost predicate Linearizes(tr: seq<Cluster>, steps: seq<Step>, ops: set<Op>, point: map<Op, nat>)
    requires |tr| == |steps| + 1
    requires forall op :: op in ops ==> Completed(tr, steps, op)
  {
    && point.Keys == ops
    && (forall op :: op in ops && Completed(tr, steps, op) && op.Write? ==> point[op] == IndexOf(tr, op.entry))
    && (forall op :: op in ops && Completed(tr, steps, op) && op.Read? ==> Explains(tr, op, point[op]))
    && (forall a, b :: a in ops && b in ops && a.ended <= b.began ==> point[a] < point[b])
  }

  /** A read has its view on a node that is healthy then. */
  ghost predicate ViewsHealthy(tr: seq<Cluster>, steps: seq<Step>, op: Op)
    requires |tr| == |steps| + 1
  {
    op.Read? ==> Healthy(tr, steps, op.node, op.ended)
  }

  ghost function PointOf(tr: seq<Cluster>, steps: seq<Step>, op: Op): (p: nat)
    requires Behaviour(tr, steps) && Completed(tr, steps, op) && ViewsHealthy(tr, steps, op)
    ensures |tr[op.began].log| < p <= |tr[op.ended].log|
    ensures op.Write? ==> p == IndexOf(tr, op.entry)
    ensures op.Read? ==> Explains(tr, op, p)
  {
    match op
    case Write(_, _, began, entry, ended) =>
      LogGrows(tr, steps, began, entry);
      CommitTakesNextIndex(tr, steps, entry);
      LogGrows(tr, steps, entry + 1, ended);
      IndexOf(tr, entry)
    case Read(_, _, _, _, _, _, _) =>
      ReadHasPosition(tr, steps, op);
      var p: nat :| |tr[op.began].log| < p <= |tr[op.ended].log| && Explains(tr, op, p);
      p
  }

  /** Linearizability over whole runs: any set of completed writes, and of barrier
      reads on nodes that were healthy at the view, on any nodes and keys, in any
      run, whatever fails elsewhere. */
  lemma Linearizable(tr: seq<Cluster>, steps: seq<Step>, ops: set<Op>)
    requires Behaviour(tr, steps)
    requires forall op :: op in ops ==> Completed(tr, steps, op)
    requires forall op :: op in ops ==> ViewsHealthy(tr, steps, op)
    ensures exists point :: Linearizes(tr, steps, ops, point)
  {
    var point := map op | op in ops :: PointOf(tr, steps, op);
    forall a, b | a in ops && b in ops && a.ended <= b.began
      ensures point[a] < point[b]
    {
      LogGrows(tr, steps, a.ended, b.began);
    }
    assert Linearizes(tr, steps, ops, point);
  }

  /** In a run in which nothing fails, that is every completed operation. */
  lemma FaultlessLinearizable(tr: seq<Cluster>, steps: seq<Step>, ops: set<Op>)
    requires Behaviour(tr, steps) && Faultless(steps, |steps|)
    requires forall op :: op in ops ==> Completed(tr, steps, op)
    ensures exists point :: Linearizes(tr, steps, ops, point)
  {
    forall op | op in ops
      ensures ViewsHealthy(tr, steps, op)
    {
      if op.Read? { FaultlessIsHealthy(tr, steps, op.node, op.ended); }
    }
    Linearizable(tr, steps, ops);
  }

  /** The acknowledged write itself: a later read with nothing newer on its key
      returns what the command on its own would leave there. */
  lemma ReadSeesAcknowledgedWrite(tr: seq<Cluster>, steps: seq<Step>, w: Op, r: Op)
    requires Behaviour(tr, steps) && w.Write? && r.Read? && Completed(tr, steps, w) && Completed(tr, steps, r)
    requires w.ended <= r.began && Healthy(tr, steps, r.node, r.ended)
    requires EffectOf(Cmd(w.cmd), r.key) != Untouched
    requires forall m :: IndexOf(tr, w.entry) <= m < |tr[r.ended].log| ==> EffectOf(tr[r.ended].log[m], r.key) == Untouched
    ensures Returned(tr, r) == VisibleAt(Exec(w.cmd, map[]), r.key, r.clock)
  {
    var log, i := tr[r.ended].log, IndexOf(tr, w.entry);
    CommitTakesNextIndex(tr, steps, w.entry);
    LogGrows(tr, steps, w.entry + 1, w.ended);
    LogGrows(tr, steps, w.ended, r.began);
    LogGrows(tr, steps, w.entry + 1, r.ended);
    ReadHasPosition(tr, steps, r);
    var j: nat :| |tr[r.began].log| < j <= |log| && Explains(tr, r, j);
    assert Explains(tr, r, j);
    assert !Touched(log, i, j, r.key);
    UntouchedStays(log, i, j, r.key);
    ExecEffect(log[i - 1], Spec(log, i - 1), r.key);
    ExecEffect(log[i - 1], map[], r.key);
    assert log[i - 1] == Cmd(w.cmd);
    assert Lookup(Spec(log, j), r.key) == Lookup(Exec(w.cmd, map[]), r.key);
  }

  // ---------- scans ----------

  /** A view of the whole store (scan, raw view) behind a barrier on a healthy node,
      with no restore on it between the barrier entry and the view, sees one exact
      prefix of the log that contains everything committed before the call began. */
  lemma ScanSeesPrefix(tr: seq<Cluster>, steps: seq<Step>, n: NodeId, began: nat, entry: nat, passed: nat, ended: nat)
    requires Behaviour(tr, steps) && PassesBarrier(tr, steps, n, began, entry, passed)
    requires passed <= ended < |tr| && Healthy(tr, steps, n, ended)
    requires forall m :: entry <= m < ended ==> !RestoresOn(steps[m], n)
    ensures n in tr[ended].nodes && Exact(tr[ended].nodes[n], tr[ended].log)
    ensures |tr[began].log| < tr[ended].nodes[n].cursor
  {
    LogGrows(tr, steps, began, entry);
    CommitTakesNextIndex(tr, steps, entry);
    CursorGrows(tr, steps, n, began, entry);
    RunKeepsInv(tr, steps, entry);
    assert NodeOk(tr[entry].nodes[n], tr[entry].log);
    HighFollowsCursor(tr, steps, n, entry, passed);
    HighFollowsCursor(tr, steps, n, passed, ended);
    HealthyHeals(tr, steps, n, ended);
  }

  /** A batch is seen whole or not at all in a log prefix: in the state after n
      entries either the batch at index m has happened, and each of its keys shows
      its effect or a later entry's, or the state is as if it were not in the log. */
  lemma BatchIsWholeInPrefix(log: Log, m: nat, n: nat)
    requires 0 < m <= |log| && n <= |log|
    ensures m <= n ==> forall k :: EffectOf(log[m - 1], k) != Untouched && !Touched(log, m, n, k) ==>
              Lookup(Spec(log, n), k) == Overwrite(None, EffectOf(log[m - 1], k))
    ensures n < m ==> Spec(log, n) == Spec(log[..m - 1], n)
  {
    if m <= n {
      forall k | EffectOf(log[m - 1], k) != Untouched && !Touched(log, m, n, k)
        ensures Lookup(Spec(log, n), k) == Overwrite(None, EffectOf(log[m - 1], k))
      {
        UntouchedStays(log, m, n, k);
        ExecEffect(log[m - 1], Spec(log, m - 1), k);
      }
    } else {
      assert log == log[..m - 1] + log[m - 1..];
      SpecOfPrefix(log[..m - 1], log[m - 1..], n);
    }
  }
}
