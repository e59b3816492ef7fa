/** The replicated state machine as a cluster of nodes over one committed log.

    The consensus library is not part of this model. What the nodes rely on is
    written into the step guards: entries are delivered in order without gaps,
    a running process never installs a snapshot labelled below what it has been
    delivered, a restart without a snapshot replays from index 1 over the data
    on disk, and apply, label and install do not overlap while a backup may be
    streamed at any later moment. */
module Replication {
  import opened Badger
  import opened Commands

  type NodeId = nat

  /** A finished snapshot: the label it was started under and the backup that was
      streamed later. History: high bounds the positions whose effects the data may
      show, horizon is the latest clock by which an expired item was left out. */
  datatype Snap = Snap(index: nat, high: nat, horizon: nat, data: Store)

  /** store: the data at the live path; serving: the handle is not nil; cursor:
      entries delivered by the library; counter: the applied index of the source;
      pending: labels of snapshots started but not streamed yet.
      History only: high is the greatest index whose effects may be in the store,
      horizon the latest clock by which an expired item was dropped from it. */
  datatype Node = Node(
    store: Store, serving: bool, cursor: nat, counter: nat, pending: set<nat>, snaps: set<Snap>,
    high: nat, horizon: nat)

  datatype Cluster = Cluster(log: Log, nodes: map<NodeId, Node>)

  /** FailRestore: a restore that failed and left the old data. LoseLive: a staged
      restore that failed and could not roll back, so that the live path is empty
      or holds the snapshot (stray) while the cursor stays. */
  datatype Step =
    | Commit(entry: Entry)
    | Join(n: NodeId)
    | Apply(n: NodeId, ok: bool)
    | Label(n: NodeId)
    | Persist(n: NodeId, index: nat, data: Store, now: nat)
    | Receive(n: NodeId, from: NodeId, snap: Snap)
    | Install(n: NodeId, snap: Snap)
    | FailRestore(n: NodeId, up: bool)
    | LoseLive(n: NodeId, up: bool, stray: Option<Snap>)
    | Reopen(n: NodeId)
    | ReopenEmpty(n: NodeId)
    | Recover(n: NodeId, snap: Snap)
    | Drop(n: NodeId, data: Store, now: nat)

  function Max(a: nat, b: nat): nat { if a < b then b else a }

  const FRESH := Node(map[], true, 0, 0, {}, {}, 0, 0)

  ghost predicate Init(c: Cluster) {
    c == Cluster([], map[])
  }

  ghost predicate Enabled(c: Cluster, s: Step) {
    match s
    case Commit(_) => true
    case Join(n) => n !in c.nodes
    case Apply(n, ok) =>
      && n in c.nodes && c.nodes[n].cursor < |c.log|
      && (c.log[c.nodes[n].cursor].Noop? ==> ok)
      && (ok && c.log[c.nodes[n].cursor].Cmd? ==> c.nodes[n].serving)
    case Label(n) => n in c.nodes
    case Persist(n, index, data, now) =>
      && n in c.nodes && c.nodes[n].serving && index in c.nodes[n].pending
      && Thinned(c.nodes[n].store, data, now)
    case Receive(n, from, snap) => n in c.nodes && from in c.nodes && snap in c.nodes[from].snaps
    case Install(n, snap) => n in c.nodes && snap in c.nodes[n].snaps && c.nodes[n].cursor <= snap.index
    case FailRestore(n, _) => n in c.nodes
    case LoseLive(n, _, stray) => n in c.nodes && (stray.Some? ==> stray.value in c.nodes[n].snaps)
    case Reopen(n) => n in c.nodes
    case ReopenEmpty(n) => n in c.nodes
    case Recover(n, snap) => n in c.nodes && snap in c.nodes[n].snaps
    case Drop(n, data, now) => n in c.nodes && Thinned(c.nodes[n].store, data, now)
  }

  function ApplyAt(nd: Node, e: Entry, ok: bool): Node {
    var next := nd.cursor + 1;
    if !ok then nd.(cursor := next)
    else
      var moved := nd.(cursor := next, high := Max(nd.high, next));
      match e
      case Noop => moved
      case Cmd(cmd) => moved.(store := Exec(cmd, nd.store), counter := next)
  }

  function Restored(nd: Node, snap: Snap): Node {
    nd.(store := snap.data, serving := true, cursor := snap.index, counter := 0, high := snap.high, horizon := snap.horizon)
  }

  /** A new process on the data already on disk. */
  function Reopened(nd: Node): Node {
    nd.(serving := true, cursor := 0, counter := 0, pending := {})
  }

  function Lost(nd: Node, up: bool, stray: Option<Snap>): Node {
    match stray
    case None => nd.(store := map[], serving := up, high := 0, horizon := 0)
    case Some(snap) => nd.(store := snap.data, serving := up, high := snap.high, horizon := snap.horizon)
  }

  function Streamed(nd: Node, index: nat, data: Store, now: nat): Node {
    nd.(pending := nd.pending - {index}, snaps := nd.snaps + {Snap(index, nd.high, Max(nd.horizon, now), data)})
  }

  function Dropped(nd: Node, data: Store, now: nat): Node {
    nd.(store := data, horizon := Max(nd.horizon, now))
  }

  ghost function Do(c: Cluster, s: Step): Cluster
    requires Enabled(c, s)
  {
    match s
    case Commit(e) => c.(log := c.log + [e])
    case Join(n) => c.(nodes := c.nodes[n := FRESH])
    case Apply(n, ok) =>
      c.(nodes := c.nodes[n := ApplyAt(c.nodes[n], c.log[c.nodes[n].cursor], ok)])
    case Label(n) =>
      c.(nodes := c.nodes[n := c.nodes[n].(pending := c.nodes[n].pending + {c.nodes[n].cursor})])
    case Persist(n, index, data, now) =>
      c.(nodes := c.nodes[n := Streamed(c.nodes[n], index, data, now)])
    case Receive(n, _, snap) =>
      c.(nodes := c.nodes[n := c.nodes[n].(snaps := c.nodes[n].snaps + {snap})])
    case Install(n, snap) => c.(nodes := c.nodes[n := Restored(c.nodes[n], snap)])
    case FailRestore(n, up) => c.(nodes := c.nodes[n := c.nodes[n].(serving := up)])
    case LoseLive(n, up, stray) => c.(nodes := c.nodes[n := Lost(c.nodes[n], up, stray)])
    case Reopen(n) => c.(nodes := c.nodes[n := Reopened(c.nodes[n])])
    case ReopenEmpty(n) => c.(nodes := c.nodes[n := FRESH.(snaps := c.nodes[n].snaps)])
    case Recover(n, snap) => c.(nodes := c.nodes[n := Restored(c.nodes[n], snap).(pending := {})])
    case Drop(n, data, now) => c.(nodes := c.nodes[n := Dropped(c.nodes[n], data, now)])
  }

  // ---------- the invariant ----------

  ghost predicate ShownAt(s: Store, log: Log, j: nat, k: Bytes, horizon: nat) {
    j <= |log| && Stands(Lookup(s, k), Lookup(Spec(log, j), k), horizon)
  }

  ghost predicate ShownBetween(s: Store, log: Log, lo: nat, hi: nat, k: Bytes, horizon: nat) {
    exists j: nat :: lo <= j <= hi && ShownAt(s, log, j, k, horizon)
  }

  /** Each key shows its specified value at its own position between lo and hi. */
  ghost predicate Fuzzy(s: Store, log: Log, lo: nat, hi: nat, horizon: nat) {
    lo <= hi <= |log| && forall k :: ShownBetween(s, log, lo, hi, k, horizon)
  }

  /** Holds whatever failed: every key shows some specified value of its own. */
  ghost predicate SnapOk(snap: Snap, log: Log) {
    Fuzzy(snap.data, log, 0, snap.high, snap.horizon) && snap.index <= |log|
  }

  ghost predicate NodeOk(nd: Node, log: Log) {
    && Fuzzy(nd.store, log, 0, nd.high, nd.horizon)
    && nd.counter <= nd.cursor <= |log|
    && (forall p :: p in nd.pending ==> p <= nd.cursor)
    && (forall snap :: snap in nd.snaps ==> SnapOk(snap, log))
  }

  ghost predicate Inv(c: Cluster) {
    forall n :: n in c.nodes ==> NodeOk(c.nodes[n], c.log)
  }

  /** A store nothing is missing from: each key shows its value at a position that
      replay from the cursor (for a snapshot, from its label) will bring up to date. */
  ghost predicate Clean(nd: Node, log: Log) {
    Fuzzy(nd.store, log, nd.cursor, nd.high, nd.horizon)
  }

  ghost predicate CleanSnap(snap: Snap, log: Log) {
    Fuzzy(snap.data, log, snap.index, snap.high, snap.horizon)
  }

  lemma FuzzyGrows(s: Store, log: Log, more: Log, lo: nat, hi: nat, horizon: nat)
    requires Fuzzy(s, log, lo, hi, horizon)
    ensures Fuzzy(s, log + more, lo, hi, horizon)
  {
    forall k
      ensures ShownBetween(s, log + more, lo, hi, k, horizon)
    {
      assert ShownBetween(s, log, lo, hi, k, horizon);
      var j: nat :| lo <= j <= hi && ShownAt(s, log, j, k, horizon);
      SpecOfPrefix(log, more, j);
      assert ShownAt(s, log + more, j, k, horizon);
    }
  }

  lemma FuzzyWidens(s: Store, log: Log, lo: nat, lo': nat, hi: nat, horizon: nat)
    requires Fuzzy(s, log, lo, hi, horizon) && lo' <= lo
    ensures Fuzzy(s, log, lo', hi, horizon)
  {
    forall k
      ensures ShownBetween(s, log, lo', hi, k, horizon)
    {
      assert ShownBetween(s, log, lo, hi, k, horizon);
      var j: nat :| lo <= j <= hi && ShownAt(s, log, j, k, horizon);
      assert ShownAt(s, log, j, k, horizon);
    }
  }

  lemma FuzzyThins(s: Store, t: Store, log: Log, lo: nat, hi: nat, horizon: nat, now: nat)
    requires Fuzzy(s, log, lo, hi, horizon) && Thinned(s, t, now)
    ensures Fuzzy(t, log, lo, hi, Max(horizon, now))
  {
    forall k
      ensures ShownBetween(t, log, lo, hi, k, Max(horizon, now))
    {
      assert ShownBetween(s, log, lo, hi, k, horizon);
      var j: nat :| lo <= j <= hi && ShownAt(s, log, j, k, horizon);
      assert ShownAt(t, log, j, k, Max(horizon, now));
    }
  }

  lemma ExactIsFuzzy(log: Log, j: nat, lo: nat, hi: nat, horizon: nat)
    requires lo <= j <= hi <= |log|
    ensures Fuzzy(Spec(log, j), log, lo, hi, horizon)
  {
    forall k
      ensures ShownBetween(Spec(log, j), log, lo, hi, k, horizon)
    {
      assert ShownAt(Spec(log, j), log, j, k, horizon);
    }
  }

  /** The heart of convergence: one more applied entry keeps the store fuzzy from
      any lower bound, and lifts the bound when the bound is the cursor itself. */
  lemma ApplyKeepsFuzzy(nd: Node, log: Log, lo: nat)
    requires Fuzzy(nd.store, log, lo, nd.high, nd.horizon)
    requires lo <= nd.cursor < |log|
    ensures var nd' := ApplyAt(nd, log[nd.cursor], true);
            Fuzzy(nd'.store, log, if lo == nd.cursor then nd'.cursor else lo, nd'.high, nd'.horizon)
  {
    var e, c, h := log[nd.cursor], nd.cursor, nd.horizon;
    var nd' := ApplyAt(nd, e, true);
    var lo' := if lo == c then c + 1 else lo;
    assert nd'.store == ExecEntry(e, nd.store);
    forall k
      ensures ShownBetween(nd'.store, log, lo', nd'.high, k, h)
    {
      ExecEffect(e, nd.store, k);
      ExecEffect(e, Spec(log, c), k);
      assert Spec(log, c + 1) == ExecEntry(e, Spec(log, c));
      if EffectOf(e, k) != Untouched {
        assert ShownAt(nd'.store, log, c + 1, k, h);
      } else {
        assert ShownBetween(nd.store, log, lo, nd.high, k, h);
        var j: nat :| lo <= j <= nd.high && ShownAt(nd.store, log, j, k, h);
        var j' := if lo == c && j == c then c + 1 else j;
        assert ShownAt(nd'.store, log, j', k, h);
      }
    }
  }

  lemma NodeGrows(nd: Node, log: Log, more: Log)
    requires NodeOk(nd, log)
    ensures NodeOk(nd, log + more)
  {
    FuzzyGrows(nd.store, log, more, 0, nd.high, nd.horizon);
    forall snap | snap in nd.snaps
      ensures SnapOk(snap, log + more)
    {
      FuzzyGrows(snap.data, log, more, 0, snap.high, snap.horizon);
    }
  }

  lemma ApplyKeepsOk(nd: Node, log: Log, ok: bool)
    requires NodeOk(nd, log) && nd.cursor < |log|
    ensures NodeOk(ApplyAt(nd, log[nd.cursor], ok), log)
  {
    if ok {
      ApplyKeepsFuzzy(nd, log, 0);
      if nd.cursor == 0 {
        var nd' := ApplyAt(nd, log[0], true);
        FuzzyWidens(nd'.store, log, 1, 0, nd'.high, nd'.horizon);
      }
    }
  }

  /** A backup streamed at any time after its label, expired items left out or not:
      sound if the node is, and clean from its label if the node is clean. */
  lemma StreamKeepsOk(nd: Node, log: Log, index: nat, data: Store, now: nat)
    requires NodeOk(nd, log) && index in nd.pending && Thinned(nd.store, data, now)
    ensures NodeOk(Streamed(nd, index, data, now), log)
    ensures Clean(nd, log) ==> CleanSnap(Snap(index, nd.high, Max(nd.horizon, now), data), log)
  {
    FuzzyThins(nd.store, data, log, 0, nd.high, nd.horizon, now);
    assert SnapOk(Snap(index, nd.high, Max(nd.horizon, now), data), log);
    if Clean(nd, log) {
      FuzzyThins(nd.store, data, log, nd.cursor, nd.high, nd.horizon, now);
      FuzzyWidens(data, log, nd.cursor, index, nd.high, Max(nd.horizon, now));
    }
  }

  /** Restoring a saved snapshot, in a running process or at start. */
  lemma RestoreKeepsOk(nd: Node, snap: Snap, log: Log)
    requires NodeOk(nd, log) && snap in nd.snaps
    ensures NodeOk(Restored(nd, snap).(pending := {}), log)
    ensures nd.cursor <= snap.index ==> NodeOk(Restored(nd, snap), log)
    ensures CleanSnap(snap, log) ==> Clean(Restored(nd, snap), log)
  {
    assert SnapOk(snap, log);
  }

  /** A failed restore without rollback. When what it left is a clean snapshot
      labelled at or after the cursor the node is even clean. */
  lemma LossKeepsOk(nd: Node, up: bool, stray: Option<Snap>, log: Log)
    requires NodeOk(nd, log) && (stray.Some? ==> stray.value in nd.snaps)
    ensures NodeOk(Lost(nd, up, stray), log)
    ensures stray.Some? && CleanSnap(stray.value, log) && nd.cursor <= stray.value.index ==> Clean(Lost(nd, up, stray), log)
  {
    match stray {
      case None => ExactIsFuzzy(log, 0, 0, 0, 0);
      case Some(snap) =>
        assert SnapOk(snap, log);
        if CleanSnap(snap, log) && nd.cursor <= snap.index {
          FuzzyWidens(snap.data, log, snap.index, nd.cursor, snap.high, snap.horizon);
        }
    }
  }

  lemma FreshKeepsOk(snaps: set<Snap>, log: Log)
    requires forall snap :: snap in snaps ==> SnapOk(snap, log)
    ensures NodeOk(FRESH.(snaps := snaps), log) && Clean(FRESH.(snaps := snaps), log)
  {
    ExactIsFuzzy(log, 0, 0, 0, 0);
  }

  /** Starting again from index 1 over the data on disk always gives a clean node,
      whatever failed before. */
  lemma ReopenMakesClean(nd: Node, log: Log)
    requires NodeOk(nd, log)
    ensures NodeOk(Reopened(nd), log) && Clean(Reopened(nd), log)
  {
  }

  lemma DropKeepsOk(nd: Node, log: Log, data: Store, now: nat)
    requires NodeOk(nd, log) && Thinned(nd.store, data, now)
    ensures NodeOk(Dropped(nd, data, now), log)
    ensures Clean(nd, log) ==> Clean(Dropped(nd, data, now), log)
  {
    FuzzyThins(nd.store, data, log, 0, nd.high, nd.horizon, now);
    if Clean(nd, log) {
      FuzzyThins(nd.store, data, log, nd.cursor, nd.high, nd.horizon, now);
    }
  }

  /** The node a step acts on keeps its part of the invariant. */
  lemma ActorKeepsOk(c: Cluster, s: Step)
    requires Inv(c) && Enabled(c, s) && !s.Commit?
    ensures NodeOk(Do(c, s).nodes[s.n], c.log)
  {
    var log := c.log;
    assert s.n in c.nodes ==> NodeOk(c.nodes[s.n], log);
    match s {
      case Join(n) => FreshKeepsOk({}, log);
      case Apply(n, ok) => ApplyKeepsOk(c.nodes[n], log, ok);
      case Label(n) =>
      case Persist(n, index, data, now) => StreamKeepsOk(c.nodes[n], log, index, data, now);
      case Receive(n, from, snap) => assert NodeOk(c.nodes[from], log);
      case Install(n, snap) => RestoreKeepsOk(c.nodes[n], snap, log);
      case FailRestore(n, up) =>
      case LoseLive(n, up, stray) => LossKeepsOk(c.nodes[n], up, stray, log);
      case Reopen(n) => ReopenMakesClean(c.nodes[n], log);
      case ReopenEmpty(n) => FreshKeepsOk(c.nodes[n].snaps, log);
      case Recover(n, snap) => RestoreKeepsOk(c.nodes[n], snap, log);
      case Drop(n, data, now) => DropKeepsOk(c.nodes[n], log, data, now);
    }
  }

  /** Every step of every node keeps the invariant of the whole cluster. */
  lemma StepKeepsInv(c: Cluster, s: Step)
    requires Inv(c) && Enabled(c, s)
    ensures Inv(Do(c, s))
  {
    var c' := Do(c, s);
    if !s.Commit? {
      ActorKeepsOk(c, s);
    }
    forall m | m in c'.nodes
      ensures NodeOk(c'.nodes[m], c'.log)
    {
      if s.Commit? {
        NodeGrows(c.nodes[m], c.log, [s.entry]);
      } else if m != s.n {
        assert NodeOk(c.nodes[m], c.log);
      }
    }
  }

  // ---------- whole runs ----------

  ghost predicate Behaviour(tr: seq<Cluster>, steps: seq<Step>) {
    && |tr| == |steps| + 1
    && Init(tr[0])
    && forall i :: 0 <= i < |steps| ==> Enabled(tr[i], steps[i]) && tr[i + 1] == Do(tr[i], steps[i])
  }

  lemma {:induction false} RunKeepsInv(tr: seq<Cluster>, steps: seq<Step>, i: nat)
    requires Behaviour(tr, steps) && i < |tr|
    ensures Inv(tr[i])
  {
    if i > 0 {
      RunKeepsInv(tr, steps, i - 1);
      StepKeepsInv(tr[i - 1], steps[i - 1]);
    }
  }

  // ---------- what keeps one node clean ----------

  /** Node n starts over: empty, from index 1 over its data, or from a snapshot that
      misses nothing. */
  ghost predicate Starts(c: Cluster, s: Step, n: NodeId) {
    || s == Join(n) || s == Reopen(n) || s == ReopenEmpty(n)
    || ((s.Recover? || s.Install?) && s.n == n && CleanSnap(s.snap, c.log))
  }

  /** A step that does not fail an apply on n and takes nothing away from it. Steps
      of other nodes are harmless, whatever fails there. */
  ghost predicate Harmless(c: Cluster, s: Step, n: NodeId) {
    !s.Commit? && s.n == n ==>
      && (s.Apply? ==> s.ok)
      && (s.Recover? || s.Install? ==> CleanSnap(s.snap, c.log))
      && (s.LoseLive? ==> && s.stray.Some? && CleanSnap(s.stray.value, c.log)
                          && n in c.nodes && c.nodes[n].cursor <= s.stray.value.index)
  }

  ghost predicate HarmlessSince(tr: seq<Cluster>, steps: seq<Step>, n: NodeId, from: nat, i: nat)
    requires |tr| == |steps| + 1
  {
    && from < i < |tr| && Starts(tr[from], steps[from], n)
    && forall m :: from < m < i ==> Harmless(tr[m], steps[m], n)
  }

  /** In state i, nothing has gone wrong on node n since it last started over. */
  ghost predicate Healthy(tr: seq<Cluster>, steps: seq<Step>, n: NodeId, i: nat)
    requires |tr| == |steps| + 1
  {
    exists from :: HarmlessSince(tr, steps, n, from, i)
  }

  lemma StartsAreClean(c: Cluster, s: Step, n: NodeId)
    requires Inv(c) && Enabled(c, s) && Starts(c, s, n)
    ensures n in Do(c, s).nodes && Clean(Do(c, s).nodes[n], Do(c, s).log)
  {
    assert n in c.nodes ==> NodeOk(c.nodes[n], c.log);
    match s {
      case Join(_) => FreshKeepsOk({}, c.log);
      case Reopen(_) => ReopenMakesClean(c.nodes[n], c.log);
      case ReopenEmpty(_) => FreshKeepsOk(c.nodes[n].snaps, c.log);
      case Recover(_, snap) => RestoreKeepsOk(c.nodes[n], snap, c.log);
      case Install(_, snap) => RestoreKeepsOk(c.nodes[n], snap, c.log);
    }
  }

  lemma HarmlessKeepsClean(c: Cluster, s: Step, n: NodeId)
    requires Inv(c) && Enabled(c, s) && Harmless(c, s, n) && n in c.nodes && Clean(c.nodes[n], c.log)
    ensures n in Do(c, s).nodes && Clean(Do(c, s).nodes[n], Do(c, s).log)
  {
    var nd := c.nodes[n];
    assert NodeOk(nd, c.log);
    if s.Commit? {
      FuzzyGrows(nd.store, c.log, [s.entry], nd.cursor, nd.high, nd.horizon);
    } else if s.n == n {
      if Starts(c, s, n) {
        StartsAreClean(c, s, n);
      } else {
        match s {
          case Apply(_, ok) => ApplyKeepsFuzzy(nd, c.log, nd.cursor);
          case LoseLive(_, up, stray) => LossKeepsOk(nd, up, stray, c.log);
          case Drop(_, data, now) => DropKeepsOk(nd, c.log, data, now);
          case _ =>
        }
      }
    }
  }

  lemma CleanStep(tr: seq<Cluster>, steps: seq<Step>, n: NodeId, i: nat)
    requires Behaviour(tr, steps) && i < |steps|
    requires Starts(tr[i], steps[i], n) || (n in tr[i].nodes && Clean(tr[i].nodes[n], tr[i].log) && Harmless(tr[i], steps[i], n))
    ensures n in tr[i + 1].nodes && Clean(tr[i + 1].nodes[n], tr[i + 1].log)
  {
    RunKeepsInv(tr, steps, i);
    assert Enabled(tr[i], steps[i]) && tr[i + 1] == Do(tr[i], steps[i]);
    if Starts(tr[i], steps[i], n) {
      StartsAreClean(tr[i], steps[i], n);
    } else {
      HarmlessKeepsClean(tr[i], steps[i], n);
    }
  }

  /** A node on which nothing went wrong since it started over is clean, whatever
      failed on it before or on other nodes at any time. */
  lemma {:induction false} HarmlessIsClean(tr: seq<Cluster>, steps: seq<Step>, n: NodeId, from: nat, i: nat)
    requires Behaviour(tr, steps) && HarmlessSince(tr, steps, n, from, i)
    ensures n in tr[i].nodes && Clean(tr[i].nodes[n], tr[i].log)
  {
    if from < i - 1 {
      HarmlessIsClean(tr, steps, n, from, i - 1);
      assert Harmless(tr[i - 1], steps[i - 1], n);
    }
    CleanStep(tr, steps, n, i - 1);
  }

  lemma HealthyIsClean(tr: seq<Cluster>, steps: seq<Step>, n: NodeId, i: nat)
    requires Behaviour(tr, steps) && Healthy(tr, steps, n, i)
    ensures i < |tr| && n in tr[i].nodes && Clean(tr[i].nodes[n], tr[i].log)
  {
    var from :| HarmlessSince(tr, steps, n, from, i);
    HarmlessIsClean(tr, steps, n, from, i);
  }

  // ---------- runs in which nothing fails ----------

  /** No apply failed and no restore lost the live data in the first i steps. */
  ghost predicate Faultless(steps: seq<Step>, i: nat) {
    forall m :: 0 <= m < i && m < |steps| ==> (steps[m].Apply? ==> steps[m].ok) && !steps[m].LoseLive?
  }

  ghost predicate AllClean(c: Cluster) {
    forall n :: n in c.nodes ==> Clean(c.nodes[n], c.log) && forall snap :: snap in c.nodes[n].snaps ==> CleanSnap(snap, c.log)
  }

  lemma SnapsStayClean(c: Cluster, s: Step, n: NodeId, snap: Snap)
    requires Inv(c) && AllClean(c) && Enabled(c, s)
    requires n in Do(c, s).nodes && snap in Do(c, s).nodes[n].snaps
    ensures CleanSnap(snap, Do(c, s).log)
  {
    if s.Commit? {
      assert CleanSnap(snap, c.log);
      FuzzyGrows(snap.data, c.log, [s.entry], snap.index, snap.high, snap.horizon);
    } else if s.Persist? && s.n == n && snap !in c.nodes[n].snaps {
      assert NodeOk(c.nodes[n], c.log) && Clean(c.nodes[n], c.log);
      StreamKeepsOk(c.nodes[n], c.log, s.index, s.data, s.now);
    } else if s.Receive? && s.n == n && snap !in c.nodes[n].snaps {
      assert snap in c.nodes[s.from].snaps;
    }
  }

  lemma StepKeepsAllClean(c: Cluster, s: Step)
    requires Inv(c) && AllClean(c) && Enabled(c, s) && (s.Apply? ==> s.ok) && !s.LoseLive?
    ensures AllClean(Do(c, s))
  {
    var c' := Do(c, s);
    forall n | n in c'.nodes
      ensures Clean(c'.nodes[n], c'.log) && forall snap :: snap in c'.nodes[n].snaps ==> CleanSnap(snap, c'.log)
    {
      if s == Join(n) {
        StartsAreClean(c, s, n);
      } else {
        HarmlessKeepsClean(c, s, n);
      }
      forall snap | snap in c'.nodes[n].snaps
        ensures CleanSnap(snap, c'.log)
      {
        SnapsStayClean(c, s, n, snap);
      }
    }
  }

  lemma {:induction false} RunKeepsAllClean(tr: seq<Cluster>, steps: seq<Step>, i: nat)
    requires Behaviour(tr, steps) && i < |tr| && Faultless(steps, i)
    ensures Inv(tr[i]) && AllClean(tr[i])
  {
    RunKeepsInv(tr, steps, i);
    if i > 0 {
      RunKeepsAllClean(tr, steps, i - 1);
      StepKeepsAllClean(tr[i - 1], steps[i - 1]);
    }
  }

  lemma {:induction false} FaultlessIsHealthy(tr: seq<Cluster>, steps: seq<Step>, n: NodeId, i: nat)
    requires Behaviour(tr, steps) && i < |tr| && Faultless(steps, i) && n in tr[i].nodes
    ensures Healthy(tr, steps, n, i)
  {
    var c, s := tr[i - 1], steps[i - 1];
    assert Enabled(c, s) && tr[i] == Do(c, s);
    if n !in c.nodes {
      assert HarmlessSince(tr, steps, n, i - 1, i);
    } else {
      RunKeepsAllClean(tr, steps, i - 1);
      FaultlessIsHealthy(tr, steps, n, i - 1);
      var from :| HarmlessSince(tr, steps, n, from, i - 1);
      assert Harmless(c, s, n);
      assert HarmlessSince(tr, steps, n, from, i);
    }
  }

  // ---------- results over every run ----------

  lemma NothingDroppedIsHeld(s: Store, log: Log, lo: nat, hi: nat)
    requires Fuzzy(s, log, lo, hi, 0)
    ensures forall k :: HeldBetween(s, log, lo, hi, k)
  {
    forall k
      ensures HeldBetween(s, log, lo, hi, k)
    {
      assert ShownBetween(s, log, lo, hi, k, 0);
    }
  }

  /** Main result. In every run without a failed apply or a restore that lost the
      live data, at every moment and on every node, each key shows its specified
      value at a position between the node's cursor and its high-water mark, and
      the stored entry is exactly that value when nothing expired was dropped from
      the store; a saved snapshot does so between its label and its own mark. */
  lemma FuzzyInEveryRun(tr: seq<Cluster>, steps: seq<Step>, i: nat, n: NodeId)
    requires Behaviour(tr, steps) && i < |tr| && Faultless(steps, i) && n in tr[i].nodes
    ensures var log, nd := tr[i].log, tr[i].nodes[n];
            && nd.cursor <= nd.high <= |log|
            && (forall k :: ShownBetween(nd.store, log, nd.cursor, nd.high, k, nd.horizon))
            && (nd.horizon == 0 ==> forall k :: HeldBetween(nd.store, log, nd.cursor, nd.high, k))
    ensures var log := tr[i].log;
            forall snap :: snap in tr[i].nodes[n].snaps ==>
              && snap.index <= snap.high <= |log|
              && (forall k :: ShownBetween(snap.data, log, snap.index, snap.high, k, snap.horizon))
              && (snap.horizon == 0 ==> forall k :: HeldBetween(snap.data, log, snap.index, snap.high, k))
  {
    RunKeepsAllClean(tr, steps, i);
    var log, nd := tr[i].log, tr[i].nodes[n];
    if nd.horizon == 0 { NothingDroppedIsHeld(nd.store, log, nd.cursor, nd.high); }
    forall snap | snap in nd.snaps
      ensures CleanSnap(snap, log)
      ensures snap.horizon == 0 ==> forall k :: HeldBetween(snap.data, log, snap.index, snap.high, k)
    {
      if snap.horizon == 0 { NothingDroppedIsHeld(snap.data, log, snap.index, snap.high); }
    }
  }

  /** What a caught-up node is: every read at a clock no earlier than the drops from
      this store is the log state's, and the store is equal to it without drops. */
  ghost predicate Exact(nd: Node, log: Log) {
    && nd.cursor <= |log|
    && (forall k, now: nat :: nd.horizon <= now ==> VisibleAt(nd.store, k, now) == VisibleAt(Spec(log, nd.cursor), k, now))
    && (nd.horizon == 0 ==> nd.store == Spec(log, nd.cursor))
  }

  lemma CaughtUpIsExact(nd: Node, log: Log)
    requires Clean(nd, log) && nd.high <= nd.cursor
    ensures Exact(nd, log)
  {
    forall k
      ensures ShownAt(nd.store, log, nd.cursor, k, nd.horizon)
    {
      assert ShownBetween(nd.store, log, nd.cursor, nd.high, k, nd.horizon);
    }
    forall k, now: nat | nd.horizon <= now
      ensures VisibleAt(nd.store, k, now) == VisibleAt(Spec(log, nd.cursor), k, now)
    {
      assert ShownAt(nd.store, log, nd.cursor, k, nd.horizon);
      StandsIsVisible(nd.store, Spec(log, nd.cursor), k, nd.horizon, now);
    }
    if nd.horizon == 0 {
      forall k
        ensures Lookup(nd.store, k) == Lookup(Spec(log, nd.cursor), k)
      {
        assert ShownAt(nd.store, log, nd.cursor, k, nd.horizon);
      }
      SameLookups(nd.store, Spec(log, nd.cursor));
    }
  }

  /** Healing: after any history of failures, a node that started over and on which
      nothing went wrong since shows exactly the log state as soon as it reaches its
      mark, or has been delivered the whole log. */
  lemma HealthyHeals(tr: seq<Cluster>, steps: seq<Step>, n: NodeId, i: nat)
    requires Behaviour(tr, steps) && Healthy(tr, steps, n, i) && n in tr[i].nodes
    requires tr[i].nodes[n].high <= tr[i].nodes[n].cursor || tr[i].nodes[n].cursor == |tr[i].log|
    ensures Exact(tr[i].nodes[n], tr[i].log)
  {
    HealthyIsClean(tr, steps, n, i);
    CaughtUpIsExact(tr[i].nodes[n], tr[i].log);
  }

  /** Convergence: two healthy nodes at the same cursor that have reached their marks
      agree on every read no earlier than their own drops, and hold equal stores when
      nothing expired was dropped. What failed on other nodes does not matter. */
  lemma NodesConverge(tr: seq<Cluster>, steps: seq<Step>, i: nat, m: NodeId, n: NodeId)
    requires Behaviour(tr, steps) && Healthy(tr, steps, m, i) && Healthy(tr, steps, n, i)
    requires m in tr[i].nodes && n in tr[i].nodes && tr[i].nodes[m].cursor == tr[i].nodes[n].cursor
    requires tr[i].nodes[m].high <= tr[i].nodes[m].cursor || tr[i].nodes[m].cursor == |tr[i].log|
    requires tr[i].nodes[n].high <= tr[i].nodes[n].cursor || tr[i].nodes[n].cursor == |tr[i].log|
    ensures forall k, now: nat :: tr[i].nodes[m].horizon <= now && tr[i].nodes[n].horizon <= now ==>
              VisibleAt(tr[i].nodes[m].store, k, now) == VisibleAt(tr[i].nodes[n].store, k, now)
    ensures tr[i].nodes[m].horizon == 0 && tr[i].nodes[n].horizon == 0 ==> tr[i].nodes[m].store == tr[i].nodes[n].store
    ensures Exact(tr[i].nodes[m], tr[i].log) && Exact(tr[i].nodes[n], tr[i].log)
  {
    HealthyHeals(tr, steps, m, i);
    HealthyHeals(tr, steps, n, i);
  }

  /** The same in a run in which nothing failed, where every node is healthy. */
  lemma FaultlessNodesConverge(tr: seq<Cluster>, steps: seq<Step>, i: nat, m: NodeId, n: NodeId)
    requires Behaviour(tr, steps) && i < |tr| && Faultless(steps, i)
    requires m in tr[i].nodes && n in tr[i].nodes && tr[i].nodes[m].cursor == tr[i].nodes[n].cursor
    requires tr[i].nodes[m].high <= tr[i].nodes[m].cursor || tr[i].nodes[m].cursor == |tr[i].log|
    requires tr[i].nodes[n].high <= tr[i].nodes[n].cursor || tr[i].nodes[n].cursor == |tr[i].log|
    ensures forall k, now: nat :: tr[i].nodes[m].horizon <= now && tr[i].nodes[n].horizon <= now ==>
              VisibleAt(tr[i].nodes[m].store, k, now) == VisibleAt(tr[i].nodes[n].store, k, now)
    ensures tr[i].nodes[m].horizon == 0 && tr[i].nodes[n].horizon == 0 ==> tr[i].nodes[m].store == tr[i].nodes[n].store
  {
    FaultlessIsHealthy(tr, steps, m, i);
    FaultlessIsHealthy(tr, steps, n, i);
    NodesConverge(tr, steps, i, m, n);
  }

  // ---------- whatever fails ----------

  /** In every run, failed applies and failed restores included, every stored entry
      is some specified value of its key at a position no later than the mark: a
      failure leaves stale or missing data, never data the log does not have. */
  lemma StaleButReal(tr: seq<Cluster>, steps: seq<Step>, i: nat, n: NodeId, k: Bytes)
    requires Behaviour(tr, steps) && i < |tr| && n in tr[i].nodes
    ensures ShownBetween(tr[i].nodes[n].store, tr[i].log, 0, tr[i].nodes[n].high, k, tr[i].nodes[n].horizon)
  {
    RunKeepsInv(tr, steps, i);
    assert NodeOk(tr[i].nodes[n], tr[i].log);
  }

  /** Per-version expiry over whole runs, failures included: whatever a node shows
      at a clock was written to that key by a log entry whose absolute expiry is 0
      or still ahead. Replays and restores neither revive a version past its
      expiry nor extend it. */
  lemma VisibleVersionsAreLive(tr: seq<Cluster>, steps: seq<Step>, i: nat, n: NodeId, k: Bytes, now: nat)
    requires Behaviour(tr, steps) && i < |tr| && n in tr[i].nodes
    requires VisibleAt(tr[i].nodes[n].store, k, now).Some?
    ensures exists m, item :: 0 <= m < |tr[i].log| && EffectOf(tr[i].log[m], k) == Written(item)
              && VisibleAt(tr[i].nodes[n].store, k, now) == Some(item.value)
              && (item.expiresAt == 0 || now < item.expiresAt)
  {
    StaleButReal(tr, steps, i, n, k);
    RunKeepsInv(tr, steps, i);
    var nd, log := tr[i].nodes[n], tr[i].log;
    assert NodeOk(nd, log);
    var j: nat :| j <= nd.high && ShownAt(nd.store, log, j, k, nd.horizon);
    Provenance(log, j, k);
    var m :| 0 <= m < j && EffectOf(log[m], k) == Written(Spec(log, j)[k]);
    assert EffectOf(log[m], k) == Written(nd.store[k]);
  }

  // ---------- the applied counter ----------

  /** Opening and successful restores start the counter again. */
  predicate Resets(s: Step, n: NodeId) {
    (s.Join? || s.Install? || s.Recover? || s.Reopen? || s.ReopenEmpty?) && s.n == n
  }

  /** Step m applies a command on n successfully; its log index is the cursor's. */
  ghost predicate AppliesCommand(tr: seq<Cluster>, steps: seq<Step>, n: NodeId, m: nat)
    requires m < |steps| < |tr|
  {
    && steps[m] == Apply(n, true) && n in tr[m].nodes && tr[m].nodes[n].cursor < |tr[m].log|
    && tr[m].log[tr[m].nodes[n].cursor].Cmd?
  }

  ghost function IndexApplied(tr: seq<Cluster>, steps: seq<Step>, n: NodeId, m: nat): nat
    requires m < |steps| < |tr| && AppliesCommand(tr, steps, n, m)
  {
    tr[m].nodes[n].cursor + 1
  }

  /** value is the greatest command index applied on n by steps from+1..i-1, 0 if none. */
  ghost predicate GreatestApplied(tr: seq<Cluster>, steps: seq<Step>, n: NodeId, from: nat, i: nat, value: nat)
    requires i < |tr| == |steps| + 1
  {
    && (forall m :: from < m < i && AppliesCommand(tr, steps, n, m) ==> IndexApplied(tr, steps, n, m) <= value)
    && (value == 0 || exists m :: from < m < i && AppliesCommand(tr, steps, n, m) && IndexApplied(tr, steps, n, m) == value)
  }

  ghost predicate LastReset(tr: seq<Cluster>, steps: seq<Step>, n: NodeId, from: nat, i: nat)
    requires |tr| == |steps| + 1
  {
    from < i < |tr| && Resets(steps[from], n) && forall m :: from < m < i ==> !Resets(steps[m], n)
  }

  /** In every run the applied counter is the greatest index of a command applied
      successfully since the node was last opened or restored, 0 if there is none,
      and never passes what was delivered. */
  lemma {:induction false} CounterInEveryRun(tr: seq<Cluster>, steps: seq<Step>, i: nat, n: NodeId)
    requires Behaviour(tr, steps) && i < |tr| && n in tr[i].nodes
    ensures exists from :: LastReset(tr, steps, n, from, i) && GreatestApplied(tr, steps, n, from, i, tr[i].nodes[n].counter)
    ensures tr[i].nodes[n].counter <= tr[i].nodes[n].cursor
  {
    var c, s := tr[i - 1], steps[i - 1];
    assert Enabled(c, s) && tr[i] == Do(c, s);
    RunKeepsInv(tr, steps, i);
    assert NodeOk(tr[i].nodes[n], tr[i].log);
    if Resets(s, n) {
      assert LastReset(tr, steps, n, i - 1, i) && GreatestApplied(tr, steps, n, i - 1, i, 0);
    } else {
      CounterInEveryRun(tr, steps, i - 1, n);
      var from :| LastReset(tr, steps, n, from, i - 1) && GreatestApplied(tr, steps, n, from, i - 1, c.nodes[n].counter);
      CounterMoves(tr, steps, n, i - 1);
      GreatestMoves(tr, steps, n, from, i - 1, c.nodes[n].counter);
    }
  }

  lemma CounterMoves(tr: seq<Cluster>, steps: seq<Step>, n: NodeId, i: nat)
    requires Behaviour(tr, steps) && i < |steps| && n in tr[i].nodes && !Resets(steps[i], n)
    ensures n in tr[i + 1].nodes
    ensures tr[i + 1].nodes[n].counter == if AppliesCommand(tr, steps, n, i) then IndexApplied(tr, steps, n, i) else tr[i].nodes[n].counter
  {
    assert Enabled(tr[i], steps[i]) && tr[i + 1] == Do(tr[i], steps[i]);
  }

  lemma GreatestMoves(tr: seq<Cluster>, steps: seq<Step>, n: NodeId, from: nat, i: nat, value: nat)
    requires from < i < |steps| && |tr| == |steps| + 1 && GreatestApplied(tr, steps, n, from, i, value)
    requires AppliesCommand(tr, steps, n, i) ==> value <= IndexApplied(tr, steps, n, i)
    ensures GreatestApplied(tr, steps, n, from, i + 1, if AppliesCommand(tr, steps, n, i) then IndexApplied(tr, steps, n, i) else value)
  {
  }

  /** It moves down only when the node restores a snapshot or reopens. */
  lemma CounterFallsOnlyOnRestore(tr: seq<Cluster>, steps: seq<Step>, i: nat, n: NodeId)
    requires Behaviour(tr, steps) && i < |steps| && n in tr[i].nodes
    requires tr[i + 1].nodes[n].counter < tr[i].nodes[n].counter
    ensures Resets(steps[i], n) && !steps[i].Join? && tr[i + 1].nodes[n].counter == 0
  {
    RunKeepsInv(tr, steps, i);
    assert NodeOk(tr[i].nodes[n], tr[i].log);
    assert Enabled(tr[i], steps[i]) && tr[i + 1] == Do(tr[i], steps[i]);
  }
}
