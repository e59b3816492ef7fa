/** The reader/writer lock around the store handle, with any number of threads:
    callers that run a callback on the store, snapshot backups, restores (staged
    and in place) and the one effective Close, interleaved step by step. A handle
    is one opened instance of the storage engine. */
module StoreLock {
  import opened Badger

  type Tid = nat

  type Handle = nat

  /** Where a thread is. Waiting: past the open check, wanting the lock shared.
      Locked: has it, handle not yet read. Using: inside the callback or backup.
      Staged: a restore loading its private staging instance. SwapWait: wanting the
      lock exclusively. Swapping: has it, old handle still in place. Swapped: old
      handle closed and cleared. Holding: an instance opened but not published.
      Stopping, CloseWait, Closing: the phases of Close. Leaving: about to release
      the exclusive lock. */
  datatype Pc =
    | Idle | Waiting | Locked | Using(h: Handle) | Refused | Finished
    | Staged(h: Handle) | SwapWait | Swapping | Swapped | Holding(h: Handle) | Leaving
    | Stopping | CloseWait | Closing

  /** store: the published handle (None = nil); closes: every Close call made on a
      handle; raftTasks: threads the consensus library runs (backups, restores);
      storeGone: history, set when Close has taken the store down. */
  datatype State = State(
    store: Option<Handle>, readers: set<Tid>, writer: Option<Tid>, closed: bool, raftDown: bool, storeGone: bool,
    nextHandle: nat, closes: multiset<Handle>, raftTasks: set<Tid>, pcs: map<Tid, Pc>)

  datatype Step =
    | CheckOpen(t: Tid)
    | StartBackup(t: Tid)
    | LockShared(t: Tid)
    | Resolve(t: Tid)
    | Finish(t: Tid)
    | OpenStage(t: Tid)
    | CloseStage(t: Tid, loaded: bool)
    | StartInPlace(t: Tid)
    | LockSwap(t: Tid)
    | CloseOld(t: Tid)
    | OpenStore(t: Tid)
    | Publish(t: Tid)
    | Discard(t: Tid)
    | GiveUp(t: Tid)
    | BeginClose(t: Tid)
    | RaftStopped(t: Tid)
    | LockClose(t: Tid)
    | CloseStore(t: Tid)
    | Unlock(t: Tid)

  const START := State(Some(0), {}, None, false, false, false, 1, multiset{}, {}, map[])

  function PcOf(s: State, t: Tid): Pc {
    if t in s.pcs then s.pcs[t] else Idle
  }

  predicate Enabled(s: State, step: Step) {
    var pc := PcOf(s, step.t);
    match step
    case CheckOpen(_) => pc.Idle?
    // the library starts no task once it has shut down
    case StartBackup(_) => pc.Idle? && !s.raftDown
    case LockShared(_) => pc.Waiting? && s.writer.None?
    case Resolve(_) => pc.Locked?
    case Finish(_) => pc.Using?
    case OpenStage(_) => pc.Idle? && !s.raftDown
    case CloseStage(_, _) => pc.Staged?
    case StartInPlace(_) => pc.Idle? && !s.raftDown
    case LockSwap(_) => pc.SwapWait? && s.writer.None? && s.readers == {}
    case CloseOld(_) => pc.Swapping?
    case OpenStore(_) => pc.Swapped?
    case Publish(_) => pc.Holding?
    case Discard(_) => pc.Holding?
    case GiveUp(_) => pc.Swapped?
    // closeOnce: only the first Close does anything
    case BeginClose(_) => pc.Idle? && !s.closed
    // shutting the library down waits for the tasks it runs
    case RaftStopped(_) => pc.Stopping? && s.raftTasks == {}
    case LockClose(_) => pc.CloseWait? && s.writer.None? && s.readers == {}
    case CloseStore(_) => pc.Closing?
    case Unlock(_) => pc.Leaving?
  }

  function Cleared(s: State): State {
    match s.store
    case None => s
    case Some(h) => s.(store := None, closes := s.closes + multiset{h})
  }

  /** Where the acting thread goes. */
  function NextPc(s: State, step: Step): Pc
    requires Enabled(s, step)
  {
    match step
    case CheckOpen(_) => if s.closed then Refused else Waiting
    case StartBackup(_) => Waiting
    case LockShared(_) => Locked
    case Resolve(_) => if s.store.None? then Refused else Using(s.store.value)
    case Finish(_) => Finished
    case OpenStage(_) => Staged(s.nextHandle)
    case CloseStage(_, loaded) => if loaded then SwapWait else Finished
    case StartInPlace(_) => SwapWait
    case LockSwap(_) => Swapping
    case CloseOld(_) => Swapped
    case OpenStore(_) => Holding(s.nextHandle)
    case Publish(_) => Leaving
    case Discard(_) => Leaving
    case GiveUp(_) => Leaving
    case BeginClose(_) => Stopping
    case RaftStopped(_) => CloseWait
    case LockClose(_) => Closing
    case CloseStore(_) => Leaving
    case Unlock(_) => Finished
  }

  /** What it does to the lock, the handle and the tasks. */
  function Moved(s: State, step: Step): State
    requires Enabled(s, step)
  {
    var t := step.t;
    match step
    case CheckOpen(_) => s
    case StartBackup(_) => s.(raftTasks := s.raftTasks + {t})
    case LockShared(_) => s.(readers := s.readers + {t})
    case Resolve(_) =>
      if s.store.None? then s.(readers := s.readers - {t}, raftTasks := s.raftTasks - {t}) else s
    case Finish(_) => s.(readers := s.readers - {t}, raftTasks := s.raftTasks - {t})
    case OpenStage(_) => s.(raftTasks := s.raftTasks + {t}, nextHandle := s.nextHandle + 1)
    case CloseStage(_, loaded) =>
      var s' := s.(closes := s.closes + multiset{PcOf(s, t).h});
      if loaded then s' else s'.(raftTasks := s.raftTasks - {t})
    case StartInPlace(_) => s.(raftTasks := s.raftTasks + {t})
    case LockSwap(_) => s.(writer := Some(t))
    case CloseOld(_) => Cleared(s)
    case OpenStore(_) => s.(nextHandle := s.nextHandle + 1)
    case Publish(_) => s.(store := Some(PcOf(s, t).h))
    case Discard(_) => s.(closes := s.closes + multiset{PcOf(s, t).h})
    case GiveUp(_) => s
    case BeginClose(_) => s.(closed := true)
    case RaftStopped(_) => s.(raftDown := true)
    case LockClose(_) => s.(writer := Some(t))
    case CloseStore(_) => Cleared(s).(storeGone := true)
    case Unlock(_) => s.(writer := None, raftTasks := s.raftTasks - {t})
  }

  function Do(s: State, step: Step): State
    requires Enabled(s, step)
  {
    Moved(s, step).(pcs := s.pcs[step.t := NextPc(s, step)])
  }

  // ---------- the invariant ----------

  predicate Shares(pc: Pc) { pc.Locked? || pc.Using? }

  predicate Excludes(pc: Pc) { pc.Swapping? || pc.Swapped? || pc.Holding? || pc.Leaving? || pc.Closing? }

  predicate Restoring(pc: Pc) { pc.Staged? || pc.SwapWait? || pc.Swapping? || pc.Swapped? || pc.Holding? }

  /** Run by the consensus library, from start to release. */
  predicate RunsTask(pc: Pc) {
    pc.Waiting? || Shares(pc) || Restoring(pc) || pc.Leaving?
  }

  /** The thread has opened this instance and not yet published or closed it. */
  predicate Owns(s: State, t: Tid, h: Handle) {
    PcOf(s, t) == Staged(h) || PcOf(s, t) == Holding(h)
  }

  ghost predicate HoldsOk(s: State, t: Tid) {
    && (t in s.readers <==> Shares(PcOf(s, t)))
    && (s.writer == Some(t) <==> Excludes(PcOf(s, t)))
  }

  ghost predicate SeesOk(s: State, t: Tid) {
    && (PcOf(s, t).Using? ==> s.store == Some(PcOf(s, t).h))
    && (PcOf(s, t).Swapped? || PcOf(s, t).Holding? ==> s.store.None?)
  }

  ghost predicate TaskOk(s: State, t: Tid) {
    && (Restoring(PcOf(s, t)) ==> t in s.raftTasks)
    && (t in s.raftTasks ==> RunsTask(PcOf(s, t)))
    && (PcOf(s, t).Stopping? || PcOf(s, t).CloseWait? || PcOf(s, t).Closing? ==> s.closed)
    && (PcOf(s, t).CloseWait? || PcOf(s, t).Closing? ==> s.raftDown)
  }

  ghost predicate ThreadOk(s: State, t: Tid) {
    HoldsOk(s, t) && SeesOk(s, t) && TaskOk(s, t)
  }

  ghost predicate LockOk(s: State) {
    && (s.writer.Some? ==> s.readers == {})
    && (s.raftDown ==> s.closed && s.raftTasks == {})
    && (s.storeGone ==> s.raftDown && s.store.None?)
  }

  ghost predicate CountOk(s: State, h: Handle) {
    && s.closes[h] <= 1
    && (s.closes[h] == 1 ==> h < s.nextHandle && s.store != Some(h))
    && (s.store == Some(h) ==> h < s.nextHandle)
  }

  ghost predicate OwnerOk(s: State, t: Tid, h: Handle) {
    Owns(s, t, h) ==> h < s.nextHandle && s.closes[h] == 0 && s.store != Some(h)
  }

  ghost predicate OwnersOk(s: State, h: Handle) {
    && (forall t: Tid :: OwnerOk(s, t, h))
    && (forall t: Tid, u: Tid :: Owns(s, t, h) && Owns(s, u, h) ==> t == u)
  }

  /** The instance is not opened yet, or is published, owned by one thread, or
      closed, and exactly one of these, once. */
  ghost predicate HandleOk(s: State, h: Handle) {
    && CountOk(s, h) && OwnersOk(s, h)
    && (h < s.nextHandle ==> s.closes[h] == 1 || s.store == Some(h) || exists t: Tid :: Owns(s, t, h))
  }

  ghost predicate Inv(s: State) {
    && LockOk(s)
    && (forall t: Tid :: ThreadOk(s, t))
    && (forall h: Handle :: HandleOk(s, h))
  }

  lemma ActorHoldsOk(s: State, step: Step)
    requires Enabled(s, step) && LockOk(s) && ThreadOk(s, step.t)
    ensures HoldsOk(Do(s, step), step.t)
  {
  }

  lemma ActorSeesOk(s: State, step: Step)
    requires Enabled(s, step) && LockOk(s) && ThreadOk(s, step.t)
    ensures SeesOk(Do(s, step), step.t)
  {
  }

  lemma ActorTaskStaysOk(s: State, step: Step)
    requires Enabled(s, step) && LockOk(s) && ThreadOk(s, step.t)
    ensures TaskOk(Do(s, step), step.t)
  {
  }

  lemma LockStaysOk(s: State, step: Step)
    requires Enabled(s, step) && LockOk(s) && ThreadOk(s, step.t)
    ensures LockOk(Do(s, step))
  {
  }

  lemma OthersKeepPc(s: State, step: Step, u: Tid)
    requires Enabled(s, step) && u != step.t
    ensures PcOf(Do(s, step), u) == PcOf(s, u)
  {
  }

  lemma OthersStayOk(s: State, step: Step, u: Tid)
    requires Enabled(s, step) && LockOk(s) && ThreadOk(s, step.t) && ThreadOk(s, u) && u != step.t
    ensures PcOf(Do(s, step), u) == PcOf(s, u)
    ensures ThreadOk(Do(s, step), u)
  {
    OthersKeepPc(s, step, u);
  }

  /** What the lemmas about one step need to know of an instance. */
  ghost predicate Known(s: State, t: Tid, h: Handle) {
    CountOk(s, h) && OwnerOk(s, t, h) && SeesOk(s, t)
  }

  lemma CountStaysOk(s: State, step: Step, h: Handle)
    requires Enabled(s, step) && Known(s, step.t, h)
    ensures CountOk(Do(s, step), h)
  {
  }

  /** One step of thread t, as far as instance h can tell. First what happens to one
      that t owns or has just opened, then to one nobody owns or another thread does. */
  ghost predicate Keeps(s: State, s': State, t: Tid, h: Handle) {
    && OwnerOk(s', t, h)
    && (h == s.nextHandle < s'.nextHandle ==> Owns(s', t, h))
    && s.nextHandle <= s'.nextHandle <= s.nextHandle + 1
  }

  ghost predicate Settles(s: State, s': State, t: Tid, h: Handle) {
    && (Owns(s', t, h) ==> Owns(s, t, h) || h == s.nextHandle)
    && (Owns(s, t, h) ==> Owns(s', t, h) || s'.closes[h] == 1 || s'.store == Some(h))
  }

  ghost predicate Leaves(s: State, s': State, t: Tid, h: Handle) {
    && (s.closes[h] == 1 || s.store == Some(h) ==> s'.closes[h] == 1 || s'.store == Some(h))
    && (!Owns(s, t, h) && s.closes[h] == 0 && s.store != Some(h) ==> s'.closes[h] == 0 && s'.store != Some(h))
  }

  lemma ActorKeepsHandle(s: State, step: Step, h: Handle)
    requires Enabled(s, step) && Known(s, step.t, h) && CountOk(s, s.nextHandle)
    ensures Keeps(s, Do(s, step), step.t, h)
  {
  }

  lemma ActorSettlesHandle(s: State, step: Step, h: Handle)
    requires Enabled(s, step) && Known(s, step.t, h)
    ensures Settles(s, Do(s, step), step.t, h)
  {
  }

  lemma ActorLeavesHandle(s: State, step: Step, h: Handle)
    requires Enabled(s, step) && Known(s, step.t, h)
    ensures Leaves(s, Do(s, step), step.t, h)
  {
  }

  lemma HandleStaysOk(s: State, s': State, t: Tid, h: Handle)
    requires HandleOk(s, h) && HandleOk(s, s.nextHandle) && CountOk(s', h)
    requires Keeps(s, s', t, h) && Settles(s, s', t, h) && Leaves(s, s', t, h)
    requires forall u: Tid :: u != t ==> PcOf(s', u) == PcOf(s, u)
    ensures HandleOk(s', h)
  {
    forall u: Tid | u != t
      ensures (Owns(s', u, h) <==> Owns(s, u, h)) && OwnerOk(s', u, h)
      ensures Owns(s', u, h) ==> h < s.nextHandle
    {
      assert PcOf(s', u) == PcOf(s, u) && OwnerOk(s, u, h);
    }
    if h < s.nextHandle && s.closes[h] == 0 && s.store != Some(h) {
      var u: Tid :| Owns(s, u, h);
      assert Owns(s', u, h) || u == t;
    }
  }

  lemma HandlesStayOk(s: State, step: Step, h: Handle)
    requires Inv(s) && Enabled(s, step)
    ensures HandleOk(Do(s, step), h)
  {
    assert ThreadOk(s, step.t) && HandleOk(s, h) && HandleOk(s, s.nextHandle) && OwnerOk(s, step.t, h);
    CountStaysOk(s, step, h);
    ActorKeepsHandle(s, step, h);
    ActorSettlesHandle(s, step, h);
    ActorLeavesHandle(s, step, h);
    forall u: Tid | u != step.t
      ensures PcOf(Do(s, step), u) == PcOf(s, u)
    {
      OthersKeepPc(s, step, u);
    }
    HandleStaysOk(s, Do(s, step), step.t, h);
  }

  lemma StepKeepsInv(s: State, step: Step)
    requires Inv(s) && Enabled(s, step)
    ensures Inv(Do(s, step))
  {
    assert ThreadOk(s, step.t);
    ActorHoldsOk(s, step);
    ActorSeesOk(s, step);
    ActorTaskStaysOk(s, step);
    LockStaysOk(s, step);
    forall u: Tid
      ensures ThreadOk(Do(s, step), u)
    {
      assert ThreadOk(s, u);
      if u != step.t { OthersStayOk(s, step, u); }
    }
    forall h: Handle
      ensures HandleOk(Do(s, step), h)
    {
      HandlesStayOk(s, step, h);
    }
  }

  // ---------- every run ----------

  ghost predicate Run(tr: seq<State>, steps: seq<Step>) {
    && |tr| == |steps| + 1
    && tr[0] == START
    && forall i :: 0 <= i < |steps| ==> Enabled(tr[i], steps[i]) && tr[i + 1] == Do(tr[i], steps[i])
  }

  lemma {:induction false} RunKeepsInv(tr: seq<State>, steps: seq<Step>, i: nat)
    requires Run(tr, steps) && i < |tr|
    ensures Inv(tr[i])
  {
    if i > 0 {
      RunKeepsInv(tr, steps, i - 1);
      StepKeepsInv(tr[i - 1], steps[i - 1]);
    }
  }

  /** Safety: in every interleaving no callback or backup runs on a closed handle,
      none runs while the lock is held exclusively, and no handle is closed twice. */
  lemma HandlesAreSafe(tr: seq<State>, steps: seq<Step>, i: nat)
    requires Run(tr, steps) && i < |tr|
    ensures forall t: Tid :: PcOf(tr[i], t).Using? ==> tr[i].closes[PcOf(tr[i], t).h] == 0 && tr[i].writer.None?
    ensures forall h: Handle :: tr[i].closes[h] <= 1
  {
    RunKeepsInv(tr, steps, i);
    forall h: Handle
      ensures tr[i].closes[h] <= 1 && (tr[i].store == Some(h) ==> tr[i].closes[h] == 0)
    {
      assert HandleOk(tr[i], h);
    }
    forall t: Tid | PcOf(tr[i], t).Using?
      ensures tr[i].store == Some(PcOf(tr[i], t).h) && tr[i].writer.None?
    {
      assert ThreadOk(tr[i], t);
    }
  }

  lemma UsingLastsUntilFinish(s: State, step: Step, t: Tid)
    requires Enabled(s, step) && PcOf(s, t).Using? && step != Finish(t)
    ensures PcOf(Do(s, step), t) == PcOf(s, t)
  {
    if step.t != t { OthersKeepPc(s, step, t); }
  }

  lemma UsingIsOpen(tr: seq<State>, steps: seq<Step>, j: nat, t: Tid)
    requires Run(tr, steps) && j < |tr| && PcOf(tr[j], t).Using?
    ensures tr[j].store == Some(PcOf(tr[j], t).h) && tr[j].closes[PcOf(tr[j], t).h] == 0
  {
    RunKeepsInv(tr, steps, j);
    assert ThreadOk(tr[j], t) && HandleOk(tr[j], PcOf(tr[j], t).h);
  }

  /** From the moment a callback has its handle until it finishes, that handle is
      the published one and open: it sees one store generation throughout. */
  lemma {:induction false} CallbackSeesOneGeneration(tr: seq<State>, steps: seq<Step>, i: nat, j: nat, t: Tid)
    requires Run(tr, steps) && i <= j < |tr| && PcOf(tr[i], t).Using?
    requires forall m :: i <= m < j ==> steps[m] != Finish(t)
    ensures PcOf(tr[j], t) == PcOf(tr[i], t)
    ensures tr[j].store == Some(PcOf(tr[i], t).h) && tr[j].closes[PcOf(tr[i], t).h] == 0
  {
    if i < j {
      CallbackSeesOneGeneration(tr, steps, i, j - 1, t);
      UsingLastsUntilFinish(tr[j - 1], steps[j - 1], t);
    }
    UsingIsOpen(tr, steps, j, t);
  }

  lemma GoneStays(s: State, step: Step)
    requires Enabled(s, step) && s.storeGone
    ensures Do(s, step).storeGone
  {
  }

  lemma {:induction false} StoreStaysGone(tr: seq<State>, steps: seq<Step>, i: nat, j: nat)
    requires Run(tr, steps) && i <= j < |tr| && tr[i].storeGone
    ensures tr[j].storeGone
  {
    if i < j {
      StoreStaysGone(tr, steps, i, j - 1);
      GoneStays(tr[j - 1], steps[j - 1]);
    }
  }

  /** A caller that passed the open check but resolves the handle after Close has
      taken the store down is refused, however late it gets the lock. */
  lemma LateCallerIsRefused(tr: seq<State>, steps: seq<Step>, i: nat, j: nat, t: Tid)
    requires Run(tr, steps) && i <= j < |steps| && tr[i].storeGone && steps[j] == Resolve(t)
    ensures PcOf(tr[j + 1], t).Refused?
  {
    StoreStaysGone(tr, steps, i, j);
    RunKeepsInv(tr, steps, j);
    assert tr[j + 1] == Do(tr[j], steps[j]);
  }

  /** Conservation: when Close has taken the store down, every instance ever opened
      (the original, every staging area, every reopened store) has been closed
      exactly once. */
  lemma EveryHandleClosedOnce(tr: seq<State>, steps: seq<Step>, i: nat, h: Handle)
    requires Run(tr, steps) && i < |tr| && tr[i].storeGone
    ensures tr[i].closes[h] == if h < tr[i].nextHandle then 1 else 0
  {
    RunKeepsInv(tr, steps, i);
    var s := tr[i];
    assert HandleOk(s, h);
    forall t: Tid
      ensures !Owns(s, t, h)
    {
      assert ThreadOk(s, t);
    }
  }

  // ---------- who is served and who is refused ----------

  /** Close had begun before step i. */
  ghost predicate CloseBegun(steps: seq<Step>, i: nat) {
    exists m :: 0 <= m < i && m < |steps| && steps[m].BeginClose?
  }

  predicate TakesDown(step: Step) { step.CloseOld? || step.CloseStore? }

  ghost predicate DownSince(steps: seq<Step>, m: nat, i: nat) {
    m < i <= |steps| && TakesDown(steps[m]) && forall k :: m < k < i ==> !steps[k].Publish?
  }

  /** A restore or Close had taken the store down and nothing was published since. */
  ghost predicate Down(steps: seq<Step>, i: nat) {
    exists m :: DownSince(steps, m, i)
  }

  lemma StepMovesClosed(s: State, step: Step)
    requires Enabled(s, step)
    ensures Do(s, step).closed <==> s.closed || step.BeginClose?
    ensures Do(s, step).store.None? <==> TakesDown(step) || (s.store.None? && !step.Publish?)
  {
  }

  lemma {:induction false} ClosedIffBegun(tr: seq<State>, steps: seq<Step>, i: nat)
    requires Run(tr, steps) && i < |tr|
    ensures tr[i].closed <==> CloseBegun(steps, i)
  {
    if i > 0 {
      ClosedIffBegun(tr, steps, i - 1);
      StepMovesClosed(tr[i - 1], steps[i - 1]);
      assert CloseBegun(steps, i) <==> CloseBegun(steps, i - 1) || steps[i - 1].BeginClose?;
    }
  }

  lemma DownGrows(steps: seq<Step>, i: nat)
    requires i < |steps|
    ensures Down(steps, i + 1) <==> TakesDown(steps[i]) || (Down(steps, i) && !steps[i].Publish?)
  {
    if TakesDown(steps[i]) {
      assert DownSince(steps, i, i + 1);
    } else {
      if Down(steps, i + 1) {
        var m: nat :| DownSince(steps, m, i + 1);
        assert DownSince(steps, m, i) && !steps[i].Publish?;
      }
      if Down(steps, i) && !steps[i].Publish? {
        var m: nat :| DownSince(steps, m, i);
        assert DownSince(steps, m, i + 1);
      }
    }
  }

  /** The handle is nil exactly while a restore or Close has the store down. */
  lemma {:induction false} NilIffDown(tr: seq<State>, steps: seq<Step>, i: nat)
    requires Run(tr, steps) && i < |tr|
    ensures tr[i].store.None? <==> Down(steps, i)
  {
    if i > 0 {
      NilIffDown(tr, steps, i - 1);
      StepMovesClosed(tr[i - 1], steps[i - 1]);
      DownGrows(steps, i - 1);
    }
  }

  /** A caller is let through exactly when Close had not begun at its check. */
  lemma CheckLetsThroughIff(tr: seq<State>, steps: seq<Step>, i: nat, t: Tid)
    requires Run(tr, steps) && i < |steps| && steps[i] == CheckOpen(t)
    ensures PcOf(tr[i + 1], t).Refused? <==> CloseBegun(steps, i)
    ensures PcOf(tr[i + 1], t).Waiting? <==> !CloseBegun(steps, i)
  {
    ClosedIffBegun(tr, steps, i);
    assert tr[i + 1] == Do(tr[i], steps[i]);
  }

  /** Under the lock it gets the published handle exactly when the store is not down. */
  lemma ResolveGivesHandleIff(tr: seq<State>, steps: seq<Step>, i: nat, t: Tid)
    requires Run(tr, steps) && i < |steps| && steps[i] == Resolve(t)
    ensures PcOf(tr[i + 1], t).Refused? <==> Down(steps, i)
    ensures !Down(steps, i) ==> tr[i].store.Some? && PcOf(tr[i + 1], t) == Using(tr[i].store.value)
  {
    NilIffDown(tr, steps, i);
    assert tr[i + 1] == Do(tr[i], steps[i]);
  }

  /** Step i refuses t: a check after Close began, or a resolve while the store is down. */
  ghost predicate Refuses(steps: seq<Step>, i: nat, t: Tid) {
    i < |steps| && ((steps[i] == CheckOpen(t) && CloseBegun(steps, i)) || (steps[i] == Resolve(t) && Down(steps, i)))
  }

  lemma RefusedStepwise(s: State, step: Step, t: Tid)
    requires Enabled(s, step)
    ensures PcOf(s, t).Refused? ==> PcOf(Do(s, step), t).Refused?
    ensures PcOf(Do(s, step), t).Refused? && !PcOf(s, t).Refused? ==> step == CheckOpen(t) || step == Resolve(t)
  {
  }

  /** In every run a thread has been refused exactly when one of its steps met a
      closing node or a store that was down: nobody is turned away otherwise. */
  lemma {:induction false} RefusedIff(tr: seq<State>, steps: seq<Step>, j: nat, t: Tid)
    requires Run(tr, steps) && j < |tr|
    ensures PcOf(tr[j], t).Refused? <==> exists i :: 0 <= i < j && Refuses(steps, i, t)
  {
    if j > 0 {
      var i := j - 1;
      RefusedIff(tr, steps, i, t);
      RefusedStepwise(tr[i], steps[i], t);
      if steps[i] == CheckOpen(t) { CheckLetsThroughIff(tr, steps, i, t); }
      if steps[i] == Resolve(t) { ResolveGivesHandleIff(tr, steps, i, t); }
      assert PcOf(tr[j], t).Refused? <==> PcOf(tr[i], t).Refused? || Refuses(steps, i, t);
    }
  }

  /** Only a restore whose snapshot loaded, or one that works in place, gets to take
      the lock exclusively. */
  ghost predicate ReadyToSwap(steps: seq<Step>, i: nat, t: Tid) {
    i < |steps| && (steps[i] == CloseStage(t, true) || steps[i] == StartInPlace(t))
  }

  lemma SwapWaitStepwise(s: State, step: Step, t: Tid)
    requires Enabled(s, step) && PcOf(Do(s, step), t).SwapWait?
    ensures PcOf(s, t).SwapWait? || step == CloseStage(t, true) || step == StartInPlace(t)
  {
  }

  lemma {:induction false} SwapNeedsLoad(tr: seq<State>, steps: seq<Step>, j: nat, t: Tid)
    requires Run(tr, steps) && j < |tr| && PcOf(tr[j], t).SwapWait?
    ensures exists i :: 0 <= i < j && ReadyToSwap(steps, i, t)
  {
    SwapWaitStepwise(tr[j - 1], steps[j - 1], t);
    if PcOf(tr[j - 1], t).SwapWait? {
      SwapNeedsLoad(tr, steps, j - 1, t);
    } else {
      assert ReadyToSwap(steps, j - 1, t);
    }
  }

  /** A failed load ends the restore: the thread takes no further step. */
  lemma {:induction false} FailedLoadEnds(tr: seq<State>, steps: seq<Step>, i: nat, j: nat, t: Tid)
    requires Run(tr, steps) && i < j < |tr| && steps[i] == CloseStage(t, false)
    ensures PcOf(tr[j], t).Finished?
    ensures j < |steps| ==> steps[j].t != t
  {
    if i + 1 < j {
      FailedLoadEnds(tr, steps, i, j - 1, t);
      OthersKeepPc(tr[j - 1], steps[j - 1], t);
    } else {
      assert tr[j] == Do(tr[i], steps[i]);
    }
  }

  // ---------- no deadlock ----------

  /** In the middle of a call. */
  predicate Busy(pc: Pc) { !pc.Idle? && !pc.Refused? && !pc.Finished? }

  ghost predicate CanMove(s: State, u: Tid) {
    Busy(PcOf(s, u)) && exists step :: Enabled(s, step) && step.t == u
  }

  /** Whoever holds the lock can go on. */
  lemma HolderMoves(s: State, u: Tid)
    requires Shares(PcOf(s, u)) || Excludes(PcOf(s, u))
    ensures CanMove(s, u)
  {
    match PcOf(s, u) {
      case Locked => assert Enabled(s, Resolve(u));
      case Using(_) => assert Enabled(s, Finish(u));
      case Swapping => assert Enabled(s, CloseOld(u));
      case Swapped => assert Enabled(s, OpenStore(u));
      case Holding(_) => assert Enabled(s, Publish(u));
      case Closing => assert Enabled(s, CloseStore(u));
      case Leaving => assert Enabled(s, Unlock(u));
    }
  }

  /** With the lock free every thread can go on, except a Close that waits for the
      library's tasks. */
  lemma FreeLockMoves(s: State, u: Tid)
    requires Busy(PcOf(s, u)) && s.writer.None? && s.readers == {} && HoldsOk(s, u)
    requires PcOf(s, u).Stopping? ==> s.raftTasks == {}
    ensures CanMove(s, u)
  {
    match PcOf(s, u) {
      case Waiting => assert Enabled(s, LockShared(u));
      case Staged(_) => assert Enabled(s, CloseStage(u, true));
      case SwapWait => assert Enabled(s, LockSwap(u));
      case Stopping => assert Enabled(s, RaftStopped(u));
      case CloseWait => assert Enabled(s, LockClose(u));
      case _ => HolderMoves(s, u);
    }
  }

  /** In every reachable state in which some call is under way, some call under way
      can take a step: callers, backups, restores and Close never block each other
      for good, although Close waits for tasks that wait for the lock. */
  lemma NoDeadlock(tr: seq<State>, steps: seq<Step>, i: nat, t: Tid)
    requires Run(tr, steps) && i < |tr| && Busy(PcOf(tr[i], t))
    ensures exists u :: CanMove(tr[i], u)
  {
    RunKeepsInv(tr, steps, i);
    var s := tr[i];
    if s.writer.Some? {
      var u := s.writer.value;
      assert ThreadOk(s, u);
      HolderMoves(s, u);
    } else if s.readers != {} {
      var u :| u in s.readers;
      assert ThreadOk(s, u);
      HolderMoves(s, u);
    } else if PcOf(s, t).Stopping? && s.raftTasks != {} {
      var u :| u in s.raftTasks;
      assert ThreadOk(s, u);
      FreeLockMoves(s, u);
    } else {
      assert ThreadOk(s, t);
      FreeLockMoves(s, t);
    }
  }
}
