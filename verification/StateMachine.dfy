/** One node: the store handle, its directories and the state machine that the
    consensus library drives. I/O outcomes are arguments; everything here runs
    with the store lock held as the source holds it (see StoreLock). */
module StateMachine {
  import opened Badger
  import opened Commands
  import opened Disk
  import Replication

  // ---------- outcomes ----------

  datatype ApplyResult = Applied | DecodeError | TxnError | StoreClosed

  datatype RestoreStep =
    | CleanStaging | CreateStaging | OpenStaging | LoadStaging | CloseStaging
    | MoveLive | MoveStaging | OpenRestored
    | CloseStore | WipeDir | RecreateDir | Reopen | LoadSnapshot

  datatype RestoreResult = Done | Failed(step: RestoreStep)

  /** The parts Close shuts down. */
  datatype Component = RaftNode | Transport | LogStore | LocalStore

  datatype PersistResult = SinkClosed | SinkCloseError | CancelError | NoStore | BackupError

  /** Outcomes of the staged restore's I/O, in program order. Closing the live
      handle is not among them: its failure is only logged. */
  datatype Faults = Faults(
    cleanStaging: Removal, makeStaging: bool, openStaging: bool, load: bool, rest: Store, closeStaging: bool,
    dropStaging: Removal, cleanBackup: Removal, moveLive: bool, moveStaging: bool, openLive: bool,
    wipeLive: Removal, rollBack: bool, reopen: bool, dropBackup: Removal)

  /** Outcomes of the in-place restore's I/O; the lists are per directory. */
  datatype InPlaceFaults = InPlaceFaults(
    closeStore: bool, wipe: Path -> Removal, make: Path -> bool, open: bool, load: bool, rest: Store)

  // ---------- what a restore leaves behind ----------

  /** The first staging step that fails, if any. */
  function StagingResult(d: Dirs, f: Faults): RestoreResult {
    if !Removes(d, Staging, f.cleanStaging) then Failed(CleanStaging)
    else if !f.makeStaging then Failed(CreateStaging)
    else if !f.openStaging then Failed(OpenStaging)
    else if !f.load then Failed(LoadStaging)
    else if !f.closeStaging then Failed(CloseStaging)
    else Done
  }

  predicate Stages(d: Dirs, f: Faults) {
    StagingResult(d, f).Done?
  }

  /** The live directory gets moved aside. */
  predicate MovesAside(d: Dirs, f: Faults) {
    d.live.Some? && Removes(d, Backup, f.cleanBackup) && f.moveLive
  }

  predicate Swaps(d: Dirs, f: Faults) {
    MovesAside(d, f) && f.moveStaging && f.openLive
  }

  /** A failed swap puts the old directory back (or never moved it). */
  predicate RollsBack(d: Dirs, f: Faults) {
    || !MovesAside(d, f)
    || (f.rollBack && (f.moveStaging ==> f.wipeLive.Clean?))
  }

  /** What sits at the live path when a failed swap does not roll back. */
  function Stray(f: Faults, snap: Store): Store {
    if !f.moveStaging then map[]
    else match f.wipeLive
      case Clean => map[]
      case Stuck => snap
      case Torn(rest) => rest
  }

  /** The first swap step that fails, if any. */
  function SwapResult(d: Dirs, f: Faults): RestoreResult {
    if !MovesAside(d, f) then Failed(MoveLive)
    else if !f.moveStaging then Failed(MoveStaging)
    else if !f.openLive then Failed(OpenRestored)
    else Done
  }

  /** The data at the live path after a swap, a missing directory being an empty
      database. */
  function SwapLeaves(d: Dirs, f: Faults, snap: Store): Store {
    if Swaps(d, f) then snap
    else if RollsBack(d, f) then Found(d, Live)
    else Stray(f, snap)
  }

  /** Where the two generations are after a swap from d that ended in d'. */
  predicate SwapDirs(d: Dirs, f: Faults, snap: Store, d': Dirs) {
    var r := SwapResult(d, f);
    && (r.Done? ==> At(d', Live, snap) && d'.staging.None? && (f.dropBackup.Clean? ==> d'.backup.None?))
    && (r.Failed? && RollsBack(d, f) && d.live.Some? ==> d'.live == d.live)
    && (r.Failed? && !RollsBack(d, f) ==> d'.backup == d.live)
    && (r == Failed(OpenRestored) && RollsBack(d, f) ==> d'.backup.None? && d'.staging.None?)
  }

  /** The staging directory does not decide how a swap ends. */
  lemma SwapIgnoresStaging(d: Dirs, e: Dirs, f: Faults, snap: Store, d': Dirs)
    requires OnlyStagingDiffers(d, e)
    ensures SwapResult(e, f) == SwapResult(d, f) && SwapLeaves(e, f, snap) == SwapLeaves(d, f, snap)
    ensures SwapDirs(e, f, snap, d') <==> SwapDirs(d, f, snap, d')
  {
  }

  function StagedResult(d: Dirs, f: Faults): RestoreResult {
    if Stages(d, f) then SwapResult(d, f) else StagingResult(d, f)
  }

  /** The same after the whole staged restore. */
  function LiveAfter(d: Dirs, f: Faults, snap: Store): Store {
    if Stages(d, f) then SwapLeaves(d, f, snap) else Found(d, Live)
  }

  /** What a node that served `was` serves after a staged restore. */
  function ServedAfter(d: Dirs, was: Option<Store>, f: Faults, snap: Store): Option<Store> {
    if !Stages(d, f) then was
    else if Swaps(d, f) || f.reopen then Some(SwapLeaves(d, f, snap))
    else None
  }

  /** Each failure names the one step that failed, all earlier ones having succeeded,
      and what is served then: the store as it was after a staging failure; otherwise
      nothing if the reopen fails, else the old data as long as its directory is, or
      is put back, at the live path, and else what is left there. */
  lemma StagedOutcome(d: Dirs, was: Option<Store>, f: Faults, snap: Store)
    ensures var cleaned := d.staging.None? || f.cleanStaging.Clean?;
            var made := cleaned && f.makeStaging;
            var usable := made && f.openStaging;
            var loaded := usable && f.load;
            var staged := loaded && f.closeStaging;
            var aside := staged && d.live.Some? && (d.backup.None? || f.cleanBackup.Clean?) && f.moveLive;
            var placed := aside && f.moveStaging;
            var r, served := StagedResult(d, f), ServedAfter(d, was, f, snap);
            && (r == Failed(CleanStaging) <==> !cleaned)
            && (r == Failed(CreateStaging) <==> cleaned && !made)
            && (r == Failed(OpenStaging) <==> made && !usable)
            && (r == Failed(LoadStaging) <==> usable && !loaded)
            && (r == Failed(CloseStaging) <==> loaded && !staged)
            && (r == Failed(MoveLive) <==> staged && !aside)
            && (r == Failed(MoveStaging) <==> aside && !placed)
            && (r == Failed(OpenRestored) <==> placed && !f.openLive)
            && (r.Done? <==> placed && f.openLive)
            && (r.Done? ==> served == Some(snap))
            && (!staged ==> served == was)
            && (r.Failed? && staged && !f.reopen ==> served == None)
            && (staged && !aside && f.reopen ==> served == Some(if d.live.Some? then d.live.value.data else map[]))
            && (aside && !placed && f.reopen ==> served == Some(if f.rollBack then d.live.value.data else map[]))
            && (placed && r.Failed? && f.reopen ==>
                  match f.wipeLive
                  case Clean => served == Some(if f.rollBack then d.live.value.data else map[])
                  case Stuck => served == Some(snap)
                  case Torn(rest) => served == Some(rest))
  {
  }

  predicate Wipes(d: Dirs, f: InPlaceFaults, p: Path) {
    Removes(d, p, f.wipe(p)) && f.make(p)
  }

  /** The first in-place step that fails, if any. */
  function InPlaceResult(d: Dirs, live: bool, f: InPlaceFaults): RestoreResult {
    if live && !f.closeStore then Failed(CloseStore)
    else if !Removes(d, Live, f.wipe(Live)) then Failed(WipeDir)
    else if !f.make(Live) then Failed(RecreateDir)
    else if !Removes(d, ValueLog, f.wipe(ValueLog)) then Failed(WipeDir)
    else if !f.make(ValueLog) then Failed(RecreateDir)
    else if !f.open then Failed(Reopen)
    else if !f.load then Failed(LoadSnapshot)
    else Done
  }

  /** The same for the in-place restore, whose failures never serve anything. */
  lemma InPlaceOutcome(d: Dirs, live: bool, f: InPlaceFaults)
    ensures var closed := !live || f.closeStore;
            var wiped := closed && (d.live.None? || f.wipe(Live).Clean?);
            var made := wiped && f.make(Live);
            var wipedLog := made && (d.valueLog.None? || f.wipe(ValueLog).Clean?);
            var madeLog := wipedLog && f.make(ValueLog);
            var usable := madeLog && f.open;
            var r := InPlaceResult(d, live, f);
            && (r == Failed(CloseStore) <==> !closed)
            && (r == Failed(WipeDir) <==> (closed && !wiped) || (made && !wipedLog))
            && (r == Failed(RecreateDir) <==> (wiped && !made) || (wipedLog && !madeLog))
            && (r == Failed(Reopen) <==> madeLog && !usable)
            && (r == Failed(LoadSnapshot) <==> usable && !f.load)
            && (r.Done? <==> usable && f.load)
  {
  }

  predicate At(d: Dirs, p: Path, data: Store) {
    Get(d, p) == Some(Complete(data))
  }

  predicate OnlyStagingDiffers(d: Dirs, e: Dirs) {
    e == d.(staging := e.staging)
  }

  predicate Holds(d: Dirs, data: Store) {
    At(d, Live, data) || At(d, Staging, data) || At(d, Backup, data)
  }

  /** Every recorded arrangement holds one of the two generations complete. */
  ghost predicate NeverLost(crashes: set<Dirs>, gen: Store, snap: Store) {
    forall d :: d in crashes ==> Holds(d, gen) || Holds(d, snap)
  }

  predicate Guarded(d: Dirs, data: Store) {
    At(d, Live, data) || At(d, Backup, data)
  }

  /** The swap gets as far as wiping the restored database again. */
  predicate WipesRestored(d: Dirs, f: Faults) {
    MovesAside(d, f) && f.moveStaging && !f.openLive && !f.wipeLive.Stuck?
  }

  /** When a crash at any point of a staged restore leaves gen or snap complete: one
      of them is live or in the backup at entry (the staging directory goes first),
      and is live if the restored database is going to be wiped again. */
  predicate SurvivesCrashes(d: Dirs, f: Faults, gen: Store, snap: Store) {
    if d.staging.Some? && f.cleanStaging.Stuck? then Holds(d, gen) || Holds(d, snap)
    else
      && (Guarded(d, gen) || Guarded(d, snap))
      && (Stages(d, f) && WipesRestored(d, f) ==> At(d, Live, gen) || At(d, Live, snap))
  }

  /** What was added to the record since `before` holds one of the two. */
  ghost predicate AddedHold(before: set<Dirs>, after: set<Dirs>, gen: Store, snap: Store) {
    forall d :: d in after && d !in before ==> Holds(d, gen) || Holds(d, snap)
  }

  /** What Stage says about its record when it starts from d with an empty one. */
  ghost predicate StagingRecord(d: Dirs, f: Faults, staged: set<Dirs>) {
    && (forall e :: e in staged ==> OnlyStagingDiffers(d, e))
    && Damaged(d, Staging, f.cleanStaging) in staged
    && (d.staging.Some? && f.cleanStaging.Stuck? ==> staged == {d})
  }

  /** Staging crashes keep gen or snap exactly when one of them is outside the
      staging directory, or the directory is stuck. */
  lemma StagingCrashes(d: Dirs, f: Faults, gen: Store, snap: Store, staged: set<Dirs>)
    requires StagingRecord(d, f, staged)
    ensures d.staging.Some? && f.cleanStaging.Stuck? ==> (NeverLost(staged, gen, snap) <==> Holds(d, gen) || Holds(d, snap))
    ensures !(d.staging.Some? && f.cleanStaging.Stuck?) ==> (NeverLost(staged, gen, snap) <==> Guarded(d, gen) || Guarded(d, snap))
  {
    if d.staging.None? || !f.cleanStaging.Stuck? {
      var e := Damaged(d, Staging, f.cleanStaging);
      assert Holds(e, gen) <==> Guarded(d, gen);
      assert Holds(e, snap) <==> Guarded(d, snap);
      if Guarded(d, gen) || Guarded(d, snap) {
        forall e | e in staged ensures Holds(e, gen) || Holds(e, snap) {
          assert OnlyStagingDiffers(d, e);
        }
      }
    }
  }

  /** What a swap from d adds to the record. */
  ghost predicate SwapRecord(d: Dirs, f: Faults, snap: Store, before: set<Dirs>, after: set<Dirs>) {
    && before <= after
    && (!WipesRestored(d, f) ==> AddedHold(before, after, snap, snap))
    && (WipesRestored(d, f) ==> d.(live := Some(Partial(snap)), staging := None, backup := d.live) in after)
    && (forall gen :: WipesRestored(d, f) && At(d, Live, gen) ==> AddedHold(before, after, gen, snap))
  }

  /** The whole record of a restore that got as far as the swap. */
  lemma SwapCrashes(d: Dirs, f: Faults, gen: Store, snap: Store, e: Dirs, staged: set<Dirs>, crashes: set<Dirs>)
    requires Stages(d, f) && StagingRecord(d, f, staged)
    requires OnlyStagingDiffers(d, e) && SwapRecord(e, f, snap, staged, crashes)
    ensures NeverLost(crashes, gen, snap) <==> SurvivesCrashes(d, f, gen, snap)
  {
    StagingCrashes(d, f, gen, snap, staged);
    assert NeverLost(crashes, gen, snap) ==> NeverLost(staged, gen, snap);
    assert WipesRestored(e, f) <==> WipesRestored(d, f);
    assert At(e, Live, gen) <==> At(d, Live, gen);
    assert At(e, Live, snap) <==> At(d, Live, snap);
    if WipesRestored(d, f) {
      var worst := d.(live := Some(Partial(snap)), staging := None, backup := d.live);
      assert worst == e.(live := Some(Partial(snap)), staging := None, backup := e.live);
      assert Holds(worst, gen) <==> At(d, Live, gen);
      assert Holds(worst, snap) <==> At(d, Live, snap);
    }
  }

  lemma CrashesAccounted(d: Dirs, f: Faults, snap: Store, e: Dirs, staged: set<Dirs>, crashes: set<Dirs>)
    requires StagingRecord(d, f, staged) && OnlyStagingDiffers(d, e)
    requires if Stages(d, f) then SwapRecord(e, f, snap, staged, crashes) else crashes == staged
    ensures forall gen :: NeverLost(crashes, gen, snap) <==> SurvivesCrashes(d, f, gen, snap)
  {
    forall gen
      ensures NeverLost(crashes, gen, snap) <==> SurvivesCrashes(d, f, gen, snap)
    {
      StagingCrashes(d, f, gen, snap, staged);
      if Stages(d, f) { SwapCrashes(d, f, gen, snap, e, staged, crashes); }
    }
  }

  class DB {
    /** The published handle: None is nil, Some is an open database and its data. */
    var store: Option<Store>
    var closed: bool
    /** Close has run; what it returned. */
    var closeOnce: bool
    var closeErr: set<Component>
    const disk: Disk
    /** The value log lives in the same directory as the tree. */
    const colocated: bool

    ghost predicate Valid()
      reads this, disk
    {
      store.Some? ==> disk.dirs.live.Some? && disk.dirs.live.value.data == store.value
    }

    constructor (disk: Disk, colocated: bool)
      modifies disk
      ensures this.disk == disk && this.colocated == colocated && !closed && !closeOnce
      ensures Valid() && store == Some(Found(old(disk.dirs), Live)) && disk.dirs == Opened(old(disk.dirs), Live)
    {
      this.disk := disk;
      this.colocated := colocated;
      closed, closeOnce, closeErr := false, false, {};
      store := None;
      new;
      store := disk.Open(Live, true);
    }

    /** The handle a callback runs on, or the reason there is none. */
    function WithStore(): (s: Option<Store>)
      reads this
      ensures s.Some? <==> !closed && store.Some?
      ensures s.Some? ==> s == store
    {
      if closed then None else store
    }

    method CloseStore(ok: bool) returns (failed: bool)
      modifies this`store
      ensures store == None
      ensures failed == (old(store).Some? && !ok)
    {
      if store.None? { return false; }
      store := None;
      return !ok;
    }

    /** failing: the parts whose shutdown reports an error. Only the first call does
        anything; every call returns what the first one did. */
    method Close(failing: set<Component>) returns (err: set<Component>)
      modifies this`store, this`closed, this`closeOnce, this`closeErr
      ensures err == closeErr && closeOnce
      ensures old(closeOnce) ==> closeErr == old(closeErr) && closed == old(closed) && store == old(store)
      ensures !old(closeOnce) ==> closed && store == None && WithStore() == None
      ensures !old(closeOnce) ==> closeErr == if old(store).Some? then failing else failing - {LocalStore}
    {
      if !closeOnce {
        closeOnce, closed := true, true;
        closeErr := failing - {LocalStore};
        var failed := CloseStore(LocalStore !in failing);
        if failed { closeErr := closeErr + {LocalStore}; }
      }
      return closeErr;
    }

    method ReopenLocked(ok: bool)
      modifies this`store, disk
      ensures store == if ok then Some(Found(old(disk.dirs), Live)) else None
      ensures disk.dirs == if ok then Opened(old(disk.dirs), Live) else old(disk.dirs)
      ensures disk.crashes == old(disk.crashes) + {disk.dirs}
    {
      var s := disk.Open(Live, ok);
      store := s;
    }
  }

  class Fsm {
    const db: DB
    var appliedIndex: nat

    constructor (db: DB)
      ensures this.db == db && appliedIndex == 0
    {
      this.db := db;
      appliedIndex := 0;
    }

    /** This node is the one the cluster model calls nd. */
    ghost predicate Represents(nd: Replication.Node)
      reads this, db, db.disk
    {
      && db.Valid()
      && Found(db.disk.dirs, Live) == nd.store
      && nd.serving == db.store.Some?
      && nd.counter == appliedIndex
    }

    /** Applies one committed entry in a single transaction. txnOps is the number of
        transaction operations that succeed; commitOk the outcome of the commit. */
    method Apply(index: nat, decoded: Option<Command>, txnOps: nat, commitOk: bool) returns (r: ApplyResult)
      requires db.Valid()
      modifies this`appliedIndex, db`store, db.disk
      ensures db.Valid()
      ensures r.Applied? <==>
              && decoded.Some? && !db.closed && old(db.store).Some?
              && |decoded.value.pairs| + |decoded.value.deletes| <= txnOps && commitOk
      ensures r.Applied? ==> db.store == Some(Exec(decoded.value, old(db.store).value)) && appliedIndex == index
      ensures !r.Applied? ==> db.store == old(db.store) && appliedIndex == old(appliedIndex) && db.disk.dirs == old(db.disk.dirs)
      ensures decoded.None? <==> r.DecodeError?
      ensures decoded.Some? ==> (r.StoreClosed? <==> db.closed || old(db.store).None?)
      ensures forall nd: Replication.Node, cmd: Command ::
                old(Represents(nd)) && decoded == Some(cmd) && nd.cursor + 1 == index ==>
                  Represents(Replication.ApplyAt(nd, Cmd(cmd), r.Applied?))
    {
      if decoded.None? { return DecodeError; }
      var cmd := decoded.value;
      var s := db.WithStore();
      if s.None? { return StoreClosed; }
      var txn := s.value;
      for i := 0 to |cmd.pairs|
        invariant i <= txnOps
        invariant txn == SetPairs(s.value, cmd.pairs[..i])
      {
        var p := cmd.pairs[i];
        var entry := Item(p.value, 0);
        if p.expiresAt > 0 { entry := entry.(expiresAt := p.expiresAt); }
        if i == txnOps { return TxnError; }
        txn := txn[p.key := entry];
        assert cmd.pairs[..i + 1][..i] == cmd.pairs[..i];
      }
      assert cmd.pairs[..|cmd.pairs|] == cmd.pairs;
      for i := 0 to |cmd.deletes|
        invariant |cmd.pairs| + i <= txnOps
        invariant txn == DeleteKeys(SetPairs(s.value, cmd.pairs), cmd.deletes[..i])
      {
        if |cmd.pairs| + i == txnOps { return TxnError; }
        txn := txn - {cmd.deletes[i]};
        assert cmd.deletes[..i + 1][..i] == cmd.deletes[..i];
      }
      assert cmd.deletes[..|cmd.deletes|] == cmd.deletes;
      if !commitOk { return TxnError; }
      db.disk.Fill(Live, db.disk.dirs.live.value.(data := txn));
      db.store := Some(txn);
      appliedIndex := index;
      return Applied;
    }

    /** Streams a backup of the store as it is now, whatever the label. */
    method Persist(backupOk: bool, closeOk: bool, cancelOk: bool) returns (r: PersistResult, saved: Option<Store>)
      requires db.Valid()
      ensures saved.Some? <==> r.SinkClosed?
      ensures r.SinkClosed? <==> db.store.Some? && backupOk && closeOk
      ensures saved.Some? ==> saved == db.store
      ensures r.CancelError? <==> (db.store.None? || !backupOk) && !cancelOk
      ensures r.NoStore? <==> db.store.None? && cancelOk
      ensures r.BackupError? <==> db.store.Some? && !backupOk && cancelOk
      ensures forall nd: Replication.Node :: Represents(nd) && saved.Some? ==> saved.value == nd.store
    {
      saved := None;
      if db.store.None? {
        return if cancelOk then NoStore else CancelError, None;
      }
      if !backupOk {
        return if cancelOk then BackupError else CancelError, None;
      }
      if !closeOk { return SinkCloseError, None; }
      return SinkClosed, db.store;
    }

    /** Staging phase: the old store keeps serving. */
    method Stage(snap: Store, f: Faults) returns (r: RestoreResult)
      modifies db.disk
      ensures r == StagingResult(old(db.disk.dirs), f)
      ensures r.Done? <==>
                && (old(db.disk.dirs).staging.None? || f.cleanStaging.Clean?)
                && f.makeStaging && f.openStaging && f.load && f.closeStaging
      ensures r.Done? ==> At(db.disk.dirs, Staging, snap)
      ensures r in {Failed(OpenStaging), Failed(LoadStaging), Failed(CloseStaging)} && f.dropStaging.Clean? ==>
                db.disk.dirs.staging.None?
      ensures OnlyStagingDiffers(old(db.disk.dirs), db.disk.dirs)
      ensures forall d :: d in db.disk.crashes && d !in old(db.disk.crashes) ==> OnlyStagingDiffers(old(db.disk.dirs), d)
      ensures old(db.disk.crashes) + {Damaged(old(db.disk.dirs), Staging, f.cleanStaging)} <= db.disk.crashes
      ensures r == Failed(CleanStaging) && f.cleanStaging.Stuck? ==> db.disk.crashes == old(db.disk.crashes) + {old(db.disk.dirs)}
    {
      var disk := db.disk;
      var ok := disk.RemoveAll(Staging, f.cleanStaging);
      if !ok { return Failed(CleanStaging); }
      ok := disk.MkdirAll(Staging, f.makeStaging);
      if !ok { return Failed(CreateStaging); }
      var stage := disk.Open(Staging, f.openStaging);
      if stage.None? {
        ok := disk.RemoveAll(Staging, f.dropStaging);
        return Failed(OpenStaging);
      }
      ok := disk.Load(Staging, f.load, snap, f.rest);
      if !ok {
        ok := disk.RemoveAll(Staging, f.dropStaging);
        return Failed(LoadStaging);
      }
      ok := disk.Settle(Staging, f.closeStaging);
      if !ok {
        ok := disk.RemoveAll(Staging, f.dropStaging);
        return Failed(CloseStaging);
      }
      return Done;
    }

    method RollbackAndReopenLocked(f: Faults)
      modifies db`store, db.disk
      ensures var d, d' := old(db.disk.dirs), db.disk.dirs;
              var rolled := Renames(d, Backup, Live, f.rollBack);
              var e := if rolled then Renamed(d, Backup, Live) else d;
              && d' == (if f.reopen then Opened(e, Live) else e)
              && db.store == (if f.reopen then Some(Found(e, Live)) else None)
              && db.disk.crashes == old(db.disk.crashes) + {e, d'}
    {
      var rolled := db.disk.Rename(Backup, Live, f.rollBack);
      db.ReopenLocked(f.reopen);
    }

    /** First half of the swap, under the exclusive lock: close the live store and
        move its directory aside, or reopen it where it is. */
    method MoveAside(snap: Store, f: Faults) returns (r: RestoreResult)
      requires At(db.disk.dirs, Staging, snap)
      modifies db`store, db.disk
      ensures r == if MovesAside(old(db.disk.dirs), f) then Done else Failed(MoveLive)
      ensures r.Done? ==>
                && db.disk.dirs == old(db.disk.dirs).(live := None, backup := old(db.disk.dirs).live)
                && db.store == None
      ensures r.Failed? ==>
                && db.disk.dirs.live == (if f.reopen then Opened(old(db.disk.dirs), Live) else old(db.disk.dirs)).live
                && db.store == (if f.reopen then Some(Found(old(db.disk.dirs), Live)) else None)
      ensures AddedHold(old(db.disk.crashes), db.disk.crashes, snap, snap) && old(db.disk.crashes) <= db.disk.crashes
    {
      var ok := db.disk.RemoveAll(Backup, f.cleanBackup);
      db.store := None;
      ok := db.disk.Rename(Live, Backup, f.moveLive);
      if !ok {
        db.ReopenLocked(f.reopen);
        return Failed(MoveLive);
      }
      return Done;
    }

    /** Second half: put the staged directory in place and publish it, or roll back. */
    method PutInPlace(snap: Store, f: Faults) returns (r: RestoreResult)
      requires var d := db.disk.dirs; At(d, Staging, snap) && d.live.None? && d.backup.Some? && db.store.None?
      modifies this`appliedIndex, db`store, db.disk
      ensures db.Valid()
      ensures r == if !f.moveStaging then Failed(MoveStaging) else if !f.openLive then Failed(OpenRestored) else Done
      ensures r.Done? ==>
                && db.store == Some(snap) && At(db.disk.dirs, Live, snap) && db.disk.dirs.staging.None?
                && (f.dropBackup.Clean? ==> db.disk.dirs.backup.None?) && appliedIndex == 0
      ensures r.Failed? ==> appliedIndex == old(appliedIndex)
      ensures r.Failed? && f.rollBack && (f.moveStaging ==> f.wipeLive.Clean?) ==>
                && db.disk.dirs.live == old(db.disk.dirs).backup && db.disk.dirs.backup.None?
                && (f.moveStaging ==> db.disk.dirs.staging.None?)
                && db.store == if f.reopen then Some(old(db.disk.dirs).backup.value.data) else None
      ensures r.Failed? && !(f.rollBack && (f.moveStaging ==> f.wipeLive.Clean?)) ==>
                && db.disk.dirs.backup == old(db.disk.dirs).backup
                && Found(db.disk.dirs, Live) == Stray(f, snap)
                && db.store == if f.reopen then Some(Stray(f, snap)) else None
      ensures forall gen :: At(old(db.disk.dirs), Backup, gen) ==> AddedHold(old(db.disk.crashes), db.disk.crashes, gen, snap)
      ensures f.moveStaging && !f.openLive && !f.wipeLive.Stuck? ==>
                old(db.disk.dirs).(live := Some(Partial(snap)), staging := None) in db.disk.crashes
      ensures !(f.moveStaging && !f.openLive && !f.wipeLive.Stuck?) ==> AddedHold(old(db.disk.crashes), db.disk.crashes, snap, snap)
      ensures old(db.disk.crashes) <= db.disk.crashes
    {
      var ok := db.disk.Rename(Staging, Live, f.moveStaging);
      if !ok {
        RollbackAndReopenLocked(f);
        return Failed(MoveStaging);
      }
      var store := db.disk.Open(Live, f.openLive);
      if store.None? {
        ok := db.disk.RemoveAll(Live, f.wipeLive);
        RollbackAndReopenLocked(f);
        return Failed(OpenRestored);
      }
      ok := db.disk.RemoveAll(Backup, f.dropBackup);
      db.store := store;
      appliedIndex := 0;
      return Done;
    }

    /** The swap phase, from any leftover directories. */
    method Swap(snap: Store, f: Faults) returns (r: RestoreResult)
      requires db.Valid() && At(db.disk.dirs, Staging, snap)
      modifies this`appliedIndex, db`store, db.disk
      ensures db.Valid()
      ensures r == SwapResult(old(db.disk.dirs), f)
      ensures db.store == if r.Done? || f.reopen then Some(SwapLeaves(old(db.disk.dirs), f, snap)) else None
      ensures Found(db.disk.dirs, Live) == SwapLeaves(old(db.disk.dirs), f, snap)
      ensures appliedIndex == if r.Done? then 0 else old(appliedIndex)
      ensures SwapDirs(old(db.disk.dirs), f, snap, db.disk.dirs)
      ensures SwapRecord(old(db.disk.dirs), f, snap, old(db.disk.crashes), db.disk.crashes)
    {
      ghost var d := db.disk.dirs;
      r := MoveAside(snap, f);
      ghost var moved, crashed := db.disk.dirs, db.disk.crashes;
      if r.Done? {
        r := PutInPlace(snap, f);
        assert forall gen :: At(d, Live, gen) ==> At(moved, Backup, gen) && AddedHold(crashed, db.disk.crashes, gen, snap);
      }
    }

    /** The staged restore: both phases. The crash record restarts with the call. */
    method RestoreStaged(snap: Store, f: Faults) returns (r: RestoreResult)
      requires db.Valid() && db.colocated
      modifies this`appliedIndex, db`store, db.disk
      ensures db.Valid()
      // exactly when it succeeds or fails where, from any directory residue
      ensures r.Done? <==>
                && (old(db.disk.dirs).staging.None? || f.cleanStaging.Clean?)
                && f.makeStaging && f.openStaging && f.load && f.closeStaging
                && old(db.disk.dirs).live.Some? && (old(db.disk.dirs).backup.None? || f.cleanBackup.Clean?)
                && f.moveLive && f.moveStaging && f.openLive
      ensures r == StagedResult(old(db.disk.dirs), f)
      // what the node serves and what is at the live path afterwards
      ensures db.store == ServedAfter(old(db.disk.dirs), old(db.store), f, snap)
      ensures Found(db.disk.dirs, Live) == LiveAfter(old(db.disk.dirs), f, snap)
      ensures appliedIndex == if r.Done? then 0 else old(appliedIndex)
      // a staging failure touches nothing but the staging directory
      ensures !Stages(old(db.disk.dirs), f) ==> OnlyStagingDiffers(old(db.disk.dirs), db.disk.dirs)
      ensures r in {Failed(OpenStaging), Failed(LoadStaging), Failed(CloseStaging)} && f.dropStaging.Clean? ==>
                db.disk.dirs.staging.None?
      // where each generation is after the swap
      ensures Stages(old(db.disk.dirs), f) ==> SwapDirs(old(db.disk.dirs), f, snap, db.disk.dirs)
      // exactly when a crash at any point leaves a complete generation somewhere
      ensures forall gen :: NeverLost(db.disk.crashes, gen, snap) <==> SurvivesCrashes(old(db.disk.dirs), f, gen, snap)
      // the steps of the cluster model this call takes
      ensures forall nd: Replication.Node, sn: Replication.Snap :: old(Represents(nd)) && sn.data == snap && r.Done? ==>
                Represents(Replication.Restored(nd, sn))
      ensures forall nd: Replication.Node :: old(Represents(nd)) && r.Failed? && !(Stages(old(db.disk.dirs), f) && !RollsBack(old(db.disk.dirs), f)) ==>
                Represents(nd.(serving := if Stages(old(db.disk.dirs), f) then f.reopen else nd.serving))
      ensures forall nd: Replication.Node, stray: Option<Replication.Snap> ::
                old(Represents(nd)) && r.Failed? && Stages(old(db.disk.dirs), f) && !RollsBack(old(db.disk.dirs), f)
                && Stray(f, snap) == (if stray.None? then map[] else stray.value.data) ==>
                  Represents(Replication.Lost(nd, f.reopen, stray))
    {
      ghost var d := db.disk.dirs;
      db.disk.Forget();
      r := Stage(snap, f);
      ghost var e, staged := db.disk.dirs, db.disk.crashes;
      if r.Done? {
        r := Swap(snap, f);
        SwapIgnoresStaging(d, e, f, snap, db.disk.dirs);
      }
      CrashesAccounted(d, f, snap, e, staged, db.disk.crashes);
    }

    /** The restore for a value log outside the main directory: no way back. */
    method RestoreInPlace(snap: Store, f: InPlaceFaults) returns (r: RestoreResult)
      requires db.Valid() && !db.colocated
      modifies this`appliedIndex, db`store, db.disk
      ensures db.Valid()
      ensures r == InPlaceResult(old(db.disk.dirs), old(db.store).Some?, f)
      ensures r.Done? <==>
                && (old(db.store).None? || f.closeStore)
                && (old(db.disk.dirs).live.None? || f.wipe(Live).Clean?) && f.make(Live)
                && (old(db.disk.dirs).valueLog.None? || f.wipe(ValueLog).Clean?) && f.make(ValueLog)
                && f.open && f.load
      ensures r.Done? ==> db.store == Some(snap) && At(db.disk.dirs, Live, snap) && At(db.disk.dirs, ValueLog, snap) && appliedIndex == 0
      ensures r.Failed? ==> db.store == None && appliedIndex == old(appliedIndex)
      ensures forall nd: Replication.Node, sn: Replication.Snap :: old(Represents(nd)) && sn.data == snap && r.Done? ==>
                Represents(Replication.Restored(nd, sn))
    {
      if db.store.Some? {
        db.store := None;
        if !f.closeStore { return Failed(CloseStore); }
      }
      var dirs := [Live, ValueLog];
      for i := 0 to |dirs|
        invariant db.store == None && appliedIndex == old(appliedIndex)
        invariant forall j :: 0 <= j < i ==> Wipes(old(db.disk.dirs), f, dirs[j])
        invariant old(db.store).Some? ==> f.closeStore
        invariant forall j :: 0 <= j < i ==> At(db.disk.dirs, dirs[j], map[])
        invariant forall j :: i <= j < |dirs| ==> Get(db.disk.dirs, dirs[j]) == Get(old(db.disk.dirs), dirs[j])
      {
        assert 0 < i ==> Wipes(old(db.disk.dirs), f, dirs[0]);
        var ok := db.disk.RemoveAll(dirs[i], f.wipe(dirs[i]));
        if !ok { return Failed(WipeDir); }
        ok := db.disk.MkdirAll(dirs[i], f.make(dirs[i]));
        if !ok { return Failed(RecreateDir); }
      }
      assert Wipes(old(db.disk.dirs), f, dirs[0]) && Wipes(old(db.disk.dirs), f, dirs[1]);
      var store := db.disk.Open(Live, f.open);
      if store.None? { return Failed(Reopen); }
      var ok := db.disk.Load(Live, f.load, snap, f.rest);
      if !ok { return Failed(LoadSnapshot); }
      db.disk.Fill(ValueLog, Complete(snap));
      ok := db.disk.Settle(Live, true);
      db.store := Some(db.disk.dirs.live.value.data);
      appliedIndex := 0;
      return Done;
    }

    /** Replaces the whole local state with a snapshot, by the path the layout asks for. */
    method Restore(snap: Store, staged: Faults, inPlace: InPlaceFaults) returns (r: RestoreResult)
      requires db.Valid()
      modifies this`appliedIndex, db`store, db.disk
      ensures db.Valid()
      ensures r == if db.colocated then StagedResult(old(db.disk.dirs), staged)
                   else InPlaceResult(old(db.disk.dirs), old(db.store).Some?, inPlace)
      ensures db.store == if db.colocated then ServedAfter(old(db.disk.dirs), old(db.store), staged, snap)
                          else if r.Done? then Some(snap) else None
      ensures r.Done? ==> db.store == Some(snap) && At(db.disk.dirs, Live, snap)
      ensures appliedIndex == if r.Done? then 0 else old(appliedIndex)
      ensures db.colocated ==> forall gen :: NeverLost(db.disk.crashes, gen, snap) <==> SurvivesCrashes(old(db.disk.dirs), staged, gen, snap)
      ensures forall nd: Replication.Node, sn: Replication.Snap :: old(Represents(nd)) && sn.data == snap && r.Done? ==>
                Represents(Replication.Restored(nd, sn))
    {
      if db.colocated {
        r := RestoreStaged(snap, staged);
      } else {
        r := RestoreInPlace(snap, inPlace);
      }
    }
  }

  /** Opening a node: the store that is on disk, or an empty one, and a zero counter. */
  method OpenNode(disk: Disk, colocated: bool) returns (fsm: Fsm)
    modifies disk
    ensures fresh(fsm) && fresh(fsm.db) && fsm.db.disk == disk && fsm.db.colocated == colocated
    ensures fsm.db.Valid() && disk.dirs == Opened(old(disk.dirs), Live)
    ensures forall nd: Replication.Node :: Found(old(disk.dirs), Live) == nd.store ==>
              fsm.Represents(Replication.Reopened(nd))
    ensures old(disk.dirs).live.None? ==> fsm.Represents(Replication.FRESH)
  {
    var db := new DB(disk, colocated);
    fsm := new Fsm(db);
  }

  // ---------- two claims that do not hold ----------

  /** A node serving gen from the arrangement d serves gen or nothing after the restore. */
  ghost predicate KeepsPromise(d: Dirs, f: Faults, gen: Store, snap: Store) {
    ServedAfter(d.(live := Some(Complete(gen))), Some(gen), f, snap) in {None, Some(gen)}
  }

  /** The comments promise that a failed swap serves the old data or nothing. When
      moving the staged directory fails and so does moving the backup back, the
      reopen creates an empty database at the live path and serves that. */
  method FailedRestoreCanServeEmpty(gen: Store, snap: Store) returns (r: RestoreResult, served: Option<Store>)
    ensures r == Failed(MoveStaging) && served == Some(map[])
  {
    var disk := new Disk(Dirs(Some(Complete(gen)), None, None, None));
    var fsm := OpenNode(disk, true);
    r := fsm.RestoreStaged(snap, Faults(Clean, true, true, true, map[], true, Clean, Clean, true, false, true, Clean, false, true, Clean));
    served := fsm.db.store;
  }

  /** Exactly when the promise is kept, whatever the data: the node then serves what
      it served, or nothing, unless the restore succeeds. */
  lemma OldDataOrNothingIff(d: Dirs, f: Faults)
    requires d.live.Some? && StagedResult(d, f).Failed?
    ensures (forall gen, snap :: KeepsPromise(d, f, gen, snap)) <==> !Stages(d, f) || RollsBack(d, f) || !f.reopen
  {
    if Stages(d, f) && !RollsBack(d, f) && f.reopen {
      var stray := Stray(f, map[]);
      var gen: Store := if stray == map[] then map[[] := Item([], 0)] else map[];
      assert gen != stray by {
        if stray == map[] { assert [] in gen; }
      }
      assert !KeepsPromise(d, f, gen, map[]);
    }
  }

  /** "No generation is lost" fails on the guard of SurvivesCrashes. After a crash
      between the two renames the next start creates an empty live directory and
      only the backup is complete; a restore whose final open fails then ends with
      neither generation in any directory, though every rollback step succeeded. */
  method CrashThenFailedRestoreLosesBoth(gen: Store, snap: Store) returns (r: RestoreResult, left: Dirs)
    requires gen != map[] && snap != map[]
    ensures r == Failed(OpenRestored) && !Holds(left, gen) && !Holds(left, snap)
  {
    var disk := new Disk(Dirs(None, Some(Complete(snap)), Some(Complete(gen)), None));
    var fsm := OpenNode(disk, true);
    r := fsm.RestoreStaged(snap, Faults(Clean, true, true, true, map[], true, Clean, Clean, true, true, false, Clean, true, true, Clean));
    left := disk.dirs;
  }
}
