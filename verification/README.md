# Honeybadger: a verified model

Honeybadger replicates a Badger key-value store through Raft. Every write becomes
one log entry; every node folds the committed entries into its local store. Three
things make that harder than it sounds, and they are what this project proves:

* a snapshot is labelled when it is started but captured later, so the saved data
  may already hold entries past its label, and a restart without a snapshot
  replays from index 1 over data that is already there;
* a restore swaps whole directories and the store handle under a reader/writer
  lock, and any step may fail or be cut off by a crash;
* a batch is applied as all sets and then all deletes, not in the caller's order.

| file | contents |
|---|---|
| `Badger.dfy` | items, stores, expiry; what may be dropped once expired |
| `Commands.dfy` | the command fold, last-writer characterization, replay and convergence |
| `Replication.dfy` | the cluster state machine, its invariant, results over every run |
| `Linearizability.dfy` | clients: acknowledged writes, barrier reads and scans over a run |
| `Examples.dfy` | concrete runs: why hypotheses are needed, and that what the theorems speak of happens |
| `StoreLock.dfy` | the store lock and handle lifetimes, any number of threads |
| `Disk.dfy`, `StateMachine.dfy` | one node: directories, handle, Apply, Persist, Restore |
| `Writes.dfy` | TTL stamping, option folding, batch validation and split |
| `Order.dfy`, `Reads.dfy` | byte order, the read checks, point reads and the prefix scan |
| `Leader.dfy` | waiting for a leader |

`StateMachine.Fsm` is tied to `Replication`: its methods state that a call takes the
node from one the cluster model represents to the one the corresponding cluster step
gives (`Fsm.Represents`).

## What is taken as given

Raft, Badger, gob and the operating system are not part of this model.

* Raft: entries are delivered in index order without gaps after the label; a running
  process never installs a snapshot labelled below what it has been delivered; Apply,
  the start of a snapshot and Restore do not overlap, while Persist may run at any
  later time; without a snapshot a restart delivers from index 1; a barrier is
  satisfied only after its entry was delivered on that node; shutting Raft down waits
  for the backups and restores it runs.
* Badger: a store is a map from keys to items, a transaction takes effect whole or not
  at all, an item may disappear once it has expired by some node's clock, an iterator
  walks live keys in byte order, and opening a directory finds what it holds or creates
  an empty database.
* Encoding and decoding a command are inverse; a decode failure is a failed apply.
* Every store and every snapshot has a `horizon`: the latest clock by which anything
  expired was dropped from that data. Results about what is visible there are for
  clocks at or after it; when it is 0 nothing was dropped and stores are equal item
  by item.

Faults are steps of the cluster model: a failed apply, a failed restore that keeps the
old data (`FailRestore`), and a failed restore that cannot roll back and leaves the live
path empty or holding the snapshot while the cursor stays (`LoseLive`). The results
about reads and convergence ask only that the nodes read from are `Healthy`: since such
a node last started over (empty, from index 1 over its data, or from a snapshot that
misses nothing) no apply failed on it and it lost nothing. Other nodes, and its own
past, may have failed in any way. Runs in which nothing fails are the corollaries.

## Where the code and its comments differ

* fsm.go:177-179 and docs/design.md:114-117 say a failed swap keeps the old data or
  leaves the store unavailable. If the backup cannot be moved back, the reopen creates
  an empty database at the live path and serves it
  (`StateMachine.FailedRestoreCanServeEmpty`). The promise is kept for all data exactly
  when staging fails, the rollback works or the reopen fails
  (`StateMachine.OldDataOrNothingIff`).
* fsm.go:182-184 says a crash can leave either generation on disk. After a crash between
  the two renames the next start creates an empty live directory, and a later restore
  that fails at its last open then leaves neither generation in any directory
  (`StateMachine.CrashThenFailedRestoreLosesBoth`). `RestoreStaged` gives the exact
  condition, for each generation and any residue (`SurvivesCrashes`): one of the two is
  live or in the backup at entry, and is live if the restore reaches its last open, that
  fails, and the restored directory is then removed.
* write.go:46-48 says no node ever observes a partial batch. While a node replays over
  data it already had, one can be seen (`Commands.ReplayShowsPrefixIff` gives the exact
  condition), also by a linearizable scan if a snapshot was installed between its
  barrier and its view (`Examples.ViewAfterInstallCanSplitBatch`).
* fsm.go:19-20 says an expired key never resurrects. That holds for each written
  version; for a key it holds exactly as `Commands.ResurrectsIff` states.
* options.go:51-54: a positive TTL whose deadline lies in the first second of the epoch
  is stamped 0 and never expires (`Writes.TtlHonouredIff`).

## Model

| member | source | states |
|---|---|---|
| Commands.ExecEffect | fsm.go:106-130 | a command is a blind write: the new value of each key is fixed by the entry alone unless the entry leaves the key alone; the last of repeated sets wins and a delete beats every set |
| Commands.ReplayLastWriter | fsm.go:106-130 | replaying a stretch of log gives every key written in it its specified value whatever the store held, and leaves the others |
| Commands.UntouchedStays | fsm.go:106-130 | a key no entry of a stretch writes has the same specified value at both ends |
| Commands.FuzzyReplayConverges | fsm.go:143-155 | from a store in which each key is at its own position between the label and n, replay from the label to n gives the state after n |
| Commands.SnapshotConvergence | docs/design.md:92-96 | a backup labelled i that holds entries through j, followed by i+1..n, is the state after n, for all i <= j <= n |
| Commands.Provenance | fsm.go:108-127 | every item in a log state was written to its key by one entry and not touched since |
| Commands.ReplayShowsPrefixIff | write.go:46-49 | a store holding entries through j that has replayed to c shows a log prefix for every log exactly when c is the start or has reached j |
| Commands.PartialBatch | write.go:46-49 | otherwise a log exists for which one key shows the batch and the other does not |
| Commands.ResurrectsIff | fsm.go:17-21 | exactly when a key that is invisible in the full state is visible at a replay position |
| Commands.ResurrectionExample | options.go:56-61 | a two-entry log in which an expired key is visible again during a replay |
| Replication.ApplyKeepsFuzzy | fsm.go:98-141 | one successful apply keeps every key at a position between the bounds and moves the lower bound up when nothing failed before |
| Replication.StreamKeepsOk | fsm.go:373-390 | a backup streamed at any time after its label is sound, and if the node missed nothing it shows each key at a position between its label and the node's mark, even if expired items were left out |
| Replication.RestoreKeepsOk | fsm.go:160-165 | restoring a saved snapshot, in a running process or at start, keeps the node invariant, and a snapshot that misses nothing gives a node that misses nothing |
| Replication.LossKeepsOk | fsm.go:277-282 | a failed restore that leaves the live path empty or holding the snapshot keeps the node invariant, and misses nothing if that is a clean snapshot labelled at or after the cursor |
| Replication.ReopenMakesClean | db.go:79-87 | restarting from index 1 over the data on disk gives a node that misses nothing, whatever failed before |
| Replication.StepKeepsInv | fsm.go:98-190 | every step of every node, failed applies and failed restores with and without rollback included, keeps the invariant of the whole cluster |
| Replication.HealthyIsClean | fsm.go:87-97 | a node on which nothing went wrong since it started over shows each key at a position between its cursor and its mark, whatever failed before or elsewhere |
| Replication.FaultlessIsHealthy | fsm.go:87-97 | in a run in which nothing fails every node is healthy at every moment |
| Replication.FuzzyInEveryRun | fsm.go:143-155 | in every run without a failed apply or a restore that lost the live data each stored key is at its own position between cursor and high-water mark, the stored entry is exactly that value when nothing was dropped, and the same for each saved snapshot from its label |
| Replication.CaughtUpIsExact | fsm.go:149-155 | a node that misses nothing and has reached its mark shows exactly the log state at any clock past its own drops |
| Replication.NodesConverge | docs/design.md:92-96 | two healthy nodes at the same cursor past their marks, or with the whole log, both show the log state, agree on every read and hold equal stores when nothing expired was dropped, whatever fails on other nodes |
| Replication.FaultlessNodesConverge | docs/design.md:92-96 | the same for any two nodes of a run in which nothing fails |
| Replication.StaleButReal | fsm.go:91-97 | whatever applies and restores fail, every stored entry is some specified value of its key no later than the mark |
| Replication.HealthyHeals | docs/design.md:42-47 | after any failures, a node that started over, from index 1 or from a snapshot that misses nothing, and on which nothing went wrong since, shows exactly the log state once it reaches its mark or has the whole log |
| Replication.VisibleVersionsAreLive | fsm.go:17-21 | in every run whatever a node shows at a clock was written to that key by a log entry whose expiry is 0 or still ahead |
| Replication.CounterInEveryRun | fsm.go:70-81 | the applied index is the greatest log index of a command applied successfully by a step since the last restore or open, 0 if none, and never passes what was delivered |
| Replication.CounterFallsOnlyOnRestore | fsm.go:70-81 | the applied index falls only at a restore or reopen, and then to 0 |
| Linearizability.CursorGrows | read.go:155-169 | without a restart a node's cursor never goes back, so a satisfied barrier stays satisfied through an install |
| Linearizability.ReadHasPosition | read.go:18-36 | a barrier read on a healthy node returns the key's value at a position after everything committed when it began and no later than the commit point at its return, even across a late snapshot install |
| Linearizability.Linearizable | read.go:61-68 | every set of completed writes, and of barrier reads on nodes healthy at the view, has positions that explain all results and strictly respect real-time order, in every run and whatever fails elsewhere |
| Linearizability.FaultlessLinearizable | read.go:61-68 | the same for every set of completed operations of a run in which nothing fails |
| Linearizability.ReadSeesAcknowledgedWrite | db.go:281-308 | a read begun after a write was acknowledged returns that write's effect unless a newer entry touched the key |
| Linearizability.ScanSeesPrefix | read.go:105-136 | a view behind a barrier on a healthy node with no restore in between shows exactly one log prefix containing everything committed before it began |
| Linearizability.BatchIsWholeInPrefix | write.go:46-49 | in a log prefix a batch has happened for all its keys or for none |
| Examples.FailedApplyLeavesGap | fsm.go:91-97 | a run in which one failed apply leaves a node at its mark without the entry, and a later-labelled snapshot without it too |
| Examples.ViewAfterInstallCanSplitBatch | read.go:99-104 | a run without failures in which a view behind a barrier, after an install, finds half of a batch |
| Examples.LostRestoreServesNothingThenHeals | fsm.go:277-282 | a run without a failed apply in which a node that has the whole log serves an empty store after a failed restore, and the log state again after a restart |
| Examples.ReadBack | read.go:61-68 | a run in which a write is acknowledged and read back behind a barrier |
| Examples.LateCallerRun | db.go:269-279 | a run in which a caller passes the open check, Close finishes, and the caller is refused under the lock |
| StoreLock.StepKeepsInv | db.go:245-279 | every step of every thread keeps mutual exclusion and the account of every handle |
| StoreLock.HandlesAreSafe | fsm.go:232-271 | in every interleaving no callback or backup runs on a closed handle or beside an exclusive holder, and no handle is closed twice |
| StoreLock.CallbackSeesOneGeneration | db.go:266-279 | from resolving the handle to finishing, a callback's handle is the published one and open |
| StoreLock.LateCallerIsRefused | db.go:269-279 | a caller past the open check that resolves the handle after Close took the store down is refused, however late it gets the lock |
| StoreLock.CheckLetsThroughIff | db.go:258-271 | the open check lets a caller through exactly when Close had not begun, and refuses it otherwise |
| StoreLock.NilIffDown | fsm.go:232-268 | in every run the handle is nil exactly when a restore or Close has taken the store down and nothing was published since |
| StoreLock.ResolveGivesHandleIff | db.go:272-279 | under the lock a caller gets the published handle exactly when the store is not down, else it is refused |
| StoreLock.RefusedIff | db.go:266-279 | a thread is refused exactly when its check came after Close began or its resolve found the store down; nobody else is turned away |
| StoreLock.SwapNeedsLoad | fsm.go:222-236 | a restore waits for the exclusive lock only after its snapshot was loaded, or when it works in place |
| StoreLock.FailedLoadEnds | fsm.go:222-230 | a restore whose load failed takes no further step |
| StoreLock.NoDeadlock | db.go:232-279 | in every reachable state in which some caller, backup, restore or Close is under way, one of them can take a step |
| StoreLock.EveryHandleClosedOnce | db.go:247-256 | once Close has taken the store down every instance ever opened has been closed exactly once |
| StateMachine.DB.constructor | db.go:79-87 | opening finds the data on disk or creates an empty store |
| StateMachine.DB.CloseStore | db.go:247-256 | the handle is cleared, and an error is reported only if there was one to close |
| StateMachine.DB.Close | db.go:232-243 | the first call closes everything and joins the errors; later calls change nothing and return the same |
| StateMachine.DB.ReopenLocked | fsm.go:298-306 | reopening serves what is at the live path, creating it if missing, or leaves nil |
| StateMachine.OpenNode | db.go:76-87 | opening refines the cluster's reopen, or a fresh node when nothing is on disk |
| StateMachine.Fsm.Apply | fsm.go:98-141 | exactly when a command is applied, that it then is the whole fold with the index advanced, that otherwise nothing changes, and that this is the cluster's apply step |
| StateMachine.Fsm.Persist | fsm.go:373-390 | a backup is saved exactly when the handle is live and both the backup and the sink succeed, it is the current store, and a cancel failure takes precedence |
| StateMachine.Fsm.Stage | fsm.go:207-230 | staging succeeds exactly when its five steps do, which step fails first otherwise, that a failed open, load or close is cleaned up, and that only the staging directory is touched, at every crash point too |
| StateMachine.Fsm.MoveAside | fsm.go:236-252 | the live directory is moved aside exactly when it exists, the old backup is gone and the rename succeeds; otherwise it stays and is reopened |
| StateMachine.Fsm.RollbackAndReopenLocked | fsm.go:277-282 | the resulting directories and handle whether or not the rename back succeeds |
| StateMachine.Fsm.PutInPlace | fsm.go:253-271 | success publishes the snapshot; a failure with a working rollback serves the old generation or nil; without one the old generation stays in the backup; which arrangements a crash inside can leave |
| StateMachine.Fsm.Swap | fsm.go:232-272 | from any leftover directories: which swap step fails first, what is then served and at the live path, and where each generation is |
| StateMachine.SwapCrashes | fsm.go:182-187 | the crash points of a whole restore keep a generation exactly under SurvivesCrashes |
| StateMachine.Fsm.RestoreStaged | fsm.go:204-272 | a restore succeeds exactly when each of its steps does, from any residue, and what it leaves; what each failure serves, the counter, for each generation exactly when every crash point keeps it or the snapshot complete, and that it refines the cluster's restore steps, those without rollback included |
| StateMachine.StagedOutcome | fsm.go:204-272 | each failure names the step that failed with all earlier ones done, and what the node serves after it: the store as it was, nothing, the old data, the snapshot or what a half-done removal left |
| StateMachine.Fsm.RestoreInPlace | fsm.go:316-354 | all or nil: success exactly when every step over both directories succeeds, then the whole snapshot with counter 0, otherwise a nil handle and an untouched counter |
| StateMachine.InPlaceOutcome | fsm.go:316-354 | each in-place failure names the step that failed with all earlier ones done |
| StateMachine.Fsm.Restore | fsm.go:190-202 | the layout chooses the path: the result and what is served afterwards in each case, the counter, exactly when a co-located restore keeps a complete generation at every crash point, and the cluster step a success takes |
| StateMachine.FailedRestoreCanServeEmpty | fsm.go:175-183 | a failed restore that serves an empty store |
| StateMachine.OldDataOrNothingIff | fsm.go:175-183 | exactly which failures serve the old data or nothing for all data |
| StateMachine.CrashThenFailedRestoreLosesBoth | fsm.go:239-262 | crash residue from which a failed restore with working rollback leaves neither generation |
| Writes.StampedLifetime | write.go:95-100 | a stamped version is never the forever value, is invisible from now + ttl on, and visible up to now + ttl - 1s |
| Writes.TtlHonouredIff | options.go:51-54 | a positive TTL is honoured exactly when its deadline is at least one second after the epoch |
| Writes.ResolveSetOptions | options.go:69-88 | rejected exactly for an unknown option or a last TTL that is not positive; no option is stamped 0, else the last TTL decides |
| Writes.AcceptableIffNoFault | write.go:51-56 | the documented acceptance rule holds exactly when no position has a fault |
| Writes.AcceptableMeans | write.go:64-88 | accepted exactly when, one mutation at a time, the key is non-empty and new, the kind known, every option known and the last TTL positive; and which reason is given when several apply |
| Writes.Batch | write.go:57-90 | accepted exactly when acceptable; the submitted command does to every store what the mutations ask for; any other batch is rejected at the least offending position with its reason, an empty one does nothing |
| Writes.AcceptedMeansMutations | write.go:64-90 | after the built command each set key holds the mutation's value for as long as its last TTL asks, forever without one, each deleted key is gone and every other key is as before |
| Writes.StampLives | options.go:69-88 | an entry stamped for its options is visible at every clock when there is no TTL; else visible until one second before the last TTL's deadline and invisible from the deadline on |
| Writes.SetBytes | write.go:21-30 | submitted exactly for a non-empty key and valid options; the command sets that key and nothing else, and the value stays visible for as long as the options ask |
| Writes.DeleteBytes | write.go:39-44 | submitted exactly for a non-empty key, and the command removes that key and nothing else |
| Writes.SplitMeansOrderIff | write.go:64-89 | sets-then-deletes means the caller's order for every store exactly when no key is set after its last delete |
| Writes.BatchMeansAnyOrder | write.go:46-49 | with distinct keys the built command means the mutations in any order |
| Writes.AcceptedHasDistinctKeys | write.go:71-74 | the stamped mutations of an accepted batch have distinct keys and the built command means the caller's order |
| Order.PrefixBlockIsContiguous | read.go:118-118 | in byte order nothing between a prefix and one of its keys fails to start with it |
| Order.LessIsByteOrder | read.go:95-97 | a key comes before another exactly when it is a proper prefix or has the smaller byte where they first differ |
| Order.OrderedIsAscending | read.go:95-97 | the iterator's key sequence is strictly ascending, byte by byte |
| Reads.PrepareRead | read.go:18-36 | a linearizable read goes ahead exactly on an open leader behind a passed barrier; a local one on an open node |
| Reads.GetBytes | read.go:85-93 | exactly when a value, a missing key or a closed node is reported, and that the value is the visible one |
| Reads.MatchesAreOneBlock | read.go:118-118 | the matches in sorted entries are one block starting at the seek position |
| Reads.ScanLoop | read.go:113-131 | the seek, valid-for-prefix, limit loop returns the first entries of the sorted, filtered live entries |
| Reads.ScanPrefixBytes | read.go:105-136 | the same with the resolved limit and the read checks |
| Reads.ScanIsFirstLiveMatches | read.go:95-104 | the result ascends byte by byte, each entry agrees with the point read, and nothing with the prefix is left out unless the limit was reached with keys below it in byte order |
| Leader.WaitForLeader | cluster.go:140-154 | at most ceil(timeout / 20ms) + 1 polls, one for a non-positive timeout; the first leader seen is returned, and no leader only if no poll saw one |

## Left out

- Raft internals (elections, quorums, membership changes, log truncation): replaced by the assumptions above.
- Badger internals, gob, BoltDB, TCP and fsync: a store is a map, an open directory is its data.
- Writes.StampedLifetime: the clock and the deadline are taken inside the unsigned 64-bit range of seconds; outside it the stamp wraps as the conversion does.
- Linearizability.Linearizable: a read's clock is taken to be no earlier than any clock by which expired items were dropped from the store that is read; an earlier clock could miss an item whose expiry the read does not see yet.
- Replication.StepKeepsInv: two residues are no steps of the model, a partially loaded in-place restore that is reopened without a snapshot and the remains of a half-done removal served after a failed restore; `Fsm.RestoreStaged` still says what is served then.
- Status, Members, AddVoter, RemoveNode, role and state names, configuration defaults, NewCluster and open options: each is settled by reading one branch.
- `ViewBadger` runs an arbitrary callback; it is covered as a view of the whole store in `Linearizability.ScanSeesPrefix`.
- Copying of keys and values by the mutation constructors: values do not alias in the model.
- The library's answer to a submitted entry (timeouts, lost leadership): a write counts as acknowledged only when it completed.
- Liveness of the lock beyond the absence of deadlock (the priority of a waiting writer, nested shared locking) and liveness of the cluster.
- Log output and error texts.
