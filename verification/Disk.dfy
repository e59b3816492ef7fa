/** The directories a node's database lives in. Every operation may fail; which
    one does is an argument, and `crashes` collects every arrangement of
    directories that a crash during an operation could leave behind. */
module Disk {
  import opened Badger

  datatype Path = Live | Staging | Backup | ValueLog

  /** Complete: a closed or serving database with this data. Partial: a directory
      interrupted in the middle of a load or a removal; opening it finds `data`. */
  datatype Dir = Complete(data: Store) | Partial(data: Store)

  datatype Dirs = Dirs(live: Option<Dir>, staging: Option<Dir>, backup: Option<Dir>, valueLog: Option<Dir>)

  function Get(d: Dirs, p: Path): Option<Dir> {
    match p
    case Live => d.live
    case Staging => d.staging
    case Backup => d.backup
    case ValueLog => d.valueLog
  }

  function With(d: Dirs, p: Path, dir: Option<Dir>): Dirs {
    match p
    case Live => d.(live := dir)
    case Staging => d.(staging := dir)
    case Backup => d.(backup := dir)
    case ValueLog => d.(valueLog := dir)
  }

  /** How a recursive removal of an existing directory ends. */
  datatype Removal = Clean | Stuck | Torn(rest: Store)

  predicate Removes(d: Dirs, p: Path, fate: Removal) {
    Get(d, p).None? || fate.Clean?
  }

  function AfterRemoval(d: Dirs, p: Path, fate: Removal): Dirs {
    if Get(d, p).None? then d
    else match fate
      case Clean => With(d, p, None)
      case Stuck => d
      case Torn(rest) => With(d, p, Some(Partial(rest)))
  }

  /** A removal caught in the middle, unless it does not get to remove anything. */
  function Damaged(d: Dirs, p: Path, fate: Removal): Dirs {
    if Get(d, p).None? || fate.Stuck? then d else With(d, p, Some(Partial(Get(d, p).value.data)))
  }

  /** A rename never replaces a directory. */
  predicate Renames(d: Dirs, a: Path, b: Path, ok: bool) {
    ok && Get(d, a).Some? && Get(d, b).None?
  }

  function Renamed(d: Dirs, a: Path, b: Path): Dirs {
    With(With(d, b, Get(d, a)), a, None)
  }

  /** What opening a directory finds: a missing one is created empty. */
  function Found(d: Dirs, p: Path): Store {
    if Get(d, p).None? then map[] else Get(d, p).value.data
  }

  function Opened(d: Dirs, p: Path): Dirs {
    if Get(d, p).None? then With(d, p, Some(Complete(map[]))) else d
  }

  class Disk {
    var dirs: Dirs
    ghost var crashes: set<Dirs>

    constructor (dirs: Dirs)
      ensures this.dirs == dirs && crashes == {}
    {
      this.dirs := dirs;
      crashes := {};
    }

    /** Starts a new crash record. */
    ghost method Forget()
      modifies this`crashes
      ensures crashes == {}
    {
      crashes := {};
    }

    method RemoveAll(p: Path, fate: Removal) returns (ok: bool)
      modifies this
      ensures ok == Removes(old(dirs), p, fate)
      ensures dirs == AfterRemoval(old(dirs), p, fate)
      ensures crashes == old(crashes) + {Damaged(old(dirs), p, fate), dirs}
    {
      ok := Get(dirs, p).None? || fate.Clean?;
      crashes := crashes + {Damaged(dirs, p, fate)};
      dirs := AfterRemoval(dirs, p, fate);
      crashes := crashes + {dirs};
    }

    method MkdirAll(p: Path, ok: bool) returns (done: bool)
      modifies this
      ensures done == ok
      ensures dirs == if ok then Opened(old(dirs), p) else old(dirs)
      ensures crashes == old(crashes) + {dirs}
    {
      done := ok;
      if ok { dirs := Opened(dirs, p); }
      crashes := crashes + {dirs};
    }

    method Rename(a: Path, b: Path, ok: bool) returns (done: bool)
      modifies this
      ensures done == Renames(old(dirs), a, b, ok)
      ensures dirs == if done then Renamed(old(dirs), a, b) else old(dirs)
      ensures crashes == old(crashes) + {dirs}
    {
      done := ok && Get(dirs, a).Some? && Get(dirs, b).None?;
      if done { dirs := Renamed(dirs, a, b); }
      crashes := crashes + {dirs};
    }

    method Open(p: Path, ok: bool) returns (s: Option<Store>)
      modifies this
      ensures s == if ok then Some(Found(old(dirs), p)) else None
      ensures dirs == if ok then Opened(old(dirs), p) else old(dirs)
      ensures crashes == old(crashes) + {dirs}
    {
      s := None;
      if ok {
        s := Some(Found(dirs, p));
        dirs := Opened(dirs, p);
      }
      crashes := crashes + {dirs};
    }

    /** Loading a snapshot into an opened directory, all of it or up to `rest`. Until
        it is settled the directory does not count as complete. */
    method Load(p: Path, ok: bool, data: Store, rest: Store) returns (done: bool)
      modifies this
      ensures done == ok
      ensures dirs == With(old(dirs), p, Some(Partial(if ok then data else rest)))
      ensures crashes == old(crashes) + {With(old(dirs), p, Some(Partial(rest))), dirs}
    {
      done := ok;
      crashes := crashes + {With(dirs, p, Some(Partial(rest)))};
      dirs := With(dirs, p, Some(Partial(if ok then data else rest)));
      crashes := crashes + {dirs};
    }

    /** The loaded instance is closed, or put into service: what it holds is complete. */
    method Settle(p: Path, ok: bool) returns (done: bool)
      requires Get(dirs, p).Some?
      modifies this
      ensures done == ok
      ensures dirs == if ok then With(old(dirs), p, Some(Complete(Get(old(dirs), p).value.data))) else old(dirs)
      ensures crashes == old(crashes) + {dirs}
    {
      done := ok;
      if ok { dirs := With(dirs, p, Some(Complete(Get(dirs, p).value.data))); }
      crashes := crashes + {dirs};
    }

    /** The engine writes into its directory. */
    method Fill(p: Path, dir: Dir)
      modifies this
      ensures dirs == With(old(dirs), p, Some(dir))
      ensures crashes == old(crashes) + {dirs}
    {
      dirs := With(dirs, p, Some(dir));
      crashes := crashes + {dirs};
    }
  }
}
