/**
 * The store's directory as an in-memory tree, and the lock-marker protocol
 * (Lockfile) that every write goes through. Only what the reference store
 * uses is modelled: exclusive acquire, buffered write, commit, rollback,
 * unlink, rmdir and mkdir_p.
 */
module FileSystem {
  import opened Wrappers
  import opened Errors
  import opened Paths

  type Files = map<Path, string>

  /**
   * The disk is a tree: the root exists, every file, directory and lock
   * marker sits in an existing directory, no path is both a file and a
   * directory, and file paths have valid components.
   */
  ghost predicate WellFormed(files: Files, dirs: set<Path>, locks: map<Path, string>) {
    && [] in dirs
    && (forall p :: p in files ==> p != [] && ValidPath(p) && Parent(p) in dirs && p !in dirs)
    && (forall d :: d in dirs && d != [] ==> Parent(d) in dirs)
    && (forall l :: l in locks ==> ValidPath(l) && (l != [] ==> Parent(l) in dirs))
  }

  /**
   * Directory `d` has no entry: no file, no subdirectory and no lock marker
   * (a marker is a sibling file of the path it locks, so it lives in that
   * path's parent).
   */
  predicate EmptyDir(files: Files, dirs: set<Path>, locks: map<Path, string>, d: Path) {
    && (forall p :: p in files && p != [] ==> Parent(p) != d)
    && (forall q :: q in dirs && q != [] ==> Parent(q) != d)
    && (forall l :: l in locks && l != [] ==> Parent(l) != d)
  }

  /** The non-root directories mkdir_p(d) makes sure of: d and its ancestors. */
  function Ancestors(d: Path): (s: set<Path>)
    ensures forall k :: 1 <= k <= |d| ==> d[..k] in s
    ensures forall a :: a in s ==> a != [] && IsPrefix(a, d)
  {
    set k | 1 <= k <= |d| :: d[..k]
  }

  /** mkdir_p(d) would meet a file where one of the directories must go. */
  predicate Obstructed(files: Files, d: Path) {
    exists k :: 1 <= k <= |d| && d[..k] in files
  }

  /** Every proper ancestor of an existing file is an existing directory. */
  lemma {:induction false} AncestorsOfFileExist(files: Files, dirs: set<Path>, locks: map<Path, string>, p: Path, k: nat)
    requires WellFormed(files, dirs, locks) && p in files && k < |p|
    ensures p[..k] in dirs
    decreases |p| - k
  {
    if k == |p| - 1 {
      assert p[..k] == Parent(p);
    } else {
      AncestorsOfFileExist(files, dirs, locks, p, k + 1);
      assert p[..k] == Parent(p[..k + 1]);
    }
  }

  /** The files and directories of the store's root, and the lock markers held in it. */
  class Disk {
    var files: Files
    var dirs: set<Path>
    /** Held lock markers, each with the content buffered in it so far. */
    var locks: map<Path, string>

    ghost predicate Valid()
      reads this
    {
      WellFormed(files, dirs, locks)
    }

    /** An empty store root. */
    constructor ()
      ensures Valid() && files == map[] && dirs == {[]} && locks == map[]
    {
      files, dirs, locks := map[], {[]}, map[];
    }

    /** File.unlink, with its errors ignored: the path is no longer a file. */
    method Unlink(p: Path)
      requires Valid()
      modifies this
      ensures Valid() && files == old(files) - {p} && dirs == old(dirs) && locks == old(locks)
    {
      files := files - {p};
    }

    /** Dir.rmdir: removes `d` when it is empty, reports ENOTEMPTY (false) otherwise. */
    method Rmdir(d: Path) returns (removed: bool)
      requires Valid() && d in dirs && d != []
      modifies this
      ensures Valid() && files == old(files) && locks == old(locks)
      ensures removed == EmptyDir(old(files), old(dirs), old(locks), d)
      ensures dirs == if removed then old(dirs) - {d} else old(dirs)
    {
      removed := EmptyDir(files, dirs, locks, d);
      if removed {
        dirs := dirs - {d};
      }
    }

    /** FileUtils.mkdir_p: creates `d` and its missing ancestors, failing if a file is in the way. */
    method MkdirP(d: Path) returns (r: Outcome<Error>)
      requires Valid()
      modifies this
      ensures Valid() && files == old(files) && locks == old(locks)
      ensures Obstructed(files, d) ==> r == Fail(NotADirectory) && dirs == old(dirs)
      ensures !Obstructed(files, d) ==> r == Pass && dirs == old(dirs) + Ancestors(d)
    {
      if exists k :: 1 <= k <= |d| && d[..k] in files {
        return Fail(NotADirectory);
      }
      var added := Ancestors(d);
      forall a | a in added ensures Parent(a) in dirs + added {
        var k := |a|;
        assert a == d[..k];
        if k > 1 {
          assert Parent(a) == d[..k - 1];
        }
      }
      dirs := dirs + added;
      r := Pass;
    }
  }

  /**
   * One Lockfile object: the path it guards and whether this object holds the
   * marker. The marker itself, with its buffered content, is part of the disk.
   */
  class Lockfile {
    const path: Path
    var held: bool

    constructor (path: Path)
      ensures this.path == path && !held
    {
      this.path := path;
      held := false;
    }

    /**
     * hold_for_update: exclusive creation of the marker. Fails with
     * LockDenied when a marker exists and with MissingParent when the
     * directory does not; holding it already is a no-op.
     */
    method HoldForUpdate(disk: Disk) returns (r: Outcome<Error>)
      requires disk.Valid() && ValidPath(path) && (held ==> path in disk.locks)
      modifies this, disk
      ensures disk.Valid() && disk.files == old(disk.files) && disk.dirs == old(disk.dirs)
      ensures old(held) ==> r == Pass && held && disk.locks == old(disk.locks)
      ensures !old(held) && path in old(disk.locks) ==>
        r == Fail(LockDenied) && !held && disk.locks == old(disk.locks)
      ensures !old(held) && path !in old(disk.locks) && path != [] && Parent(path) !in disk.dirs ==>
        r == Fail(MissingParent) && !held && disk.locks == old(disk.locks)
      ensures !old(held) && path !in old(disk.locks) && (path == [] || Parent(path) in disk.dirs) ==>
        r == Pass && held && disk.locks == old(disk.locks)[path := []]
    {
      if held {
        return Pass;
      }
      if path in disk.locks {
        return Fail(LockDenied);
      }
      if path != [] && Parent(path) !in disk.dirs {
        return Fail(MissingParent);
      }
      disk.locks := disk.locks[path := []];
      held := true;
      r := Pass;
    }

    /** write: appends to the marker; nothing is visible at the path yet. */
    method Write(disk: Disk, text: string)
      requires disk.Valid() && held && path in disk.locks
      modifies disk
      ensures disk.Valid() && disk.files == old(disk.files) && disk.dirs == old(disk.dirs)
      ensures disk.locks == old(disk.locks)[path := old(disk.locks)[path] + text]
    {
      disk.locks := disk.locks[path := disk.locks[path] + text];
    }

    /**
     * commit: renames the marker over the path, which then holds exactly the
     * buffered text, and releases the lock. Renaming over a directory fails
     * and leaves the marker in place.
     */
    method Commit(disk: Disk) returns (r: Outcome<Error>)
      requires disk.Valid() && held && path in disk.locks
      modifies this, disk
      ensures disk.Valid() && disk.dirs == old(disk.dirs)
      ensures path in old(disk.dirs) ==>
        r == Fail(IsDirectory) && held && disk.files == old(disk.files) && disk.locks == old(disk.locks)
      ensures path !in old(disk.dirs) ==>
        r == Pass && !held && disk.files == old(disk.files)[path := old(disk.locks)[path]]
        && disk.locks == old(disk.locks) - {path}
    {
      if path in disk.dirs {
        return Fail(IsDirectory);
      }
      assert path != [];
      disk.files := disk.files[path := disk.locks[path]];
      disk.locks := disk.locks - {path};
      held := false;
      r := Pass;
    }

    /** rollback: discards the marker if this object holds it; always safe to call. */
    method Rollback(disk: Disk)
      requires disk.Valid()
      modifies this, disk
      ensures disk.Valid() && !held && disk.files == old(disk.files) && disk.dirs == old(disk.dirs)
      ensures disk.locks == if old(held) then old(disk.locks) - {path} else old(disk.locks)
    {
      if held {
        disk.locks := disk.locks - {path};
        held := false;
      }
    }
  }
}
