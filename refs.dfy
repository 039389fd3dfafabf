/**
 * The write side of the reference store and its listings: the Refs class,
 * whose methods lock, write, commit or roll back, and unlink on the disk
 * it is given, and the pure specifications those methods are proved against.
 */
module RefStore {
  import opened Wrappers
  import opened Errors
  import opened Paths
  import opened RefContent
  import opened FileSystem
  import opened RefRead

  /** The check update_ref_file runs while holding the lock: none, or compare_and_swap's expected value. */
  datatype Guard = Unconditional | Expect(prior: Option<string>)

  /** The files after update_ref_file has written `oid` at `p` (None removes the file). */
  function Written(files: Files, p: Path, oid: Option<string>): (r: Files)
    ensures oid.Some? ==> p in r && r[p] == Serialize(oid.value)
    ensures oid.None? ==> p !in r
    ensures forall q :: q != p ==> (q in r <==> q in files)
    ensures forall q :: q != p && q in files ==> r[q] == files[q]
  {
    match oid
    case Some(v) => files[p := Serialize(v)]
    case None => files - {p}
  }

  predicate GuardHolds(files: Files, p: Path, guard: Guard) {
    guard.Expect? ==> ReadSymref(files, p, {}) == Success(guard.prior)
  }

  /**
   * The condition update_ref_file raises, in the order it meets them: the
   * lock is taken; a missing directory is created (which fails when a file
   * is in the way); the guard is checked under the lock; the commit fails
   * onto a directory. None when the write goes through.
   */
  function WriteError(files: Files, dirs: set<Path>, locks: map<Path, string>, p: Path, oid: Option<string>, guard: Guard): Option<Error> {
    if AcquireError(files, dirs, locks, p).Some? then AcquireError(files, dirs, locks, p)
    else if !GuardHolds(files, p, guard) then
      Some(if ReadSymref(files, p, {}).Failure? then SymrefLoop else StaleValue)
    else if oid.Some? && p in dirs then Some(IsDirectory)
    else None
  }

  /** Why the lock on `p` cannot be had, even after creating its missing directory. */
  function AcquireError(files: Files, dirs: set<Path>, locks: map<Path, string>, p: Path): Option<Error> {
    if p in locks then Some(LockDenied)
    else if p != [] && Parent(p) !in dirs && Obstructed(files, Parent(p)) then Some(NotADirectory)
    else None
  }

  /** The directories after update_ref_file: mkdir_p ran when the lock was refused for a missing parent. */
  function DirsAfterWrite(files: Files, dirs: set<Path>, locks: map<Path, string>, p: Path): set<Path> {
    if p !in locks && p != [] && Parent(p) !in dirs && !Obstructed(files, Parent(p))
    then dirs + Ancestors(Parent(p))
    else dirs
  }

  function ToOutcome(e: Option<Error>): Outcome<Error> {
    match e
    case None => Pass
    case Some(err) => Fail(err)
  }

  /**
   * The whole effect of one update_ref_file call, from the state before to
   * the state after. The lock is released on every path but one: a cycle
   * met by the guard's read is a SystemStackError, which `rescue => error`
   * does not catch, so the marker stays behind.
   */
  ghost predicate RefFileWritten(files0: Files, dirs0: set<Path>, locks0: map<Path, string>,
                                 files1: Files, dirs1: set<Path>, locks1: map<Path, string>,
                                 p: Path, oid: Option<string>, guard: Guard, r: Outcome<Error>)
  {
    && locks1 == (if r == Fail(SymrefLoop) then locks0[p := []] else locks0)
    && dirs1 == DirsAfterWrite(files0, dirs0, locks0, p)
    && r == ToOutcome(WriteError(files0, dirs0, locks0, p, oid, guard))
    && files1 == (if r.Pass? then Written(files0, p, oid) else files0)
  }

  /**
   * Compare-and-swap excludes a second winner: once a swap from `prior` to a
   * different plain value `next` has gone through, another swap that expects
   * `prior` fails, and on an unlocked path in an existing directory it fails
   * with StaleValue.
   */
  lemma CasExcludesSecond(files: Files, dirs: set<Path>, locks: map<Path, string>, p: Path,
                          prior: Option<string>, next: string, other: Option<string>)
    requires Plain(next) && prior != Some(next)
    ensures WriteError(Written(files, p, Some(next)), dirs, locks, p, other, Expect(prior)) != None
    ensures p !in locks && (p == [] || Parent(p) in dirs) ==>
      WriteError(Written(files, p, Some(next)), dirs, locks, p, other, Expect(prior)) == Some(StaleValue)
  {
    ReadSymrefAfterWrite(files, p, next, {});
  }

  // ---------------------------------------------------------------------
  // update_symref
  // ---------------------------------------------------------------------

  /** Where update_symref ends: at a terminal it commits, at a hop already locked, or at a hop without a directory. */
  datatype WalkEnd = Terminal(path: Path, prior: Option<string>) | Blocked | Orphan

  /**
   * The hops update_symref takes: it locks each hop (`held` are the markers
   * already present) and follows symbolic content; the first hop that is not
   * symbolic is the terminal, whose previous direct value is reported.
   */
  function SymrefWalk(files: Files, dirs: set<Path>, held: set<Path>, p: Path): (w: WalkEnd)
    ensures w.Terminal? ==> w.path !in held && !IsSymbolic(files, w.path)
    ensures w.Terminal? ==> w.path == [] || Parent(w.path) in dirs
    ensures w.Terminal? ==> (w.prior.Some? <==> w.path in files)
    decreases files.Keys - held
  {
    if p in held then Blocked
    else if p != [] && Parent(p) !in dirs then Orphan
    else if p !in files then Terminal(p, None)
    else match Parse(files[p])
      case Direct(oid) => Terminal(p, Some(oid))
      case Symbolic(t) => SymrefWalk(files, dirs, held + {p}, SplitPath(t))
  }

  /** The whole effect of one update_symref call. */
  ghost predicate SymrefUpdated(files0: Files, dirs0: set<Path>, locks0: map<Path, string>,
                                files1: Files, locks1: map<Path, string>,
                                p: Path, oid: string, r: Result<Option<string>, Error>)
  {
    match SymrefWalk(files0, dirs0, locks0.Keys, p)
    case Blocked => r == Failure(LockDenied) && files1 == files0 && locks1 == locks0
    case Orphan => r == Failure(MissingParent) && files1 == files0 && locks1 == locks0
    case Terminal(t, prior) =>
      if t in dirs0 then
        // the commit fails and, with no rescue around it, the terminal's marker stays behind
        r == Failure(IsDirectory) && files1 == files0 && locks1 == locks0[t := Serialize(oid)]
      else
        r == Success(prior) && files1 == files0[t := Serialize(oid)] && locks1 == locks0
  }

  /** Taking a lock that was free and then releasing it leaves the markers as they were. */
  lemma LockThenRelease(locks: map<Path, string>, p: Path)
    requires p !in locks
    ensures locks[p := []] - {p} == locks
    ensures locks[p := []].Keys == locks.Keys + {p}
  {
  }

  /** Taking a free lock, buffering into it and then discarding it leaves the markers as they were. */
  lemma LockWriteRelease(locks: map<Path, string>, p: Path, buffer: string)
    requires p !in locks
    ensures locks[p := []][p := buffer] - {p} == locks
  {
  }

  /** One symbolic hop of update_symref: the outcome from `path` is the outcome from its target with `path` locked, and the hop's lock released. */
  lemma SymrefHop(files0: Files, dirs0: set<Path>, locks0: map<Path, string>,
                  files1: Files, locks1: map<Path, string>, path: Path, oid: string, r: Result<Option<string>, Error>)
    requires path !in locks0 && (path == [] || Parent(path) in dirs0)
    requires path in files0 && Parse(files0[path]).Symbolic?
    requires SymrefUpdated(files0, dirs0, locks0[path := []], files1, locks1,
                           SplitPath(Parse(files0[path]).target), oid, r)
    ensures SymrefUpdated(files0, dirs0, locks0, files1, locks1 - {path}, path, oid, r)
  {
    var target := SplitPath(Parse(files0[path]).target);
    LockThenRelease(locks0, path);
    var w := SymrefWalk(files0, dirs0, locks0.Keys + {path}, target);
    assert SymrefWalk(files0, dirs0, locks0.Keys, path) == w;
    if w.Terminal? && w.path in dirs0 {
      assert w.path != path;
      assert locks0[path := []][w.path := Serialize(oid)] - {path} == locks0[w.path := Serialize(oid)];
    }
  }

  /** A hop that is unlocked, has its directory and is not symbolic is the terminal, where update_symref commits. */
  lemma SymrefEndsHere(files: Files, dirs: set<Path>, locks: map<Path, string>, path: Path, oid: string)
    requires path !in locks && (path == [] || Parent(path) in dirs)
    requires !(path in files && Parse(files[path]).Symbolic?)
    ensures path in dirs ==>
      SymrefUpdated(files, dirs, locks, files, locks[path := Serialize(oid)], path, oid, Failure(IsDirectory))
    ensures path !in dirs ==>
      SymrefUpdated(files, dirs, locks, files[path := Serialize(oid)], locks, path, oid,
                    Success(if path in files then Some(Parse(files[path]).oid) else None))
  {
    var prior := if path in files then Some(Parse(files[path]).oid) else None;
    if path in files {
      assert Parse(files[path]) == Direct(prior.value);
    }
    assert SymrefWalk(files, dirs, locks.Keys, path) == Terminal(path, prior);
  }

  /** A hop that is locked already, or whose directory is missing, stops update_symref before anything changes. */
  lemma SymrefRefused(files: Files, dirs: set<Path>, locks: map<Path, string>, path: Path, oid: string)
    requires path in locks || (path != [] && Parent(path) !in dirs)
    ensures SymrefUpdated(files, dirs, locks, files, locks, path, oid,
                          Failure(if path in locks then LockDenied else MissingParent))
  {
  }

  /**
   * update_symref reports what read_symref reads: on a tree with no lock
   * held, a chain that resolves ends at a terminal whose previous value is
   * the resolved value (or at a missing directory when nothing is there).
   */
  lemma {:induction false} WalkAgreesWithRead(files: Files, dirs: set<Path>, locks: map<Path, string>,
                                              held: set<Path>, p: Path)
    requires WellFormed(files, dirs, locks)
    requires forall h :: h in held ==> IsSymbolic(files, h)
    requires ReadSymref(files, p, held).Success?
    ensures SymrefWalk(files, dirs, held, p).Terminal? ==>
      SymrefWalk(files, dirs, held, p).prior == ReadSymref(files, p, held).value
    ensures SymrefWalk(files, dirs, held, p).Orphan? ==> p !in files || ReadSymref(files, p, held) == Success(None)
    ensures !SymrefWalk(files, dirs, held, p).Blocked?
    decreases files.Keys - held
  {
    if p in files && Parse(files[p]).Symbolic? {
      var t := SplitPath(Parse(files[p]).target);
      WalkAgreesWithRead(files, dirs, locks, held + {p}, t);
    }
  }

  /**
   * Write-through: when HEAD holds "ref: refs/heads/<q>" and that branch is
   * direct, update_head lands on the branch (HEAD's own content is kept)
   * and reports the branch's previous value.
   */
  lemma UpdateHeadWritesThrough(files: Files, dirs: set<Path>, q: Path, prior: string)
    requires WellFormed(files, dirs, map[])
    requires ValidPath(q) && q != [] && forall i :: 0 <= i < |q| ==> Plain(q[i])
    requires HEAD in files && files[HEAD] == Serialize(SymrefText(JoinPath(HeadsDir + q)))
    requires HeadsDir + q in files && Parse(files[HeadsDir + q]) == Direct(prior)
    ensures SymrefWalk(files, dirs, {}, HEAD) == Terminal(HeadsDir + q, Some(prior))
  {
    var branch := HeadsDir + q;
    BranchSymref(q);
    assert Parse(files[HEAD]) == Symbolic(JoinPath(branch));
    assert Parent(HEAD) == [];
    assert {} + {HEAD} == {HEAD};
    assert SymrefWalk(files, dirs, {}, HEAD) == SymrefWalk(files, dirs, {HEAD}, branch);
    assert branch !in {HEAD} && Parent(branch) in dirs;
    assert SymrefWalk(files, dirs, {HEAD}, branch) == Terminal(branch, Some(prior));
  }

  // ---------------------------------------------------------------------
  // delete_parent_directories
  // ---------------------------------------------------------------------

  /**
   * The directories delete_parent_directories removes, ascending from `d`:
   * it stops at refs/heads (or the store root) and at the first directory
   * that is not empty.
   */
  function Pruned(files: Files, dirs: set<Path>, locks: map<Path, string>, d: Path): (s: set<Path>)
    ensures forall x :: x in s ==> x in dirs && x != [] && x != HeadsDir && IsPrefix(x, d)
    decreases |d|
  {
    if d == [] || d == HeadsDir || d !in dirs || !EmptyDir(files, dirs, locks, d) then {}
    else
      var rest := Pruned(files, dirs - {d}, locks, Parent(d));
      assert forall x :: x in rest ==> IsPrefix(x, d) by {
        forall x | x in rest ensures IsPrefix(x, d) {
          assert IsPrefix(x, Parent(d));
          assert d[..|x|] == Parent(d)[..|x|];
        }
      }
      {d} + rest
  }

  /** The directory at the end of an otherwise empty chain below refs/heads/<c> holds nothing. */
  lemma ChainEndIsEmpty(files: Files, dirs: set<Path>, locks: map<Path, string>, d: Path)
    requires |d| > |HeadsDir|
    requires forall p :: p in files ==> !IsPrefix(d[..3], p)
    requires forall l :: l in locks && l != [] ==> !IsPrefix(d[..3], Parent(l))
    requires forall q :: q in dirs && IsPrefix(d[..3], q) ==> IsPrefix(q, d)
    ensures EmptyDir(files, dirs, locks, d)
  {
    var top := d[..3];
    assert IsPrefix(top, d);
    forall p | p in files && p != [] ensures Parent(p) != d {
      if Parent(p) == d {
        PrefixThroughParent(top, p);
      }
    }
    forall q | q in dirs && q != [] ensures Parent(q) != d {
      if Parent(q) == d {
        PrefixThroughParent(top, q);
      }
    }
  }

  /**
   * Deleting the only branch of a nested subtree refs/heads/<c>/...: when no
   * file and no lock marker lies under refs/heads/<c> and its directories are
   * just the chain down to `d`, the ascent from `d` removes every directory of
   * that chain and stops at refs/heads.
   */
  lemma {:induction false} PrunesEmptyChain(files: Files, dirs: set<Path>, locks: map<Path, string>, d: Path)
    requires IsPrefix(HeadsDir, d)
    requires forall k :: |HeadsDir| < k <= |d| ==> d[..k] in dirs
    requires |d| > |HeadsDir| ==> forall p :: p in files ==> !IsPrefix(d[..3], p)
    requires |d| > |HeadsDir| ==> forall l :: l in locks && l != [] ==> !IsPrefix(d[..3], Parent(l))
    requires |d| > |HeadsDir| ==> forall q :: q in dirs && IsPrefix(d[..3], q) ==> IsPrefix(q, d)
    ensures Pruned(files, dirs, locks, d) == set k | |HeadsDir| < k <= |d| :: d[..k]
    decreases |d|
  {
    if |d| == |HeadsDir| {
      assert d == HeadsDir;
    } else {
      assert d in dirs by { assert d[..|d|] == d; }
      ChainEndIsEmpty(files, dirs, locks, d);
      var up := Parent(d);
      var dirs' := dirs - {d};
      forall k | |HeadsDir| < k <= |up| ensures up[..k] in dirs' {
        assert up[..k] == d[..k];
      }
      if |up| > |HeadsDir| {
        assert up[..3] == d[..3];
        forall q | q in dirs' && IsPrefix(up[..3], q) ensures IsPrefix(q, up) {
          assert IsPrefix(q, d) && q != d;
          assert up[..|q|] == d[..|q|];
        }
      }
      PrunesEmptyChain(files, dirs', locks, up);
      assert Pruned(files, dirs, locks, d) == {d} + Pruned(files, dirs', locks, up);
      ChainStep(d);
    }
  }

  /** The directories strictly below refs/heads down to `d`, one level at a time. */
  lemma ChainStep(d: Path)
    requires |d| > |HeadsDir|
    ensures (set k | |HeadsDir| < k <= |d| :: d[..k]) == {d} + (set k | |HeadsDir| < k <= |Parent(d)| :: Parent(d)[..k])
  {
    var up := Parent(d);
    forall k | |HeadsDir| < k <= |up| ensures up[..k] == d[..k] { }
    assert d[..|d|] == d;
  }

  /**
   * As written, delete_branch prunes while it still holds the branch's lock,
   * and the lock marker sits in the branch's own directory: that directory
   * is never empty, so below refs/heads nothing is ever removed.
   */
  lemma PruneBlockedByOwnLock(files: Files, dirs: set<Path>, locks: map<Path, string>, path: Path)
    requires path != [] && path in locks && Parent(path) != HeadsDir
    ensures Pruned(files, dirs, locks, Parent(path)) == {}
  {
  }

  /** The outcome delete_branch reports for the branch file `path`, from the state before it runs. */
  function DeleteOutcome(files: Files, dirs: set<Path>, locks: map<Path, string>, path: Path): Result<string, Error>
    requires path != []
  {
    if path in locks then Failure(LockDenied)
    else if Parent(path) !in dirs then Failure(MissingParent)
    else match ReadSymref(files, path, {})
      case Failure(e) => Failure(e)
      case Success(None) => Failure(InvalidBranch(NotFound))
      case Success(Some(oid)) => Success(oid)
  }

  /**
   * Creating a branch and deleting it again gives back its start value and
   * the files as they were.
   */
  lemma CreateThenDelete(files: Files, dirs: set<Path>, locks: map<Path, string>, path: Path, start: string)
    requires path != [] && path !in files && path !in locks && Parent(path) in dirs && Plain(start)
    ensures DeleteOutcome(files[path := Serialize(start)], dirs, locks, path) == Success(start)
    ensures files[path := Serialize(start)] - {path} == files
  {
    ReadSymrefAfterWrite(files, path, start, {});
  }

  /** A delete that succeeds reports the value the branch resolved to, and the branch then reads as absent. */
  lemma DeleteReadsBack(files: Files, dirs: set<Path>, locks: map<Path, string>, path: Path)
    requires path != [] && DeleteOutcome(files, dirs, locks, path).Success?
    ensures path in files && ReadSymref(files, path, {}) == Success(Some(DeleteOutcome(files, dirs, locks, path).value))
    ensures ReadSymref(files - {path}, path, {}) == Success(None)
  {
    assert path !in locks && Parent(path) in dirs;
    var v := ReadSymref(files, path, {});
    assert v.Success? && v.value.Some?;
  }

  /** How reverse_refs reads one listed name: the value it resolves to, none, or the failure. */
  type Reader = string -> Result<Option<string>, Error>

  /** `n` resolves, and is filed under its value when it has one. */
  predicate Filed(read: Reader, table: map<string, seq<string>>, n: string) {
    match read(n)
    case Failure(_) => false
    case Success(None) => true
    case Success(Some(o)) => o in table && n in table[o]
  }

  /**
   * The table reverse_refs builds from `names`, in order: each name that
   * resolves is appended to its value's list; the first read that fails
   * fails the whole table.
   */
  function Reverse(read: Reader, names: seq<string>): Result<map<string, seq<string>>, Error>
    decreases |names|
  {
    if names == [] then Success(map[])
    else
      var n := names[|names| - 1];
      match Reverse(read, names[..|names| - 1])
      case Failure(e) => Failure(e)
      case Success(t) =>
        match read(n)
        case Failure(e) => Failure(e)
        case Success(None) => Success(t)
        case Success(Some(o)) => Success(t[o := (if o in t then t[o] else []) + [n]])
  }

  /** Every list in the table is non-empty and holds only names among `names` that resolve to its key. */
  lemma {:induction false} ReverseSound(read: Reader, names: seq<string>)
    requires Reverse(read, names).Success?
    ensures forall o :: o in Reverse(read, names).value ==> Reverse(read, names).value[o] != []
    ensures forall o, n :: o in Reverse(read, names).value && n in Reverse(read, names).value[o] ==>
      n in names && read(n) == Success(Some(o))
    decreases |names|
  {
    if names != [] {
      var init := names[..|names| - 1];
      ReverseSound(read, init);
      assert forall n :: n in init ==> n in names;
    }
  }

  /** Every name of `names` resolves, and is filed under its value when it has one. */
  lemma {:induction false} ReverseComplete(read: Reader, names: seq<string>)
    requires Reverse(read, names).Success?
    ensures forall n :: n in names ==> Filed(read, Reverse(read, names).value, n)
    decreases |names|
  {
    if names != [] {
      var init := names[..|names| - 1];
      var last := names[|names| - 1];
      ReverseComplete(read, init);
      var t := Reverse(read, init).value;
      var t' := Reverse(read, names).value;
      forall n | n in names ensures Filed(read, t', n) {
        if n != last {
          assert n in init by {
            var i :| 0 <= i < |names| && names[i] == n;
            assert i < |names| - 1 && init[i] == n;
          }
          assert Filed(read, t, n);
        }
      }
    }
  }

  /** The table fails only with the error of a read, and only when some name's read fails. */
  lemma {:induction false} ReverseFailure(read: Reader, names: seq<string>)
    requires Reverse(read, names).Failure?
    ensures exists n :: n in names && read(n) == Failure(Reverse(read, names).error)
    decreases |names|
  {
    var init := names[..|names| - 1];
    var last := names[|names| - 1];
    if Reverse(read, init).Failure? {
      ReverseFailure(read, init);
      var n :| n in init && read(n) == Failure(Reverse(read, init).error);
      assert n in names;
    } else {
      assert read(last) == Failure(Reverse(read, names).error);
    }
  }

  /**
   * `table` is the reverse of `read` over `all`: every list is non-empty and
   * holds only names of `all` that resolve to its key, and every name of
   * `all` is filed under its value.
   */
  ghost predicate Reverses(read: Reader, all: set<string>, table: map<string, seq<string>>) {
    && (forall o :: o in table ==> table[o] != [])
    && (forall o, n :: o in table && n in table[o] ==> n in all && read(n) == Success(Some(o)))
    && (forall n :: n in all ==> Filed(read, table, n))
  }

  /** read_ref on the given files, as reverse_refs calls it for each listed name. */
  function ReadOf(files: Files): (read: Reader)
    ensures forall n :: read(n) == ReadRef(files, n)
  {
    n => ReadRef(files, n)
  }

  /**
   * The loop of reverse_refs: read each name, in the order the listing
   * gives, and push the names that resolve onto their value's list.
   */
  method FileUnderValues(read: Reader, all: set<string>) returns (r: Result<map<string, seq<string>>, Error>)
    ensures r.Success? ==> Reverses(read, all, r.value)
    ensures r.Failure? ==> exists n :: n in all && read(n) == Failure(r.error)
  {
    var pending := all;
    ghost var visited: seq<string> := [];
    var table: map<string, seq<string>> := map[];
    while pending != {}
      invariant pending <= all
      invariant forall n :: n in visited ==> n in all
      invariant forall n :: n in all ==> n in pending || n in visited
      invariant Reverse(read, visited) == Success(table)
      decreases |pending|
    {
      var n :| n in pending;
      var oid := read(n);
      if oid.Failure? {
        return Failure(oid.error);
      }
      if oid.value.Some? {
        var o := oid.value.value;
        table := table[o := (if o in table then table[o] else []) + [n]];
      }
      assert (visited + [n])[..|visited|] == visited;
      visited := visited + [n];
      pending := pending - {n};
    }
    ReverseSound(read, visited);
    ReverseComplete(read, visited);
    r := Success(table);
  }

  /** The reference store of one repository: a handle on its directory and the name check it uses. */
  class Refs {
    const disk: Disk
    /** Revision.valid_ref?, left uninterpreted. */
    const validRef: string -> bool

    constructor (disk: Disk, validRef: string -> bool)
      ensures this.disk == disk && this.validRef == validRef
    {
      this.disk := disk;
      this.validRef := validRef;
    }

    /**
     * update_ref_file: lock the path (creating a missing directory and
     * retrying once), run the guard under the lock, then commit the value or,
     * for None, unlink the file; the lock is released on every path.
     */
    method UpdateRefFile(path: Path, oid: Option<string>, guard: Guard) returns (r: Outcome<Error>)
      requires disk.Valid() && ValidPath(path)
      modifies disk
      ensures disk.Valid()
      ensures RefFileWritten(old(disk.files), old(disk.dirs), old(disk.locks),
                             disk.files, disk.dirs, disk.locks, path, oid, guard, r)
    {
      ghost var files0, dirs0, locks0 := disk.files, disk.dirs, disk.locks;
      ghost var expected := WriteError(files0, dirs0, locks0, path, oid, guard);
      var lock := new Lockfile(path);
      var held := Acquire(lock);
      if held.Fail? {
        lock.Rollback(disk);
        return held;
      }
      LockThenRelease(locks0, path);
      assert AcquireError(files0, dirs0, locks0, path) == None && disk.files == files0;
      if guard.Expect? {
        var current := ReadSymref(disk.files, path, {});
        if current.Failure? {
          assert expected == Some(SymrefLoop);
          return Fail(current.error);
        }
        if current != Success(guard.prior) {
          assert expected == Some(StaleValue);
          lock.Rollback(disk);
          return Fail(StaleValue);
        }
      }
      assert GuardHolds(files0, path, guard);
      if oid.Some? {
        r := WriteLockfile(lock, oid.value);
        if r.Fail? {
          assert expected == Some(IsDirectory);
          lock.Rollback(disk);
          LockWriteRelease(locks0, path, Serialize(oid.value));
        } else {
          assert expected == None;
          assert disk.files == Written(files0, path, oid) && disk.locks == locks0;
        }
      } else {
        assert expected == None;
        disk.Unlink(path);
        lock.Rollback(disk);
        assert disk.files == Written(files0, path, oid) && disk.locks == locks0;
        r := Pass;
      }
    }

    /**
     * Lockfile#hold_for_update as update_ref_file drives it: a refusal for a
     * missing directory creates the directory (mkdir_p) and tries once more.
     */
    method Acquire(lock: Lockfile) returns (r: Outcome<Error>)
      requires disk.Valid() && ValidPath(lock.path) && !lock.held
      modifies disk, lock
      ensures disk.Valid() && disk.files == old(disk.files)
      ensures disk.dirs == DirsAfterWrite(old(disk.files), old(disk.dirs), old(disk.locks), lock.path)
      ensures r == ToOutcome(AcquireError(old(disk.files), old(disk.dirs), old(disk.locks), lock.path))
      ensures r.Pass? ==> lock.held && disk.locks == old(disk.locks)[lock.path := []]
      ensures r.Fail? ==> !lock.held && disk.locks == old(disk.locks)
    {
      var path := lock.path;
      r := lock.HoldForUpdate(disk);
      if r == Fail(MissingParent) {
        var made := disk.MkdirP(Parent(path));
        if made.Fail? {
          return made;
        }
        assert Parent(path) in disk.dirs by {
          assert Parent(path) != [];
          assert Parent(path)[..|Parent(path)|] == Parent(path);
        }
        r := lock.HoldForUpdate(disk);
      }
    }

    /** write_lockfile: the value and a newline go into the held lock, which is then committed over the path. */
    method WriteLockfile(lock: Lockfile, oid: string) returns (r: Outcome<Error>)
      requires disk.Valid() && lock.held && lock.path in disk.locks && disk.locks[lock.path] == []
      modifies disk, lock
      ensures disk.Valid() && disk.dirs == old(disk.dirs)
      ensures lock.path in old(disk.dirs) ==>
        r == Fail(IsDirectory) && lock.held && disk.files == old(disk.files)
        && disk.locks == old(disk.locks)[lock.path := Serialize(oid)]
      ensures lock.path !in old(disk.dirs) ==>
        r == Pass && !lock.held && disk.files == old(disk.files)[lock.path := Serialize(oid)]
        && disk.locks == old(disk.locks) - {lock.path}
    {
      lock.Write(disk, oid);
      lock.Write(disk, "\n");
      assert disk.locks[lock.path] == Serialize(oid);
      r := lock.Commit(disk);
    }

    /** update_ref: write a value (or, for None, delete the file) at the name taken from the store root. */
    method UpdateRef(name: string, oid: Option<string>) returns (r: Outcome<Error>)
      requires disk.Valid()
      modifies disk
      ensures disk.Valid()
      ensures RefFileWritten(old(disk.files), old(disk.dirs), old(disk.locks),
                             disk.files, disk.dirs, disk.locks, SplitPath(name), oid, Unconditional, r)
      ensures r.Pass? && oid.Some? && Plain(oid.value) ==> ReadRef(disk.files, name) == Success(oid)
      ensures r.Pass? && oid.None? ==> ReadSymref(disk.files, SplitPath(name), {}) == Success(None)
    {
      r := UpdateRefFile(SplitPath(name), oid, Unconditional);
      if r.Pass? && oid.Some? && Plain(oid.value) {
        ReadRefAfterUpdate(old(disk.files), name, oid.value);
      }
    }

    /**
     * compare_and_swap: under the lock, re-read the path's resolved value;
     * if it is not `prior`, raise StaleValue and leave the file alone,
     * otherwise write `next` at the path itself.
     */
    method CompareAndSwap(name: string, prior: Option<string>, next: Option<string>) returns (r: Outcome<Error>)
      requires disk.Valid()
      modifies disk
      ensures disk.Valid()
      ensures RefFileWritten(old(disk.files), old(disk.dirs), old(disk.locks),
                             disk.files, disk.dirs, disk.locks, SplitPath(name), next, Expect(prior), r)
      ensures r.Pass? ==> ReadSymref(old(disk.files), SplitPath(name), {}) == Success(prior)
      ensures r == Fail(StaleValue) ==> disk.files == old(disk.files)
      ensures r.Pass? && next.Some? && Plain(next.value) ==> ReadSymref(disk.files, SplitPath(name), {}) == Success(next)
    {
      r := UpdateRefFile(SplitPath(name), next, Expect(prior));
      if r.Pass? && next.Some? && Plain(next.value) {
        ReadSymrefAfterWrite(old(disk.files), SplitPath(name), next.value, {});
      }
    }

    /**
     * update_symref: lock the hop, and either follow its symbolic content
     * (releasing this hop's lock afterwards) or commit the value here and
     * report the hop's previous direct value.
     */
    method UpdateSymref(path: Path, oid: string) returns (r: Result<Option<string>, Error>)
      requires disk.Valid() && ValidPath(path)
      modifies disk
      ensures disk.Valid() && disk.dirs == old(disk.dirs)
      ensures SymrefUpdated(old(disk.files), old(disk.dirs), old(disk.locks), disk.files, disk.locks, path, oid, r)
      decreases disk.files.Keys - disk.locks.Keys, 0
    {
      var lock := new Lockfile(path);
      var held := lock.HoldForUpdate(disk);
      if held.Fail? {
        SymrefRefused(old(disk.files), old(disk.dirs), old(disk.locks), path, oid);
        return Failure(held.error);
      }
      LockThenRelease(old(disk.locks), path);
      if path in disk.files && Parse(disk.files[path]).Symbolic? {
        r := FollowHop(lock, oid);
      } else {
        r := CommitTerminal(lock, oid);
      }
    }

    /** update_symref at a symbolic hop: recurse on the target while holding this hop's lock, then release it. */
    method FollowHop(lock: Lockfile, oid: string) returns (r: Result<Option<string>, Error>)
      requires disk.Valid() && lock.held && lock.path in disk.locks && disk.locks[lock.path] == []
      requires lock.path == [] || Parent(lock.path) in disk.dirs
      requires lock.path in disk.files && Parse(disk.files[lock.path]).Symbolic?
      modifies disk, lock
      ensures disk.Valid() && disk.dirs == old(disk.dirs)
      ensures SymrefUpdated(old(disk.files), old(disk.dirs), old(disk.locks) - {lock.path},
                            disk.files, disk.locks, lock.path, oid, r)
      decreases disk.files.Keys - disk.locks.Keys, 1
    {
      ghost var files0, locks0 := disk.files, disk.locks - {lock.path};
      LockThenRelease(locks0, lock.path);
      assert disk.locks == locks0[lock.path := []];
      var target := SplitPath(Parse(disk.files[lock.path]).target);
      r := UpdateSymref(target, oid);
      ghost var locks1 := disk.locks;
      lock.Rollback(disk);
      SymrefHop(files0, disk.dirs, locks0, disk.files, locks1, lock.path, oid, r);
    }

    /** update_symref at its terminal hop: write the value through the held lock and report the previous direct value. */
    method CommitTerminal(lock: Lockfile, oid: string) returns (r: Result<Option<string>, Error>)
      requires disk.Valid() && lock.held && lock.path in disk.locks && disk.locks[lock.path] == []
      requires lock.path == [] || Parent(lock.path) in disk.dirs
      requires !(lock.path in disk.files && Parse(disk.files[lock.path]).Symbolic?)
      modifies disk, lock
      ensures disk.Valid() && disk.dirs == old(disk.dirs)
      ensures SymrefUpdated(old(disk.files), old(disk.dirs), old(disk.locks) - {lock.path},
                            disk.files, disk.locks, lock.path, oid, r)
    {
      ghost var locks0 := disk.locks - {lock.path};
      assert disk.locks == locks0[lock.path := []];
      var prior := if lock.path in disk.files then Some(Parse(disk.files[lock.path]).oid) else None;
      SymrefEndsHere(disk.files, disk.dirs, locks0, lock.path, oid);
      var done := WriteLockfile(lock, oid);
      if done.Fail? {
        return Failure(done.error);
      }
      assert disk.locks == locks0;
      r := Success(prior);
    }

    /** update_head: update_symref from HEAD. */
    method UpdateHead(oid: string) returns (r: Result<Option<string>, Error>)
      requires disk.Valid()
      modifies disk
      ensures disk.Valid() && disk.dirs == old(disk.dirs)
      ensures SymrefUpdated(old(disk.files), old(disk.dirs), old(disk.locks), disk.files, disk.locks, HEAD, oid, r)
    {
      r := UpdateSymref(HEAD, oid);
    }

    /**
     * set_head: when refs/heads/<revision> is a file, HEAD becomes the
     * symbolic reference "ref: refs/heads/<revision>"; otherwise HEAD is
     * detached at `oid` (None removes HEAD).
     */
    method SetHead(revision: string, oid: Option<string>) returns (r: Outcome<Error>)
      requires disk.Valid()
      modifies disk
      ensures disk.Valid()
      ensures HeadsDir + SplitPath(revision) in old(disk.files) ==>
        RefFileWritten(old(disk.files), old(disk.dirs), old(disk.locks), disk.files, disk.dirs, disk.locks,
                       HEAD, Some(SymrefText(JoinPath(HeadsDir + SplitPath(revision)))), Unconditional, r)
      ensures HeadsDir + SplitPath(revision) !in old(disk.files) ==>
        RefFileWritten(old(disk.files), old(disk.dirs), old(disk.locks), disk.files, disk.dirs, disk.locks,
                       HEAD, oid, Unconditional, r)
      ensures r.Pass? && HeadsDir + SplitPath(revision) in old(disk.files) && Plain(revision) ==>
        ReadOidOrSymref(disk.files, HEAD) == Some(Symbolic(JoinPath(HeadsDir + SplitPath(revision))))
        && ReadHead(disk.files) == ReadSymref(disk.files, HeadsDir + SplitPath(revision), {HEAD})
      ensures r.Pass? && HeadsDir + SplitPath(revision) !in old(disk.files) && oid.Some? && Plain(oid.value) ==>
        ReadHead(disk.files) == Success(oid)
    {
      var path := HeadsDir + SplitPath(revision);
      SplitHead();
      if path in disk.files {
        r := UpdateRefFile(HEAD, Some(SymrefText(JoinPath(path))), Unconditional);
        if r.Pass? && Plain(revision) {
          SplitFromPlain(revision, []);
          BranchSymref(SplitPath(revision));
          assert disk.files[HEAD] == Serialize(SymrefText(JoinPath(path)));
          assert {} + {HEAD} == {HEAD};
        }
      } else {
        r := UpdateRefFile(HEAD, oid, Unconditional);
        if r.Pass? && oid.Some? && Plain(oid.value) {
          ReadSymrefAfterWrite(old(disk.files), HEAD, oid.value, {});
        }
      }
    }

    /**
     * create_branch: refuses a name Revision.valid_ref? rejects and a branch
     * that already exists, and otherwise writes the start value at
     * refs/heads/<name>.
     */
    method CreateBranch(name: string, start: string) returns (r: Outcome<Error>)
      requires disk.Valid()
      modifies disk
      ensures disk.Valid()
      ensures !validRef(name) ==> r == Fail(InvalidBranch(NotAValidName)) && unchanged(disk)
      ensures validRef(name) && HeadsDir + SplitPath(name) in old(disk.files) ==>
        r == Fail(InvalidBranch(AlreadyExists)) && unchanged(disk)
      ensures validRef(name) && HeadsDir + SplitPath(name) !in old(disk.files) ==>
        RefFileWritten(old(disk.files), old(disk.dirs), old(disk.locks), disk.files, disk.dirs, disk.locks,
                       HeadsDir + SplitPath(name), Some(start), Unconditional, r)
      ensures r.Pass? ==> (HeadsDir + SplitPath(name) !in old(disk.files)
                           && disk.files == old(disk.files)[HeadsDir + SplitPath(name) := Serialize(start)])
      ensures r.Pass? && Plain(start) ==> ReadSymref(disk.files, HeadsDir + SplitPath(name), {}) == Success(Some(start))
    {
      var path := HeadsDir + SplitPath(name);
      if !validRef(name) {
        return Fail(InvalidBranch(NotAValidName));
      }
      if path in disk.files {
        return Fail(InvalidBranch(AlreadyExists));
      }
      UnderValid(HeadsDir, SplitPath(name));
      r := UpdateRefFile(path, Some(start), Unconditional);
      if r.Pass? && Plain(start) {
        ReadSymrefAfterWrite(old(disk.files), path, start, {});
      }
    }

    /**
     * The first half of delete_branch: lock the branch and read its value.
     * On failure nothing is held any more; on success the lock is held.
     */
    method LockAndRead(path: Path) returns (lock: Lockfile, r: Result<string, Error>)
      requires disk.Valid() && ValidPath(path) && path != []
      modifies disk
      ensures fresh(lock) && lock.path == path
      ensures disk.Valid() && disk.files == old(disk.files) && disk.dirs == old(disk.dirs)
      ensures r == DeleteOutcome(old(disk.files), old(disk.dirs), old(disk.locks), path)
      ensures r.Failure? ==> !lock.held && disk.locks == old(disk.locks)
      ensures r.Success? ==> lock.held && path !in old(disk.locks) && disk.locks == old(disk.locks)[path := []]
    {
      lock := new Lockfile(path);
      var held := lock.HoldForUpdate(disk);
      if held.Fail? {
        lock.Rollback(disk);
        return lock, Failure(held.error);
      }
      LockThenRelease(old(disk.locks), path);
      var oid := ReadSymref(disk.files, path, {});
      if oid.Failure? {
        lock.Rollback(disk);
        return lock, Failure(oid.error);
      }
      if oid.value.None? {
        lock.Rollback(disk);
        return lock, Failure(InvalidBranch(NotFound));
      }
      r := Success(oid.value.value);
    }

    /**
     * delete_branch with the lock released before the ascent: lock the
     * branch, read its value (a missing branch is InvalidBranch), unlink it,
     * release the lock, then prune the emptied directories.
     */
    method DeleteBranch(name: string) returns (r: Result<string, Error>)
      requires disk.Valid()
      modifies disk
      ensures disk.Valid() && disk.locks == old(disk.locks)
      ensures r == DeleteOutcome(old(disk.files), old(disk.dirs), old(disk.locks), HeadsDir + SplitPath(name))
      ensures r.Failure? ==> disk.files == old(disk.files) && disk.dirs == old(disk.dirs)
      ensures r.Success? ==> disk.files == old(disk.files) - {HeadsDir + SplitPath(name)}
      ensures r.Success? ==>
        (disk.dirs == old(disk.dirs) - Pruned(disk.files, old(disk.dirs), old(disk.locks), Parent(HeadsDir + SplitPath(name))))
    {
      var path := HeadsDir + SplitPath(name);
      UnderValid(HeadsDir, SplitPath(name));
      var lock;
      lock, r := LockAndRead(path);
      if r.Failure? {
        return;
      }
      disk.Unlink(path);
      lock.Rollback(disk);
      LockThenRelease(old(disk.locks), path);
      DeleteParentDirectories(path);
    }

    /**
     * delete_branch as written: the ascent runs while the branch's lock is
     * still held, and the lock is released last.
     */
    method DeleteBranchAsWritten(name: string) returns (r: Result<string, Error>)
      requires disk.Valid()
      modifies disk
      ensures disk.Valid() && disk.locks == old(disk.locks)
      ensures r == DeleteOutcome(old(disk.files), old(disk.dirs), old(disk.locks), HeadsDir + SplitPath(name))
      ensures r.Failure? ==> disk.files == old(disk.files) && disk.dirs == old(disk.dirs)
      ensures r.Success? ==> disk.files == old(disk.files) - {HeadsDir + SplitPath(name)}
      ensures r.Success? ==>
        (disk.dirs == old(disk.dirs) - Pruned(disk.files, old(disk.dirs), old(disk.locks)[HeadsDir + SplitPath(name) := []],
                                              Parent(HeadsDir + SplitPath(name))))
      ensures r.Success? && Parent(HeadsDir + SplitPath(name)) != HeadsDir ==> disk.dirs == old(disk.dirs)
    {
      var path := HeadsDir + SplitPath(name);
      UnderValid(HeadsDir, SplitPath(name));
      var lock;
      lock, r := LockAndRead(path);
      if r.Failure? {
        return;
      }
      disk.Unlink(path);
      ghost var files1, locks1 := disk.files, disk.locks;
      assert files1 == old(disk.files) - {path} && locks1 == old(disk.locks)[path := []];
      DeleteParentDirectories(path);
      ghost var dirs2 := disk.dirs;
      if Parent(path) != HeadsDir {
        PruneBlockedByOwnLock(files1, old(disk.dirs), locks1, path);
        assert dirs2 == old(disk.dirs);
      }
      lock.Rollback(disk);
      LockThenRelease(old(disk.locks), path);
      assert disk.files == files1 && disk.dirs == dirs2;
    }

    /**
     * delete_parent_directories: ascend from the deleted file's directory,
     * removing each directory until refs/heads or one that is not empty.
     */
    method DeleteParentDirectories(path: Path)
      requires disk.Valid() && path != [] && Parent(path) in disk.dirs
      modifies disk
      ensures disk.Valid() && disk.files == old(disk.files) && disk.locks == old(disk.locks)
      ensures disk.dirs == old(disk.dirs) - Pruned(old(disk.files), old(disk.dirs), old(disk.locks), Parent(path))
    {
      var dir := Parent(path);
      ghost var removed: set<Path> := {};
      while dir != [] && dir != HeadsDir
        invariant disk.Valid() && disk.files == old(disk.files) && disk.locks == old(disk.locks)
        invariant dir in disk.dirs && disk.dirs == old(disk.dirs) - removed
        invariant Pruned(old(disk.files), old(disk.dirs), old(disk.locks), Parent(path))
          == removed + Pruned(disk.files, disk.dirs, disk.locks, dir)
        decreases |dir|
      {
        var gone := disk.Rmdir(dir);
        if !gone {
          break;
        }
        removed := removed + {dir};
        dir := Parent(dir);
      }
    }

    /**
     * reverse_refs: every listed reference that resolves is filed under its
     * value; a reference that does not resolve is left out, and a cycle
     * anywhere stops the whole listing.
     */
    method ReverseRefs() returns (r: Result<map<string, seq<string>>, Error>)
      requires disk.Valid()
      ensures r.Success? ==> Reverses(ReadOf(disk.files), ListAllRefs(disk.files), r.value)
      ensures r.Success? ==> Filed(ReadOf(disk.files), r.value, "HEAD")
      ensures r.Failure? ==> r.error == SymrefLoop
      ensures r.Failure? ==> exists n :: n in ListAllRefs(disk.files) && ReadRef(disk.files, n).Failure?
    {
      var read := ReadOf(disk.files);
      ghost var all := ListAllRefs(disk.files);
      r := FileUnderValues(read, ListAllRefs(disk.files));
      if r.Failure? {
        ghost var n :| n in all && read(n) == Failure(r.error);
        assert ReadRef(disk.files, n) == Failure(r.error);
      }
    }
  }
}
