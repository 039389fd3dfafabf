/**
 * The read side of the reference store: pure functions over the files of
 * the store root (read_oid_or_symref, read_symref, read_ref, path_for_name,
 * current_ref, short_name, long_name) and the facts that connect them.
 */
module RefRead {
  import opened Wrappers
  import opened Errors
  import opened Paths
  import opened RefContent
  import opened FileSystem

  const HEAD: Path := ["HEAD"]
  const RefsDir: Path := ["refs"]
  const HeadsDir: Path := ["refs", "heads"]
  const RemotesDir: Path := ["refs", "remotes"]

  /** The roots path_for_name tries, in priority order. */
  const NamePrefixes: seq<Path> := [[], RefsDir, HeadsDir, RemotesDir]

  /** read_oid_or_symref: the parsed content of `p`, or None when no file exists there. */
  function ReadOidOrSymref(files: Files, p: Path): (r: Option<Content>)
    ensures r.Some? <==> p in files
  {
    if p in files then Some(Parse(files[p])) else None
  }

  predicate IsSymbolic(files: Files, p: Path) {
    p in files && Parse(files[p]).Symbolic?
  }

  /**
   * read_symref: follows symbolic hops until a direct value (Some) or a
   * missing file (None). `seen` holds the symbolic files already followed;
   * coming back to one of them is a cycle, on which the source recurses
   * without end and the model stops with SymrefLoop.
   */
  function ReadSymref(files: Files, p: Path, seen: set<Path>): (r: Result<Option<string>, Error>)
    ensures r.Failure? ==> r.error == SymrefLoop
    decreases files.Keys - seen
  {
    if p !in files then Success(None)
    else match Parse(files[p])
      case Direct(oid) => Success(Some(oid))
      case Symbolic(t) =>
        if p in seen then Failure(SymrefLoop) else ReadSymref(files, SplitPath(t), seen + {p})
  }

  /** read_head: HEAD resolved through its chain. */
  function ReadHead(files: Files): (r: Result<Option<string>, Error>)
    ensures HEAD in files ==> r == ReadRef(files, "HEAD")
    ensures HEAD !in files ==> r == Success(None)
  {
    SplitHead();
    assert NamePrefixes[0] + SplitPath("HEAD") == HEAD;
    if HEAD in files then
      PathForNameIs(files, "HEAD", 0);
      ReadSymref(files, HEAD, {})
    else
      ReadSymref(files, HEAD, {})
  }

  /** The first of `prefixes` under which `rel` is a file (Array#find). */
  function FindPrefix(files: Files, prefixes: seq<Path>, rel: Path): (r: Option<Path>)
    ensures r.Some? ==> r.value in files
    ensures r.Some? ==> exists i :: 0 <= i < |prefixes| && r.value == prefixes[i] + rel
                          && forall j :: 0 <= j < i ==> prefixes[j] + rel !in files
    ensures r.None? <==> forall i :: 0 <= i < |prefixes| ==> prefixes[i] + rel !in files
  {
    if prefixes == [] then None
    else if prefixes[0] + rel in files then Some(prefixes[0] + rel)
    else
      var r := FindPrefix(files, prefixes[1..], rel);
      assert forall i :: 1 <= i < |prefixes| ==> prefixes[i] == prefixes[1..][i - 1];
      r
  }

  /**
   * path_for_name: the name under the store root, then under refs/, then
   * refs/heads/, then refs/remotes/; the first that is an existing file wins.
   */
  function PathForName(files: Files, name: string): (r: Option<Path>)
    ensures r.Some? ==> r.value in files
    ensures r.Some? ==> exists i :: 0 <= i < 4 && r.value == NamePrefixes[i] + SplitPath(name)
                          && forall j :: 0 <= j < i ==> NamePrefixes[j] + SplitPath(name) !in files
    ensures r.None? <==> forall i :: 0 <= i < 4 ==> NamePrefixes[i] + SplitPath(name) !in files
  {
    FindPrefix(files, NamePrefixes, SplitPath(name))
  }

  /** read_ref: the located file resolved through its chain, or None when no candidate exists. */
  function ReadRef(files: Files, name: string): (r: Result<Option<string>, Error>)
    ensures r.Failure? ==> r.error == SymrefLoop
  {
    match PathForName(files, name)
    case None => Success(None)
    case Some(p) => ReadSymref(files, p, {})
  }

  /**
   * current_ref: follows symbolic entries from `source` and returns the last
   * name whose own content is not symbolic (a direct value or no file), as it
   * was written in the chain.
   */
  function CurrentRef(files: Files, source: string, seen: set<Path>): (r: Result<string, Error>)
    ensures r.Success? ==> !IsSymbolic(files, SplitPath(r.value))
    ensures r.Failure? ==> r.error == SymrefLoop
    decreases files.Keys - seen
  {
    var p := SplitPath(source);
    if p !in files then Success(source)
    else match Parse(files[p])
      case Symbolic(t) =>
        if p in seen then Failure(SymrefLoop) else CurrentRef(files, t, seen + {p})
      case Direct(_) => Success(source)
  }

  /**
   * short_name: the name relative to the first of refs/remotes/, refs/heads/
   * and the store root that contains its directory.
   */
  function ShortName(name: string): (r: string)
    requires SplitPath(name) != []
    ensures SplitPath(r) != [] && |SplitPath(name)| - |SplitPath(r)| in {0, 2}
    ensures SplitPath(r) == SplitPath(name)[|SplitPath(name)| - |SplitPath(r)|..]
    ensures SplitPath(r) == if IsPrefix(RemotesDir, Parent(SplitPath(name))) || IsPrefix(HeadsDir, Parent(SplitPath(name)))
                            then SplitPath(name)[2..] else SplitPath(name)
  {
    var p := SplitPath(name);
    var dir := Parent(p);
    var prefix := if IsPrefix(RemotesDir, dir) then RemotesDir
                  else if IsPrefix(HeadsDir, dir) then HeadsDir
                  else [];
    TailValid(p, |prefix|);
    SplitJoin(p[|prefix|..]);
    JoinPath(p[|prefix|..])
  }

  lemma TailValid(p: Path, k: nat)
    requires ValidPath(p) && k <= |p|
    ensures ValidPath(p[k..])
  {
    forall i | 0 <= i < |p[k..]| ensures ValidComponent(p[k..][i]) {
      assert p[k..][i] == p[k + i];
    }
  }

  /** long_name: the full path of the file path_for_name finds, or an error naming a missing upstream. */
  function LongName(files: Files, name: string): (r: Result<string, Error>)
    ensures r.Success? ==> SplitPath(r.value) in files && PathForName(files, name) == Some(SplitPath(r.value))
    ensures r.Failure? <==> forall i :: 0 <= i < 4 ==> NamePrefixes[i] + SplitPath(name) !in files
    ensures r.Failure? ==> r.error == InvalidBranch(UpstreamMissing)
  {
    match PathForName(files, name)
    case Some(p) =>
      SplitJoin(p);
      Success(JoinPath(p))
    case None => Failure(InvalidBranch(UpstreamMissing))
  }

  /** The reference files in the subtree under `dir` (what list_refs walks). */
  function RefsUnder(files: Files, dir: Path): (s: set<Path>)
    ensures forall p :: p in s <==> p in files && |dir| < |p| && p[..|dir|] == dir
  {
    set p | p in files && |dir| < |p| && p[..|dir|] == dir
  }

  /**
   * list_refs: the names, relative to the store root, of the files at any
   * depth below `dir`. The order Dir.entries gives them in is not modelled.
   */
  function ListRefs(files: Files, dir: Path): (names: set<string>)
    ensures forall p :: p in RefsUnder(files, dir) ==> JoinPath(p) in names
  {
    set p | p in RefsUnder(files, dir) :: JoinPath(p)
  }

  /** list_all_refs: HEAD and every reference under refs/. */
  function ListAllRefs(files: Files): (names: set<string>)
    ensures "HEAD" in names && ListRefs(files, RefsDir) <= names
    ensures forall n :: n in names ==> n == "HEAD" || n in ListRefs(files, RefsDir)
  {
    {"HEAD"} + ListRefs(files, RefsDir)
  }

  /** list_branches: the references under refs/heads/, each of which passes SymRef#branch?. */
  function ListBranches(files: Files): (names: set<string>)
    ensures forall n :: n in names ==> IsBranchName(n) && !IsRemoteName(n) && !IsHeadName(n)
    ensures forall p :: p in RefsUnder(files, HeadsDir) ==> JoinPath(p) in names
  {
    assert forall n :: n in ListRefs(files, HeadsDir) ==> IsBranchName(n) && !IsRemoteName(n) && !IsHeadName(n) by {
      forall n | n in ListRefs(files, HeadsDir) ensures IsBranchName(n) && !IsRemoteName(n) && !IsHeadName(n) {
        UnderHeadsIsBranch(files, n);
      }
    }
    ListRefs(files, HeadsDir)
  }

  /** list_remotes: the references under refs/remotes/, each of which passes SymRef#remote?. */
  function ListRemotes(files: Files): (names: set<string>)
    ensures forall n :: n in names ==> IsRemoteName(n) && !IsBranchName(n) && !IsHeadName(n)
    ensures forall p :: p in RefsUnder(files, RemotesDir) ==> JoinPath(p) in names
  {
    assert forall n :: n in ListRefs(files, RemotesDir) ==> IsRemoteName(n) && !IsBranchName(n) && !IsHeadName(n) by {
      forall n | n in ListRefs(files, RemotesDir) ensures IsRemoteName(n) && !IsBranchName(n) && !IsHeadName(n) {
        UnderRemotesIsRemote(files, n);
      }
    }
    ListRefs(files, RemotesDir)
  }

  /** SymRef#head?: the name is HEAD itself, which names the file HEAD at the store root. */
  function IsHeadName(name: string): (b: bool)
    ensures b ==> SplitPath(name) == HEAD
  {
    SplitHead();
    name == "HEAD"
  }

  /** SymRef#branch?: the name starts with "refs/heads/", so it names a path under refs/heads. */
  function IsBranchName(name: string): (b: bool)
    ensures b ==> |SplitPath(name)| >= 2 && SplitPath(name)[..2] == HeadsDir
  {
    if |name| >= 11 && name[..11] == "refs/heads/" then
      assert name == "refs" + "/" + "heads" + "/" + name[11..];
      SplitTwoLevels("refs", "heads", name[11..]);
      true
    else
      false
  }

  /** SymRef#remote?: the name starts with "refs/remotes/", so it names a path under refs/remotes. */
  function IsRemoteName(name: string): (b: bool)
    ensures b ==> |SplitPath(name)| >= 2 && SplitPath(name)[..2] == RemotesDir
  {
    if |name| >= 13 && name[..13] == "refs/remotes/" then
      assert name == "refs" + "/" + "remotes" + "/" + name[13..];
      SplitTwoLevels("refs", "remotes", name[13..]);
      true
    else
      false
  }

  /** A name made of one component and a rest splits into that component followed by the rest's. */
  lemma SplitOneLevel(a: string, rest: string)
    requires ValidComponent(a)
    ensures SplitPath(a + "/" + rest) == [a] + SplitPath(rest)
  {
    var tail := "/" + rest;
    assert a + "/" + rest == a + tail;
    SplitFromAppend(a, tail, []);
    assert [] + a == a;
    assert tail[0] == '/' && tail[1..] == rest;
  }

  /** A name made of two components and a rest splits into those two components followed by the rest's. */
  lemma SplitTwoLevels(a: string, b: string, rest: string)
    requires ValidComponent(a) && ValidComponent(b)
    ensures SplitPath(a + "/" + b + "/" + rest) == [a, b] + SplitPath(rest)
  {
    assert a + "/" + b + "/" + rest == a + "/" + (b + "/" + rest);
    SplitOneLevel(a, b + "/" + rest);
    SplitOneLevel(b, rest);
  }

  /** The candidate path_for_name settles on, given which candidates exist. */
  lemma PathForNameIs(files: Files, name: string, i: nat)
    requires i < 4 && NamePrefixes[i] + SplitPath(name) in files
    requires forall j :: 0 <= j < i ==> NamePrefixes[j] + SplitPath(name) !in files
    ensures PathForName(files, name) == Some(NamePrefixes[i] + SplitPath(name))
  {
    var r := PathForName(files, name);
    var k :| 0 <= k < 4 && r.value == NamePrefixes[k] + SplitPath(name)
             && forall j :: 0 <= j < k ==> NamePrefixes[j] + SplitPath(name) !in files;
    assert k == i;
  }

  lemma SplitHead()
    ensures SplitPath("HEAD") == HEAD
  {
    SplitJoin(HEAD);
  }

  lemma BranchComponentsPlain(q: Path)
    requires ValidPath(q) && forall i :: 0 <= i < |q| ==> Plain(q[i])
    ensures ValidPath(HeadsDir + q) && forall i :: 0 <= i < |HeadsDir + q| ==> Plain((HeadsDir + q)[i])
  {
    var branch := HeadsDir + q;
    assert Plain("refs") && Plain("heads");
    forall i | 0 <= i < |branch| ensures ValidComponent(branch[i]) && Plain(branch[i]) {
      if i >= 2 { assert branch[i] == q[i - 2]; }
    }
  }

  /** "ref: refs/heads/<q>" written out parses back to the branch's full name, which names the branch's file. */
  lemma BranchSymref(q: Path)
    requires ValidPath(q) && forall i :: 0 <= i < |q| ==> Plain(q[i])
    ensures Parse(Serialize(SymrefText(JoinPath(HeadsDir + q)))) == Symbolic(JoinPath(HeadsDir + q))
    ensures SplitPath(JoinPath(HeadsDir + q)) == HeadsDir + q
  {
    var branch := HeadsDir + q;
    BranchComponentsPlain(q);
    JoinPathPlain(branch);
    JoinPathNonEmpty(branch);
    ParseSerializedSymref(JoinPath(branch));
    SplitJoin(branch);
  }

  // ---------------------------------------------------------------------
  // Facts about resolution
  // ---------------------------------------------------------------------

  /** A value read through a chain is the direct content of some file of the store. */
  lemma {:induction false} ResolvedOidIsStored(files: Files, p: Path, seen: set<Path>)
    requires ReadSymref(files, p, seen).Success? && ReadSymref(files, p, seen).value.Some?
    ensures exists q :: q in files && Parse(files[q]) == Direct(ReadSymref(files, p, seen).value.value)
    decreases files.Keys - seen
  {
    if Parse(files[p]).Symbolic? {
      ResolvedOidIsStored(files, SplitPath(Parse(files[p]).target), seen + {p});
    }
  }

  /** A resolved value does not depend on which hops were remembered, as long as no cycle was met. */
  lemma {:induction false} ReadSymrefSeenSubset(files: Files, p: Path, seen: set<Path>, fewer: set<Path>)
    requires fewer <= seen && ReadSymref(files, p, seen).Success?
    ensures ReadSymref(files, p, fewer) == ReadSymref(files, p, seen)
    decreases files.Keys - seen
  {
    if p in files && Parse(files[p]).Symbolic? {
      ReadSymrefSeenSubset(files, SplitPath(Parse(files[p]).target), seen + {p}, fewer + {p});
    }
  }

  /**
   * Symbolic transparency: when `p` holds "ref: t" and its chain resolves,
   * reading `p` gives exactly what reading `t` gives.
   */
  lemma SymbolicTransparency(files: Files, p: Path, t: string)
    requires p in files && Parse(files[p]) == Symbolic(t)
    requires ReadSymref(files, p, {}).Success?
    ensures ReadSymref(files, p, {}) == ReadSymref(files, SplitPath(t), {})
  {
    assert {} + {p} == {p};
    ReadSymrefSeenSubset(files, SplitPath(t), {p}, {});
  }

  /** Writing a plain object id to `p` makes `p` resolve to it, whatever was there before. */
  lemma ReadSymrefAfterWrite(files: Files, p: Path, oid: string, seen: set<Path>)
    requires Plain(oid)
    ensures ReadSymref(files[p := Serialize(oid)], p, seen) == Success(Some(oid))
  {
    ParseSerializedOid(oid);
  }

  /**
   * Round trip of update_ref and read_ref: update_ref writes at the name
   * taken from the store root, which is the first place read_ref looks, so
   * reading the same name gives the object id back.
   */
  lemma ReadRefAfterUpdate(files: Files, name: string, oid: string)
    requires Plain(oid)
    ensures ReadRef(files[SplitPath(name) := Serialize(oid)], name) == Success(Some(oid))
  {
    var rel := SplitPath(name);
    var after := files[rel := Serialize(oid)];
    assert NamePrefixes[0] + rel == rel;
    assert PathForName(after, name) == Some(rel);
    ReadSymrefAfterWrite(files, rel, oid, {});
  }

  /** A name that was never created stays absent across writes to paths that are not its candidates. */
  lemma AbsentStaysAbsent(files: Files, name: string, q: Path, text: string)
    requires forall i :: 0 <= i < 4 ==> NamePrefixes[i] + SplitPath(name) !in files
    requires forall i :: 0 <= i < 4 ==> q != NamePrefixes[i] + SplitPath(name)
    ensures ReadRef(files, name) == Success(None)
    ensures ReadRef(files[q := text], name) == Success(None)
    ensures ReadRef(files - {q}, name) == Success(None)
  {
  }

  /**
   * Short names: when only refs/heads/<name> exists among the candidates
   * tried before it, reading "<name>" and reading "refs/heads/<name>" agree.
   */
  lemma ReadRefShortName(files: Files, name: string)
    requires HeadsDir + SplitPath(name) in files
    requires SplitPath(name) !in files && RefsDir + SplitPath(name) !in files
    ensures ReadRef(files, name) == ReadRef(files, JoinPath(HeadsDir + SplitPath(name)))
  {
    var full := HeadsDir + SplitPath(name);
    assert ValidPath(full);
    SplitJoin(full);
    assert NamePrefixes[0] + SplitPath(name) == SplitPath(name);
    assert NamePrefixes[2] + SplitPath(name) == full;
    PathForNameIs(files, name, 2);
    assert NamePrefixes[0] + SplitPath(JoinPath(full)) == full;
    PathForNameIs(files, JoinPath(full), 0);
  }

  /**
   * The branch current_ref reports resolves to the same value as the
   * chain it was reached from (so "HEAD -> main" names the branch HEAD reads through).
   */
  lemma {:induction false} CurrentRefResolvesAlike(files: Files, source: string, seen: set<Path>)
    requires CurrentRef(files, source, seen).Success?
    ensures ReadSymref(files, SplitPath(source), seen)
         == ReadSymref(files, SplitPath(CurrentRef(files, source, seen).value), {})
    decreases files.Keys - seen
  {
    var p := SplitPath(source);
    if p in files && Parse(files[p]).Symbolic? {
      CurrentRefResolvesAlike(files, Parse(files[p]).target, seen + {p});
    }
  }

  /** A detached HEAD (a direct value) is its own current ref. */
  lemma DetachedHeadIsCurrent(files: Files, oid: string)
    requires Plain(oid) && HEAD in files && files[HEAD] == Serialize(oid)
    ensures CurrentRef(files, "HEAD", {}) == Success("HEAD")
    ensures ReadHead(files) == Success(Some(oid))
  {
    SplitHead();
    ParseSerializedOid(oid);
  }

  /** When HEAD holds "ref: refs/heads/<q>" and that branch is direct, current_ref reports the branch. */
  lemma HeadOnBranchIsCurrent(files: Files, q: Path, oid: string)
    requires ValidPath(q) && q != [] && forall i :: 0 <= i < |q| ==> Plain(q[i])
    requires HEAD in files && files[HEAD] == Serialize(SymrefText(JoinPath(HeadsDir + q)))
    requires HeadsDir + q in files && Parse(files[HeadsDir + q]) == Direct(oid)
    ensures CurrentRef(files, "HEAD", {}) == Success(JoinPath(HeadsDir + q))
    ensures ReadHead(files) == Success(Some(oid))
  {
    var branch := HeadsDir + q;
    var text := JoinPath(branch);
    SplitHead();
    BranchSymref(q);
    assert Parse(files[HEAD]) == Symbolic(text);
    assert {} + {HEAD} == {HEAD};
    assert CurrentRef(files, "HEAD", {}) == CurrentRef(files, text, {HEAD});
    assert ReadHead(files) == ReadSymref(files, branch, {HEAD});
  }

  // ---------------------------------------------------------------------
  // Facts about names
  // ---------------------------------------------------------------------

  /** short_name drops refs/heads/ from a local branch. */
  lemma ShortNameOfBranch(q: Path)
    requires ValidPath(q) && q != []
    ensures SplitPath(JoinPath(HeadsDir + q)) != []
    ensures ShortName(JoinPath(HeadsDir + q)) == JoinPath(q)
  {
    var p := HeadsDir + q;
    assert ValidPath(p);
    SplitJoin(p);
    assert Parent(p)[..2] == HeadsDir;
    assert Parent(p)[1] != RemotesDir[1];
    assert p[2..] == q;
  }

  /** short_name drops refs/remotes/ from a remote-tracking branch. */
  lemma ShortNameOfRemote(q: Path)
    requires ValidPath(q) && q != []
    ensures SplitPath(JoinPath(RemotesDir + q)) != []
    ensures ShortName(JoinPath(RemotesDir + q)) == JoinPath(q)
  {
    var p := RemotesDir + q;
    assert ValidPath(p);
    SplitJoin(p);
    assert Parent(p)[..2] == RemotesDir;
    assert p[2..] == q;
  }

  /** A name directly under the store root (HEAD, ORIG_HEAD) is its own short name. */
  lemma ShortNameAtRoot(c: string)
    requires ValidComponent(c)
    ensures SplitPath(c) == [c]
    ensures ShortName(c) == c
  {
    SplitJoin([c]);
  }

  /**
   * A name whose directory is under neither refs/remotes nor refs/heads
   * (refs/tags/v1, refs/stash, HEAD) is its own short name: the store root
   * is the prefix short_name settles on.
   */
  lemma ShortNameElsewhere(p: Path)
    requires ValidPath(p) && p != []
    requires !IsPrefix(HeadsDir, Parent(p)) && !IsPrefix(RemotesDir, Parent(p))
    ensures SplitPath(JoinPath(p)) != []
    ensures ShortName(JoinPath(p)) == JoinPath(p)
  {
    SplitJoin(p);
    assert p[0..] == p;
  }

  /**
   * long_name undoes short_name for a branch, provided no file under the
   * store root or refs/ shadows the short name.
   */
  lemma LongNameOfShortName(files: Files, q: Path)
    requires ValidPath(q) && q != []
    requires HeadsDir + q in files && q !in files && RefsDir + q !in files
    ensures SplitPath(JoinPath(HeadsDir + q)) != []
    ensures LongName(files, ShortName(JoinPath(HeadsDir + q))) == Success(JoinPath(HeadsDir + q))
  {
    ShortNameOfBranch(q);
    LongNameOfBranch(files, q);
  }

  /** long_name of a branch's short name, when nothing at the store root or under refs/ shadows it. */
  lemma LongNameOfBranch(files: Files, q: Path)
    requires ValidPath(q) && q != []
    requires HeadsDir + q in files && q !in files && RefsDir + q !in files
    ensures LongName(files, JoinPath(q)) == Success(JoinPath(HeadsDir + q))
  {
    SplitJoin(q);
    assert NamePrefixes[0] + q == q;
    assert NamePrefixes[1] + q == RefsDir + q;
    assert NamePrefixes[2] + q == HeadsDir + q;
    PathForNameIs(files, JoinPath(q), 2);
  }

  /** A listed reference, read back by its full name, is read from its own file. */
  lemma ReadRefOfFile(files: Files, p: Path)
    requires p in files && ValidPath(p)
    ensures ReadRef(files, JoinPath(p)) == ReadSymref(files, p, {})
  {
    SplitJoin(p);
    assert NamePrefixes[0] + p == p;
    PathForNameIs(files, JoinPath(p), 0);
  }

  /** list_refs on a missing directory lists nothing (the source rescues ENOENT). */
  lemma MissingDirListsNothing(files: Files, dirs: set<Path>, locks: map<Path, string>, dir: Path)
    requires WellFormed(files, dirs, locks) && dir !in dirs
    ensures ListRefs(files, dir) == {}
  {
    forall p | p in files && |dir| < |p| && p[..|dir|] == dir ensures false {
      AncestorsOfFileExist(files, dirs, locks, p, |dir|);
    }
  }

  /**
   * Every listed name is the full name of its own file, and read_ref on it
   * reads that file: a listed reference is never shadowed by another
   * candidate of path_for_name.
   */
  lemma ListedNameReadsItsFile(files: Files, dir: Path, n: string)
    requires forall p :: p in files ==> ValidPath(p)
    requires n in ListRefs(files, dir)
    ensures SplitPath(n) in RefsUnder(files, dir) && JoinPath(SplitPath(n)) == n
    ensures ReadRef(files, n) == ReadSymref(files, SplitPath(n), {})
  {
    var p :| p in RefsUnder(files, dir) && n == JoinPath(p);
    SplitJoin(p);
    ReadRefOfFile(files, p);
  }

  /** Branches and remotes are among all references. */
  lemma BranchesAndRemotesAreListed(files: Files)
    ensures ListBranches(files) <= ListAllRefs(files)
    ensures ListRemotes(files) <= ListAllRefs(files)
  {
    forall n | n in ListBranches(files) ensures n in ListRefs(files, RefsDir) {
      var p :| p in RefsUnder(files, HeadsDir) && n == JoinPath(p);
      assert p[..|RefsDir|] == p[..|HeadsDir|][..|RefsDir|];
    }
    forall n | n in ListRemotes(files) ensures n in ListRefs(files, RefsDir) {
      var p :| p in RefsUnder(files, RemotesDir) && n == JoinPath(p);
      assert p[..|RefsDir|] == p[..|RemotesDir|][..|RefsDir|];
    }
  }

  /** The full name of a path below `dir`, as list_refs reports it, starts with the directory's name and a slash. */
  lemma NameUnder(dir: Path, p: Path)
    requires dir != [] && |dir| < |p| && p[..|dir|] == dir
    ensures JoinPath(p) == JoinPath(dir) + "/" + JoinPath(p[|dir|..])
  {
    assert p == dir + p[|dir|..];
    JoinPathAppend(dir, p[|dir|..]);
  }

  /** The file a listed name was made from. */
  lemma ListedPath(files: Files, dir: Path, n: string) returns (p: Path)
    requires n in ListRefs(files, dir)
    ensures p in RefsUnder(files, dir) && n == JoinPath(p)
  {
    p :| p in RefsUnder(files, dir) && n == JoinPath(p);
  }

  /** The text of a two-component path. */
  lemma JoinTwo(a: string, b: string)
    ensures JoinPath([a, b]) == a + "/" + b
  {
    assert [a, b][1..] == [b];
  }

  /** Every name listed under refs/heads is a branch (branch? holds) and neither HEAD nor a remote. */
  lemma UnderHeadsIsBranch(files: Files, n: string)
    requires n in ListRefs(files, HeadsDir)
    ensures IsBranchName(n) && !IsRemoteName(n) && !IsHeadName(n)
  {
    var p := ListedPath(files, HeadsDir, n);
    NameUnder(HeadsDir, p);
    JoinTwo("refs", "heads");
    assert n == "refs/heads/" + JoinPath(p[|HeadsDir|..]);
    BranchPrefixName(JoinPath(p[|HeadsDir|..]));
  }

  /** A name starting with "refs/heads/" passes branch? and neither head? nor remote?. */
  lemma BranchPrefixName(rest: string)
    ensures IsBranchName("refs/heads/" + rest) && !IsRemoteName("refs/heads/" + rest) && !IsHeadName("refs/heads/" + rest)
  {
    var n := "refs/heads/" + rest;
    assert n[..11] == "refs/heads/";
    assert n[5] == 'h';
  }

  /** Every name listed under refs/remotes is a remote (remote? holds) and neither HEAD nor a branch. */
  lemma UnderRemotesIsRemote(files: Files, n: string)
    requires n in ListRefs(files, RemotesDir)
    ensures IsRemoteName(n) && !IsBranchName(n) && !IsHeadName(n)
  {
    var p := ListedPath(files, RemotesDir, n);
    NameUnder(RemotesDir, p);
    JoinTwo("refs", "remotes");
    assert n == "refs/remotes/" + JoinPath(p[|RemotesDir|..]);
    RemotePrefixName(JoinPath(p[|RemotesDir|..]));
  }

  /** A name starting with "refs/remotes/" passes remote? and neither head? nor branch?. */
  lemma RemotePrefixName(rest: string)
    ensures IsRemoteName("refs/remotes/" + rest) && !IsBranchName("refs/remotes/" + rest) && !IsHeadName("refs/remotes/" + rest)
  {
    var n := "refs/remotes/" + rest;
    assert n[..13] == "refs/remotes/";
    assert n[5] == 'r';
  }

  // ---------------------------------------------------------------------
  // Chains, hop by hop
  // ---------------------------------------------------------------------

  /** One hop along a chain: symbolic content leads to its target; any other path is where the chain ends. */
  function Next(files: Files, p: Path): Path {
    if IsSymbolic(files, p) then SplitPath(Parse(files[p]).target) else p
  }

  /** The path reached after `k` steps of `next` from `p`. */
  function Walk(next: Path -> Path, p: Path, k: nat): Path
    decreases k
  {
    if k == 0 then p else Walk(next, next(p), k - 1)
  }

  lemma {:induction false} WalkAdd(next: Path -> Path, p: Path, a: nat, b: nat)
    ensures Walk(next, p, a + b) == Walk(next, Walk(next, p, a), b)
    decreases a
  {
    if a > 0 {
      WalkAdd(next, next(p), a - 1, b);
    }
  }

  lemma {:induction false} WalkAtRest(next: Path -> Path, q: Path, k: nat)
    requires next(q) == q
    ensures Walk(next, q, k) == q
    decreases k
  {
    if k > 0 {
      WalkAtRest(next, q, k - 1);
    }
  }

  /** The first step count at which the walk reaches a path where `rest` holds. */
  lemma {:induction false} FirstRest(next: Path -> Path, rest: Path -> bool, p: Path, n: nat) returns (m: nat)
    requires rest(Walk(next, p, n))
    ensures m <= n && rest(Walk(next, p, m))
    ensures forall j :: 0 <= j < m ==> !rest(Walk(next, p, j))
    decreases n
  {
    if j :| 0 <= j < n && rest(Walk(next, p, j)) {
      m := FirstRest(next, rest, p, j);
    } else {
      m := n;
    }
  }

  /** Before it first comes to rest, a walk never visits a path twice. */
  lemma WalkDistinct(next: Path -> Path, rest: Path -> bool, p: Path, m: nat, i: nat, j: nat)
    requires rest(Walk(next, p, m)) && forall k :: 0 <= k < m ==> !rest(Walk(next, p, k))
    requires i < j < m
    ensures Walk(next, p, i) != Walk(next, p, j)
  {
    if Walk(next, p, i) == Walk(next, p, j) {
      WalkAdd(next, p, j, m - j);
      WalkAdd(next, p, i, m - j);
    }
  }

  /**
   * A reader that answers `value` at a key at rest, and otherwise reads on
   * from the next hop while recording the key it left, answers at the point
   * where the walk first comes to rest, provided the walk visits no recorded
   * key and no key twice on the way.
   */
  lemma {:induction false} ReadsAlongWalk<K, R>(read: (K, set<Path>) -> R, value: K -> R, key: K -> Path, hop: K -> K,
                                               next: Path -> Path, rest: Path -> bool, x: K, seen: set<Path>, m: nat)
    returns (y: K)
    requires forall k, s :: rest(key(k)) ==> read(k, s) == value(k)
    requires forall k, s :: !rest(key(k)) && key(k) !in s ==> read(k, s) == read(hop(k), s + {key(k)})
    requires forall k :: !rest(key(k)) ==> key(hop(k)) == next(key(k))
    requires rest(Walk(next, key(x), m))
    requires forall j :: 0 <= j < m ==> !rest(Walk(next, key(x), j)) && Walk(next, key(x), j) !in seen
    requires forall i, j :: 0 <= i < j < m ==> Walk(next, key(x), i) != Walk(next, key(x), j)
    ensures key(y) == Walk(next, key(x), m) && read(x, seen) == value(y)
    decreases m
  {
    if m == 0 {
      y := x;
    } else {
      assert !rest(Walk(next, key(x), 0)) && Walk(next, key(x), 0) !in seen;
      var z := hop(x);
      forall j | 0 <= j < m - 1
        ensures !rest(Walk(next, key(z), j)) && Walk(next, key(z), j) !in seen + {key(x)}
      {
        assert Walk(next, key(z), j) == Walk(next, key(x), j + 1);
        assert Walk(next, key(x), 0) != Walk(next, key(x), j + 1);
      }
      forall i, j | 0 <= i < j < m - 1 ensures Walk(next, key(z), i) != Walk(next, key(z), j) {
        assert Walk(next, key(z), i) == Walk(next, key(x), i + 1);
        assert Walk(next, key(z), j) == Walk(next, key(x), j + 1);
      }
      assert Walk(next, key(z), m - 1) == Walk(next, key(x), m);
      y := ReadsAlongWalk(read, value, key, hop, next, rest, z, seen + {key(x)}, m - 1);
    }
  }

  /** The path one hop further along a chain from `files`. */
  function NextOf(files: Files): (next: Path -> Path) {
    q => Next(files, q)
  }

  /** The paths where a chain of `files` is at rest. */
  function AtRestOf(files: Files): (rest: Path -> bool) {
    q => !IsSymbolic(files, q)
  }

  /** The path reached after `k` hops from `p`. */
  function Follow(files: Files, p: Path, k: nat): Path {
    Walk(NextOf(files), p, k)
  }

  /** The chain from `p` has come to rest within `n` hops: the path reached is not symbolic. */
  predicate Ends(files: Files, p: Path, n: nat) {
    !IsSymbolic(files, Follow(files, p, n))
  }

  /** What a path at rest holds: its direct value, or nothing when no file is there. */
  function ValueAt(files: Files, q: Path): Option<string> {
    if q in files && Parse(files[q]).Direct? then Some(Parse(files[q]).oid) else None
  }

  /** The first hop count at which a chain that comes to rest within `n` hops is at rest, with every path before it distinct. */
  lemma FirstEnd(files: Files, p: Path, n: nat) returns (m: nat)
    requires Ends(files, p, n)
    ensures m <= n && Ends(files, p, m) && Follow(files, p, n) == Follow(files, p, m)
    ensures forall j :: 0 <= j < m ==> !Ends(files, p, j)
    ensures forall i, j :: 0 <= i < j < m ==> Follow(files, p, i) != Follow(files, p, j)
  {
    var next, rest := NextOf(files), AtRestOf(files);
    assert rest(Walk(next, p, n));
    m := FirstRest(next, rest, p, n);
    forall i, j | 0 <= i < j < m ensures Walk(next, p, i) != Walk(next, p, j) {
      WalkDistinct(next, rest, p, m, i, j);
    }
    WalkAdd(next, p, m, n - m);
    WalkAtRest(next, Walk(next, p, m), n - m);
  }

  /** One hop further along the chain from `p` is one hop fewer from the path `p` leads to. */
  lemma FollowStep(files: Files, p: Path, k: nat)
    ensures Follow(files, Next(files, p), k) == Follow(files, p, k + 1)
  {
    assert NextOf(files)(p) == Next(files, p);
  }

  /** read_symref as a reader of paths: it stops at a path at rest and otherwise reads on from the next hop. */
  lemma ReadSymrefSteps(files: Files)
    ensures forall q, s :: !IsSymbolic(files, q) ==> ReadSymref(files, q, s) == Success(ValueAt(files, q))
    ensures forall q, s :: IsSymbolic(files, q) && q !in s ==> ReadSymref(files, q, s) == ReadSymref(files, Next(files, q), s + {q})
  {
  }

  /**
   * read_symref follows any chain that comes to rest: when the path reached
   * after `n` hops is not symbolic, reading `p` gives that path's value.
   */
  lemma ChainEndResolves(files: Files, p: Path, n: nat)
    requires Ends(files, p, n)
    ensures ReadSymref(files, p, {}) == Success(ValueAt(files, Follow(files, p, n)))
  {
    var m := FirstEnd(files, p, n);
    ReadSymrefSteps(files);
    var read := (q, s) => ReadSymref(files, q, s);
    var value := q => Success(ValueAt(files, q));
    var key := (q: Path) => q;
    assert key(p) == p;
    forall j | 0 <= j < m ensures !AtRestOf(files)(Walk(NextOf(files), key(p), j)) {
      assert !Ends(files, p, j);
    }
    forall i, j | 0 <= i < j < m ensures Walk(NextOf(files), key(p), i) != Walk(NextOf(files), key(p), j) {
      assert Follow(files, p, i) != Follow(files, p, j);
    }
    var y := ReadsAlongWalk(read, value, key, NextOf(files), NextOf(files), AtRestOf(files), p, {}, m);
  }

  lemma {:induction false} ResolvedChainEnds(files: Files, p: Path, seen: set<Path>) returns (n: nat)
    requires ReadSymref(files, p, seen).Success?
    ensures Ends(files, p, n)
    decreases files.Keys - seen
  {
    if !IsSymbolic(files, p) {
      n := 0;
    } else {
      var k := ResolvedChainEnds(files, Next(files, p), seen + {p});
      FollowStep(files, p, k);
      n := k + 1;
    }
  }

  /**
   * read_symref fails exactly on a chain that never comes to rest: it
   * succeeds when, and only when, some number of hops reaches a path that is
   * not symbolic.
   */
  lemma ReadSymrefFailsOnlyOnCycle(files: Files, p: Path)
    ensures ReadSymref(files, p, {}).Failure? <==> forall n: nat :: !Ends(files, p, n)
  {
    if ReadSymref(files, p, {}).Success? {
      var n := ResolvedChainEnds(files, p, {});
    }
    forall n: nat | Ends(files, p, n) ensures ReadSymref(files, p, {}).Success? {
      ChainEndResolves(files, p, n);
    }
  }

  /** read_ref fails only on a name whose located file starts a chain that never comes to rest. */
  lemma ReadRefFailsOnlyOnCycle(files: Files, name: string)
    requires ReadRef(files, name).Failure?
    ensures PathForName(files, name).Some?
    ensures forall n: nat :: !Ends(files, PathForName(files, name).value, n)
  {
    ReadSymrefFailsOnlyOnCycle(files, PathForName(files, name).value);
  }

  /** The name current_ref moves on to from `source`: the target of symbolic content, or `source` itself. */
  function CurrentHop(files: Files, source: string): (t: string)
    ensures SplitPath(t) == Next(files, SplitPath(source))
  {
    if IsSymbolic(files, SplitPath(source)) then Parse(files[SplitPath(source)]).target else source
  }

  /** current_ref as a reader of names: it stops at a name at rest and otherwise reads on from the next hop. */
  lemma CurrentRefSteps(files: Files)
    ensures forall n, s :: !IsSymbolic(files, SplitPath(n)) ==> CurrentRef(files, n, s) == Success(n)
    ensures forall n, s :: IsSymbolic(files, SplitPath(n)) && SplitPath(n) !in s ==>
      CurrentRef(files, n, s) == CurrentRef(files, CurrentHop(files, n), s + {SplitPath(n)})
  {
  }

  /**
   * current_ref reports where the chain from `source` comes to rest: when
   * `n` hops reach a path that is not symbolic, the reported name is that
   * path's name.
   */
  lemma CurrentRefIsChainEnd(files: Files, source: string, n: nat)
    requires Ends(files, SplitPath(source), n)
    ensures CurrentRef(files, source, {}).Success?
    ensures SplitPath(CurrentRef(files, source, {}).value) == Follow(files, SplitPath(source), n)
  {
    var p := SplitPath(source);
    var m := FirstEnd(files, p, n);
    CurrentRefSteps(files);
    var read := (q, s) => CurrentRef(files, q, s);
    var value := (q: string) => Success(q);
    var key := (q: string) => SplitPath(q);
    assert key(source) == p;
    forall j | 0 <= j < m ensures !AtRestOf(files)(Walk(NextOf(files), key(source), j)) {
      assert !Ends(files, p, j);
    }
    forall i, j | 0 <= i < j < m ensures Walk(NextOf(files), key(source), i) != Walk(NextOf(files), key(source), j) {
      assert Follow(files, p, i) != Follow(files, p, j);
    }
    var y := ReadsAlongWalk(read, value, key, q => CurrentHop(files, q), NextOf(files), AtRestOf(files), source, {}, m);
  }

  /** current_ref fails only when the chain from `source` never comes to rest. */
  lemma CurrentRefFailsOnlyOnCycle(files: Files, source: string)
    requires CurrentRef(files, source, {}).Failure?
    ensures forall n: nat :: !Ends(files, SplitPath(source), n)
  {
    forall n: nat | Ends(files, SplitPath(source), n) ensures false {
      CurrentRefIsChainEnd(files, source, n);
    }
  }
}
