/** Paths inside the store root, as sequences of components. */
module Paths {

  /** A path relative to the store root; the root itself is []. */
  type Path = seq<string>

  predicate ValidComponent(c: string) {
    c != [] && '/' !in c
  }

  predicate ValidPath(p: Path) {
    forall i :: 0 <= i < |p| ==> ValidComponent(p[i])
  }

  /** The directory that holds `p` (Pathname#dirname). */
  function Parent(p: Path): (d: Path)
    requires p != []
    ensures |d| == |p| - 1 && d == p[..|d|]
  {
    p[..|p| - 1]
  }

  /** `a` is `b` itself or one of its ancestors (one of the directories Pathname#ascend yields). */
  predicate IsPrefix(a: Path, b: Path) {
    |a| <= |b| && b[..|a|] == a
  }

  /** A prefix of a path's directory is a prefix of the path. */
  lemma PrefixThroughParent(a: Path, p: Path)
    requires p != [] && IsPrefix(a, Parent(p))
    ensures IsPrefix(a, p)
  {
    assert p[..|a|] == Parent(p)[..|a|];
  }

  /** Joining a valid directory and a valid relative path gives a valid path. */
  lemma UnderValid(dir: Path, p: Path)
    requires ValidPath(dir) && ValidPath(p)
    ensures ValidPath(dir + p)
  {
    forall i | 0 <= i < |dir + p| ensures ValidComponent((dir + p)[i]) {
      if i >= |dir| { assert (dir + p)[i] == p[i - |dir|]; }
    }
  }

  /** Splits `s` at '/' and drops empty components; `acc` is the component read so far. */
  function SplitFrom(s: string, acc: string): (r: Path)
    requires '/' !in acc
    ensures ValidPath(r)
    decreases |s|
  {
    if s == [] then
      (if acc == [] then [] else [acc])
    else if s[0] == '/' then
      (if acc == [] then [] else [acc]) + SplitFrom(s[1..], [])
    else
      SplitFrom(s[1..], acc + [s[0]])
  }

  /** The components of a slash-separated name, as Pathname#join sees them. */
  function SplitPath(s: string): (r: Path)
    ensures ValidPath(r)
  {
    SplitFrom(s, [])
  }

  /** The slash-separated text of a path (Pathname#to_s relative to the root). */
  function JoinPath(p: Path): string {
    if p == [] then []
    else if |p| == 1 then p[0]
    else p[0] + "/" + JoinPath(p[1..])
  }

  lemma {:induction false} SplitFromAppend(c: string, rest: string, acc: string)
    requires '/' !in c && '/' !in acc
    ensures SplitFrom(c + rest, acc) == SplitFrom(rest, acc + c)
    decreases |c|
  {
    if c == [] {
      assert c + rest == rest;
      assert acc + c == acc;
    } else {
      assert (c + rest)[0] == c[0];
      assert (c + rest)[1..] == c[1..] + rest;
      assert acc + [c[0]] + c[1..] == acc + c;
      SplitFromAppend(c[1..], rest, acc + [c[0]]);
    }
  }

  /** Joining valid components and splitting the text again gives the path back. */
  lemma {:induction false} SplitJoin(p: Path)
    requires ValidPath(p)
    ensures SplitPath(JoinPath(p)) == p
    decreases |p|
  {
    if p == [] {
    } else if |p| == 1 {
      SplitFromAppend(p[0], [], []);
      assert p[0] + [] == p[0] && [] + p[0] == p[0];
      assert SplitFrom([], p[0]) == [p[0]];
    } else {
      var rest := JoinPath(p[1..]);
      assert JoinPath(p) == p[0] + ("/" + rest);
      SplitFromAppend(p[0], "/" + rest, []);
      assert ([] + p[0]) == p[0];
      assert ("/" + rest)[1..] == rest;
      SplitJoin(p[1..]);
      assert p == [p[0]] + p[1..];
    }
  }

  /** The text of a path below a directory: the directory's text, a slash, then the rest. */
  lemma {:induction false} JoinPathAppend(dir: Path, q: Path)
    requires dir != [] && q != []
    ensures JoinPath(dir + q) == JoinPath(dir) + "/" + JoinPath(q)
    decreases |dir|
  {
    if |dir| == 1 {
      assert (dir + q)[0] == dir[0] && (dir + q)[1..] == q;
    } else {
      assert (dir + q)[0] == dir[0] && (dir + q)[1..] == dir[1..] + q;
      JoinPathAppend(dir[1..], q);
    }
  }

  /** A path with at least one valid component joins to a non-empty text. */
  lemma {:induction false} JoinPathNonEmpty(p: Path)
    requires ValidPath(p) && p != []
    ensures JoinPath(p) != []
  {
    assert |JoinPath(p)| >= |p[0]|;
  }
}
