/** The text of a reference file: how read_oid_or_symref parses it and how write_lockfile writes it. */
module RefContent {
  import opened Wrappers
  import opened Paths

  /** The characters Ruby's String#strip removes. */
  predicate IsSpace(c: char) {
    c == ' ' || c == '\t' || c == '\n' || c == '\U{B}' || c == '\U{C}' || c == '\r' || c == '\0'
  }

  /** Text without any blank character: what an object id, or a branch name git accepts, looks like. */
  predicate Plain(s: string) {
    forall i :: 0 <= i < |s| ==> !IsSpace(s[i])
  }

  function StripLeft(s: string): (r: string)
    ensures |r| <= |s| && r == s[|s| - |r|..]
    ensures forall i :: 0 <= i < |s| - |r| ==> IsSpace(s[i])
    ensures r == [] || !IsSpace(r[0])
  {
    if s != [] && IsSpace(s[0]) then StripLeft(s[1..]) else s
  }

  function StripRight(s: string): (r: string)
    ensures |r| <= |s| && r == s[..|r|]
    ensures forall i :: |r| <= i < |s| ==> IsSpace(s[i])
    ensures r == [] || !IsSpace(r[|r| - 1])
  {
    if s != [] && IsSpace(s[|s| - 1]) then StripRight(s[..|s| - 1]) else s
  }

  /** String#strip: the text between the leading and the trailing blanks. */
  function Strip(s: string): (r: string)
    ensures r == [] || (!IsSpace(r[0]) && !IsSpace(r[|r| - 1]))
  {
    StripRight(StripLeft(s))
  }

  /**
   * String#strip keeps exactly the stretch of `s` after its leading blanks,
   * and everything it drops after that stretch is blank too.
   */
  lemma StripTrims(s: string)
    ensures LeadingBlanks(s) + |Strip(s)| <= |s|
    ensures Strip(s) == s[LeadingBlanks(s)..LeadingBlanks(s) + |Strip(s)|]
    ensures forall k :: LeadingBlanks(s) + |Strip(s)| <= k < |s| ==> IsSpace(s[k])
  {
    var left, i := StripLeft(s), LeadingBlanks(s);
    var r := StripRight(left);
    assert Strip(s) == r;
    LeadingBlanksStripped(s);
    TrimmedSlice(s, left, r, i);
  }

  /** A prefix `r` of the suffix of `s` from `i`, followed only by blanks, is the slice of `s` from `i`. */
  lemma TrimmedSlice(s: string, left: string, r: string, i: nat)
    requires i <= |s| && left == s[i..]
    requires |r| <= |left| && r == left[..|r|]
    requires forall j :: |r| <= j < |left| ==> IsSpace(left[j])
    ensures i + |r| <= |s| && r == s[i..i + |r|]
    ensures forall k :: i + |r| <= k < |s| ==> IsSpace(s[k])
  {
    forall k | i + |r| <= k < |s| ensures IsSpace(s[k]) {
      assert s[k] == left[k - i];
    }
  }

  /** How many blank characters `s` starts with. */
  function LeadingBlanks(s: string): (n: nat)
    ensures n <= |s| && (forall k :: 0 <= k < n ==> IsSpace(s[k]))
    ensures n < |s| ==> !IsSpace(s[n])
  {
    if s != [] && IsSpace(s[0]) then 1 + LeadingBlanks(s[1..]) else 0
  }

  /** StripLeft drops exactly the leading blanks. */
  lemma {:induction false} LeadingBlanksStripped(s: string)
    ensures StripLeft(s) == s[LeadingBlanks(s)..]
  {
    if s != [] && IsSpace(s[0]) {
      LeadingBlanksStripped(s[1..]);
      assert s[1..][LeadingBlanks(s[1..])..] == s[LeadingBlanks(s)..];
    }
  }

  /** The length of the first line of `s`, without its line feed. */
  function LineEnd(s: string): (n: nat)
    ensures n <= |s| && '\n' !in s[..n]
    ensures n < |s| ==> s[n] == '\n'
  {
    if s == [] || s[0] == '\n' then 0 else 1 + LineEnd(s[1..])
  }

  /**
   * The target captured by /^ref: (.+)$/ in `data`: Ruby's ^ and $ match at
   * every line boundary, so the first line that reads "ref: " followed by at
   * least one character supplies it.
   */
  function SymrefTarget(data: string): (r: Option<string>)
    ensures r.Some? ==> r.value != [] && '\n' !in r.value
    ensures '\n' !in data ==> (r.Some? <==> |data| > 5 && data[..5] == "ref: ")
    ensures '\n' !in data && r.Some? ==> r.value == data[5..]
    decreases |data|
  {
    var n := LineEnd(data);
    if n > 5 && data[..5] == "ref: " then Some(data[5..n])
    else if n == |data| then None
    else SymrefTarget(data[n + 1..])
  }

  /** The value a reference file holds: an object id, or the path of another reference. */
  datatype Content = Direct(oid: string) | Symbolic(target: string)

  /** read_oid_or_symref on a file that exists: strip the text, then look for the "ref: " form. */
  function Parse(raw: string): (c: Content)
    ensures c.Direct? ==> c.oid == Strip(raw)
    ensures c.Symbolic? ==> c.target != [] && '\n' !in c.target
    ensures '\n' !in Strip(raw) ==>
      c == (if |Strip(raw)| > 5 && Strip(raw)[..5] == "ref: " then Symbolic(Strip(raw)[5..]) else Direct(Strip(raw)))
  {
    var data := Strip(raw);
    match SymrefTarget(data)
    case Some(t) => Symbolic(t)
    case None => Direct(data)
  }

  /** What write_lockfile puts in the marker: the value, then a line feed. */
  function Serialize(value: string): (text: string)
    ensures |text| == |value| + 1 && text[..|value|] == value && text[|value|] == '\n'
  {
    value + "\n"
  }

  /** The value set_head (and init) writes to make HEAD point at `target`. */
  function SymrefText(target: string): (text: string)
    ensures |text| == |target| + 5 && text[..5] == "ref: " && text[5..] == target
  {
    "ref: " + target
  }

  /** A line with no blank at either end comes back from strip unchanged once its line feed is added. */
  lemma StripSerialized(line: string)
    requires line == [] || (!IsSpace(line[0]) && !IsSpace(line[|line| - 1]))
    ensures Strip(Serialize(line)) == line
  {
    var text := Serialize(line);
    if line == [] {
      assert StripLeft(text) == [];
    } else {
      assert StripLeft(text) == text;
      assert text[..|text| - 1] == line;
      assert StripRight(text) == StripRight(line);
    }
  }

  /** Round trip for a direct value: a plain object id written by write_lockfile parses back to itself. */
  lemma ParseSerializedOid(oid: string)
    requires Plain(oid)
    ensures Parse(Serialize(oid)) == Direct(oid)
  {
    StripSerialized(oid);
    assert '\n' !in oid;
    if |oid| > 5 {
      assert oid[..5][4] == oid[4] != ' ';
    }
  }

  /** Round trip for a symbolic value: "ref: <target>" written by write_lockfile parses back to the target. */
  lemma ParseSerializedSymref(target: string)
    requires Plain(target) && target != []
    ensures Parse(Serialize(SymrefText(target))) == Symbolic(target)
  {
    var line := SymrefText(target);
    assert line[|line| - 1] == target[|target| - 1];
    StripSerialized(line);
    assert '\n' !in line by {
      forall i | 0 <= i < |line| ensures line[i] != '\n' {
        if i >= 5 { assert line[i] == target[i - 5]; }
      }
    }
    assert LineEnd(line) == |line|;
    assert line[5..|line|] == target;
  }

  /** A path whose components are plain joins to plain text. */
  lemma {:induction false} JoinPathPlain(p: Path)
    requires forall i :: 0 <= i < |p| ==> Plain(p[i])
    ensures Plain(JoinPath(p))
    decreases |p|
  {
    if |p| > 1 {
      JoinPathPlain(p[1..]);
      var rest := JoinPath(p[1..]);
      assert JoinPath(p) == p[0] + "/" + rest;
      forall k | 0 <= k < |JoinPath(p)| ensures !IsSpace(JoinPath(p)[k]) {
        if k < |p[0]| {
          assert JoinPath(p)[k] == p[0][k];
        } else if k > |p[0]| {
          assert JoinPath(p)[k] == rest[k - |p[0]| - 1];
        }
      }
    }
  }

  /** Splitting plain text on '/' gives plain components. */
  lemma {:induction false} SplitFromPlain(s: string, acc: string)
    requires '/' !in acc && Plain(s) && Plain(acc)
    ensures forall i :: 0 <= i < |SplitFrom(s, acc)| ==> Plain(SplitFrom(s, acc)[i])
    decreases |s|
  {
    if s == [] {
    } else if s[0] == '/' {
      SplitFromPlain(s[1..], []);
    } else {
      SplitFromPlain(s[1..], acc + [s[0]]);
    }
  }
}
