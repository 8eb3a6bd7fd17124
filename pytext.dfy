/** The few Python `str` builtins the form parser relies on: `isspace`/`strip`,
    `split(sep)`, `split(sep, 1)` and the substring test `sub in s`. */
module PyText {

  /** `c.isspace()`: the characters Python's `str.strip()` removes when called without
      arguments (Unicode white space, bidirectional classes WS, B and S). */
  predicate IsSpace(c: char) {
    ('\t' <= c <= '\r') || ('\U{1C}' <= c <= '\U{1F}') || c == ' ' || c == '\U{85}' || c == '\U{A0}'
    || c == '\U{1680}' || ('\U{2000}' <= c <= '\U{200A}') || c == '\U{2028}' || c == '\U{2029}'
    || c == '\U{202F}' || c == '\U{205F}' || c == '\U{3000}'
  }

  /** Every character is white space, so `s.strip()` is falsy. */
  predicate IsBlank(s: string) {
    forall i :: 0 <= i < |s| ==> IsSpace(s[i])
  }

  /** `s.lstrip()` */
  function StripLeft(s: string): (r: string)
    ensures |r| <= |s| && r == s[|s| - |r|..]
    ensures IsBlank(s[..|s| - |r|])
    ensures r == [] || !IsSpace(r[0])
    decreases |s|
  {
    if |s| > 0 && IsSpace(s[0]) then
      var r := StripLeft(s[1..]);
      assert s[..|s| - |r|] == [s[0]] + s[1..][..|s| - 1 - |r|];
      r
    else
      assert s[..0] == [];
      s
  }

  /** `s.rstrip()` */
  function StripRight(s: string): (r: string)
    ensures |r| <= |s| && r == s[..|r|]
    ensures IsBlank(s[|r|..])
    ensures r == [] || !IsSpace(r[|r| - 1])
    decreases |s|
  {
    if |s| > 0 && IsSpace(s[|s| - 1]) then
      var r := StripRight(s[..|s| - 1]);
      assert s[|r|..] == s[..|s| - 1][|r|..] + [s[|s| - 1]];
      r
    else
      assert s[|s|..] == [];
      s
  }

  /** `s.strip()`: the part of `s` left after dropping white space at both ends. */
  function Strip(s: string): (r: string)
  {
    StripRight(StripLeft(s))
  }

  /** `s.strip()` is `s` with a blank prefix and a blank suffix removed, and it neither
      starts nor ends with white space. */
  lemma StripSpec(s: string)
    ensures exists a, b :: 0 <= a <= b <= |s| && Strip(s) == s[a..b] && IsBlank(s[..a]) && IsBlank(s[b..])
    ensures Strip(s) == [] || (!IsSpace(Strip(s)[0]) && !IsSpace(Strip(s)[|Strip(s)| - 1]))
  {
    var l := StripLeft(s);
    var r := StripRight(l);
    assert r == Strip(s);
    var a := |s| - |l|;
    var b := a + |r|;
    StripSpan(s, l, r, a, b);
    if r != [] {
      assert r[0] == l[0];
    }
  }

  lemma StripSpan(s: string, l: string, r: string, a: int, b: int)
    requires 0 <= |s| - |l| == a && l == s[a..] && IsBlank(s[..a])
    requires |r| <= |l| && r == l[..|r|] && IsBlank(l[|r|..]) && b == a + |r|
    ensures 0 <= a <= b <= |s| && r == s[a..b] && IsBlank(s[b..])
  {
    assert s[b..] == l[|r|..];
  }

  /** A string strips to nothing exactly when it is blank. */
  lemma StripEmptyIffBlank(s: string)
    ensures Strip(s) == [] <==> IsBlank(s)
  {
    var l := StripLeft(s);
    if Strip(s) == [] {
      assert l == [];
      assert s[..|s|] == s;
    }
  }

  /** Blankness of a concatenation is the blankness of both parts. */
  lemma BlankConcat(s: string, t: string)
    ensures IsBlank(s + t) <==> IsBlank(s) && IsBlank(t)
  {
    if IsBlank(s + t) {
      forall i | 0 <= i < |t| ensures IsSpace(t[i]) {
        assert t[i] == (s + t)[|s| + i];
      }
      forall i | 0 <= i < |s| ensures IsSpace(s[i]) {
        assert s[i] == (s + t)[i];
      }
    }
  }

  /** `sep.join(parts)` for a one-character separator. */
  function Join(parts: seq<string>, sep: char): (r: string)
    requires |parts| >= 1
    decreases |parts|
  {
    if |parts| == 1 then parts[0] else parts[0] + [sep] + Join(parts[1..], sep)
  }

  /** `s.split(sep)` for a one-character separator: the pieces between separators, one
      more piece than there are separators (so `"".split(sep) == [""]`). */
  function Split(s: string, sep: char): (r: seq<string>)
    ensures |r| >= 1
    ensures forall k :: 0 <= k < |r| ==> sep !in r[k]
    ensures Join(r, sep) == s
    decreases |s|
  {
    if |s| == 0 then [""]
    else
      var rest := Split(s[1..], sep);
      if s[0] == sep then [""] + rest
      else [[s[0]] + rest[0]] + rest[1..]
  }

  /** Splitting undoes joining pieces that hold no separator. */
  lemma {:induction false} SplitJoin(parts: seq<string>, sep: char)
    requires |parts| >= 1
    requires forall k :: 0 <= k < |parts| ==> sep !in parts[k]
    ensures Split(Join(parts, sep), sep) == parts
    decreases |parts|, |parts[0]|
  {
    var p := parts[0];
    if |parts| == 1 && |p| == 0 {
    } else if |p| == 0 {
      SplitJoin(parts[1..], sep);
      assert Join(parts, sep) == [sep] + Join(parts[1..], sep);
      assert Join(parts, sep)[1..] == Join(parts[1..], sep);
      assert Split(Join(parts, sep), sep) == [""] + parts[1..];
      assert [p] + parts[1..] == parts;
    } else {
      var parts' := [p[1..]] + parts[1..];
      assert parts'[1..] == parts[1..];
      DropFirstChar(parts, sep);
      SplitJoin(parts', sep);
      var s := Join(parts, sep);
      assert s == [p[0]] + Join(parts', sep) by {
        if |parts| == 1 { } else { assert p == [p[0]] + p[1..]; }
      }
      assert s[0] == p[0] && s[0] != sep;
      assert s[1..] == Join(parts', sep);
      assert Split(s, sep) == [[p[0]] + p[1..]] + parts[1..];
      assert [p[0]] + p[1..] == p;
      assert [p] + parts[1..] == parts;
    }
  }

  lemma DropFirstChar(parts: seq<string>, sep: char)
    requires |parts| >= 1 && |parts[0]| > 0
    requires forall k :: 0 <= k < |parts| ==> sep !in parts[k]
    ensures var parts' := [parts[0][1..]] + parts[1..];
      forall k :: 0 <= k < |parts'| ==> sep !in parts'[k]
  {
    var p := parts[0];
    var parts' := [p[1..]] + parts[1..];
    forall k | 0 <= k < |parts'| ensures sep !in parts'[k] {
      if k == 0 { assert forall c :: c in p[1..] ==> c in p; } else { assert parts'[k] == parts[k]; }
    }
  }

  /** `line.split(sep, 1)` on a line that holds `sep`: the text before the first
      separator and everything after it, later separators included. */
  function SplitOnce(line: string, sep: char): (r: (string, string))
    requires sep in line
    ensures line == r.0 + [sep] + r.1
    ensures sep !in r.0
    decreases |line|
  {
    if line[0] == sep then ("", line[1..])
    else
      var rest := SplitOnce(line[1..], sep);
      ([line[0]] + rest.0, rest.1)
  }

  /** The split at the first separator is the only split with a separator-free head. */
  lemma SplitOnceUnique(line: string, sep: char, a: string, b: string)
    requires line == a + [sep] + b && sep !in a
    ensures sep in line && SplitOnce(line, sep) == (a, b)
  {
    assert line[|a|] == sep;
    var r := SplitOnce(line, sep);
    assert forall i :: 0 <= i < |a| ==> line[i] == a[i] != sep;
    assert forall i :: 0 <= i < |r.0| ==> line[i] == r.0[i] != sep;
    assert line[|r.0|] == sep;
    assert r.0 == line[..|a|] == a;
    assert r.1 == line[|a| + 1..] == b;
  }

  /** `sub` occurs in `s` at index `i`. */
  predicate OccursAt(s: string, sub: string, i: int) {
    0 <= i && i + |sub| <= |s| && s[i..i + |sub|] == sub
  }

  /** Python's substring test `sub in s`. */
  predicate Contains(s: string, sub: string) {
    exists i :: 0 <= i <= |s| - |sub| && OccursAt(s, sub, i)
  }

  /** A string containing `sub` contains its first character. */
  lemma ContainsFirstChar(s: string, sub: string)
    requires |sub| > 0 && Contains(s, sub)
    ensures sub[0] in s
  {
    var i :| 0 <= i <= |s| - |sub| && OccursAt(s, sub, i);
    assert s[i] == s[i..i + |sub|][0];
  }
}
