/**
 * Character classes and line handling with the meaning of the Python `str`
 * methods the scripts rely on: `isspace`, `strip`, `lstrip`, `splitlines`,
 * iteration over a text stream, and `join`.
 */
module Text {
  import opened Common

  /** Python's `str.isspace()` for one character. */
  predicate IsSpace(c: char) {
    || c == ' '
    || '\t' <= c <= '\r'
    || '\U{1C}' <= c <= '\U{1F}'
    || c == '\U{85}' || c == '\U{A0}' || c == '\U{1680}'
    || '\U{2000}' <= c <= '\U{200A}'
    || c == '\U{2028}' || c == '\U{2029}' || c == '\U{202F}' || c == '\U{205F}' || c == '\U{3000}'
  }

  /** The line boundaries recognised by Python's `str.splitlines()`. */
  predicate IsLineBreak(c: char) {
    || c == '\n' || c == '\r' || c == '\U{B}' || c == '\U{C}'
    || '\U{1C}' <= c <= '\U{1E}'
    || c == '\U{85}' || c == '\U{2028}' || c == '\U{2029}'
  }

  predicate AllSpace(s: string) {
    forall i :: 0 <= i < |s| ==> IsSpace(s[i])
  }

  predicate NoLineBreak(s: string) {
    forall i :: 0 <= i < |s| ==> !IsLineBreak(s[i])
  }

  /** `s.lstrip()`: drop leading whitespace. */
  function StripStart(s: string): (r: string)
    ensures |r| <= |s| && r == s[|s| - |r|..]
    ensures AllSpace(s[..|s| - |r|])
    ensures r == [] || !IsSpace(r[0])
  {
    if s != [] && IsSpace(s[0]) then
      var t := s[1..];
      var r := StripStart(t);
      assert s[..|s| - |r|] == [s[0]] + t[..|t| - |r|];
      r
    else s
  }

  /** `s.rstrip()`: drop trailing whitespace. */
  function StripEnd(s: string): (r: string)
    ensures |r| <= |s| && r == s[..|r|]
    ensures AllSpace(s[|r|..])
    ensures r == [] || !IsSpace(r[|r| - 1])
  {
    if s != [] && IsSpace(s[|s| - 1]) then
      var t := s[..|s| - 1];
      var r := StripEnd(t);
      assert s[|r|..] == t[|r|..] + [s[|s| - 1]];
      r
    else s
  }

  /** `s.strip()`: drop whitespace at both ends. */
  function Strip(s: string): string {
    StripEnd(StripStart(s))
  }

  /** Text with no whitespace at either end is left as it is by `strip`. */
  lemma StripKeepsNonSpaceEnds(s: string)
    requires |s| > 0 && !IsSpace(s[0]) && !IsSpace(s[|s| - 1])
    ensures Strip(s) == s
  {
  }

  /** A blank line: nothing but whitespace (see `StripEmptyIffBlank`). */
  predicate IsBlank(s: string) {
    AllSpace(s)
  }

  /** Python's test `if line.strip():` fails exactly on blank lines. */
  lemma StripEmptyIffBlank(s: string)
    ensures Strip(s) == [] <==> IsBlank(s)
  {
    var t := StripStart(s);
    assert |t| > 0 ==> t[0] == s[|s| - |t|];
    if Strip(s) == [] {
      assert AllSpace(t[0..]);
      assert t == [];
      assert s[..|s|] == s;
    }
  }

  /** `s.lstrip(c)` for a single character `c`. */
  function StripLeading(s: string, c: char): (r: string)
    ensures |r| <= |s| && r == s[|s| - |r|..]
    ensures forall i :: 0 <= i < |s| - |r| ==> s[i] == c
    ensures r == [] || r[0] != c
  {
    if s != [] && s[0] == c then StripLeading(s[1..], c) else s
  }

  /** Index of the first line boundary of `s`, or `|s|` when there is none. */
  function LineEnd(s: string): (k: nat)
    ensures k <= |s|
    ensures forall j :: 0 <= j < k ==> !IsLineBreak(s[j])
    ensures k < |s| ==> IsLineBreak(s[k])
  {
    if s == [] || IsLineBreak(s[0]) then 0 else 1 + LineEnd(s[1..])
  }

  /** Where the line after the first boundary starts; `\r\n` is one boundary. */
  function NextLineStart(s: string, k: nat): (n: nat)
    requires k < |s|
    ensures k < n <= |s|
  {
    if s[k] == '\r' && k + 1 < |s| && s[k + 1] == '\n' then k + 2 else k + 1
  }

  /**
   * Python's `s.splitlines()`: the lines of `s` without their terminators;
   * a final terminator does not start an empty last line.
   */
  function SplitLines(s: string): (lines: seq<string>)
    ensures forall i :: 0 <= i < |lines| ==> NoLineBreak(lines[i])
    decreases |s|
  {
    if s == [] then []
    else
      var k := LineEnd(s);
      if k == |s| then [s]
      else [s[..k]] + SplitLines(s[NextLineStart(s, k)..])
  }

  /** Index of the first line of `lines` at or after `i` that is not blank, if any. */
  function FirstNonBlankFrom(lines: seq<string>, i: nat): (r: Option<nat>)
    requires i <= |lines|
    ensures r.Some? ==> i <= r.value < |lines| && !IsBlank(lines[r.value])
    ensures r.Some? ==> forall j :: i <= j < r.value ==> IsBlank(lines[j])
    ensures r.None? ==> forall j :: i <= j < |lines| ==> IsBlank(lines[j])
    decreases |lines| - i
  {
    if i == |lines| then None
    else if !IsBlank(lines[i]) then Some(i)
    else FirstNonBlankFrom(lines, i + 1)
  }

  /** Some line of `lines` has a non-whitespace character. */
  predicate SomeNonBlank(lines: seq<string>) {
    exists i :: 0 <= i < |lines| && !AllSpace(lines[i])
  }

  lemma SomeNonBlankCons(x: string, rest: seq<string>)
    ensures SomeNonBlank([x] + rest) <==> !AllSpace(x) || SomeNonBlank(rest)
  {
    var l := [x] + rest;
    if SomeNonBlank(rest) {
      var j :| 0 <= j < |rest| && !AllSpace(rest[j]);
      assert l[j + 1] == rest[j];
    }
    if !AllSpace(x) {
      assert l[0] == x;
    }
    if SomeNonBlank(l) {
      var j :| 0 <= j < |l| && !AllSpace(l[j]);
      if j > 0 {
        assert l[j] == rest[j - 1];
      }
    }
  }

  lemma AllSpaceSplit(s: string, k: nat, n: nat)
    requires k <= n <= |s|
    requires AllSpace(s[k..n])
    ensures AllSpace(s) <==> AllSpace(s[..k]) && AllSpace(s[n..])
  {
    if AllSpace(s[..k]) && AllSpace(s[n..]) {
      forall i | 0 <= i < |s|
        ensures IsSpace(s[i])
      {
        if i < k {
          assert s[..k][i] == s[i];
        } else if i < n {
          assert s[k..n][i - k] == s[i];
        } else {
          assert s[n..][i - n] == s[i];
        }
      }
    }
  }

  /** A text with a line boundary at `k` splits into the line before it and the lines after it. */
  lemma SplitLinesStep(s: string, k: nat, n: nat)
    requires k == LineEnd(s) < |s| && n == NextLineStart(s, k)
    ensures SplitLines(s) == [s[..k]] + SplitLines(s[n..])
  {
  }

  /** A line boundary, one or two characters long, is whitespace. */
  lemma BoundaryIsSpace(s: string, k: nat, n: nat)
    requires k < |s| && IsLineBreak(s[k]) && n == NextLineStart(s, k)
    ensures AllSpace(s[k..n])
  {
    assert IsSpace(s[k]);
    if n == k + 2 {
      assert s[k..n] == [s[k], s[k + 1]];
    } else {
      assert s[k..n] == [s[k]];
    }
  }

  /**
   * Every line boundary is whitespace, so some line of `s` is non-blank
   * exactly when `s` has a non-whitespace character.
   */
  lemma {:induction false} SomeLineNonBlankIff(s: string)
    ensures SomeNonBlank(SplitLines(s)) <==> !AllSpace(s)
    decreases |s|
  {
    if s != [] {
      var k := LineEnd(s);
      if k == |s| {
        SomeNonBlankCons(s, []);
        assert [s] + [] == SplitLines(s);
      } else {
        var n := NextLineStart(s, k);
        SomeLineNonBlankIff(s[n..]);
        SplitLinesStep(s, k, n);
        SomeNonBlankCons(s[..k], SplitLines(s[n..]));
        BoundaryIsSpace(s, k, n);
        AllSpaceSplit(s, k, n);
      }
    }
  }

  /** The lines a text stream yields when iterated: each ends after its `\n`, the last may not. */
  function SplitAfterNewlines(s: string): (lines: seq<string>)
    decreases |s|
  {
    if s == [] then []
    else
      var k := IndexOf(s, '\n');
      if k == |s| then [s] else [s[..k + 1]] + SplitAfterNewlines(s[k + 1..])
  }

  /** Index of the first `c` in `s`, or `|s|` when there is none. */
  function IndexOf(s: string, c: char): (k: nat)
    ensures k <= |s|
    ensures forall j :: 0 <= j < k ==> s[j] != c
    ensures k < |s| ==> s[k] == c
  {
    if s == [] || s[0] == c then 0 else 1 + IndexOf(s[1..], c)
  }

  /** Python's `sep.join(parts)`. */
  function Join(parts: seq<string>, sep: string): string
  {
    if parts == [] then ""
    else if |parts| == 1 then parts[0]
    else parts[0] + sep + Join(parts[1..], sep)
  }

  /** Each line followed by `\n`, concatenated: what writing `line + "\n"` per line produces. */
  function Terminated(lines: seq<string>): string
  {
    if lines == [] then "" else lines[0] + "\n" + Terminated(lines[1..])
  }

  lemma {:induction false} TerminatedAppend(a: seq<string>, b: seq<string>)
    ensures Terminated(a + b) == Terminated(a) + Terminated(b)
  {
    if a == [] {
      assert a + b == b;
    } else {
      assert (a + b)[1..] == a[1..] + b;
      TerminatedAppend(a[1..], b);
    }
  }

  /** Text made of terminated lines is empty or ends with a newline. */
  lemma {:induction false} TerminatedEndsWithNewline(lines: seq<string>)
    ensures var t := Terminated(lines); t == [] || t[|t| - 1] == '\n'
  {
    if lines != [] {
      TerminatedEndsWithNewline(lines[1..]);
    }
  }
}
