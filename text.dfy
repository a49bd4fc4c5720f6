/**
 * The handful of Python string operations the reconciliation engine relies
 * on: `str.strip`, `str.splitlines`, `str.join`, `str.startswith`,
 * `str.endswith` and (for the ASCII letters) `str.lower`.
 */
module Text {

  /** Python's `str.isspace` for one character. */
  predicate IsSpace(c: char) {
    c == ' ' || ('\t' <= c <= '\r') || ('\U{1c}' <= c <= '\U{1f}')
    || c == '\U{85}' || c == '\U{a0}' || c == '\U{1680}'
    || ('\U{2000}' <= c <= '\U{200a}') || c == '\U{2028}' || c == '\U{2029}'
    || c == '\U{202f}' || c == '\U{205f}' || c == '\U{3000}'
  }

  /** The characters at which Python's `str.splitlines` breaks a line. */
  predicate IsLineBoundary(c: char) {
    c == '\n' || c == '\r' || c == '\U{0b}' || c == '\U{0c}'
    || c == '\U{1c}' || c == '\U{1d}' || c == '\U{1e}'
    || c == '\U{85}' || c == '\U{2028}' || c == '\U{2029}'
  }

  predicate NoLineBoundary(s: string) {
    forall i :: 0 <= i < |s| ==> !IsLineBoundary(s[i])
  }

  predicate StartsWith(s: string, prefix: string) {
    |prefix| <= |s| && s[..|prefix|] == prefix
  }

  predicate EndsWith(s: string, suffix: string) {
    |suffix| <= |s| && s[|s| - |suffix|..] == suffix
  }

  /** `s.lstrip()`: drops the leading white space and nothing else. */
  function TrimStart(s: string): (r: string)
    ensures |r| <= |s| && r == s[|s| - |r|..]
    ensures r == [] || !IsSpace(r[0])
    ensures forall i :: 0 <= i < |s| - |r| ==> IsSpace(s[i])
  {
    if s != [] && IsSpace(s[0]) then TrimStart(s[1..]) else s
  }

  /** `s.rstrip()`: drops the trailing white space and nothing else. */
  function TrimEnd(s: string): (r: string)
    ensures |r| <= |s| && r == s[..|r|]
    ensures r == [] || !IsSpace(r[|r| - 1])
    ensures forall i :: |r| <= i < |s| ==> IsSpace(s[i])
  {
    if s != [] && IsSpace(s[|s| - 1]) then TrimEnd(s[..|s| - 1]) else s
  }

  /**
   * `s.strip()`: `s` without the white space on either side. What is left
   * is the slice of `s` that starts after its `LeadingSpace(s)` leading
   * white-space characters; every character dropped, before or after it, is
   * white space, and what is left neither starts nor ends with white space.
   */
  function Strip(s: string): (r: string)
    ensures LeadingSpace(s) + |r| <= |s| && r == s[LeadingSpace(s)..LeadingSpace(s) + |r|]
    ensures forall i :: 0 <= i < LeadingSpace(s) ==> IsSpace(s[i])
    ensures forall i :: LeadingSpace(s) + |r| <= i < |s| ==> IsSpace(s[i])
    ensures r == [] || (!IsSpace(r[0]) && !IsSpace(r[|r| - 1]))
  {
    var t := TrimStart(s);
    var r := TrimEnd(t);
    assert r != [] ==> r[0] == t[0];
    r
  }

  /** The number of white-space characters `s` starts with. */
  function LeadingSpace(s: string): (n: nat)
    ensures n <= |s|
  {
    |s| - |TrimStart(s)|
  }

  /** A string that neither starts nor ends with white space is its own strip. */
  lemma StripClean(s: string)
    requires s == [] || (!IsSpace(s[0]) && !IsSpace(s[|s| - 1]))
    ensures Strip(s) == s
  {
  }

  /** Python's `str.lower`, restricted to the ASCII letters. */
  function LowerAscii(s: string): (r: string)
    ensures |r| == |s|
    ensures forall i :: 0 <= i < |s| ==>
              r[i] == (if 'A' <= s[i] <= 'Z' then (s[i] as int + 32) as char else s[i])
  {
    if s == [] then []
    else [if 'A' <= s[0] <= 'Z' then (s[0] as int + 32) as char else s[0]] + LowerAscii(s[1..])
  }

  /** `sep.join(xs)`. */
  function Join(sep: string, xs: seq<string>): string
  {
    if xs == [] then "" else if |xs| == 1 then xs[0] else xs[0] + sep + Join(sep, xs[1..])
  }

  /** Length of the first line of `s`: the index of the first line boundary, or `|s|`. */
  function LineLength(s: string): (n: nat)
    ensures n <= |s| && NoLineBoundary(s[..n])
    ensures n < |s| ==> IsLineBoundary(s[n])
  {
    if s == [] || IsLineBoundary(s[0]) then 0 else 1 + LineLength(s[1..])
  }

  /**
   * Python's `s.splitlines()`: the lines of `s` without their boundaries,
   * "\r\n" counting as one boundary, and no empty last line after a final
   * boundary.
   */
  function SplitLines(s: string): (lines: seq<string>)
    decreases |s|
    ensures lines == [] <==> s == []
    ensures forall i :: 0 <= i < |lines| ==> NoLineBoundary(lines[i])
  {
    if s == [] then []
    else
      var n := LineLength(s);
      if n == |s| then [s]
      else
        var k := if s[n] == '\r' && n + 1 < |s| && s[n + 1] == '\n' then n + 2 else n + 1;
        [s[..n]] + SplitLines(s[k..])
  }

  /** A line without boundary, followed by "\n", is split off as one line. */
  lemma SplitLinesCons(line: string, rest: string)
    requires NoLineBoundary(line)
    ensures SplitLines(line + "\n" + rest) == [line] + SplitLines(rest)
  {
    var s := line + "\n" + rest;
    var n := LineLength(s);
    assert forall i :: 0 <= i < |line| ==> s[i] == line[i];
    assert s[|line|] == '\n';
    assert n == |line|;
    assert s[..n] == line;
    assert s[n + 1..] == rest;
  }

  /** Stripping ignores leading white space. */
  lemma StripLeadingSpace(c: char, s: string)
    requires IsSpace(c)
    ensures Strip([c] + s) == Strip(s)
  {
    assert ([c] + s)[1..] == s;
  }

  /** Stripping is idempotent. */
  lemma StripIdempotent(s: string)
    ensures Strip(Strip(s)) == Strip(s)
  {
    StripClean(Strip(s));
  }
  /** A non-empty string without line boundaries is one line. */
  lemma SplitLinesOne(line: string)
    requires line != [] && NoLineBoundary(line)
    ensures SplitLines(line) == [line]
  {
    assert LineLength(line) == |line|;
  }

  /** Lines joined by "\n" and terminated by "\n" split back into the same lines. */
  lemma {:induction false} SplitLinesTerminated(lines: seq<string>)
    requires lines != []
    requires forall i :: 0 <= i < |lines| ==> NoLineBoundary(lines[i])
    ensures SplitLines(Join("\n", lines) + "\n") == lines
  {
    if |lines| == 1 {
      SplitLinesCons(lines[0], "");
      assert lines[0] + "\n" + "" == Join("\n", lines) + "\n";
    } else {
      var rest := Join("\n", lines[1..]) + "\n";
      assert Join("\n", lines) + "\n" == lines[0] + "\n" + rest;
      SplitLinesCons(lines[0], rest);
      SplitLinesTerminated(lines[1..]);
    }
  }

  /**
   * Lines joined by "\n" split back into the same lines, provided the last
   * one is not empty (an empty last line would leave a trailing boundary).
   */
  lemma {:induction false} SplitLinesJoin(lines: seq<string>)
    requires lines != [] && lines[|lines| - 1] != []
    requires forall i :: 0 <= i < |lines| ==> NoLineBoundary(lines[i])
    ensures SplitLines(Join("\n", lines)) == lines
  {
    if |lines| == 1 {
      SplitLinesOne(lines[0]);
    } else {
      var tail := lines[1..];
      assert tail[|tail| - 1] == lines[|lines| - 1];
      JoinCons("\n", lines);
      SplitLinesCons(lines[0], Join("\n", tail));
      SplitLinesJoin(tail);
      assert lines == [lines[0]] + tail;
    }
  }

  /** Concatenation regrouped, for any element type. */
  lemma ConsAssoc<T>(h: T, x: seq<T>, y: seq<T>)
    ensures [h] + (x + y) == ([h] + x) + y
  {
  }

  /** A join of two parts or more is its first part, the separator and the join of the rest. */
  lemma JoinCons(sep: string, xs: seq<string>)
    requires |xs| >= 2
    ensures Join(sep, xs) == xs[0] + sep + Join(sep, xs[1..])
  {
  }
}
