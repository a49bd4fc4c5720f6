/**
 * Pulling the commit message out of the text `svn log -l 1` prints: a dashed
 * separator line, a header line (revision, author, date), a blank line, the
 * message, and a closing separator line.
 */
module SvnLog {
  import opened Text

  /** A line that starts with five dashes separates log entries. */
  predicate IsSeparator(line: string) {
    StartsWith(line, "-----")
  }

  /** The indices, from `k` on, of the separator lines, in increasing order. */
  function SeparatorsFrom(lines: seq<string>, k: nat): (r: seq<nat>)
    requires k <= |lines|
    decreases |lines| - k
    ensures forall j :: 0 <= j < |r| ==> k <= r[j] < |lines| && IsSeparator(lines[r[j]])
    ensures forall j, j' :: 0 <= j < j' < |r| ==> r[j] < r[j']
  {
    if k == |lines| then []
    else (if IsSeparator(lines[k]) then [k] else []) + SeparatorsFrom(lines, k + 1)
  }

  /** `sep_indices`: every index whose line is a separator, in increasing order. */
  function SeparatorIndices(lines: seq<string>): (r: seq<nat>)
    ensures forall j :: 0 <= j < |r| ==> r[j] < |lines| && IsSeparator(lines[r[j]])
    ensures forall j, j' :: 0 <= j < j' < |r| ==> r[j] < r[j']
  {
    SeparatorsFrom(lines, 0)
  }

  /** Every separator line from `k` on is found. */
  lemma {:induction false} SeparatorsFromComplete(lines: seq<string>, k: nat, i: nat)
    requires k <= i < |lines| && IsSeparator(lines[i])
    decreases i - k
    ensures i in SeparatorsFrom(lines, k)
  {
    if k < i {
      SeparatorsFromComplete(lines, k + 1, i);
    }
  }

  /** Every separator line is found. */
  lemma SeparatorsComplete(lines: seq<string>, i: nat)
    requires i < |lines| && IsSeparator(lines[i])
    ensures i in SeparatorIndices(lines)
  {
    SeparatorsFromComplete(lines, 0, i);
  }

  /** Python's `xs[start:end]` for `end` within bounds: empty unless `start < end`. */
  function Slice(xs: seq<string>, start: nat, end: nat): (r: seq<string>)
    requires end <= |xs|
    ensures start < end ==> r == xs[start..end]
    ensures end <= start ==> r == []
  {
    if start < end then xs[start..end] else []
  }

  /**
   * `extract_last_svn_log_message`: with two separators or more, the
   * stripped lines from the second line after the first separator up to the
   * second separator; otherwise the whole output, stripped.
   */
  function ExtractLastSvnLogMessage(logOutput: string): (msg: string)
    ensures msg == [] || (!IsSpace(msg[0]) && !IsSpace(msg[|msg| - 1]))
  {
    MessageOf(SplitLines(logOutput), logOutput)
  }

  /** The message read from the lines of `whole`. */
  function MessageOf(lines: seq<string>, whole: string): (msg: string)
    ensures msg == [] || (!IsSpace(msg[0]) && !IsSpace(msg[|msg| - 1]))
  {
    var seps := SeparatorIndices(lines);
    if |seps| >= 2 then Between(lines, seps[0], seps[1]) else Strip(whole)
  }

  /** The stripped text of the lines from the second after `first` up to `second`. */
  function Between(lines: seq<string>, first: nat, second: nat): (msg: string)
    requires second <= |lines|
    ensures msg == [] || (!IsSpace(msg[0]) && !IsSpace(msg[|msg| - 1]))
  {
    Strip(Join("\n", Slice(lines, first + 2, second)))
  }

  predicate AtMostOneSeparator(lines: seq<string>) {
    forall i, j :: 0 <= i < j < |lines| && IsSeparator(lines[i]) ==> !IsSeparator(lines[j])
  }

  /**
   * When the first separator line is at `a` and the next one at `b`, the
   * message is the stripped text of the lines from `a + 2` up to `b`.
   */
  lemma ExtractEntry(logOutput: string, a: nat, b: nat)
    requires FirstTwo(SplitLines(logOutput), a, b)
    ensures ExtractLastSvnLogMessage(logOutput) == Strip(Join("\n", Slice(SplitLines(logOutput), a + 2, b)))
  {
    MessageBetween(SplitLines(logOutput), logOutput, a, b);
  }

  lemma MessageBetween(lines: seq<string>, whole: string, a: nat, b: nat)
    requires FirstTwo(lines, a, b)
    ensures MessageOf(lines, whole) == Between(lines, a, b)
  {
    FirstTwoSeparators(lines, a, b);
  }

  /** Lines `a` and `b` are separators, with none before `a` and none between them. */
  predicate FirstTwo(lines: seq<string>, a: nat, b: nat) {
    && a < b < |lines| && IsSeparator(lines[a]) && IsSeparator(lines[b])
    && (forall i :: 0 <= i < a ==> !IsSeparator(lines[i]))
    && (forall i :: a < i < b ==> !IsSeparator(lines[i]))
  }

  /** The first two separator lines are the first two indices found. */
  lemma FirstTwoSeparators(lines: seq<string>, a: nat, b: nat)
    requires FirstTwo(lines, a, b)
    ensures var seps := SeparatorIndices(lines); |seps| >= 2 && seps[0] == a && seps[1] == b
  {
    var seps := SeparatorIndices(lines);
    SeparatorsComplete(lines, a);
    SeparatorsComplete(lines, b);
    var k :| 0 <= k < |seps| && seps[k] == a;
    var m :| 0 <= m < |seps| && seps[m] == b;
    assert seps[0] == a by {
      assert IsSeparator(lines[seps[0]]);
    }
    assert m >= 1;
    assert seps[1] == b by {
      assert a < seps[1] && IsSeparator(lines[seps[1]]);
    }
  }

  /** Output with at most one separator line is returned whole, stripped. */
  lemma ExtractWithoutEntry(logOutput: string)
    requires AtMostOneSeparator(SplitLines(logOutput))
    ensures ExtractLastSvnLogMessage(logOutput) == Strip(logOutput)
  {
    SeparatorPair(SplitLines(logOutput));
  }

  /** Two separator indices exist only when two separator lines do. */
  lemma SeparatorPair(lines: seq<string>)
    ensures |SeparatorIndices(lines)| >= 2 ==> !AtMostOneSeparator(lines)
  {
    var seps := SeparatorIndices(lines);
    if |seps| >= 2 {
      var i, j := seps[0], seps[1];
      assert 0 <= i < j < |lines| && IsSeparator(lines[i]) && IsSeparator(lines[j]);
    }
  }

  /** With exactly two separator lines, at `a` and `b`, those are the first two found. */
  lemma TwoSeparators(lines: seq<string>, a: nat, b: nat)
    requires a < b < |lines| && IsSeparator(lines[a]) && IsSeparator(lines[b])
    requires forall i :: 0 <= i < |lines| && i != a && i != b ==> !IsSeparator(lines[i])
    ensures var seps := SeparatorIndices(lines); |seps| >= 2 && seps[0] == a && seps[1] == b
  {
    FirstTwoSeparators(lines, a, b);
  }

  /** The lines `svn log -l 1` prints for one entry. */
  function EntryLines(separator: string, header: string, body: seq<string>): seq<string>
  {
    [separator, header, ""] + body + [separator]
  }

  /** What an entry's lines must look like for the output to be read back as that entry. */
  predicate WellFormedEntry(separator: string, header: string, body: seq<string>) {
    && SeparatedEntry(separator, header, body)
    && NoLineBoundary(separator) && NoLineBoundary(header)
    && forall i :: 0 <= i < |body| ==> NoLineBoundary(body[i])
  }

  /** An entry whose only separator lines are its first and its last. */
  predicate SeparatedEntry(separator: string, header: string, body: seq<string>) {
    && IsSeparator(separator) && !IsSeparator(header)
    && forall i :: 0 <= i < |body| ==> !IsSeparator(body[i])
  }

  /** Output whose lines are those of one well-formed entry yields that entry's message. */
  lemma ExtractFromLines(logOutput: string, separator: string, header: string, body: seq<string>)
    requires SeparatedEntry(separator, header, body)
    requires SplitLines(logOutput) == EntryLines(separator, header, body)
    ensures ExtractLastSvnLogMessage(logOutput) == Strip(Join("\n", body))
  {
    EntryMessage(separator, header, body, logOutput);
  }

  /** The message read from an entry's lines is its body, stripped. */
  lemma EntryMessage(separator: string, header: string, body: seq<string>, whole: string)
    requires SeparatedEntry(separator, header, body)
    ensures MessageOf(EntryLines(separator, header, body), whole) == Strip(Join("\n", body))
  {
    EntrySeparators(separator, header, body);
    EntryBody(separator, header, body);
    StripAfterBlank(body);
  }

  /** The separators of an entry are its first and its last line. */
  lemma EntrySeparators(separator: string, header: string, body: seq<string>)
    requires SeparatedEntry(separator, header, body)
    ensures var seps := SeparatorIndices(EntryLines(separator, header, body));
      |seps| >= 2 && seps[0] == 0 && seps[1] == |body| + 3
  {
    var lines := EntryLines(separator, header, body);
    assert forall i :: 3 <= i < |body| + 3 ==> lines[i] == body[i - 3];
    TwoSeparators(lines, 0, |body| + 3);
  }

  /** What lies between an entry's header and its closing separator: a blank line, then the message. */
  lemma EntryBody(separator: string, header: string, body: seq<string>)
    ensures Slice(EntryLines(separator, header, body), 2, |body| + 3) == [""] + body
  {
    var lines := EntryLines(separator, header, body);
    assert lines[2..|body| + 3] == [""] + body;
  }

  lemma JoinAfterBlank(body: seq<string>)
    requires body != []
    ensures Join("\n", [""] + body) == ['\n'] + Join("\n", body)
  {
    assert ([""] + body)[1..] == body;
  }

  /** The blank line after the header disappears once the message is stripped. */
  lemma StripAfterBlank(body: seq<string>)
    ensures Strip(Join("\n", [""] + body)) == Strip(Join("\n", body))
  {
    if body != [] {
      var rest := Join("\n", body);
      JoinAfterBlank(body);
      StripLeadingSpace('\n', rest);
    }
  }

  /**
   * Reading back a rendered log entry yields its message: the message lines
   * joined by newlines, stripped.
   */
  lemma ExtractRenderedEntry(separator: string, header: string, body: seq<string>)
    requires WellFormedEntry(separator, header, body)
    ensures ExtractLastSvnLogMessage(Join("\n", EntryLines(separator, header, body)) + "\n")
            == Strip(Join("\n", body))
  {
    var lines := EntryLines(separator, header, body);
    var out := Join("\n", lines) + "\n";
    SplitLinesTerminated(lines);
    ExtractFromLines(out, separator, header, body);
  }

  /** An entry whose header is directly followed by the closing separator has no message. */
  lemma ExtractHeaderOnly(separator: string, header: string)
    requires WellFormedEntry(separator, header, [])
    ensures ExtractLastSvnLogMessage(Join("\n", [separator, header, separator]) + "\n") == ""
  {
    var lines := [separator, header, separator];
    SplitLinesTerminated(lines);
    TwoSeparators(lines, 0, 2);
  }
}
