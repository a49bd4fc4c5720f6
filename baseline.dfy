/**
 * The ignore baseline: the file of absolute paths excluded from
 * reconciliation (`load_ignore_set`, `append_to_ignore`), its resolution
 * into one relative ignore set per working-copy root and the "both roots
 * covered" precondition, and the rebaseline operation.
 */
module Baseline {
  import opened Wrappers
  import opened Text
  import opened Paths
  import opened Ordering

  // ---------------------------------------------------------------------
  // Reading the file

  /** A line end as a text-mode file read sees it ("\r\n" gives an extra, blank, piece). */
  predicate IsFileNewline(c: char) {
    c == '\n' || c == '\r'
  }

  predicate NoFileNewline(s: string) {
    forall i :: 0 <= i < |s| ==> !IsFileNewline(s[i])
  }

  function FileLineLength(s: string): (n: nat)
    ensures n <= |s| && NoFileNewline(s[..n])
    ensures n < |s| ==> IsFileNewline(s[n])
  {
    if s == [] || IsFileNewline(s[0]) then 0 else 1 + FileLineLength(s[1..])
  }

  /** The lines `for line in f` yields, without their line ends. */
  function FileLines(s: string): (lines: seq<string>)
    decreases |s|
  {
    if s == [] then []
    else
      var n := FileLineLength(s);
      if n == |s| then [s] else [s[..n]] + FileLines(s[n + 1..])
  }

  /** A line that holds an entry: not blank and not a comment once stripped. */
  predicate IsEntryLine(line: string) {
    Strip(line) != "" && !StartsWith(Strip(line), "#")
  }

  /** The stripped entry lines among `lines`. */
  function EntriesOf(lines: seq<string>): (entries: set<string>)
    ensures forall e :: e in entries ==> e != "" && !StartsWith(e, "#") && Strip(e) == e
  {
    if lines == [] then {}
    else
      StripIdempotent(lines[0]);
      (if IsEntryLine(lines[0]) then {Strip(lines[0])} else {}) + EntriesOf(lines[1..])
  }

  /** `load_ignore_set` on the file's text; a missing file reads as "". */
  function LoadIgnoreSet(content: string): (entries: set<string>)
    ensures forall e :: e in entries ==> e != "" && !StartsWith(e, "#") && Strip(e) == e
  {
    EntriesOf(FileLines(content))
  }

  /** The text `f.write(p + "\n")` produces for each of `paths` in turn. */
  function Render(paths: seq<string>): string {
    if paths == [] then "" else paths[0] + "\n" + Render(paths[1..])
  }

  /** Text that ends a line where it ends: appending to it cannot change its entries. */
  predicate Terminated(content: string) {
    content == [] || IsFileNewline(content[|content| - 1])
  }

  /**
   * An entry the file reads back as itself: one line, not blank at
   * either end and not a comment.
   */
  predicate CleanEntry(p: string) {
    p != [] && NoFileNewline(p) && !IsSpace(p[0]) && !IsSpace(p[|p| - 1]) && p[0] != '#'
  }

  predicate AllClean(xs: seq<string>) {
    forall i :: 0 <= i < |xs| ==> CleanEntry(xs[i])
  }

  lemma CleanEntryLine(p: string)
    requires CleanEntry(p)
    ensures Strip(p) == p && IsEntryLine(p)
  {
    StripClean(p);
    assert p[..1][0] == p[0];
  }

  /** The first line of `a + b` is that of `a` when `a` holds a line end. */
  lemma {:induction false} FileLineLengthAppend(a: string, b: string)
    requires FileLineLength(a) < |a|
    ensures FileLineLength(a + b) == FileLineLength(a)
    decreases |a|
  {
    if !IsFileNewline(a[0]) {
      assert (a + b)[1..] == a[1..] + b;
      FileLineLengthAppend(a[1..], b);
    }
  }

  /** The first line of a text without line end is all of it, whatever follows a line end. */
  lemma {:induction false} FileLineLengthOf(p: string, b: string)
    requires NoFileNewline(p)
    ensures FileLineLength(p + "\n" + b) == |p|
    decreases |p|
  {
    if p != [] {
      assert (p + "\n" + b)[1..] == p[1..] + "\n" + b;
      FileLineLengthOf(p[1..], b);
    }
  }

  lemma {:induction false} FileLineLengthAll(p: string)
    requires NoFileNewline(p)
    ensures FileLineLength(p) == |p|
    decreases |p|
  {
    if p != [] {
      assert !IsFileNewline(p[0]);
      FileLineLengthAll(p[1..]);
    }
  }

  lemma {:induction false} FileLineLengthTerminated(a: string)
    requires a != [] && Terminated(a)
    ensures FileLineLength(a) < |a|
    decreases |a|
  {
    if !IsFileNewline(a[0]) {
      assert |a| > 1;
      assert a[1..][|a| - 2] == a[|a| - 1];
      FileLineLengthTerminated(a[1..]);
    }
  }

  /** Splitting off the first line of a text that holds a line end. */
  lemma FileLinesSplit(s: string)
    requires FileLineLength(s) < |s|
    ensures FileLines(s) == [s[..FileLineLength(s)]] + FileLines(s[FileLineLength(s) + 1..])
  {
  }

  lemma {:induction false} FileLinesAppend(a: string, b: string)
    requires Terminated(a)
    ensures FileLines(a + b) == FileLines(a) + FileLines(b)
    decreases |a|
  {
    if a == [] {
      assert a + b == b;
    } else {
      var n := FileLineLength(a);
      FileLineLengthTerminated(a);
      FileLineLengthAppend(a, b);
      var rest := a[n + 1..];
      RestTerminated(a, n);
      FileLinesAppend(rest, b);
      FileLinesSplit(a);
      FileLinesSplit(a + b);
      SliceAppend(a, b, n);
      ConsAssoc(a[..n], FileLines(rest), FileLines(b));
    }
  }

  lemma SliceAppend(a: string, b: string, n: nat)
    requires n < |a|
    ensures (a + b)[..n] == a[..n] && (a + b)[n + 1..] == a[n + 1..] + b
  {
  }

  lemma RestTerminated(a: string, n: nat)
    requires n < |a| && Terminated(a)
    ensures Terminated(a[n + 1..])
  {
    var rest := a[n + 1..];
    if rest != [] {
      assert rest[|rest| - 1] == a[|a| - 1];
    }
  }

  lemma RestUnterminated(a: string, n: nat)
    requires n + 1 < |a| && !Terminated(a)
    ensures !Terminated(a[n + 1..])
  {
    var rest := a[n + 1..];
    if rest != [] {
      assert rest[|rest| - 1] == a[|a| - 1];
    }
  }

  /** A line without line end, alone or followed by one, is one line. */
  lemma OneLine(p: string)
    requires NoFileNewline(p)
    ensures FileLines(p + "\n") == [p]
    ensures p != [] ==> FileLines(p) == [p]
  {
    var s := p + "\n";
    FileLineLengthOf(p, "");
    assert p + "\n" + "" == s;
    SliceAppend(p + "\n", "", |p|);
    assert s[..|p|] == p && s[|p| + 1..] == [];
    FileLinesSplit(s);
    FileLineLengthAll(p);
    assert p[..|p|] == p;
  }

  /** A line end after a text that does not end a line only closes its last line. */
  lemma {:induction false} FileLinesClose(s: string)
    requires !Terminated(s)
    ensures FileLines(s + "\n") == FileLines(s)
    decreases |s|
  {
    var n := FileLineLength(s);
    if n == |s| {
      assert s[..n] == s;
      OneLine(s);
    } else {
      FileLineLengthAppend(s, "\n");
      RestUnterminated(s, n);
      FileLinesClose(s[n + 1..]);
      FileLinesSplit(s);
      FileLinesSplit(s + "\n");
      SliceAppend(s, "\n", n);
    }
  }

  lemma {:induction false} EntriesOfAppend(a: seq<string>, b: seq<string>)
    ensures EntriesOf(a + b) == EntriesOf(a) + EntriesOf(b)
  {
    if a == [] {
      assert a + b == b;
    } else {
      assert (a + b)[0] == a[0];
      assert (a + b)[1..] == a[1..] + b;
      EntriesOfAppend(a[1..], b);
    }
  }

  lemma {:induction false} EntriesOfMembers(lines: seq<string>, e: string)
    ensures e in EntriesOf(lines) <==> exists l :: l in lines && IsEntryLine(l) && Strip(l) == e
  {
    if lines != [] {
      EntriesOfMembers(lines[1..], e);
      assert forall l :: l in lines <==> l == lines[0] || l in lines[1..];
    }
  }

  /** The entries are exactly the stripped lines that are neither blank nor comments. */
  lemma LoadMembers(content: string, e: string)
    ensures e in LoadIgnoreSet(content) <==> exists l :: l in FileLines(content) && IsEntryLine(l) && Strip(l) == e
  {
    assert LoadIgnoreSet(content) == EntriesOf(FileLines(content));
    EntriesOfMembers(FileLines(content), e);
  }

  /** Appending after a line end adds the entries of the new text and keeps the old ones. */
  lemma LoadAppend(a: string, b: string)
    requires Terminated(a)
    ensures LoadIgnoreSet(a + b) == LoadIgnoreSet(a) + LoadIgnoreSet(b)
  {
    FileLinesAppend(a, b);
    EntriesOfAppend(FileLines(a), FileLines(b));
  }

  /** A final line end adds no entry. */
  lemma LoadClose(s: string)
    ensures LoadIgnoreSet(s + "\n") == LoadIgnoreSet(s)
  {
    if Terminated(s) {
      LoadAppend(s, "\n");
      OneLine("");
      assert "" + "\n" == "\n";
      assert Strip("") == "";
    } else {
      FileLinesClose(s);
    }
  }

  /** A clean entry on a line of its own reads back as itself. */
  lemma LoadLine(p: string)
    requires CleanEntry(p)
    ensures LoadIgnoreSet(p + "\n") == {p}
    ensures LoadIgnoreSet(p) == {p}
  {
    OneLine(p);
    CleanEntryLine(p);
    assert [p][1..] == [];
    assert EntriesOf([p]) == {p};
  }

  /** A path beginning with "/" reads back as itself when its last character is not blank. */
  lemma SlashEntryClean(p: string)
    requires p != [] && p[0] == '/' && NoFileNewline(p) && !IsSpace(p[|p| - 1])
    ensures CleanEntry(p)
  {
  }

  lemma SetOfCons(xs: seq<string>)
    requires xs != []
    ensures (set p | p in xs) == {xs[0]} + set p | p in xs[1..]
  {
    assert forall p :: p in xs <==> p == xs[0] || p in xs[1..];
  }

  /** Rendering clean entries and reading them back gives exactly those entries. */
  lemma {:induction false} LoadRender(paths: seq<string>)
    requires AllClean(paths)
    ensures LoadIgnoreSet(Render(paths)) == set p | p in paths
  {
    if paths != [] {
      var head := paths[0] + "\n";
      LoadLine(paths[0]);
      assert head[|head| - 1] == '\n';
      LoadAppend(head, Render(paths[1..]));
      LoadRender(paths[1..]);
      SetOfCons(paths);
    }
  }

  // ---------------------------------------------------------------------
  // Appending to the file

  /** `[p for p in paths if p not in existing]`. */
  function NewEntries(paths: seq<string>, existing: set<string>): (r: seq<string>)
    ensures |r| <= |paths|
    ensures forall x :: x in r <==> x in paths && x !in existing
  {
    if paths == [] then []
    else (if paths[0] in existing then [] else [paths[0]]) + NewEntries(paths[1..], existing)
  }

  /** The filter looks at one path at a time: it keeps a path exactly when it is not known. */
  lemma NewEntriesOne(p: string, existing: set<string>)
    ensures NewEntries([p], existing) == if p in existing then [] else [p]
  {
    assert [p][1..] == [];
  }

  /** The filter keeps the input order and its repetitions: it distributes over concatenation. */
  lemma {:induction false} NewEntriesConcat(a: seq<string>, b: seq<string>, existing: set<string>)
    ensures NewEntries(a + b, existing) == NewEntries(a, existing) + NewEntries(b, existing)
  {
    if a == [] {
      assert a + b == b;
    } else {
      var head := if a[0] in existing then [] else [a[0]];
      assert (a + b)[0] == a[0] && (a + b)[1..] == a[1..] + b;
      NewEntriesConcat(a[1..], b, existing);
      assert NewEntries(a, existing) == head + NewEntries(a[1..], existing);
      assert NewEntries(a + b, existing) == head + NewEntries(a[1..] + b, existing);
      SeqsAssoc(head, NewEntries(a[1..], existing), NewEntries(b, existing));
    }
  }

  /**
   * The file's text after `append_to_ignore` wrote `added`, AS WRITTEN:
   * the new lines go straight after the old text, so an old last line
   * without a line end absorbs the first new path.
   */
  function AppendedAsWritten(content: string, added: seq<string>): (r: string)
    ensures |content| <= |r| && r[..|content|] == content
  {
    content + Render(added)
  }

  /**
   * The file's text after the append, with a missing final line end
   * supplied first. It is the as-written text whenever the file already
   * ends a line, and whenever there is nothing to write.
   */
  function Appended(content: string, added: seq<string>): (r: string)
    ensures |content| <= |r| && r[..|content|] == content
    ensures Terminated(content) || added == [] ==> r == AppendedAsWritten(content, added)
    ensures added != [] ==> Terminated(r)
  {
    if added == [] then content
    else
      var head := if Terminated(content) then content else content + "\n";
      RenderEnds(head, added);
      head + Render(added)
  }

  lemma RenderTerminated(paths: seq<string>)
    ensures Terminated(Render(paths))
  {
  }

  /** Text followed by at least one rendered line ends a line. */
  lemma {:induction false} RenderEnds(head: string, paths: seq<string>)
    requires paths != []
    ensures Terminated(head + Render(paths))
    decreases |paths|
  {
    var rest := Render(paths[1..]);
    assert head + Render(paths) == (head + paths[0] + "\n") + rest;
    if paths[1..] != [] {
      RenderEnds(head + paths[0] + "\n", paths[1..]);
    } else {
      assert rest == "";
    }
  }

  /**
   * Appending never loses an entry: the file then holds the old entries
   * and those of the rendered new lines, and nothing else.
   */
  lemma AppendedEntries(content: string, added: seq<string>)
    ensures LoadIgnoreSet(Appended(content, added)) == LoadIgnoreSet(content) + LoadIgnoreSet(Render(added))
  {
    if added != [] {
      if Terminated(content) {
        LoadAppend(content, Render(added));
      } else {
        var c := content + "\n";
        assert c[|c| - 1] == '\n';
        LoadAppend(c, Render(added));
        LoadClose(content);
      }
    }
  }

  /** Clean new entries are read back after the append, next to the old ones. */
  lemma AppendedClean(content: string, added: seq<string>)
    requires AllClean(added)
    ensures LoadIgnoreSet(Appended(content, added)) == LoadIgnoreSet(content) + set p | p in added
  {
    AppendedEntries(content, added);
    LoadRender(added);
  }

  lemma CleanConcat(a: string, b: string)
    requires CleanEntry(a) && CleanEntry(b)
    ensures CleanEntry(a + b)
  {
    assert forall i :: 0 <= i < |a + b| ==> (a + b)[i] == if i < |a| then a[i] else b[i - |a|];
  }

  lemma AsWrittenText(a: string, b: string)
    ensures AppendedAsWritten(a, [b]) == (a + b) + "\n"
  {
    assert [b][1..] == [];
    assert Render([b]) == b + "\n";
    SeqAssoc(a, b, "\n");
  }

  lemma SeqsAssoc(a: seq<string>, b: seq<string>, c: seq<string>)
    ensures a + (b + c) == (a + b) + c
  {
  }

  lemma SeqAssoc(a: string, b: string, c: string)
    ensures a + (b + c) == (a + b) + c
  {
  }

  lemma AsWrittenMerges(a: string, b: string)
    requires CleanEntry(a) && CleanEntry(b)
    ensures LoadIgnoreSet(AppendedAsWritten(a, [b])) == {a + b}
  {
    CleanConcat(a, b);
    AsWrittenText(a, b);
    LoadLine(a + b);
  }

  /**
   * The as-written append merges the old last entry with the first new
   * one when the file does not end a line: both are lost and replaced by
   * their concatenation (`AppendedEntries` shows that the corrected
   * append keeps every old entry).
   */
  lemma AppendAsWrittenLosesEntry(a: string, b: string)
    requires CleanEntry(a) && CleanEntry(b)
    ensures LoadIgnoreSet(a) == {a}
    ensures LoadIgnoreSet(AppendedAsWritten(a, [b])) == {a + b}
    ensures a !in LoadIgnoreSet(AppendedAsWritten(a, [b])) && b !in LoadIgnoreSet(AppendedAsWritten(a, [b]))
  {
    LoadLine(a);
    AsWrittenMerges(a, b);
    assert |a + b| > |a| && |a + b| > |b|;
  }

  /** The ignore file, append-only from this program's view. */
  class IgnoreFile {
    var content: string

    constructor (content: string)
      ensures this.content == content
    {
      this.content := content;
    }

    function Entries(): set<string>
      reads this
    {
      LoadIgnoreSet(content)
    }

    /**
     * `append_to_ignore`: appends the paths not in `existing` (by default
     * the entries on file), in input order, and returns them; writes
     * nothing when there are none.
     */
    method AppendToIgnore(paths: seq<string>, existing: Option<set<string>>) returns (added: seq<string>)
      modifies this
      ensures added == NewEntries(paths, existing.GetOr(old(Entries())))
      ensures content == Appended(old(content), added)
      ensures added == [] ==> content == old(content)
      ensures Terminated(old(content)) ==> content == AppendedAsWritten(old(content), added)
      ensures old(Entries()) <= Entries()
    {
      var known := if existing.Some? then existing.value else LoadIgnoreSet(content);
      added := NewEntries(paths, known);
      if added == [] {
        return;
      }
      if !Terminated(content) {
        content := content + "\n";
      }
      WriteLines(added);
      AppendedEntries(old(content), added);
    }

    /** The loop of `append_to_ignore`: `f.write(p + "\n")` for each path in turn. */
    method WriteLines(paths: seq<string>)
      modifies this
      ensures content == old(content) + Render(paths)
    {
      var i := 0;
      while i < |paths|
        invariant 0 <= i <= |paths|
        invariant content + Render(paths[i..]) == old(content) + Render(paths)
      {
        assert paths[i..] == [paths[i]] + paths[i + 1..];
        content := content + paths[i] + "\n";
        i := i + 1;
      }
      assert paths[|paths|..] == [];
    }
  }

  // ---------------------------------------------------------------------
  // Per-root ignore sets (main, lines 505-524)

  /** The relative paths the entries file under `root`. */
  function IgnoreSetFor(entries: set<string>, root: Path): (r: set<string>)
    ensures forall e :: e in entries && RootRelative(e, root).Some? ==> RootRelative(e, root).value in r
    ensures forall x :: x in r ==> exists e :: e in entries && RootRelative(e, root) == Some(x)
  {
    set e | e in entries && RootRelative(e, root).Some? :: RootRelative(e, root).value
  }

  /** A root has something filed under it exactly when some entry lies strictly below it. */
  lemma FiledUnder(entries: set<string>, root: Path)
    ensures IgnoreSetFor(entries, root) != {} <==> exists e :: e in entries && RootRelative(e, root).Some?
  {
    if exists e :: e in entries && RootRelative(e, root).Some? {
      var e :| e in entries && RootRelative(e, root).Some?;
      assert RootRelative(e, root).value in IgnoreSetFor(entries, root);
    }
  }

  /**
   * A baseline covers the roots exactly when some entry lies strictly
   * below each of them (with a first component below the root that does
   * not start with "..").
   */
  lemma CoveredByEntries(entries: set<string>, gitRoot: Path, svnRoot: Path)
    ensures Covered(entries, gitRoot, svnRoot)
            <==> (exists e :: e in entries && RootRelative(e, gitRoot).Some?)
                 && (exists e :: e in entries && RootRelative(e, svnRoot).Some?)
  {
    FiledUnder(entries, gitRoot);
    FiledUnder(entries, svnRoot);
  }

  /** Normal runs need at least one entry filed under each root. */
  predicate Covered(entries: set<string>, gitRoot: Path, svnRoot: Path) {
    IgnoreSetFor(entries, gitRoot) != {} && IgnoreSetFor(entries, svnRoot) != {}
  }

  /** The relative path, if any, under which `main` files entry `p` for `root`, as a set. */
  function FiledAs(p: string, root: Path): set<string> {
    var rel := RootRelative(p, root);
    if rel.Some? then {rel.value} else {}
  }

  /** Filing one more entry adds its relative path, if it has one. */
  lemma IgnoreSetStep(entries: set<string>, rest: set<string>, p: string, root: Path)
    requires p in rest && rest <= entries
    ensures IgnoreSetFor(entries - (rest - {p}), root) == IgnoreSetFor(entries - rest, root) + FiledAs(p, root)
  {
    assert entries - (rest - {p}) == (entries - rest) + {p};
  }

  /**
   * The loop of `main` that files each entry under the roots it lies
   * strictly below.
   */
  method ResolveIgnores(entries: set<string>, gitRoot: Path, svnRoot: Path)
    returns (ignoreGit: set<string>, ignoreSvn: set<string>)
    ensures ignoreGit == IgnoreSetFor(entries, gitRoot)
    ensures ignoreSvn == IgnoreSetFor(entries, svnRoot)
  {
    ignoreGit, ignoreSvn := {}, {};
    var rest := entries;
    while rest != {}
      invariant rest <= entries
      invariant ignoreGit == IgnoreSetFor(entries - rest, gitRoot)
      invariant ignoreSvn == IgnoreSetFor(entries - rest, svnRoot)
      decreases |rest|
    {
      var p :| p in rest;
      ignoreGit := ignoreGit + FiledAs(p, gitRoot);
      ignoreSvn := ignoreSvn + FiledAs(p, svnRoot);
      IgnoreSetStep(entries, rest, p, gitRoot);
      IgnoreSetStep(entries, rest, p, svnRoot);
      rest := rest - {p};
    }
    assert entries - rest == entries;
  }

  /** Every relative ignore path stems from an entry strictly below the root. */
  lemma IgnoreSetBelowRoot(entries: set<string>, root: Path, rel: string)
    requires rel in IgnoreSetFor(entries, root)
    ensures exists e :: e in entries && RootRelative(e, root) == Some(rel)
                        && |root| < |AbsPath(e)| && AbsPath(e)[..|root|] == root
  {
    var e :| e in entries && RootRelative(e, root).Some? && RootRelative(e, root).value == rel;
    RootRelativeIsBelow(e, root);
  }

  lemma IgnoreSetMonotone(a: set<string>, b: set<string>, root: Path)
    requires a <= b
    ensures IgnoreSetFor(a, root) <= IgnoreSetFor(b, root)
  {
  }

  // ---------------------------------------------------------------------
  // Rebaseline (main, lines 526-546)

  /** `[os.path.join(root, p) for p in paths]`. */
  function JoinAll(root: Path, paths: seq<string>): (r: seq<string>)
    ensures |r| == |paths|
    ensures forall i :: 0 <= i < |paths| ==> r[i] == JoinPath(PathString(root), paths[i])
  {
    if paths == [] then [] else [JoinPath(PathString(root), paths[0])] + JoinAll(root, paths[1..])
  }

  /**
   * The absolute paths of the asymmetric files, from the working sets
   * left after the ignore sets were taken out: the Git-only ones, then
   * the SVN-only ones, each sorted.
   */
  function Asymmetric(gitSet: set<string>, svnSet: set<string>, gitRoot: Path, svnRoot: Path): (r: seq<string>)
    ensures |r| == |gitSet - svnSet| + |svnSet - gitSet|
  {
    JoinAll(gitRoot, Sorted(gitSet - svnSet)) + JoinAll(svnRoot, Sorted(svnSet - gitSet))
  }

  /** Every Git-only path appears, joined to the Git root, among the asymmetric paths. */
  lemma AsymmetricHoldsGit(gitSet: set<string>, svnSet: set<string>, gitRoot: Path, svnRoot: Path, rel: string)
    requires rel in gitSet - svnSet
    ensures JoinPath(PathString(gitRoot), rel) in Asymmetric(gitSet, svnSet, gitRoot, svnRoot)
  {
    var onlyGit := Sorted(gitSet - svnSet);
    var k :| 0 <= k < |onlyGit| && onlyGit[k] == rel;
    var asym := Asymmetric(gitSet, svnSet, gitRoot, svnRoot);
    assert asym[k] == JoinAll(gitRoot, onlyGit)[k];
  }

  /** A sorted set joined to a root holds exactly the set's paths joined to it. */
  lemma JoinedMembers(root: Path, rels: set<string>, p: string)
    ensures p in JoinAll(root, Sorted(rels)) <==> exists rel :: rel in rels && p == JoinPath(PathString(root), rel)
  {
    var sorted := Sorted(rels);
    if p in JoinAll(root, sorted) {
      JoinedFrom(root, sorted, p);
    }
    if exists rel :: rel in rels && p == JoinPath(PathString(root), rel) {
      var rel :| rel in rels && p == JoinPath(PathString(root), rel);
      JoinedHolds(root, sorted, rel);
    }
  }

  lemma JoinedFrom(root: Path, rels: seq<string>, p: string)
    requires p in JoinAll(root, rels)
    ensures exists rel :: rel in rels && p == JoinPath(PathString(root), rel)
  {
    var joined := JoinAll(root, rels);
    var k :| 0 <= k < |joined| && joined[k] == p;
    assert rels[k] in rels;
  }

  lemma JoinedHolds(root: Path, rels: seq<string>, rel: string)
    requires rel in rels
    ensures JoinPath(PathString(root), rel) in JoinAll(root, rels)
  {
    var k :| 0 <= k < |rels| && rels[k] == rel;
    assert JoinAll(root, rels)[k] == JoinPath(PathString(root), rel);
  }

  /**
   * The asymmetric paths are exactly the Git-only paths joined to the Git
   * root and the SVN-only paths joined to the SVN root.
   */
  lemma AsymmetricMembers(gitSet: set<string>, svnSet: set<string>, gitRoot: Path, svnRoot: Path, p: string)
    ensures p in Asymmetric(gitSet, svnSet, gitRoot, svnRoot)
            <==> (exists rel :: rel in gitSet - svnSet && p == JoinPath(PathString(gitRoot), rel))
                 || (exists rel :: rel in svnSet - gitSet && p == JoinPath(PathString(svnRoot), rel))
  {
    JoinedMembers(gitRoot, gitSet - svnSet, p);
    JoinedMembers(svnRoot, svnSet - gitSet, p);
  }

  function Placeholder(root: Path): string {
    JoinPath(PathString(root), ".ignore")
  }

  /** Placeholder test AS WRITTEN: no entry has `commonpath([root, p]) == root`. */
  predicate PlaceholderNeededAsWritten(entries: set<string>, root: Path) {
    !exists p :: p in entries && UnderRoot(p, root)
  }

  /** Placeholder test as intended: no entry is filed under the root. */
  predicate PlaceholderNeeded(entries: set<string>, root: Path) {
    IgnoreSetFor(entries, root) == {}
  }

  /**
   * Entries the two placeholder tests read alike for `root`: no component
   * starts with "..", and none is the root itself.
   */
  predicate PlainEntries(entries: set<string>, root: Path) {
    forall e :: e in entries ==> NoDotDot(SplitSlash(e)) && AbsPath(e) != root
  }

  /** On plain entries the `commonpath` test and the filing test agree. */
  lemma PlaceholderTestsAgree(entries: set<string>, root: Path)
    requires PlainEntries(entries, root)
    ensures PlaceholderNeededAsWritten(entries, root) <==> PlaceholderNeeded(entries, root)
  {
    forall e | e in entries ensures UnderRoot(e, root) <==> RootRelative(e, root).Some? {
      UnderRootAgrees(e, root);
    }
    if !PlaceholderNeeded(entries, root) {
      var x :| x in IgnoreSetFor(entries, root);
      var e :| e in entries && RootRelative(e, root) == Some(x);
      assert UnderRoot(e, root);
    }
    if !PlaceholderNeededAsWritten(entries, root) {
      var e :| e in entries && UnderRoot(e, root);
      assert RootRelative(e, root).value in IgnoreSetFor(entries, root);
    }
  }

  /** So on plain entries both seed the same placeholders. */
  lemma PlaceholdersAgree(entries: set<string>, gitRoot: Path, svnRoot: Path)
    requires PlainEntries(entries, gitRoot) && PlainEntries(entries, svnRoot)
    ensures PlaceholdersAsWritten(entries, gitRoot, svnRoot) == Placeholders(entries, gitRoot, svnRoot)
  {
    PlaceholderTestsAgree(entries, gitRoot);
    PlaceholderTestsAgree(entries, svnRoot);
  }

  /** The placeholders seeded AS WRITTEN, by the `commonpath` test. */
  function PlaceholdersAsWritten(entries: set<string>, gitRoot: Path, svnRoot: Path): (r: seq<string>)
    ensures |r| <= 2
    ensures r == [] <==> !PlaceholderNeededAsWritten(entries, gitRoot) && !PlaceholderNeededAsWritten(entries, svnRoot)
    ensures PlaceholderNeededAsWritten(entries, gitRoot) ==> r[0] == Placeholder(gitRoot)
    ensures PlaceholderNeededAsWritten(entries, svnRoot) ==> r[|r| - 1] == Placeholder(svnRoot)
  {
    (if PlaceholderNeededAsWritten(entries, gitRoot) then [Placeholder(gitRoot)] else [])
    + (if PlaceholderNeededAsWritten(entries, svnRoot) then [Placeholder(svnRoot)] else [])
  }

  /** The placeholders seeded for the roots that have no entry filed under them. */
  function Placeholders(entries: set<string>, gitRoot: Path, svnRoot: Path): (r: seq<string>)
    ensures |r| <= 2
    ensures r == [] <==> !PlaceholderNeeded(entries, gitRoot) && !PlaceholderNeeded(entries, svnRoot)
    ensures PlaceholderNeeded(entries, gitRoot) ==> r[0] == Placeholder(gitRoot)
    ensures PlaceholderNeeded(entries, svnRoot) ==> r[|r| - 1] == Placeholder(svnRoot)
  {
    (if PlaceholderNeeded(entries, gitRoot) then [Placeholder(gitRoot)] else [])
    + (if PlaceholderNeeded(entries, svnRoot) then [Placeholder(svnRoot)] else [])
  }

  /**
   * What a rebaseline run appends to a file holding `entries`: the paths
   * of `asym` not on file, or, when there is none, the placeholders of
   * `ps` not on file.
   */
  function RebaselineAdds(entries: set<string>, asym: seq<string>, ps: seq<string>): seq<string> {
    var added := NewEntries(asym, entries);
    if added != [] then added else NewEntries(ps, entries)
  }

  /** The file's text after a rebaseline run over `asym` and `ps` that started from `content`. */
  function Rebaselined(content: string, asym: seq<string>, ps: seq<string>): (r: string)
    ensures |content| <= |r| && r[..|content|] == content
    ensures Terminated(content) ==> r == AppendedAsWritten(content, RebaselineAdds(LoadIgnoreSet(content), asym, ps))
  {
    Appended(content, RebaselineAdds(LoadIgnoreSet(content), asym, ps))
  }

  /**
   * The rebaseline block: records every asymmetric path not yet on file;
   * when there is none, seeds a placeholder for each root that has no
   * entry filed under it.
   */
  method Rebaseline(file: IgnoreFile, gitSet: set<string>, svnSet: set<string>, gitRoot: Path, svnRoot: Path)
    returns (added: seq<string>, placeholders: seq<string>)
    modifies file
    ensures added == NewEntries(Asymmetric(gitSet, svnSet, gitRoot, svnRoot), old(file.Entries()))
    ensures placeholders == if added == [] then Placeholders(old(file.Entries()), gitRoot, svnRoot) else []
    ensures file.content == Rebaselined(old(file.content), Asymmetric(gitSet, svnSet, gitRoot, svnRoot),
                                        Placeholders(old(file.Entries()), gitRoot, svnRoot))
    ensures var entries := old(file.Entries());
            PlainEntries(entries, gitRoot) && PlainEntries(entries, svnRoot)
            ==> placeholders == if added == [] then PlaceholdersAsWritten(entries, gitRoot, svnRoot) else []
  {
    var entries := LoadIgnoreSet(file.content);
    var onlyGit := Sorted(gitSet - svnSet);
    var onlySvn := Sorted(svnSet - gitSet);
    var toAdd := JoinAll(gitRoot, onlyGit) + JoinAll(svnRoot, onlySvn);
    added := file.AppendToIgnore(toAdd, Some(entries));
    placeholders := [];
    if added == [] {
      placeholders := SeedPlaceholders(entries, gitRoot, svnRoot);
      if placeholders != [] {
        var _ := file.AppendToIgnore(placeholders, Some(entries));
      }
    }
  }

  /** The placeholder list of the rebaseline block, one root at a time. */
  method SeedPlaceholders(entries: set<string>, gitRoot: Path, svnRoot: Path) returns (placeholders: seq<string>)
    ensures placeholders == Placeholders(entries, gitRoot, svnRoot)
    ensures PlainEntries(entries, gitRoot) && PlainEntries(entries, svnRoot)
            ==> placeholders == PlaceholdersAsWritten(entries, gitRoot, svnRoot)
  {
    if PlainEntries(entries, gitRoot) && PlainEntries(entries, svnRoot) {
      PlaceholdersAgree(entries, gitRoot, svnRoot);
    }
    placeholders := [];
    if PlaceholderNeeded(entries, gitRoot) {
      placeholders := placeholders + [Placeholder(gitRoot)];
    }
    if PlaceholderNeeded(entries, svnRoot) {
      placeholders := placeholders + [Placeholder(svnRoot)];
    }
  }

  /** Root components that the ignore file can hold on one line. */
  predicate PrintableRoot(root: Path) {
    NoFileNewline(PathString(root))
  }

  lemma NoFileNewlineConcat(a: string, b: string)
    requires NoFileNewline(a) && NoFileNewline(b)
    ensures NoFileNewline(a + b)
  {
  }

  /** A relative path joined to a root is an entry the file reads back as itself. */
  lemma PathEntryClean(root: Path, rel: string)
    requires PrintableRoot(root) && NoFileNewline(rel)
    requires rel != [] && !IsSpace(rel[|rel| - 1]) && rel[0] != '/'
    ensures CleanEntry(JoinPath(PathString(root), rel))
  {
    var ps := PathString(root);
    PathStringShape(root);
    assert !StartsWith(rel, "/") by {
      assert rel[..1][0] == rel[0];
    }
    var head := if root == [] then ps else ps + "/";
    NoFileNewlineConcat(ps, "/");
    assert JoinPath(ps, rel) == head + rel;
    NoFileNewlineConcat(head, rel);
    SlashEntryClean(head + rel);
  }

  /** A root's placeholder is an entry the file reads back as itself. */
  lemma PlaceholderClean(root: Path)
    requires PrintableRoot(root)
    ensures CleanEntry(Placeholder(root))
  {
    PathEntryClean(root, ".ignore");
  }

  /** A root's placeholder is filed under that root as ".ignore". */
  lemma PlaceholderFiled(root: Path)
    ensures RootRelative(Placeholder(root), root) == Some(".ignore")
  {
    assert IsName(".ignore");
    assert !StartsWith(".ignore", "..") by {
      assert ".ignore"[..2][1] == 'i';
    }
    assert Join("/", [".ignore"]) == ".ignore";
    RootRelativeOfJoined(root, [".ignore"]);
  }

  lemma PlaceholdersClean(entries: set<string>, gitRoot: Path, svnRoot: Path)
    requires PrintableRoot(gitRoot) && PrintableRoot(svnRoot)
    ensures AllClean(Placeholders(entries, gitRoot, svnRoot))
  {
    PlaceholderClean(gitRoot);
    PlaceholderClean(svnRoot);
  }

  lemma NewEntriesClean(paths: seq<string>, existing: set<string>)
    requires AllClean(paths)
    ensures AllClean(NewEntries(paths, existing))
  {
    var r := NewEntries(paths, existing);
    forall i | 0 <= i < |r| ensures CleanEntry(r[i]) {
      assert r[i] in paths;
    }
  }

  /** Clean relative paths: what the checkouts list, joined to a printable root, reads back as itself. */
  predicate CleanRelative(rel: string) {
    rel != [] && NoFileNewline(rel) && !IsSpace(rel[|rel| - 1]) && rel[0] != '/'
  }

  lemma JoinAllClean(root: Path, rels: seq<string>)
    requires PrintableRoot(root)
    requires forall i :: 0 <= i < |rels| ==> CleanRelative(rels[i])
    ensures AllClean(JoinAll(root, rels))
  {
    forall i | 0 <= i < |rels| ensures CleanEntry(JoinAll(root, rels)[i]) {
      PathEntryClean(root, rels[i]);
    }
  }

  /** The asymmetric paths of clean relative paths under printable roots read back as themselves. */
  lemma AsymmetricClean(gitSet: set<string>, svnSet: set<string>, gitRoot: Path, svnRoot: Path)
    requires PrintableRoot(gitRoot) && PrintableRoot(svnRoot)
    requires forall rel :: rel in gitSet + svnSet ==> CleanRelative(rel)
    ensures AllClean(Asymmetric(gitSet, svnSet, gitRoot, svnRoot))
  {
    var onlyGit := Sorted(gitSet - svnSet);
    var onlySvn := Sorted(svnSet - gitSet);
    SortedMembers(gitSet - svnSet);
    SortedMembers(svnSet - gitSet);
    JoinAllClean(gitRoot, onlyGit);
    JoinAllClean(svnRoot, onlySvn);
    ConcatClean(JoinAll(gitRoot, onlyGit), JoinAll(svnRoot, onlySvn));
  }

  lemma ConcatClean(a: seq<string>, b: seq<string>)
    requires AllClean(a)
    requires AllClean(b)
    ensures AllClean(a + b)
  {
  }

  /** Every path a rebaseline run may write reads back as itself. */
  lemma RebaselineAddsClean(entries: set<string>, asym: seq<string>, ps: seq<string>)
    requires AllClean(asym)
    requires AllClean(ps)
    ensures AllClean(RebaselineAdds(entries, asym, ps))
  {
    NewEntriesClean(asym, entries);
    NewEntriesClean(ps, entries);
  }

  /**
   * When every path it may write reads back as itself, a rebaseline run
   * leaves the old entries and exactly the appended ones on file.
   */
  lemma RebaselinedEntries(content: string, asym: seq<string>, ps: seq<string>)
    requires AllClean(asym)
    requires AllClean(ps)
    ensures LoadIgnoreSet(Rebaselined(content, asym, ps))
            == LoadIgnoreSet(content) + set p | p in RebaselineAdds(LoadIgnoreSet(content), asym, ps)
  {
    var entries := LoadIgnoreSet(content);
    RebaselineAddsClean(entries, asym, ps);
    AppendedClean(content, RebaselineAdds(entries, asym, ps));
  }

  /** After a rebaseline run every asymmetric path is on file, next to all the old entries. */
  lemma RebaselineRecordsAsymmetric(content: string, asym: seq<string>, ps: seq<string>)
    requires AllClean(asym)
    requires AllClean(ps)
    ensures LoadIgnoreSet(content) <= LoadIgnoreSet(Rebaselined(content, asym, ps))
    ensures forall p :: p in asym ==> p in LoadIgnoreSet(Rebaselined(content, asym, ps))
  {
    RebaselinedEntries(content, asym, ps);
    var entries := LoadIgnoreSet(content);
    var added := NewEntries(asym, entries);
    assert forall p :: p in asym ==> p in entries || p in added;
  }

  /** A root stays covered, or becomes covered when its placeholder lands on file. */
  lemma RootCovered(entries: set<string>, after: set<string>, root: Path)
    requires PrintableRoot(root) && entries <= after
    requires PlaceholderNeeded(entries, root) ==> Placeholder(root) in after
    ensures IgnoreSetFor(after, root) != {}
  {
    IgnoreSetMonotone(entries, after, root);
    if PlaceholderNeeded(entries, root) {
      PlaceholderFiled(root);
      assert ".ignore" in IgnoreSetFor(after, root);
    } else {
      var x :| x in IgnoreSetFor(entries, root);
      assert x in IgnoreSetFor(after, root);
    }
  }

  /**
   * A rebaseline run that finds nothing new to record leaves a baseline
   * that covers both roots, so the next normal run is not refused.
   */
  lemma RebaselineCoversRoots(content: string, asym: seq<string>, gitRoot: Path, svnRoot: Path)
    requires PrintableRoot(gitRoot) && PrintableRoot(svnRoot)
    requires NewEntries(asym, LoadIgnoreSet(content)) == []
    ensures var ps := Placeholders(LoadIgnoreSet(content), gitRoot, svnRoot);
            Covered(LoadIgnoreSet(Rebaselined(content, asym, ps)), gitRoot, svnRoot)
  {
    var entries := LoadIgnoreSet(content);
    var ps := Placeholders(entries, gitRoot, svnRoot);
    PlaceholdersClean(entries, gitRoot, svnRoot);
    RebaselineRecordsPlaceholders(content, asym, ps);
    var after := LoadIgnoreSet(Rebaselined(content, asym, ps));
    assert PlaceholderNeeded(entries, gitRoot) ==> Placeholder(gitRoot) in ps;
    assert PlaceholderNeeded(entries, svnRoot) ==> Placeholder(svnRoot) in ps;
    RootCovered(entries, after, gitRoot);
    RootCovered(entries, after, svnRoot);
  }

  /** A run with no asymmetric path to record puts every placeholder on file. */
  lemma RebaselineRecordsPlaceholders(content: string, asym: seq<string>, ps: seq<string>)
    requires NewEntries(asym, LoadIgnoreSet(content)) == []
    requires AllClean(ps)
    ensures LoadIgnoreSet(content) <= LoadIgnoreSet(Rebaselined(content, asym, ps))
    ensures forall p :: p in ps ==> p in LoadIgnoreSet(Rebaselined(content, asym, ps))
  {
    var entries := LoadIgnoreSet(content);
    var added := NewEntries(ps, entries);
    NewEntriesClean(ps, entries);
    AppendedClean(content, added);
    assert forall x :: x in ps ==> x in entries || x in added;
  }

  /** Nothing of `paths` is new when all of it is known. */
  lemma {:induction false} NewEntriesKnown(paths: seq<string>, existing: set<string>)
    requires forall p :: p in paths ==> p in existing
    ensures NewEntries(paths, existing) == []
  {
    if paths != [] {
      assert paths[0] in paths;
      assert forall p :: p in paths[1..] ==> p in paths;
      NewEntriesKnown(paths[1..], existing);
    }
  }

  /**
   * Rebaselining changes nothing once the baseline covers both roots and
   * holds every asymmetric path: the file stays byte for byte the same.
   */
  lemma RebaselineIdempotent(content: string, asym: seq<string>, gitRoot: Path, svnRoot: Path)
    requires Covered(LoadIgnoreSet(content), gitRoot, svnRoot)
    requires forall p :: p in asym ==> p in LoadIgnoreSet(content)
    ensures Rebaselined(content, asym, Placeholders(LoadIgnoreSet(content), gitRoot, svnRoot)) == content
  {
    var entries := LoadIgnoreSet(content);
    NewEntriesKnown(asym, entries);
    assert Placeholders(entries, gitRoot, svnRoot) == [];
  }

  /**
   * The source's own rebaseline, with its `commonpath` test and its
   * append, leaves the file unchanged once every asymmetric path is on
   * file and each root has an entry that test accepts.
   */
  lemma RebaselineIdempotentAsWritten(content: string, asym: seq<string>, gitRoot: Path, svnRoot: Path)
    requires !PlaceholderNeededAsWritten(LoadIgnoreSet(content), gitRoot)
    requires !PlaceholderNeededAsWritten(LoadIgnoreSet(content), svnRoot)
    requires forall p :: p in asym ==> p in LoadIgnoreSet(content)
    ensures var entries := LoadIgnoreSet(content);
            AppendedAsWritten(content, RebaselineAdds(entries, asym, PlaceholdersAsWritten(entries, gitRoot, svnRoot))) == content
  {
    var entries := LoadIgnoreSet(content);
    NewEntriesKnown(asym, entries);
    assert NewEntries([], entries) == [];
    assert Render([]) == "";
  }

  /**
   * A Git-only path recorded by rebaseline is filed under the Git root on
   * the next run, so it drops out of the Git inventory there.
   */
  lemma RebaselinedPathIgnored(content: string, gitSet: set<string>, svnSet: set<string>,
                               gitRoot: Path, svnRoot: Path, segs: Path)
    requires PrintableRoot(gitRoot) && PrintableRoot(svnRoot)
    requires forall rel :: rel in gitSet + svnSet ==> CleanRelative(rel)
    requires segs != [] && !StartsWith(segs[0], "..") && Join("/", segs) in gitSet - svnSet
    ensures var asym := Asymmetric(gitSet, svnSet, gitRoot, svnRoot);
            var ps := Placeholders(LoadIgnoreSet(content), gitRoot, svnRoot);
            Join("/", segs) in IgnoreSetFor(LoadIgnoreSet(Rebaselined(content, asym, ps)), gitRoot)
  {
    var asym := Asymmetric(gitSet, svnSet, gitRoot, svnRoot);
    var ps := Placeholders(LoadIgnoreSet(content), gitRoot, svnRoot);
    var e := JoinPath(PathString(gitRoot), Join("/", segs));
    AsymmetricHoldsGit(gitSet, svnSet, gitRoot, svnRoot, Join("/", segs));
    AsymmetricClean(gitSet, svnSet, gitRoot, svnRoot);
    PlaceholdersClean(LoadIgnoreSet(content), gitRoot, svnRoot);
    RebaselineRecordsAsymmetric(content, asym, ps);
    RootRelativeOfJoined(gitRoot, segs);
    assert e in LoadIgnoreSet(Rebaselined(content, asym, ps));
  }

  /** Two roots neither of which lies inside the other. */
  predicate Apart(a: Path, b: Path) {
    !(|a| <= |b| && b[..|a|] == a) && !(|b| <= |a| && a[..|b|] == b)
  }

  /** A baseline holding just the two roots themselves. */
  lemma RootsOnlyBaseline(gitRoot: Path, svnRoot: Path)
    requires CleanEntry(PathString(gitRoot)) && CleanEntry(PathString(svnRoot))
    ensures LoadIgnoreSet(Render([PathString(gitRoot), PathString(svnRoot)])) == {PathString(gitRoot), PathString(svnRoot)}
  {
    var xs := [PathString(gitRoot), PathString(svnRoot)];
    assert AllClean(xs);
    LoadRender(xs);
    PairSet(PathString(gitRoot), PathString(svnRoot));
  }

  lemma PairSet(x: string, y: string)
    ensures (set p | p in [x, y]) == {x, y}
  {
  }

  /** The `commonpath` test finds each root among the entries, so seeds nothing. */
  lemma AsWrittenSeesRoots(gitRoot: Path, svnRoot: Path)
    ensures PlaceholdersAsWritten({PathString(gitRoot), PathString(svnRoot)}, gitRoot, svnRoot) == []
  {
    var g, s := PathString(gitRoot), PathString(svnRoot);
    RootItself(gitRoot);
    RootItself(svnRoot);
    assert !PlaceholderNeededAsWritten({g, s}, gitRoot) by {
      assert g in {g, s} && UnderRoot(g, gitRoot);
    }
    assert !PlaceholderNeededAsWritten({g, s}, svnRoot) by {
      assert s in {g, s} && UnderRoot(s, svnRoot);
    }
  }

  /** A root files nothing of a baseline of just itself and a root apart from it. */
  lemma RootsFileNothing(a: Path, b: Path, entries: set<string>)
    requires Apart(a, b)
    requires forall e :: e in entries ==> e == PathString(a) || e == PathString(b)
    ensures IgnoreSetFor(entries, a) == {}
  {
    RootItself(a);
    RootItself(b);
    RootRelativeIsBelow(PathString(b), a);
    IgnoreSetEmpty(entries, a);
  }

  lemma IgnoreSetEmpty(entries: set<string>, root: Path)
    requires forall e :: e in entries ==> RootRelative(e, root) == None
    ensures IgnoreSetFor(entries, root) == {}
  {
  }

  /**
   * AS WRITTEN the placeholder test counts a root itself as an entry under
   * that root, which the per-root resolution does not file: with a
   * baseline of just the two roots, rebaseline seeds no placeholder and
   * every later normal run is refused; the corrected test seeds both.
   */
  lemma PlaceholderAsWrittenLeavesRootsUncovered(gitRoot: Path, svnRoot: Path)
    requires CleanEntry(PathString(gitRoot)) && CleanEntry(PathString(svnRoot)) && Apart(gitRoot, svnRoot)
    ensures var entries := LoadIgnoreSet(Render([PathString(gitRoot), PathString(svnRoot)]));
            && PlaceholdersAsWritten(entries, gitRoot, svnRoot) == []
            && !Covered(entries, gitRoot, svnRoot)
            && Placeholders(entries, gitRoot, svnRoot) == [Placeholder(gitRoot), Placeholder(svnRoot)]
  {
    RootsOnlyBaseline(gitRoot, svnRoot);
    RootsOnlyPlaceholders(gitRoot, svnRoot);
  }

  lemma RootsOnlyPlaceholders(gitRoot: Path, svnRoot: Path)
    requires Apart(gitRoot, svnRoot)
    ensures var entries := {PathString(gitRoot), PathString(svnRoot)};
            && PlaceholdersAsWritten(entries, gitRoot, svnRoot) == []
            && !Covered(entries, gitRoot, svnRoot)
            && Placeholders(entries, gitRoot, svnRoot) == [Placeholder(gitRoot), Placeholder(svnRoot)]
  {
    AsWrittenSeesRoots(gitRoot, svnRoot);
    var entries := {PathString(gitRoot), PathString(svnRoot)};
    RootsFileNothing(gitRoot, svnRoot, entries);
    RootsFileNothing(svnRoot, gitRoot, entries);
  }
}
