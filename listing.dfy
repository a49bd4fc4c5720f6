/**
 * Reading the tracked-file listings of the two working copies: the output of
 * `git ls-files` and of `svn list -R .`, one path per line.
 */
module Listing {
  import opened Text

  /** A listing line that names something: not blank once stripped. */
  predicate Names(line: string) {
    Strip(line) != []
  }

  /** The stripped, non-blank lines of a listing, as a set. */
  function NamedLines(lines: seq<string>): (r: set<string>)
    ensures forall x :: x in r ==> x != [] && Strip(x) == x
  {
    if lines == [] then {}
    else
      StripIdempotent(lines[0]);
      (if Names(lines[0]) then {Strip(lines[0])} else {}) + NamedLines(lines[1..])
  }

  lemma {:induction false} NamedLinesMembers(lines: seq<string>, x: string)
    ensures x in NamedLines(lines) <==> exists l :: l in lines && Names(l) && Strip(l) == x
  {
    if lines != [] {
      NamedLinesMembers(lines[1..], x);
      assert forall l :: l in lines <==> l == lines[0] || l in lines[1..];
    }
  }

  /** `git_ls_files`: every non-blank line of the output, stripped. */
  function GitLsFiles(stdout: string): (files: set<string>)
    ensures forall x :: x in files ==> x != [] && Strip(x) == x
  {
    NamedLines(SplitLines(stdout))
  }

  /** A path is in the Git listing exactly when some output line strips to it. */
  lemma GitLsFilesMembers(stdout: string, x: string)
    ensures x in GitLsFiles(stdout) <==> x != [] && exists l :: l in SplitLines(stdout) && Strip(l) == x
  {
    NamedLinesMembers(SplitLines(stdout), x);
  }

  /** `svn list` marks directories with a trailing slash. */
  predicate IsDirectory(line: string) {
    EndsWith(line, "/")
  }

  /** The stripped, non-blank lines of a listing that are not directories. */
  function FileLines(lines: seq<string>): set<string>
  {
    if lines == [] then {}
    else
      var line := Strip(lines[0]);
      (if line != [] && !IsDirectory(line) then {line} else {}) + FileLines(lines[1..])
  }

  lemma {:induction false} FileLinesAppend(a: seq<string>, b: seq<string>)
    ensures FileLines(a + b) == FileLines(a) + FileLines(b)
  {
    if a == [] {
      assert a + b == b;
    } else {
      assert (a + b)[1..] == a[1..] + b;
      FileLinesAppend(a[1..], b);
    }
  }

  /** The file lines are the named lines less the directories. */
  lemma {:induction false} FileLinesNamed(lines: seq<string>, x: string)
    ensures x in FileLines(lines) <==> x in NamedLines(lines) && !IsDirectory(x)
  {
    if lines != [] {
      FileLinesNamed(lines[1..], x);
    }
  }

  lemma FileLinesStep(lines: seq<string>, i: nat)
    requires i < |lines|
    ensures var line := Strip(lines[i]);
      FileLines(lines[..i + 1]) == FileLines(lines[..i]) + (if line != [] && !IsDirectory(line) then {line} else {})
  {
    assert lines[..i + 1] == lines[..i] + [lines[i]];
    FileLinesAppend(lines[..i], [lines[i]]);
    assert [lines[i]][1..] == [];
  }

  /** What `svn_ls_files` reads from the output of `svn list -R .`. */
  function SvnFiles(stdout: string): (files: set<string>)
    ensures forall x :: x in files ==> x != [] && Strip(x) == x && !IsDirectory(x)
  {
    FileLinesClean(SplitLines(stdout));
    FileLines(SplitLines(stdout))
  }

  lemma FileLinesClean(lines: seq<string>)
    ensures forall x :: x in FileLines(lines) ==> x != [] && Strip(x) == x && !IsDirectory(x)
  {
    forall x | x in FileLines(lines) ensures x != [] && Strip(x) == x && !IsDirectory(x) {
      FileLinesNamed(lines, x);
    }
  }

  lemma SvnListingIsGitListing(stdout: string)
    ensures forall x :: x in SvnFiles(stdout) <==> x in GitLsFiles(stdout) && !IsDirectory(x)
  {
    forall x {
      FileLinesNamed(SplitLines(stdout), x);
    }
  }

  /**
   * `svn_ls_files`: the stripped, non-blank output lines that are not
   * directories. The SVN listing is the Git reading of the same output with
   * the directory lines taken out.
   */
  method SvnLsFiles(stdout: string) returns (files: set<string>)
    ensures files == SvnFiles(stdout)
    ensures forall x :: x in files <==> x in GitLsFiles(stdout) && !IsDirectory(x)
  {
    var lines := SplitLines(stdout);
    files := {};
    var i := 0;
    while i < |lines|
      invariant 0 <= i <= |lines|
      invariant files == FileLines(lines[..i])
    {
      var line := Strip(lines[i]);
      FileLinesStep(lines, i);
      if line != [] && !IsDirectory(line) {
        files := files + {line};
      }
      i := i + 1;
    }
    assert lines[..i] == lines;
    SvnListingIsGitListing(stdout);
  }
}
