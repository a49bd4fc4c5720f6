/**
 * Comparing the two working copies: one status record per tracked path,
 * saying where the path is tracked, whether the two copies hold the same
 * bytes, and, for a file whose copies differ, each side's last change.
 */
module Inventory {
  import opened Wrappers
  import opened Ordering

  type Bytes = seq<bv8>

  /**
   * What a side's history says about the last change to a file: its
   * timestamp (seconds since the epoch), message and author, each possibly
   * unknown.
   */
  datatype Change = Change(ts: Option<int>, msg: Option<string>, author: Option<string>)

  /** The answer of a history lookup that found nothing, and of no lookup at all. */
  const Unknown: Change := Change(None, None, None)

  /**
   * `FileStatus`: `sameContent` is absent unless the path is tracked on both
   * sides; the two changes are filled in only for copies that differ.
   */
  datatype FileStatus = FileStatus(
    relpath: string,
    inGit: bool,
    inSvn: bool,
    sameContent: Option<bool>,
    git: Change,
    svn: Change)

  /**
   * What the comparison reads: the two tracked sets (after the ignore sets
   * are taken out), the regular files on disk under each root with their
   * bytes, and the answer each side's history gives for a path.
   */
  datatype Checkouts = Checkouts(
    gitSet: set<string>,
    svnSet: set<string>,
    gitFiles: map<string, Bytes>,
    svnFiles: map<string, Bytes>,
    gitHistory: map<string, Change>,
    svnHistory: map<string, Change>)

  /** A history lookup: the recorded change, or nothing known. */
  function LastChange(history: map<string, Change>, rel: string): Change {
    if rel in history then history[rel] else Unknown
  }

  /**
   * Both copies are regular files with equal SHA-256 digests, which the
   * model takes to mean equal bytes. A copy that is missing or not a regular
   * file never matches.
   */
  predicate SameFile(c: Checkouts, rel: string) {
    rel in c.gitFiles && rel in c.svnFiles && c.gitFiles[rel] == c.svnFiles[rel]
  }

  /** The status recorded for one path. */
  function Status(c: Checkouts, rel: string): (st: FileStatus)
    ensures st.relpath == rel && (st.inGit <==> rel in c.gitSet) && (st.inSvn <==> rel in c.svnSet)
    ensures st.sameContent.None? <==> !(st.inGit && st.inSvn)
    ensures st.sameContent == Some(true) <==> st.inGit && st.inSvn && SameFile(c, rel)
    ensures st.sameContent != Some(false) ==> st.git == Unknown && st.svn == Unknown
    ensures st.sameContent == Some(false) ==>
      st.git == LastChange(c.gitHistory, rel) && st.svn == LastChange(c.svnHistory, rel)
  {
    var inGit := rel in c.gitSet;
    var inSvn := rel in c.svnSet;
    if inGit && inSvn then
      if SameFile(c, rel) then FileStatus(rel, true, true, Some(true), Unknown, Unknown)
      else FileStatus(rel, true, true, Some(false), LastChange(c.gitHistory, rel), LastChange(c.svnHistory, rel))
    else FileStatus(rel, inGit, inSvn, None, Unknown, Unknown)
  }

  /** The statuses of a sequence of paths, in that order. */
  function Statuses(c: Checkouts, paths: seq<string>): (r: seq<FileStatus>)
    ensures |r| == |paths| && forall i :: 0 <= i < |paths| ==> r[i] == Status(c, paths[i])
  {
    if paths == [] then [] else [Status(c, paths[0])] + Statuses(c, paths[1..])
  }

  /** Every tracked path, sorted. */
  function AllPaths(c: Checkouts): seq<string> {
    Sorted(c.gitSet + c.svnSet)
  }

  /** The status table, in the order its entries are inserted. */
  function StatusTable(c: Checkouts): seq<FileStatus> {
    Statuses(c, AllPaths(c))
  }

  predicate Differs(st: FileStatus) {
    st.inGit && st.inSvn && st.sameContent == Some(false)
  }

  /** `diffs`: the statuses of the paths tracked on both sides whose copies differ. */
  function Diffs(status: seq<FileStatus>): (r: seq<FileStatus>)
    ensures |r| <= |status|
  {
    if status == [] then []
    else (if Differs(status[0]) then [status[0]] else []) + Diffs(status[1..])
  }

  /** `only_git`: the paths tracked in Git and not in SVN. */
  function OnlyGit(status: seq<FileStatus>): (r: seq<string>)
    ensures |r| <= |status|
  {
    if status == [] then []
    else (if status[0].inGit && !status[0].inSvn then [status[0].relpath] else []) + OnlyGit(status[1..])
  }

  /** `only_svn`: the paths tracked in SVN and not in Git. */
  function OnlySvn(status: seq<FileStatus>): (r: seq<string>)
    ensures |r| <= |status|
  {
    if status == [] then []
    else (if status[0].inSvn && !status[0].inGit then [status[0].relpath] else []) + OnlySvn(status[1..])
  }

  function RelPaths(status: seq<FileStatus>): (r: seq<string>)
    ensures |r| == |status| && forall i :: 0 <= i < |status| ==> r[i] == status[i].relpath
  {
    if status == [] then [] else [status[0].relpath] + RelPaths(status[1..])
  }

  /** A status is a diff exactly when it is in the table and its copies differ. */
  lemma {:induction false} DiffsMembers(status: seq<FileStatus>, st: FileStatus)
    ensures st in Diffs(status) <==> st in status && Differs(st)
  {
    if status != [] {
      DiffsMembers(status[1..], st);
      assert status == [status[0]] + status[1..];
    }
  }

  /** A path is Git-only exactly when some entry of the table has it tracked by Git and not by SVN. */
  lemma {:induction false} OnlyGitMembers(status: seq<FileStatus>, p: string)
    ensures p in OnlyGit(status) <==> exists j :: 0 <= j < |status| && status[j].relpath == p && status[j].inGit && !status[j].inSvn
  {
    if status != [] {
      OnlyGitMembers(status[1..], p);
      if p in OnlyGit(status[1..]) {
        var j :| 0 <= j < |status[1..]| && status[1..][j].relpath == p && status[1..][j].inGit && !status[1..][j].inSvn;
        assert status[j + 1] == status[1..][j];
      }
      if exists j :: 0 <= j < |status| && status[j].relpath == p && status[j].inGit && !status[j].inSvn {
        var j :| 0 <= j < |status| && status[j].relpath == p && status[j].inGit && !status[j].inSvn;
        if j > 0 {
          assert status[1..][j - 1] == status[j];
        }
      }
    }
  }

  /** A path is SVN-only exactly when some entry of the table has it tracked by SVN and not by Git. */
  lemma {:induction false} OnlySvnMembers(status: seq<FileStatus>, p: string)
    ensures p in OnlySvn(status) <==> exists j :: 0 <= j < |status| && status[j].relpath == p && status[j].inSvn && !status[j].inGit
  {
    if status != [] {
      OnlySvnMembers(status[1..], p);
      if p in OnlySvn(status[1..]) {
        var j :| 0 <= j < |status[1..]| && status[1..][j].relpath == p && status[1..][j].inSvn && !status[1..][j].inGit;
        assert status[j + 1] == status[1..][j];
      }
      if exists j :: 0 <= j < |status| && status[j].relpath == p && status[j].inSvn && !status[j].inGit {
        var j :| 0 <= j < |status| && status[j].relpath == p && status[j].inSvn && !status[j].inGit;
        if j > 0 {
          assert status[1..][j - 1] == status[j];
        }
      }
    }
  }

  /** Each of the three lists keeps the order of the table: it distributes over concatenation. */
  lemma {:induction false} DiffsConcat(a: seq<FileStatus>, b: seq<FileStatus>)
    ensures Diffs(a + b) == Diffs(a) + Diffs(b)
  {
    if a == [] {
      assert a + b == b;
    } else {
      var head := if Differs(a[0]) then [a[0]] else [];
      assert (a + b)[0] == a[0] && (a + b)[1..] == a[1..] + b;
      DiffsConcat(a[1..], b);
      calc {
        Diffs(a + b);
        head + Diffs(a[1..] + b);
        head + (Diffs(a[1..]) + Diffs(b));
        (head + Diffs(a[1..])) + Diffs(b);
      }
    }
  }

  lemma {:induction false} OnlyGitConcat(a: seq<FileStatus>, b: seq<FileStatus>)
    ensures OnlyGit(a + b) == OnlyGit(a) + OnlyGit(b)
  {
    if a == [] {
      assert a + b == b;
    } else {
      var head := if a[0].inGit && !a[0].inSvn then [a[0].relpath] else [];
      assert (a + b)[0] == a[0] && (a + b)[1..] == a[1..] + b;
      OnlyGitConcat(a[1..], b);
      calc {
        OnlyGit(a + b);
        head + OnlyGit(a[1..] + b);
        head + (OnlyGit(a[1..]) + OnlyGit(b));
        (head + OnlyGit(a[1..])) + OnlyGit(b);
      }
    }
  }

  lemma {:induction false} OnlySvnConcat(a: seq<FileStatus>, b: seq<FileStatus>)
    ensures OnlySvn(a + b) == OnlySvn(a) + OnlySvn(b)
  {
    if a == [] {
      assert a + b == b;
    } else {
      var head := if a[0].inSvn && !a[0].inGit then [a[0].relpath] else [];
      assert (a + b)[0] == a[0] && (a + b)[1..] == a[1..] + b;
      OnlySvnConcat(a[1..], b);
      calc {
        OnlySvn(a + b);
        head + OnlySvn(a[1..] + b);
        head + (OnlySvn(a[1..]) + OnlySvn(b));
        (head + OnlySvn(a[1..])) + OnlySvn(b);
      }
    }
  }

  lemma DiffsAppend(status: seq<FileStatus>, st: FileStatus)
    ensures Diffs(status + [st]) == Diffs(status) + (if Differs(st) then [st] else [])
  {
    DiffsConcat(status, [st]);
    assert [st][1..] == [];
  }

  lemma {:induction false} RelPathsAppend(a: seq<FileStatus>, b: seq<FileStatus>)
    ensures RelPaths(a + b) == RelPaths(a) + RelPaths(b)
  {
  }

  lemma DiffPathsAppend(status: seq<FileStatus>, st: FileStatus)
    ensures RelPaths(Diffs(status + [st])) == RelPaths(Diffs(status)) + (if Differs(st) then [st.relpath] else [])
  {
    DiffsAppend(status, st);
    RelPathsAppend(Diffs(status), if Differs(st) then [st] else []);
  }

  /**
   * `compare_and_collect`: walks the sorted union of the tracked sets and
   * records each path's status; a path's history is looked up, on both
   * sides, only when its copies differ. `consulted` lists the paths looked
   * up, in order.
   */
  method CompareAndCollect(c: Checkouts) returns (status: seq<FileStatus>, consulted: seq<string>)
    ensures status == StatusTable(c)
    ensures consulted == RelPaths(Diffs(status))
  {
    var allPaths := Sorted(c.gitSet + c.svnSet);
    status, consulted := CollectAll(c, allPaths);
  }

  /** The loop of `compare_and_collect`, over any sequence of paths. */
  method CollectAll(c: Checkouts, paths: seq<string>) returns (status: seq<FileStatus>, consulted: seq<string>)
    ensures status == Statuses(c, paths)
    ensures consulted == RelPaths(Diffs(status))
  {
    status := [];
    consulted := [];
    var i := 0;
    while i < |paths|
      invariant 0 <= i <= |paths|
      invariant |status| == i && forall j :: 0 <= j < i ==> status[j] == Status(c, paths[j])
      invariant consulted == RelPaths(Diffs(status))
    {
      var rel := paths[i];
      var st, looked := CollectOne(c, rel);
      if looked {
        consulted := consulted + [rel];
      }
      DiffPathsAppend(status, st);
      status := status + [st];
      i := i + 1;
    }
  }

  /** One path's status; `looked` says whether its history was looked up. */
  method CollectOne(c: Checkouts, rel: string) returns (st: FileStatus, looked: bool)
    ensures st == Status(c, rel)
    ensures looked <==> Differs(st)
  {
    var inGit := rel in c.gitSet;
    var inSvn := rel in c.svnSet;
    var same: Option<bool> := None;
    var git, svn := Unknown, Unknown;
    looked := false;
    if inGit && inSvn {
      if rel in c.gitFiles && rel in c.svnFiles {
        same := Some(c.gitFiles[rel] == c.svnFiles[rel]);
      } else {
        // a copy missing from disk, or not a regular file, counts as different
        same := Some(false);
      }
      if same == Some(false) {
        git := LastChange(c.gitHistory, rel);
        svn := LastChange(c.svnHistory, rel);
        looked := true;
      }
    }
    st := FileStatus(rel, inGit, inSvn, same, git, svn);
  }

  /** The table has one entry per tracked path, in sorted order. */
  lemma StatusTablePaths(c: Checkouts)
    ensures RelPaths(StatusTable(c)) == AllPaths(c)
    ensures Increasing(RelPaths(StatusTable(c)))
    ensures forall p :: p in RelPaths(StatusTable(c)) <==> p in c.gitSet || p in c.svnSet
  {
  }

  lemma {:induction false} DiffsOf(c: Checkouts, paths: seq<string>, rel: string)
    ensures rel in RelPaths(Diffs(Statuses(c, paths))) <==> rel in paths && Differs(Status(c, rel))
  {
    if paths != [] {
      var r := Statuses(c, paths);
      assert r[1..] == Statuses(c, paths[1..]);
      DiffsOf(c, paths[1..], rel);
      RelPathsAppend(if Differs(r[0]) then [r[0]] else [], Diffs(r[1..]));
    }
  }

  lemma {:induction false} OnlyGitOf(c: Checkouts, paths: seq<string>, rel: string)
    ensures rel in OnlyGit(Statuses(c, paths)) <==> rel in paths && rel in c.gitSet && rel !in c.svnSet
  {
    if paths != [] {
      var r := Statuses(c, paths);
      assert r[1..] == Statuses(c, paths[1..]);
      OnlyGitOf(c, paths[1..], rel);
    }
  }

  lemma {:induction false} OnlySvnOf(c: Checkouts, paths: seq<string>, rel: string)
    ensures rel in OnlySvn(Statuses(c, paths)) <==> rel in paths && rel in c.svnSet && rel !in c.gitSet
  {
    if paths != [] {
      var r := Statuses(c, paths);
      assert r[1..] == Statuses(c, paths[1..]);
      OnlySvnOf(c, paths[1..], rel);
    }
  }

  /**
   * The three work lists split the tracked paths that need attention: a
   * path is a diff exactly when it is tracked on both sides and its copies
   * are not the same file, and it is only in one side exactly when the other
   * does not track it. Identical files appear in none of them.
   */
  lemma Classification(c: Checkouts, rel: string)
    ensures rel in RelPaths(Diffs(StatusTable(c))) <==> rel in c.gitSet && rel in c.svnSet && !SameFile(c, rel)
    ensures rel in OnlyGit(StatusTable(c)) <==> rel in c.gitSet && rel !in c.svnSet
    ensures rel in OnlySvn(StatusTable(c)) <==> rel in c.svnSet && rel !in c.gitSet
  {
    DiffsOf(c, AllPaths(c), rel);
    OnlyGitOf(c, AllPaths(c), rel);
    OnlySvnOf(c, AllPaths(c), rel);
  }
}
