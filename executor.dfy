/**
 * Carrying out the decisions on the two working copies. Each working copy is
 * a map from relative path to bytes plus the log of commits made in it; the
 * version-control commands become updates of those values. With `dryRun`
 * nothing is changed.
 */
module Executor {
  import opened Wrappers
  import opened Inventory
  import opened Decisions
  import opened Prompt

  datatype CommitKind = Added | Removed

  /** A commit of one path: `git add`/`svn add` or `git rm`/`svn delete`, then a commit with `message`. */
  datatype Commit = Commit(kind: CommitKind, rel: string, message: string)

  /** The two working copies: their files and the commits made in them. */
  datatype Replicas = Replicas(
    gitFiles: map<string, Bytes>,
    svnFiles: map<string, Bytes>,
    gitLog: seq<Commit>,
    svnLog: seq<Commit>)

  function FilesOn(r: Replicas, side: Side): map<string, Bytes> {
    if side == Git then r.gitFiles else r.svnFiles
  }

  function LogOn(r: Replicas, side: Side): seq<Commit> {
    if side == Git then r.gitLog else r.svnLog
  }

  /** One side's files replaced, everything else kept. */
  function WithFiles(r: Replicas, side: Side, files: map<string, Bytes>): (s: Replicas)
    ensures FilesOn(s, side) == files && FilesOn(s, Other(side)) == FilesOn(r, Other(side))
    ensures s.gitLog == r.gitLog && s.svnLog == r.svnLog
  {
    if side == Git then r.(gitFiles := files) else r.(svnFiles := files)
  }

  /** A commit appended to one side's log, everything else kept. */
  function WithCommit(r: Replicas, side: Side, c: Commit): (s: Replicas)
    ensures LogOn(s, side) == LogOn(r, side) + [c] && LogOn(s, Other(side)) == LogOn(r, Other(side))
    ensures s.gitFiles == r.gitFiles && s.svnFiles == r.svnFiles
  {
    if side == Git then r.(gitLog := r.gitLog + [c]) else r.(svnLog := r.svnLog + [c])
  }

  /** `copy_file` in a live run: the destination gets the source's bytes. */
  function Copied(r: Replicas, from: Side, rel: string): Replicas
    requires rel in FilesOn(r, from)
  {
    WithFiles(r, Other(from), FilesOn(r, Other(from))[rel := FilesOn(r, from)[rel]])
  }

  /** Why a run stops early: the replies ran out, or a copy's source file does not exist. */
  datatype Halt = EndOfInput | MissingSource(rel: string)

  /** The state after one action, and the reason for stopping if it failed. */
  datatype Step = Step(after: Replicas, halt: Option<Halt>)

  /**
   * One action carried out. A copy adds and commits the path on the
   * receiving side; a removal deletes and commits on the side that has it.
   * A dry run changes nothing.
   */
  function Execute(r: Replicas, a: Action, dryRun: bool): (s: Step)
    ensures dryRun || a.Leave? ==> s == Step(r, None)
    ensures s.halt.Some? ==> s.after == r && a.Copy? && s.halt == Some(MissingSource(a.rel))
  {
    if dryRun then Step(r, None)
    else
      match a
      case Copy(from, rel, message) =>
        if rel in FilesOn(r, from) then Step(WithCommit(Copied(r, from, rel), Other(from), Commit(Added, rel, message)), None)
        else Step(r, Some(MissingSource(rel)))
      case Remove(side, rel, message) =>
        Step(WithCommit(WithFiles(r, side, FilesOn(r, side) - {rel}), side, Commit(Removed, rel, message)), None)
      case Leave => Step(r, None)
  }

  /** The state after handling some paths, why handling stopped early if it did, and the replies left. */
  datatype Outcome = Outcome(after: Replicas, halt: Option<Halt>, rest: seq<string>)

  /** The replies left are what remains of `replies` after some were read from the front. */
  predicate Suffix(rest: seq<string>, replies: seq<string>) {
    |rest| <= |replies| && rest == replies[|replies| - |rest|..]
  }

  /** `handle_mismatch`: no question when no timestamp is known; otherwise ask, then act. */
  function MismatchStep(r: Replicas, st: FileStatus, replies: seq<string>, autoYes: bool, dryRun: bool): (o: Outcome)
    ensures Suffix(o.rest, replies)
    ensures autoYes ==> o.rest == replies && o.halt != Some(EndOfInput)
  {
    if Newer(st).None? then Outcome(r, None, replies)
    else
      var q := Ask(replies, true, autoYes);
      if q.answer.None? then Outcome(r, Some(EndOfInput), replies[q.used..])
      else
        var s := Execute(r, MismatchAction(st, q.answer.value), dryRun);
        Outcome(s.after, s.halt, replies[q.used..])
  }

  /** `handle_only_in_one`: ask, then add the path to the other side or remove it from `present`. */
  function OnlyInOneStep(r: Replicas, rel: string, present: Side, last: Change,
                         replies: seq<string>, autoYes: bool, dryRun: bool): (o: Outcome)
    ensures Suffix(o.rest, replies)
    ensures autoYes ==> o.rest == replies && o.halt != Some(EndOfInput)
  {
    var q := Ask(replies, true, autoYes);
    if q.answer.None? then Outcome(r, Some(EndOfInput), replies[q.used..])
    else
      var s := Execute(r, OnlyInOneAction(rel, present, q.answer.value, last), dryRun);
      Outcome(s.after, s.halt, replies[q.used..])
  }

  /** The loop over `diffs`, stopping at the first failure. */
  function Mismatches(r: Replicas, diffs: seq<FileStatus>, replies: seq<string>, autoYes: bool, dryRun: bool): Outcome
    decreases |diffs|
  {
    if diffs == [] then Outcome(r, None, replies)
    else
      var o := MismatchStep(r, diffs[0], replies, autoYes, dryRun);
      if o.halt.Some? then o else Mismatches(o.after, diffs[1..], o.rest, autoYes, dryRun)
  }

  /** The loop over the paths only `present` tracks, stopping at the first failure. */
  function OnlyIn(r: Replicas, paths: seq<string>, present: Side, history: map<string, Change>,
                  replies: seq<string>, autoYes: bool, dryRun: bool): Outcome
    decreases |paths|
  {
    if paths == [] then Outcome(r, None, replies)
    else
      var o := OnlyInOneStep(r, paths[0], present, LastChange(history, paths[0]), replies, autoYes, dryRun);
      if o.halt.Some? then o else OnlyIn(o.after, paths[1..], present, history, o.rest, autoYes, dryRun)
  }

  /** The three loops of a normal run: mismatches, then Git-only paths, then SVN-only paths. */
  function Synced(r: Replicas, status: seq<FileStatus>, gitHistory: map<string, Change>, svnHistory: map<string, Change>,
                  replies: seq<string>, autoYes: bool, dryRun: bool): Outcome
  {
    var o1 := Mismatches(r, Diffs(status), replies, autoYes, dryRun);
    if o1.halt.Some? then o1
    else
      var o2 := OnlyIn(o1.after, OnlyGit(status), Git, gitHistory, o1.rest, autoYes, dryRun);
      if o2.halt.Some? then o2
      else OnlyIn(o2.after, OnlySvn(status), Svn, svnHistory, o2.rest, autoYes, dryRun)
  }

  // ---------------------------------------------------------------------
  // Properties of single actions

  /**
   * A live copy gives the receiving side the sending side's bytes and
   * commits there; the sending side, its log and every other path are left
   * as they were. It fails, changing nothing, when the source is missing.
   */
  lemma CopyLands(r: Replicas, from: Side, rel: string, message: string)
    ensures var s := Execute(r, Copy(from, rel, message), false);
      && (s.halt.None? <==> rel in FilesOn(r, from))
      && (s.halt.Some? ==> s.after == r)
      && (s.halt.None? ==>
           && FilesOn(s.after, Other(from)) == FilesOn(r, Other(from))[rel := FilesOn(r, from)[rel]]
           && FilesOn(s.after, from) == FilesOn(r, from)
           && LogOn(s.after, Other(from)) == LogOn(r, Other(from)) + [Commit(Added, rel, message)]
           && LogOn(s.after, from) == LogOn(r, from))
  {
    if rel in FilesOn(r, from) {
      var c := Copied(r, from, rel);
      assert FilesOn(c, Other(from)) == FilesOn(r, Other(from))[rel := FilesOn(r, from)[rel]];
    }
  }

  /** With no timestamp on either side, a mismatch asks nothing and does nothing. */
  lemma MismatchWithoutTimestamps(r: Replicas, st: FileStatus, replies: seq<string>, autoYes: bool, dryRun: bool)
    requires Effective(st.git.ts) == -1 && Effective(st.svn.ts) == -1
    ensures MismatchStep(r, st, replies, autoYes, dryRun) == Outcome(r, None, replies)
  {
  }

  /**
   * Under `autoYes`, a live mismatch with a known timestamp copies the newer
   * side's bytes over the older copy and commits in the older side only.
   */
  lemma MismatchSyncsNewer(r: Replicas, st: FileStatus, replies: seq<string>)
    requires Newer(st).Some? && st.relpath in FilesOn(r, Newer(st).value)
    ensures var newer := Newer(st).value;
      var o := MismatchStep(r, st, replies, true, false);
      && o.halt.None? && o.rest == replies
      && FilesOn(o.after, Other(newer)) == FilesOn(r, Other(newer))[st.relpath := FilesOn(r, newer)[st.relpath]]
      && FilesOn(o.after, newer) == FilesOn(r, newer)
      && |LogOn(o.after, Other(newer))| == |LogOn(r, Other(newer))| + 1
      && LogOn(o.after, newer) == LogOn(r, newer)
  {
    var newer := Newer(st).value;
    assert Ask(replies, true, true) == Reply(Some(true), 0);
    CopyLands(r, newer, st.relpath, CommitMessage(ChangeOn(st, newer), SyncFallback(st.relpath, newer)));
  }

  /** Both copies of a path exist with the same bytes, or neither exists. */
  predicate Settled(r: Replicas, p: string) {
    (p in r.gitFiles <==> p in r.svnFiles) && (p in r.gitFiles ==> r.gitFiles[p] == r.svnFiles[p])
  }

  /** Two states agree on both copies of path `p`. */
  predicate SameAt(r: Replicas, s: Replicas, p: string) {
    && (p in r.gitFiles <==> p in s.gitFiles) && (p in r.gitFiles ==> r.gitFiles[p] == s.gitFiles[p])
    && (p in r.svnFiles <==> p in s.svnFiles) && (p in r.svnFiles ==> r.svnFiles[p] == s.svnFiles[p])
  }

  /** The path an action is about, if any. */
  predicate Touches(a: Action, p: string) {
    !a.Leave? && a.rel == p
  }

  /** An action leaves every other path alone. */
  lemma ExecuteFrame(r: Replicas, a: Action, dryRun: bool, p: string)
    requires !Touches(a, p)
    ensures SameAt(r, Execute(r, a, dryRun).after, p)
  {
  }

  /** A copy settles its path, and no action but a removal unsettles any path. */
  lemma ExecuteSettles(r: Replicas, a: Action, p: string)
    ensures a.Copy? && a.rel == p && Execute(r, a, false).halt.None? ==> Settled(Execute(r, a, false).after, p)
    ensures !a.Remove? && Settled(r, p) ==> Settled(Execute(r, a, false).after, p)
  {
    if a.Copy? && a.rel in FilesOn(r, a.from) {
      CopyLands(r, a.from, a.rel, a.message);
    }
  }

  /** Commits are only ever appended. */
  lemma ExecuteAppends(r: Replicas, a: Action, dryRun: bool)
    ensures var s := Execute(r, a, dryRun).after;
      && |r.gitLog| <= |s.gitLog| && s.gitLog[..|r.gitLog|] == r.gitLog
      && |r.svnLog| <= |s.svnLog| && s.svnLog[..|r.svnLog|] == r.svnLog
  {
  }

  // ---------------------------------------------------------------------
  // Properties of whole runs

  lemma {:induction false} MismatchesDryRun(r: Replicas, diffs: seq<FileStatus>, replies: seq<string>, autoYes: bool)
    ensures Mismatches(r, diffs, replies, autoYes, true).after == r
    decreases |diffs|
  {
    if diffs != [] {
      var o := MismatchStep(r, diffs[0], replies, autoYes, true);
      if o.halt.None? {
        MismatchesDryRun(o.after, diffs[1..], o.rest, autoYes);
      }
    }
  }

  lemma {:induction false} OnlyInDryRun(r: Replicas, paths: seq<string>, present: Side, history: map<string, Change>,
                                        replies: seq<string>, autoYes: bool)
    ensures OnlyIn(r, paths, present, history, replies, autoYes, true).after == r
    decreases |paths|
  {
    if paths != [] {
      var o := OnlyInOneStep(r, paths[0], present, LastChange(history, paths[0]), replies, autoYes, true);
      if o.halt.None? {
        OnlyInDryRun(o.after, paths[1..], present, history, o.rest, autoYes);
      }
    }
  }

  /** A dry run leaves both working copies and their logs exactly as they were. */
  lemma SyncedDryRun(r: Replicas, status: seq<FileStatus>, gitHistory: map<string, Change>,
                     svnHistory: map<string, Change>, replies: seq<string>, autoYes: bool)
    ensures Synced(r, status, gitHistory, svnHistory, replies, autoYes, true).after == r
  {
    var o1 := Mismatches(r, Diffs(status), replies, autoYes, true);
    MismatchesDryRun(r, Diffs(status), replies, autoYes);
    if o1.halt.None? {
      var o2 := OnlyIn(o1.after, OnlyGit(status), Git, gitHistory, o1.rest, autoYes, true);
      OnlyInDryRun(o1.after, OnlyGit(status), Git, gitHistory, o1.rest, autoYes);
      if o2.halt.None? {
        OnlyInDryRun(o2.after, OnlySvn(status), Svn, svnHistory, o2.rest, autoYes);
      }
    }
  }
  /**
   * Under `autoYes` a live loop over mismatches that runs to the end settles
   * every mismatch that has a known timestamp, and unsettles nothing.
   */
  lemma {:induction false} MismatchesSettle(r: Replicas, diffs: seq<FileStatus>, replies: seq<string>)
    requires Mismatches(r, diffs, replies, true, false).halt.None?
    ensures forall k :: 0 <= k < |diffs| && Newer(diffs[k]).Some? ==>
      Settled(Mismatches(r, diffs, replies, true, false).after, diffs[k].relpath)
    ensures forall p :: Settled(r, p) ==> Settled(Mismatches(r, diffs, replies, true, false).after, p)
    decreases |diffs|
  {
    if diffs != [] {
      var st := diffs[0];
      var o := MismatchStep(r, st, replies, true, false);
      var last := Mismatches(o.after, diffs[1..], o.rest, true, false);
      assert Ask(replies, true, true) == Reply(Some(true), 0);
      MismatchesSettle(o.after, diffs[1..], o.rest);
      forall p | Settled(r, p)
        ensures Settled(o.after, p)
      {
        if Newer(st).Some? {
          ExecuteSettles(r, MismatchAction(st, true), p);
        }
      }
      if Newer(st).Some? {
        ExecuteSettles(r, MismatchAction(st, true), st.relpath);
      }
      forall k | 1 <= k < |diffs| && Newer(diffs[k]).Some?
        ensures Settled(last.after, diffs[k].relpath)
      {
        assert diffs[1..][k - 1] == diffs[k];
      }
    }
  }

  /**
   * Under `autoYes` a live loop over the paths one side lacks that runs to
   * the end settles every one of them, and unsettles nothing.
   */
  lemma {:induction false} OnlyInSettle(r: Replicas, paths: seq<string>, present: Side,
                                        history: map<string, Change>, replies: seq<string>)
    requires OnlyIn(r, paths, present, history, replies, true, false).halt.None?
    ensures forall p :: p in paths ==> Settled(OnlyIn(r, paths, present, history, replies, true, false).after, p)
    ensures forall p :: Settled(r, p) ==> Settled(OnlyIn(r, paths, present, history, replies, true, false).after, p)
    decreases |paths|
  {
    if paths != [] {
      var rel := paths[0];
      var a := OnlyInOneAction(rel, present, true, LastChange(history, rel));
      var o := OnlyInOneStep(r, rel, present, LastChange(history, rel), replies, true, false);
      assert Ask(replies, true, true) == Reply(Some(true), 0);
      OnlyInSettle(o.after, paths[1..], present, history, o.rest);
      forall p | Settled(r, p)
        ensures Settled(o.after, p)
      {
        ExecuteSettles(r, a, p);
      }
      ExecuteSettles(r, a, rel);
    }
  }

  /**
   * Under `autoYes`, a live run that is not stopped leaves both copies of
   * every path it handled equal: each mismatch with a known timestamp, and
   * each path only one side tracked.
   */
  lemma SyncedSettles(r: Replicas, status: seq<FileStatus>, gitHistory: map<string, Change>,
                      svnHistory: map<string, Change>, replies: seq<string>)
    requires Synced(r, status, gitHistory, svnHistory, replies, true, false).halt.None?
    ensures var s := Synced(r, status, gitHistory, svnHistory, replies, true, false).after;
      && (forall k :: 0 <= k < |Diffs(status)| && Newer(Diffs(status)[k]).Some? ==> Settled(s, Diffs(status)[k].relpath))
      && (forall p :: p in OnlyGit(status) ==> Settled(s, p))
      && (forall p :: p in OnlySvn(status) ==> Settled(s, p))
  {
    var o1 := Mismatches(r, Diffs(status), replies, true, false);
    var o2 := OnlyIn(o1.after, OnlyGit(status), Git, gitHistory, o1.rest, true, false);
    MismatchesSettle(r, Diffs(status), replies);
    OnlyInSettle(o1.after, OnlyGit(status), Git, gitHistory, o1.rest);
    OnlyInSettle(o2.after, OnlySvn(status), Svn, svnHistory, o2.rest);
  }

  lemma {:induction false} MismatchesFrame(r: Replicas, diffs: seq<FileStatus>, replies: seq<string>,
                                           autoYes: bool, dryRun: bool, p: string)
    requires p !in RelPaths(diffs)
    ensures SameAt(r, Mismatches(r, diffs, replies, autoYes, dryRun).after, p)
    decreases |diffs|
  {
    if diffs != [] {
      var st := diffs[0];
      var o := MismatchStep(r, st, replies, autoYes, dryRun);
      var q := Ask(replies, true, autoYes);
      if Newer(st).Some? && q.answer.Some? {
        ExecuteFrame(r, MismatchAction(st, q.answer.value), dryRun, p);
      }
      if o.halt.None? {
        assert RelPaths(diffs)[1..] == RelPaths(diffs[1..]);
        MismatchesFrame(o.after, diffs[1..], o.rest, autoYes, dryRun, p);
      }
    }
  }

  lemma {:induction false} OnlyInFrame(r: Replicas, paths: seq<string>, present: Side, history: map<string, Change>,
                                       replies: seq<string>, autoYes: bool, dryRun: bool, p: string)
    requires p !in paths
    ensures SameAt(r, OnlyIn(r, paths, present, history, replies, autoYes, dryRun).after, p)
    decreases |paths|
  {
    if paths != [] {
      var rel := paths[0];
      var o := OnlyInOneStep(r, rel, present, LastChange(history, rel), replies, autoYes, dryRun);
      var q := Ask(replies, true, autoYes);
      if q.answer.Some? {
        ExecuteFrame(r, OnlyInOneAction(rel, present, q.answer.value, LastChange(history, rel)), dryRun, p);
      }
      if o.halt.None? {
        OnlyInFrame(o.after, paths[1..], present, history, o.rest, autoYes, dryRun, p);
      }
    }
  }

  /** A run touches no path outside its three work lists. */
  lemma SyncedFrame(r: Replicas, status: seq<FileStatus>, gitHistory: map<string, Change>,
                    svnHistory: map<string, Change>, replies: seq<string>, autoYes: bool, dryRun: bool, p: string)
    requires p !in RelPaths(Diffs(status)) && p !in OnlyGit(status) && p !in OnlySvn(status)
    ensures SameAt(r, Synced(r, status, gitHistory, svnHistory, replies, autoYes, dryRun).after, p)
  {
    var o1 := Mismatches(r, Diffs(status), replies, autoYes, dryRun);
    MismatchesFrame(r, Diffs(status), replies, autoYes, dryRun, p);
    if o1.halt.None? {
      var o2 := OnlyIn(o1.after, OnlyGit(status), Git, gitHistory, o1.rest, autoYes, dryRun);
      OnlyInFrame(o1.after, OnlyGit(status), Git, gitHistory, o1.rest, autoYes, dryRun, p);
      if o2.halt.None? {
        var o3 := OnlyIn(o2.after, OnlySvn(status), Svn, svnHistory, o2.rest, autoYes, dryRun);
        OnlyInFrame(o2.after, OnlySvn(status), Svn, svnHistory, o2.rest, autoYes, dryRun, p);
        SameAtTrans(r, o1.after, o2.after, o3.after, p);
      }
    }
  }

  lemma SameAtTrans(a: Replicas, b: Replicas, c: Replicas, d: Replicas, p: string)
    requires SameAt(a, b, p) && SameAt(b, c, p) && SameAt(c, d, p)
    ensures SameAt(a, d, p)
  {
  }

  lemma SuffixTrans(a: seq<string>, b: seq<string>, c: seq<string>)
    requires Suffix(a, b) && Suffix(b, c)
    ensures Suffix(a, c)
  {
    assert c[|c| - |b|..][|b| - |a|..] == c[|c| - |a|..];
  }

  /**
   * The loop over `diffs` reads replies only from the front; with `--yes` it
   * reads none and never stops for want of input.
   */
  lemma {:induction false} MismatchesReplies(r: Replicas, diffs: seq<FileStatus>, replies: seq<string>, autoYes: bool, dryRun: bool)
    ensures Suffix(Mismatches(r, diffs, replies, autoYes, dryRun).rest, replies)
    ensures autoYes ==> Mismatches(r, diffs, replies, autoYes, dryRun).rest == replies
    ensures autoYes ==> Mismatches(r, diffs, replies, autoYes, dryRun).halt != Some(EndOfInput)
    decreases |diffs|
  {
    if diffs != [] {
      var o := MismatchStep(r, diffs[0], replies, autoYes, dryRun);
      if o.halt.None? {
        MismatchesReplies(o.after, diffs[1..], o.rest, autoYes, dryRun);
        SuffixTrans(Mismatches(o.after, diffs[1..], o.rest, autoYes, dryRun).rest, o.rest, replies);
      }
    }
  }

  /** The same for the loop over the paths only one side tracks. */
  lemma {:induction false} OnlyInReplies(r: Replicas, paths: seq<string>, present: Side, history: map<string, Change>,
                                         replies: seq<string>, autoYes: bool, dryRun: bool)
    ensures Suffix(OnlyIn(r, paths, present, history, replies, autoYes, dryRun).rest, replies)
    ensures autoYes ==> OnlyIn(r, paths, present, history, replies, autoYes, dryRun).rest == replies
    ensures autoYes ==> OnlyIn(r, paths, present, history, replies, autoYes, dryRun).halt != Some(EndOfInput)
    decreases |paths|
  {
    if paths != [] {
      var o := OnlyInOneStep(r, paths[0], present, LastChange(history, paths[0]), replies, autoYes, dryRun);
      if o.halt.None? {
        OnlyInReplies(o.after, paths[1..], present, history, o.rest, autoYes, dryRun);
        SuffixTrans(OnlyIn(o.after, paths[1..], present, history, o.rest, autoYes, dryRun).rest, o.rest, replies);
      }
    }
  }

  /** A whole run reads the replies from the front, and with `--yes` it never runs out of input. */
  lemma SyncedReplies(r: Replicas, status: seq<FileStatus>, gitHistory: map<string, Change>,
                      svnHistory: map<string, Change>, replies: seq<string>, autoYes: bool, dryRun: bool)
    ensures Suffix(Synced(r, status, gitHistory, svnHistory, replies, autoYes, dryRun).rest, replies)
    ensures autoYes ==> Synced(r, status, gitHistory, svnHistory, replies, autoYes, dryRun).halt != Some(EndOfInput)
  {
    var o1 := Mismatches(r, Diffs(status), replies, autoYes, dryRun);
    MismatchesReplies(r, Diffs(status), replies, autoYes, dryRun);
    if o1.halt.None? {
      var o2 := OnlyIn(o1.after, OnlyGit(status), Git, gitHistory, o1.rest, autoYes, dryRun);
      OnlyInReplies(o1.after, OnlyGit(status), Git, gitHistory, o1.rest, autoYes, dryRun);
      SuffixTrans(o2.rest, o1.rest, replies);
      if o2.halt.None? {
        var o3 := OnlyIn(o2.after, OnlySvn(status), Svn, svnHistory, o2.rest, autoYes, dryRun);
        OnlyInReplies(o2.after, OnlySvn(status), Svn, svnHistory, o2.rest, autoYes, dryRun);
        SuffixTrans(o3.rest, o2.rest, replies);
      }
    }
  }

  /**
   * Over the inventory of the checkouts, files that are identical on both
   * sides, and paths neither side tracks, are never touched.
   */
  lemma UnchangedUntouched(r: Replicas, c: Checkouts, replies: seq<string>, autoYes: bool, dryRun: bool, p: string)
    requires (p in c.gitSet && p in c.svnSet && SameFile(c, p)) || (p !in c.gitSet && p !in c.svnSet)
    ensures SameAt(r, Synced(r, StatusTable(c), c.gitHistory, c.svnHistory, replies, autoYes, dryRun).after, p)
  {
    Classification(c, p);
    SyncedFrame(r, StatusTable(c), c.gitHistory, c.svnHistory, replies, autoYes, dryRun, p);
  }
  /** The loop over `diffs` after `i` of them, one more step. */
  lemma MismatchesUnfold(r: Replicas, diffs: seq<FileStatus>, i: nat, replies: seq<string>, autoYes: bool, dryRun: bool)
    requires i < |diffs|
    ensures var o := MismatchStep(r, diffs[i], replies, autoYes, dryRun);
      Mismatches(r, diffs[i..], replies, autoYes, dryRun)
      == if o.halt.Some? then o else Mismatches(o.after, diffs[i + 1..], o.rest, autoYes, dryRun)
  {
    assert diffs[i..][0] == diffs[i] && diffs[i..][1..] == diffs[i + 1..];
  }

  /** The loop over one side's paths after `i` of them, one more step. */
  lemma OnlyInUnfold(r: Replicas, paths: seq<string>, i: nat, present: Side, history: map<string, Change>,
                     replies: seq<string>, autoYes: bool, dryRun: bool)
    requires i < |paths|
    ensures var o := OnlyInOneStep(r, paths[i], present, LastChange(history, paths[i]), replies, autoYes, dryRun);
      OnlyIn(r, paths[i..], present, history, replies, autoYes, dryRun)
      == if o.halt.Some? then o else OnlyIn(o.after, paths[i + 1..], present, history, o.rest, autoYes, dryRun)
  {
    assert paths[i..][0] == paths[i] && paths[i..][1..] == paths[i + 1..];
  }

  // ---------------------------------------------------------------------
  // The working copies as mutable state

  /** The two working copies a run changes; `dryRun` makes every change a no-op. */
  class Workspace {
    const dryRun: bool
    var gitFiles: map<string, Bytes>
    var svnFiles: map<string, Bytes>
    var gitLog: seq<Commit>
    var svnLog: seq<Commit>

    constructor (dryRun: bool, gitFiles: map<string, Bytes>, svnFiles: map<string, Bytes>)
      ensures this.dryRun == dryRun && State() == Replicas(gitFiles, svnFiles, [], [])
    {
      this.dryRun := dryRun;
      this.gitFiles := gitFiles;
      this.svnFiles := svnFiles;
      gitLog := [];
      svnLog := [];
    }

    function State(): Replicas
      reads this
    {
      Replicas(gitFiles, svnFiles, gitLog, svnLog)
    }

    /**
     * `copy_file`: a live copy gives the destination the source's bytes; it
     * fails, changing nothing, when the source file does not exist.
     */
    method CopyFile(from: Side, rel: string) returns (ok: bool)
      modifies this
      ensures dryRun ==> ok && State() == old(State())
      ensures !dryRun ==> (ok <==> rel in FilesOn(old(State()), from))
      ensures !dryRun && ok ==> State() == Copied(old(State()), from, rel)
      ensures !ok ==> State() == old(State())
    {
      if dryRun {
        return true;
      }
      if from == Git {
        if rel !in gitFiles {
          return false;
        }
        svnFiles := svnFiles[rel := gitFiles[rel]];
      } else {
        if rel !in svnFiles {
          return false;
        }
        gitFiles := gitFiles[rel := svnFiles[rel]];
      }
      return true;
    }

    /** `git_add_commit` and `svn_add_commit`. */
    method AddCommit(side: Side, rel: string, message: string)
      modifies this
      ensures State() == if dryRun then old(State()) else WithCommit(old(State()), side, Commit(Added, rel, message))
    {
      if dryRun {
        return;
      }
      if side == Git {
        gitLog := gitLog + [Commit(Added, rel, message)];
      } else {
        svnLog := svnLog + [Commit(Added, rel, message)];
      }
    }

    /** `git_rm_commit` and `svn_delete_commit`: the file goes, and the removal is committed. */
    method RemoveCommit(side: Side, rel: string, message: string)
      modifies this
      ensures State() == if dryRun then old(State())
                         else WithCommit(WithFiles(old(State()), side, FilesOn(old(State()), side) - {rel}),
                                         side, Commit(Removed, rel, message))
    {
      if dryRun {
        return;
      }
      if side == Git {
        gitFiles := gitFiles - {rel};
        gitLog := gitLog + [Commit(Removed, rel, message)];
      } else {
        svnFiles := svnFiles - {rel};
        svnLog := svnLog + [Commit(Removed, rel, message)];
      }
    }

    /** Carries out one action. */
    method Perform(a: Action) returns (halt: Option<Halt>)
      modifies this
      ensures Step(State(), halt) == Execute(old(State()), a, dryRun)
    {
      match a
      case Copy(from, rel, message) =>
        var ok := CopyFile(from, rel);
        if !ok {
          return Some(MissingSource(rel));
        }
        AddCommit(Other(from), rel, message);
        return None;
      case Remove(side, rel, message) =>
        RemoveCommit(side, rel, message);
        return None;
      case Leave =>
        return None;
    }

    /** `handle_mismatch` for one status. */
    method HandleMismatch(st: FileStatus, replies: seq<string>, autoYes: bool)
      returns (halt: Option<Halt>, rest: seq<string>)
      modifies this
      ensures Outcome(State(), halt, rest) == MismatchStep(old(State()), st, replies, autoYes, dryRun)
    {
      if Newer(st).None? {
        return None, replies;
      }
      var answer, used := PromptYesNo(replies, true, autoYes);
      rest := replies[used..];
      if answer.None? {
        return Some(EndOfInput), rest;
      }
      halt := Perform(MismatchAction(st, answer.value));
    }

    /** `handle_only_in_one` for a path only `present` tracks, with that side's history. */
    method HandleOnlyInOne(rel: string, present: Side, history: map<string, Change>, replies: seq<string>, autoYes: bool)
      returns (halt: Option<Halt>, rest: seq<string>)
      modifies this
      ensures Outcome(State(), halt, rest)
              == OnlyInOneStep(old(State()), rel, present, LastChange(history, rel), replies, autoYes, dryRun)
    {
      var answer, used := PromptYesNo(replies, true, autoYes);
      rest := replies[used..];
      if answer.None? {
        return Some(EndOfInput), rest;
      }
      halt := Perform(OnlyInOneAction(rel, present, answer.value, LastChange(history, rel)));
    }

    /** The loop over `diffs`. */
    method HandleMismatches(diffs: seq<FileStatus>, replies: seq<string>, autoYes: bool)
      returns (halt: Option<Halt>, rest: seq<string>)
      modifies this
      ensures Outcome(State(), halt, rest) == Mismatches(old(State()), diffs, replies, autoYes, dryRun)
    {
      halt, rest := None, replies;
      var i := 0;
      while i < |diffs|
        invariant 0 <= i <= |diffs| && halt.None?
        invariant Mismatches(old(State()), diffs, replies, autoYes, dryRun)
                  == Mismatches(State(), diffs[i..], rest, autoYes, dryRun)
      {
        MismatchesUnfold(State(), diffs, i, rest, autoYes, dryRun);
        halt, rest := HandleMismatch(diffs[i], rest, autoYes);
        if halt.Some? {
          return;
        }
        i := i + 1;
      }
      assert diffs[i..] == [];
    }

    /** The loop over the paths only `present` tracks. */
    method HandleOnlyIn(paths: seq<string>, present: Side, history: map<string, Change>, replies: seq<string>, autoYes: bool)
      returns (halt: Option<Halt>, rest: seq<string>)
      modifies this
      ensures Outcome(State(), halt, rest) == OnlyIn(old(State()), paths, present, history, replies, autoYes, dryRun)
    {
      halt, rest := None, replies;
      var i := 0;
      while i < |paths|
        invariant 0 <= i <= |paths| && halt.None?
        invariant OnlyIn(old(State()), paths, present, history, replies, autoYes, dryRun)
                  == OnlyIn(State(), paths[i..], present, history, rest, autoYes, dryRun)
      {
        OnlyInUnfold(State(), paths, i, present, history, rest, autoYes, dryRun);
        halt, rest := HandleOnlyInOne(paths[i], present, history, rest, autoYes);
        if halt.Some? {
          return;
        }
        i := i + 1;
      }
      assert paths[i..] == [];
    }

    /** The three loops of `main` over the status table. */
    method Sync(status: seq<FileStatus>, gitHistory: map<string, Change>, svnHistory: map<string, Change>,
                replies: seq<string>, autoYes: bool)
      returns (halt: Option<Halt>, rest: seq<string>)
      modifies this
      ensures Outcome(State(), halt, rest)
              == Synced(old(State()), status, gitHistory, svnHistory, replies, autoYes, dryRun)
    {
      halt, rest := HandleMismatches(Diffs(status), replies, autoYes);
      if halt.Some? {
        return;
      }
      halt, rest := HandleOnlyIn(OnlyGit(status), Git, gitHistory, rest, autoYes);
      if halt.Some? {
        return;
      }
      halt, rest := HandleOnlyIn(OnlySvn(status), Svn, svnHistory, rest, autoYes);
    }
  }
}
