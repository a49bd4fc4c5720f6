/**
 * What to do about one path that needs attention: the side whose copy wins a
 * content mismatch, the commit messages, and the action the user's answer
 * selects.
 */
module Decisions {
  import opened Wrappers
  import opened Text
  import opened Inventory

  datatype Side = Git | Svn

  function Other(side: Side): (r: Side)
    ensures r != side
  {
    if side == Git then Svn else Git
  }

  /** How a side is named in generated commit messages. */
  function SideName(side: Side): string {
    if side == Git then "Git" else "SVN"
  }

  /** A status's change on one side. */
  function ChangeOn(st: FileStatus, side: Side): Change {
    if side == Git then st.git else st.svn
  }

  /** Python's `ts or -1`: a missing timestamp and a zero timestamp both read as -1. */
  function Effective(ts: Option<int>): (t: int)
    ensures ts.Some? && ts.value != 0 ==> t == ts.value
    ensures ts.None? || ts.value == 0 ==> t == -1
  {
    if ts.Some? && ts.value != 0 then ts.value else -1
  }

  /**
   * `handle_mismatch`'s choice of the newer side: none when neither
   * timestamp reads as known, else the side with the larger timestamp, Git
   * on a tie.
   */
  function Newer(st: FileStatus): (r: Option<Side>)
    ensures r.None? <==> Effective(st.git.ts) == -1 && Effective(st.svn.ts) == -1
    ensures r.Some? ==> (r.value == Git <==> Effective(st.git.ts) >= Effective(st.svn.ts))
  {
    var g := Effective(st.git.ts);
    var s := Effective(st.svn.ts);
    if g == -1 && s == -1 then None
    else if g >= s then Some(Git)
    else Some(Svn)
  }

  /** A timestamp that is present and positive. */
  predicate Known(ts: Option<int>) {
    ts.Some? && ts.value > 0
  }

  /**
   * With timestamps that are never negative, a mismatch is skipped exactly
   * when neither side has a known timestamp, and the side chosen has a known
   * timestamp at least as recent as the other side's.
   */
  lemma NewerIsMostRecent(st: FileStatus)
    requires st.git.ts.Some? ==> st.git.ts.value >= 0
    requires st.svn.ts.Some? ==> st.svn.ts.value >= 0
    ensures Newer(st).None? <==> !Known(st.git.ts) && !Known(st.svn.ts)
    ensures Newer(st).Some? ==>
      var side := Newer(st).value;
      && Known(ChangeOn(st, side).ts)
      && (Known(ChangeOn(st, Other(side)).ts) ==>
            ChangeOn(st, Other(side)).ts.value <= ChangeOn(st, side).ts.value)
  {
  }

  /** The status with the two sides' changes exchanged. */
  function Swapped(st: FileStatus): FileStatus {
    st.(git := st.svn, svn := st.git)
  }

  /**
   * The choice does not depend on which side is called Git, except that a
   * tie goes to Git.
   */
  lemma NewerSymmetric(st: FileStatus)
    requires Effective(st.git.ts) != Effective(st.svn.ts)
    ensures Newer(Swapped(st)).Some? && Newer(st).Some?
    ensures Newer(Swapped(st)).value == Other(Newer(st).value)
  {
  }

  /** Python's `msg or fallback`: an absent or empty message gives way to the fallback. */
  function OrElse(msg: Option<string>, fallback: string): (r: string)
    ensures msg.Some? && msg.value != [] ==> r == msg.value
    ensures msg.None? || msg.value == [] ==> r == fallback
    ensures fallback != [] ==> r != []
  {
    if msg.Some? && msg.value != [] then msg.value else fallback
  }

  /** `augment_message`: a known, non-empty author is credited after a blank line. */
  function AugmentMessage(msg: string, author: Option<string>): (r: string)
    ensures StartsWith(r, msg)
    ensures author.None? || author.value == [] ==> r == msg
  {
    if author.Some? && author.value != [] then msg + "\n\nOriginal author: " + author.value else msg
  }

  /** The credit line can be taken off again: the message and the author are recoverable. */
  lemma AugmentRecoverable(msg: string, author: string)
    requires author != []
    ensures var r := AugmentMessage(msg, Some(author));
      && |r| == |msg| + 19 + |author| && r[..|msg|] == msg
      && r[|msg|..|msg| + 19] == "\n\nOriginal author: " && r[|msg| + 19..] == author
  {
    var r := AugmentMessage(msg, Some(author));
    assert r == msg + ("\n\nOriginal author: " + author);
  }

  /** The messages used when the history gives none. */
  function SyncFallback(rel: string, from: Side): string {
    "Sync " + rel + " from " + SideName(from)
  }

  function AddFallback(rel: string, from: Side): string {
    "Add " + rel + " (synced from " + SideName(from) + ")"
  }

  function RemoveFallback(rel: string, present: Side): string {
    "Remove " + rel + " (not present in " + SideName(Other(present)) + ")"
  }

  /**
   * The commit message for a change found in a side's history, or else the
   * fallback: it starts with the history's message when that is non-empty
   * and with the fallback otherwise, and without a known author it is
   * exactly that.
   */
  function CommitMessage(last: Change, fallback: string): (r: string)
    ensures StartsWith(r, OrElse(last.msg, fallback))
    ensures last.author.None? || last.author.value == [] ==> r == OrElse(last.msg, fallback)
  {
    AugmentMessage(OrElse(last.msg, fallback), last.author)
  }

  /** No commit is ever made with an empty message. */
  lemma CommitMessageNonEmpty(last: Change, fallback: string)
    requires fallback != []
    ensures CommitMessage(last, fallback) != []
  {
    var m := OrElse(last.msg, fallback);
    assert StartsWith(CommitMessage(last, fallback), m);
  }

  /** `indent_message`: the message's lines joined for display with a four-space indent. */
  function IndentMessage(msg: Option<string>): (r: string)
    ensures msg.None? || msg.value == [] ==> r == "(no message)"
  {
    if msg.None? || msg.value == [] then "(no message)"
    else
      var lines := SplitLines(msg.value);
      Join("\n    ", if lines == [] then [msg.value] else lines)
  }

  /** A message made of lines is displayed as those lines, indented. */
  lemma IndentLines(lines: seq<string>)
    requires lines != [] && lines[|lines| - 1] != []
    requires forall i :: 0 <= i < |lines| ==> NoLineBoundary(lines[i])
    ensures IndentMessage(Some(Join("\n", lines))) == Join("\n    ", lines)
  {
    SplitLinesJoin(lines);
  }

  /**
   * What the reconciliation does about one path: copy it from one side to
   * the other and commit it there, remove it from one side and commit the
   * removal there, or nothing.
   */
  datatype Action =
    | Copy(from: Side, rel: string, message: string)
    | Remove(side: Side, rel: string, message: string)
    | Leave

  /** Whether the user is asked about a mismatch at all: not when it is skipped. */
  predicate MismatchAsks(st: FileStatus) {
    Newer(st).Some?
  }

  /**
   * `handle_mismatch`: on a yes, the newer side's copy replaces the older
   * one, committed with the newer side's message and author.
   */
  function MismatchAction(st: FileStatus, yes: bool): (a: Action)
    ensures a.Leave? <==> !yes || Newer(st).None?
    ensures a.Copy? ==> a.message == CommitMessage(ChangeOn(st, a.from), SyncFallback(st.relpath, a.from))
  {
    match Newer(st)
    case None => Leave
    case Some(side) =>
      if yes then Copy(side, st.relpath, CommitMessage(ChangeOn(st, side), SyncFallback(st.relpath, side)))
      else Leave
  }

  /**
   * `handle_only_in_one`: on a yes the path is added to the side that lacks
   * it, otherwise it is removed from the side that has it; `last` is the
   * present side's last change.
   */
  function OnlyInOneAction(rel: string, present: Side, add: bool, last: Change): (a: Action)
    ensures a.Copy? ==> a.message == CommitMessage(last, AddFallback(rel, present))
    ensures a.Remove? ==> a.message == CommitMessage(last, RemoveFallback(rel, present))
    ensures !a.Leave?
  {
    if add then Copy(present, rel, CommitMessage(last, AddFallback(rel, present)))
    else Remove(present, rel, CommitMessage(last, RemoveFallback(rel, present)))
  }

  /** A mismatch copies from the newer side only, and only on a yes. */
  lemma MismatchCopiesNewer(st: FileStatus, yes: bool)
    ensures MismatchAction(st, yes).Copy? <==> yes && Newer(st).Some?
    ensures MismatchAction(st, yes).Copy? ==>
      MismatchAction(st, yes).from == Newer(st).value && MismatchAction(st, yes).rel == st.relpath
    ensures !MismatchAction(st, yes).Remove?
  {
  }

  /**
   * A path only one side tracks is never left alone: a yes copies it from
   * the side that has it, a no removes it from that side.
   */
  lemma OnlyInOneAddsOrRemoves(rel: string, present: Side, add: bool, last: Change)
    ensures var a := OnlyInOneAction(rel, present, add, last);
      && (a.Copy? <==> add) && (a.Remove? <==> !add) && a.rel == rel
      && (a.Copy? ==> a.from == present) && (a.Remove? ==> a.side == present)
  {
  }

  /** Every action on a path carries a non-empty commit message. */
  lemma ActionsHaveMessages(st: FileStatus, yes: bool, rel: string, present: Side, add: bool, last: Change)
    ensures MismatchAction(st, yes).Copy? ==> MismatchAction(st, yes).message != []
    ensures OnlyInOneAction(rel, present, add, last).message != []
  {
    if Newer(st).Some? {
      CommitMessageNonEmpty(ChangeOn(st, Newer(st).value), SyncFallback(st.relpath, Newer(st).value));
    }
    CommitMessageNonEmpty(last, AddFallback(rel, present));
    CommitMessageNonEmpty(last, RemoveFallback(rel, present));
  }
}
