# git-svn-sync, modelled in Dafny

`git-svn-sync.py` reconciles a Git working copy and an SVN working copy of
the same tree. It lists the files each side tracks and takes out the paths
named in an ignore file of absolute paths
(`~/.git-svn-sync.ignore`). It then compares the two copies of every
remaining path. For each difference it asks the user what to do: a file
whose copies differ is copied from the side with the newer commit. A file
only one side tracks is either added to the other side or removed from
its own. Each change is committed with the original commit's message and
author. `--rebaseline` does not reconcile anything. It records every file
that only one side tracks in the ignore file, and seeds a placeholder
entry for each root that has no entry yet. A normal run refuses to start
until both roots have an entry. `--dry-run` changes no working copy.
`--yes` answers every question with yes.

The model, one module per concern:

- `Text`: Python's `str.strip`, `str.splitlines`, `str.join` and ASCII
  `str.lower`.
- `Paths`: POSIX `os.path.abspath`, `relpath`, `commonpath` and `join` on
  normalised absolute paths, each path a sequence of components.
- `Ordering`: Python's string order and `sorted` of a set of strings.
- `Baseline`: the ignore file as a class holding its text, covering
  `load_ignore_set` and `append_to_ignore`. Also the resolution of the
  entries into one relative ignore set per root, the "both roots covered"
  precondition, and the rebaseline block of `main`.
- `Listing`: the line filters of `git_ls_files` and `svn_ls_files`.
- `SvnLog`: `extract_last_svn_log_message`.
- `Inventory`: `FileStatus` and `compare_and_collect`, plus the three work
  lists of `main`.
- `Decisions`: the choices of `handle_mismatch` and `handle_only_in_one`,
  and `augment_message` and `indent_message`.
- `Prompt`: `prompt_yes_no`, reading over a given sequence of replies.
- `Executor`: the two working copies as a `Workspace` class with a file
  map and a commit log per side. It covers `copy_file`, the add, remove and
  commit helpers with their dry-run guards, and the loops of `main` over
  the work lists. Each of its methods is proved against a pure function on
  a `Replicas` value, and the properties of a run are lemmas about those
  functions.
- `Driver`: `main` from indexing on, as a `Run` method.

## Model

| member | source | states |
|---|---|---|
| Text.Strip | git-svn-sync.py:52 | `str.strip`: the result is the slice of the input between its leading and its trailing white space, every character cut off is white space, and the result neither starts nor ends with white space |
| Text.StripIdempotent | git-svn-sync.py:52 | stripping a stripped string changes nothing |
| Text.SplitLines | git-svn-sync.py:106 | `str.splitlines`: no lines exactly for the empty string, and no line holds a line boundary |
| Text.SplitLinesJoin | git-svn-sync.py:441-445 | lines without boundaries, joined by "\n" with a non-empty last line, split back into the same lines |
| Text.SplitLinesTerminated | git-svn-sync.py:246 | lines without boundaries, joined by "\n" and ended by "\n", split back into the same lines |
| Paths.RootRelativeIsBelow | git-svn-sync.py:508-514 | an entry is filed under a root only when its normalised path lies strictly below the root, and what is filed is the rest of its components joined by "/" |
| Paths.RootRelativeOfBelow | git-svn-sync.py:508-514 | conversely, an entry strictly below a root is filed under it, unless its first component below the root starts with ".." |
| Paths.RootRelativeOfJoined | git-svn-sync.py:508-514 | a relative path joined to a root is filed under that root as the same relative path |
| Paths.RootItself | git-svn-sync.py:508-514 | a root's own path normalises to the root, passes the `commonpath` test and is not filed under the root (its relpath is ".") |
| Ordering.LessTotal | git-svn-sync.py:302 | Python's string order relates any two distinct strings |
| Ordering.LessTransitive | git-svn-sync.py:302 | Python's string order is transitive |
| Ordering.Sorted | git-svn-sync.py:302 | `sorted(s)` holds each element of the set once, in strictly increasing order, and nothing else |
| Baseline.LoadIgnoreSet | git-svn-sync.py:49-55 | every entry read is non-empty, strip-stable and not a comment |
| Baseline.LoadMembers | git-svn-sync.py:49-55 | a string is an entry exactly when some line of the file strips to it and is neither blank nor a comment |
| Baseline.LoadRender | git-svn-sync.py:66-69 | paths written one per line, with clean text, read back as exactly those paths |
| Baseline.NewEntries | git-svn-sync.py:64 | no more paths than given, and a path is new exactly when it is among the given ones and not already known |
| Baseline.NewEntriesOne | git-svn-sync.py:64 | a single path is kept exactly when it is not known |
| Baseline.NewEntriesConcat | git-svn-sync.py:64 | the filter keeps input order and repetitions: filtering a concatenation is concatenating the filtered parts |
| Baseline.AppendedAsWritten | git-svn-sync.py:67-69 | the file's old text is kept as a prefix when lines are appended |
| Baseline.Appended | git-svn-sync.py:65-69 | the corrected append keeps the old text as a prefix, always ends a line when it wrote something, and is the source's own text whenever the file already ended a line or there is nothing to write |
| Baseline.IgnoreFile.AppendToIgnore | git-svn-sync.py:57-70 | returns the paths not in `existing` (by default the entries on file), in input order; the file is unchanged when there are none; the new text is `Appended`, which is the source's own text whenever the old text ended a line; no entry is lost |
| Baseline.IgnoreFile.WriteLines | git-svn-sync.py:68-69 | the loop writes each path followed by a line end, in order, after the old text |
| Baseline.AppendedEntries | git-svn-sync.py:66-69 | after the (corrected) append the file holds the old entries plus those of the new lines, and nothing else |
| Baseline.AppendedClean | git-svn-sync.py:66-69 | after appending clean paths the entries are the old ones plus exactly those paths |
| Baseline.AppendAsWrittenLosesEntry | git-svn-sync.py:66-69 | as written, appending path b to a file whose only line a has no line end leaves just the entry a+b: both a and b are lost |
| Baseline.ResolveIgnores | git-svn-sync.py:505-514 | the loop builds, for each root, the set of relative paths of the entries filed under that root |
| Baseline.IgnoreSetFor | git-svn-sync.py:508-514 | every entry filed under the root contributes its relative path, and every relative path comes from such an entry |
| Baseline.FiledUnder | git-svn-sync.py:508-516 | a root's ignore set is non-empty exactly when some entry is filed under it |
| Baseline.CoveredByEntries | git-svn-sync.py:516 | a normal run is allowed exactly when each root has some entry filed under it |
| Baseline.IgnoreSetBelowRoot | git-svn-sync.py:508-514 | every relative ignore path comes from an entry that lies strictly below the root |
| Baseline.IgnoreSetMonotone | git-svn-sync.py:508-514 | more entries never file fewer relative paths |
| Baseline.AsymmetricHoldsGit | git-svn-sync.py:527-529 | every path only Git tracks appears, joined to the Git root, in the list rebaseline records |
| Baseline.Asymmetric | git-svn-sync.py:527-529 | one path for each Git-only and each SVN-only relative path |
| Baseline.JoinedMembers | git-svn-sync.py:529 | a sorted set joined to a root holds exactly the set's paths joined to that root |
| Baseline.AsymmetricMembers | git-svn-sync.py:527-529 | a path is to be recorded exactly when it is a Git-only path joined to the Git root or an SVN-only path joined to the SVN root |
| Baseline.PlaceholdersAsWritten | git-svn-sync.py:534-538 | the source's placeholder list: at most two, empty exactly when the `commonpath` test finds an entry for both roots, the Git root's first and the SVN root's last |
| Baseline.Placeholders | git-svn-sync.py:534-538 | the corrected placeholder list: at most two, empty exactly when both roots have an entry filed under them, the Git root's first and the SVN root's last |
| Paths.UnderRootAgrees | git-svn-sync.py:535 | for an entry with no component starting with ".." that is not the root itself, `commonpath([root, p]) == root` holds exactly when the entry is filed under the root |
| Baseline.PlaceholderTestsAgree | git-svn-sync.py:535-538 | on such entries, the `commonpath` test and the filing test agree for a root |
| Baseline.PlaceholdersAgree | git-svn-sync.py:534-538 | on such entries, the source's placeholder list and the corrected one are the same |
| Baseline.SeedPlaceholders | git-svn-sync.py:534-538 | the placeholder list holds "<root>/.ignore" for each root that has no entry filed under it, Git first; on entries with no ".." component and no root among them it is the source's `commonpath` list |
| Baseline.Rebaseline | git-svn-sync.py:526-546 | records the asymmetric paths not on file; only when there are none, appends the placeholders not on file; reports both lists; on entries with no ".." component and no root among them, the placeholders are those of the source's test |
| Baseline.Rebaselined | git-svn-sync.py:526-546 | the file after a rebaseline keeps its old text as a prefix, and is the source's own text whenever the old text ended a line |
| Baseline.RebaselinedEntries | git-svn-sync.py:526-546 | a rebaseline keeps every old entry and adds exactly the paths it reports |
| Baseline.RebaselineRecordsAsymmetric | git-svn-sync.py:529-530 | after a rebaseline every asymmetric path is on file, next to all the old entries |
| Baseline.RebaselineRecordsPlaceholders | git-svn-sync.py:533-540 | a rebaseline that finds no asymmetric path to record puts every placeholder on file |
| Baseline.RebaselineCoversRoots | git-svn-sync.py:516 | a rebaseline that finds nothing new leaves a baseline that covers both roots, so the next normal run is not refused (corrected placeholder test) |
| Baseline.RebaselineIdempotent | git-svn-sync.py:526-546 | once both roots are covered and every asymmetric path is on file, a rebaseline leaves the file unchanged, byte for byte |
| Baseline.RebaselineIdempotentAsWritten | git-svn-sync.py:526-546 | with the source's own append and `commonpath` test: once every asymmetric path is on file and each root has an entry the test accepts, a rebaseline leaves the file unchanged |
| Baseline.RebaselinedPathIgnored | git-svn-sync.py:523 | a Git-only path that rebaseline records is in the Git ignore set on the next run, so it drops out of the Git tracked set |
| Baseline.PlaceholderFiled | git-svn-sync.py:536 | a root's placeholder is filed under that root as ".ignore" |
| Baseline.PlaceholderAsWrittenLeavesRootsUncovered | git-svn-sync.py:535-538 | with a baseline of just the two roots, the `commonpath` test seeds no placeholder while neither root is covered; the corrected test seeds both |
| Baseline.RootsOnlyPlaceholders | git-svn-sync.py:535-538 | for two roots apart, the entry set holding just the roots passes the `commonpath` test for both, yet files nothing under either |
| Listing.GitLsFiles | git-svn-sync.py:104-107 | every listed path is non-empty and strip-stable |
| Listing.GitLsFilesMembers | git-svn-sync.py:104-107 | a path is listed exactly when it is non-empty and some output line strips to it |
| Listing.SvnLsFiles | git-svn-sync.py:170-183 | the loop collects exactly the paths the Git filter would read from the same output, less those ending in "/" |
| Listing.SvnFiles | git-svn-sync.py:176-183 | every listed path is non-empty, strip-stable and not a directory |
| Listing.SvnListingIsGitListing | git-svn-sync.py:170-183 | the SVN reading of an output is the Git reading with the directory lines taken out |
| Listing.FileLinesNamed | git-svn-sync.py:176-181 | a line survives the SVN filter exactly when it survives the Git filter and is not a directory |
| SvnLog.SeparatorIndices | git-svn-sync.py:247 | every index found is that of a separator line, and the indices increase |
| SvnLog.SeparatorsComplete | git-svn-sync.py:247 | every separator line is found |
| SvnLog.Slice | git-svn-sync.py:249-251 | Python's `xs[start:end]`: the lines from `start` up to `end`, or none when `start` is not below `end` |
| SvnLog.ExtractLastSvnLogMessage | git-svn-sync.py:242-254 | the message neither starts nor ends with white space |
| SvnLog.ExtractEntry | git-svn-sync.py:246-252 | when the first separator line is at `a` and the next one at `b`, the message is the stripped text of lines `a + 2` up to `b` |
| SvnLog.FirstTwoSeparators | git-svn-sync.py:247-249 | when the first separator line is at `a` and the next one at `b`, the first two indices found are `a` and `b` |
| SvnLog.MessageBetween | git-svn-sync.py:247-252 | the same, for the message read from any sequence of lines |
| SvnLog.Between | git-svn-sync.py:249-251 | the text taken between two separators, stripped: it neither starts nor ends with white space |
| SvnLog.ExtractWithoutEntry | git-svn-sync.py:253-254 | output with at most one separator line is returned whole, stripped |
| SvnLog.TwoSeparators | git-svn-sync.py:247 | with exactly two separator lines, those are the first two indices found |
| SvnLog.ExtractFromLines | git-svn-sync.py:242-254 | output whose lines are those of one log entry, with no separator line but its first and last, yields that entry's message lines, joined and stripped |
| SvnLog.EntryMessage | git-svn-sync.py:246-252 | reading an entry's lines gives its body lines, joined and stripped, whatever the whole output was |
| SvnLog.ExtractRenderedEntry | git-svn-sync.py:242-254 | rendering a well-formed entry and extracting from it gives back its message, stripped |
| SvnLog.ExtractHeaderOnly | git-svn-sync.py:248-252 | an entry whose header is directly followed by the closing separator has the empty message |
| SvnLog.StripAfterBlank | git-svn-sync.py:250-251 | the blank line after the header vanishes once the message is stripped |
| Inventory.Status | git-svn-sync.py:304-335 | the status records where the path is tracked; `sameContent` is present only for a path on both sides, and true only for equal regular files; histories are recorded only for copies that differ |
| Inventory.Statuses | git-svn-sync.py:303-335 | one status per path, in the order of the paths |
| Inventory.CollectOne | git-svn-sync.py:304-322 | the loop body computes the path's status, and looks up a history exactly when the copies differ |
| Inventory.CollectAll | git-svn-sync.py:303-335 | the loop records each path's status in turn; the histories looked up are those of the differing paths, in order |
| Inventory.CompareAndCollect | git-svn-sync.py:296-337 | the status table of the sorted union of the tracked sets, with histories consulted only for differing paths |
| Inventory.StatusTablePaths | git-svn-sync.py:302 | the table has one entry per tracked path, in strictly increasing order, and none for any other path |
| Inventory.DiffsOf | git-svn-sync.py:551 | a path is in `diffs` exactly when it is among the paths and its copies differ |
| Inventory.OnlyGitOf | git-svn-sync.py:553 | a path is in `only_git` exactly when it is among the paths, tracked by Git and not by SVN |
| Inventory.OnlySvnOf | git-svn-sync.py:555 | a path is in `only_svn` exactly when it is among the paths, tracked by SVN and not by Git |
| Inventory.Classification | git-svn-sync.py:548-555 | over the table, a path is a diff exactly when both sides track it and its copies are not the same file; it is Git-only or SVN-only exactly when the other side does not track it |
| Inventory.Diffs | git-svn-sync.py:551 | `diffs` has no more entries than the table |
| Inventory.OnlyGit | git-svn-sync.py:553 | `only_git` has no more entries than the table |
| Inventory.OnlySvn | git-svn-sync.py:555 | `only_svn` has no more entries than the table |
| Inventory.DiffsMembers | git-svn-sync.py:551 | a status is in `diffs` exactly when it is in the table and its copies differ |
| Inventory.OnlyGitMembers | git-svn-sync.py:553 | a path is in `only_git` exactly when some entry of the table has it tracked by Git and not by SVN |
| Inventory.OnlySvnMembers | git-svn-sync.py:555 | a path is in `only_svn` exactly when some entry of the table has it tracked by SVN and not by Git |
| Inventory.DiffsConcat | git-svn-sync.py:551 | `diffs` keeps the table's order: it distributes over concatenation |
| Inventory.OnlyGitConcat | git-svn-sync.py:553 | `only_git` keeps the table's order |
| Inventory.OnlySvnConcat | git-svn-sync.py:555 | `only_svn` keeps the table's order |
| Decisions.Effective | git-svn-sync.py:365-366 | `ts or -1`: a present, non-zero timestamp is kept; a missing or zero one reads as -1 |
| Decisions.Newer | git-svn-sync.py:365-372 | no side exactly when neither timestamp is known; otherwise Git exactly when its effective timestamp is at least SVN's, so a tie goes to Git |
| Decisions.NewerIsMostRecent | git-svn-sync.py:365-372 | with non-negative timestamps, a mismatch is skipped exactly when neither side has a known timestamp; otherwise the chosen side has a known timestamp no older than the other side's |
| Decisions.NewerSymmetric | git-svn-sync.py:372 | swapping the sides swaps the choice, when the timestamps differ |
| Decisions.OrElse | git-svn-sync.py:388 | `msg or fallback`: a present, non-empty message is kept; a missing or empty one gives the fallback; so the result is never empty when the fallback is not (the same expression is at lines 393, 421, 426, 433 and 438) |
| Decisions.AugmentMessage | git-svn-sync.py:448-452 | the augmented message starts with the original message, and is that message unchanged when there is no author or the author is empty |
| Decisions.AugmentRecoverable | git-svn-sync.py:448-452 | with an author, the message is the original message, then exactly "\n\nOriginal author: ", then the author, so both can be taken off again |
| Decisions.CommitMessageNonEmpty | git-svn-sync.py:385-393 | no commit message is empty |
| Decisions.CommitMessage | git-svn-sync.py:388-438 | `augment_message(msg or fallback, author)`: starts with `msg or fallback`, and is exactly that without an author |
| Decisions.IndentMessage | git-svn-sync.py:441-443 | a missing or empty message is shown as "(no message)" |
| Decisions.IndentLines | git-svn-sync.py:441-445 | a message made of lines is displayed as those lines, joined by a newline and four spaces |
| Decisions.MismatchAction | git-svn-sync.py:368-394 | a mismatch is left alone exactly on a no or when no timestamp is known; a copy carries the message of the side it copies from, with the "Sync <rel> from <side>" fallback |
| Decisions.OnlyInOneAction | git-svn-sync.py:415-439 | a one-sided path is always copied or removed, with the last change's message and the "Add ..." or "Remove ..." fallback |
| Decisions.MismatchCopiesNewer | git-svn-sync.py:356-396 | a mismatch is copied exactly on a yes with a known timestamp, always from the newer side and for its own path, and never removed |
| Decisions.OnlyInOneAddsOrRemoves | git-svn-sync.py:398-439 | a path only one side tracks is copied from that side on a yes and removed from that side on a no |
| Decisions.ActionsHaveMessages | git-svn-sync.py:383-437 | every copy and every removal carries a non-empty commit message |
| Prompt.ReadingIgnoresSpace | git-svn-sync.py:93 | white space around a reply does not change how it is read |
| Prompt.ReadingCases | git-svn-sync.py:93-99 | a reply, stripped and lower-cased, is invalid exactly when it is none of "", "y", "yes", "n", "no"; it reads as yes exactly for "y", "yes", or blank with a yes default |
| Prompt.ReadingBlank | git-svn-sync.py:94-95 | a blank reply takes the default |
| Prompt.FirstAnswerSkipsUnanswered | git-svn-sync.py:92-102 | every reply read before the answering one is invalid |
| Prompt.FirstAnswerFound | git-svn-sync.py:92-102 | an answer is the reading of the last reply taken |
| Prompt.FirstAnswerExhausted | git-svn-sync.py:92-102 | there is no answer only when every reply was read and none was valid |
| Prompt.FirstAnswer | git-svn-sync.py:92-100 | never more replies are taken than there are |
| Prompt.Ask | git-svn-sync.py:88-90 | under `auto_yes`, the answer is yes and no reply is read |
| Prompt.AskIsFirstAnswer | git-svn-sync.py:88-102 | without `auto_yes`, the answer is that of the first valid reply, every earlier reply was invalid, and no answer means all replies were read and were invalid |
| Prompt.PromptYesNo | git-svn-sync.py:88-102 | the loop returns what `Ask` specifies: yes without reading under `auto_yes`, else the first valid reply and the number of replies read |
| Executor.CopyLands | git-svn-sync.py:339-346 | a live copy gives the receiving side the sender's bytes and one added commit, and changes nothing on the sender; with the source missing it changes nothing and stops the run |
| Executor.MismatchWithoutTimestamps | git-svn-sync.py:366-368 | with no timestamp on either side, a mismatch asks nothing and changes nothing |
| Executor.MismatchSyncsNewer | git-svn-sync.py:372-394 | under `auto_yes`, a live mismatch copies the newer side's bytes over the older copy and commits once, on the older side only |
| Executor.ExecuteFrame | git-svn-sync.py:339-346 | an action leaves both copies of every other path alone |
| Executor.ExecuteSettles | git-svn-sync.py:339-346 | a copy that succeeds leaves both copies of its path equal, and only a removal unsettles a path |
| Executor.ExecuteAppends | git-svn-sync.py:133-147 | commits are only appended to the logs, never rewritten |
| Executor.Execute | git-svn-sync.py:339-346 | a dry run, or leaving the path alone, changes nothing; an action stops only when it is a copy whose source is missing, and then changes nothing |
| Executor.MismatchStep | git-svn-sync.py:356-396 | one mismatch reads replies only from the front; under `auto_yes` it reads none and never runs out of input |
| Executor.OnlyInOneStep | git-svn-sync.py:398-439 | one one-sided path reads replies only from the front; under `auto_yes` it reads none and never runs out of input |
| Executor.MismatchesReplies | git-svn-sync.py:563-564 | the loop over `diffs` reads replies only from the front; under `auto_yes` it reads none and never runs out of input |
| Executor.OnlyInReplies | git-svn-sync.py:567-572 | the same for the loops over `only_git` and `only_svn` |
| Executor.SyncedReplies | git-svn-sync.py:562-572 | a whole run reads replies only from the front, and under `auto_yes` never runs out of input |
| Executor.MismatchesDryRun | git-svn-sync.py:563-564 | a dry run over the mismatches leaves both working copies and logs as they were |
| Executor.OnlyInDryRun | git-svn-sync.py:567-572 | a dry run over the one-sided paths leaves both working copies and logs as they were |
| Executor.SyncedDryRun | git-svn-sync.py:562-572 | a whole dry run leaves both working copies and logs as they were |
| Executor.MismatchesSettle | git-svn-sync.py:563-564 | under `auto_yes`, a live loop over mismatches that runs to the end settles every mismatch with a known timestamp, and unsettles nothing |
| Executor.OnlyInSettle | git-svn-sync.py:567-572 | under `auto_yes`, a live loop over one-sided paths that runs to the end settles each of them, and unsettles nothing |
| Executor.SyncedSettles | git-svn-sync.py:562-572 | under `auto_yes`, a live run that is not stopped leaves both copies of every handled path equal |
| Executor.MismatchesFrame | git-svn-sync.py:563-564 | the loop over mismatches touches no other path |
| Executor.OnlyInFrame | git-svn-sync.py:567-572 | the loop over one-sided paths touches no other path |
| Executor.SyncedFrame | git-svn-sync.py:562-572 | a run touches no path outside its three work lists |
| Executor.UnchangedUntouched | git-svn-sync.py:548-572 | identical files, and paths neither side tracks, are never touched |
| Executor.Workspace.CopyFile | git-svn-sync.py:339-346 | a dry run changes nothing; a live copy overwrites the destination with the source's bytes; it fails, changing nothing, when the source is missing |
| Executor.Workspace.AddCommit | git-svn-sync.py:133-139 | `git_add_commit` and `svn_add_commit`: one added commit on that side, or nothing in a dry run |
| Executor.Workspace.RemoveCommit | git-svn-sync.py:141-147 | `git_rm_commit` and `svn_delete_commit`: the file is gone and the removal is committed, or nothing in a dry run |
| Executor.Workspace.Perform | git-svn-sync.py:375-394 | carries out one action, with the state change `Execute` specifies |
| Executor.Workspace.HandleMismatch | git-svn-sync.py:356-396 | the state and the replies left are those `MismatchStep` specifies |
| Executor.Workspace.HandleOnlyInOne | git-svn-sync.py:398-439 | the state and the replies left are those `OnlyInOneStep` specifies |
| Executor.Workspace.HandleMismatches | git-svn-sync.py:563-564 | the loop reaches the state `Mismatches` specifies, stopping at the first halt |
| Executor.Workspace.HandleOnlyIn | git-svn-sync.py:567-572 | the loop reaches the state `OnlyIn` specifies, stopping at the first halt |
| Executor.Workspace.Sync | git-svn-sync.py:562-572 | the three loops reach the state `Synced` specifies |
| Driver.Reconcile | git-svn-sync.py:548-572 | compare, then reconcile: the state `Synced` specifies over the status table of the checkouts |
| Driver.Run | git-svn-sync.py:505-572 | a normal run without both roots covered is refused and changes nothing; a rebaseline run records what `Rebaselined` specifies and leaves the working copies alone; a covered normal run leaves the ignore file alone and reaches the state `Synced` specifies over the checkouts less the ignore sets |

## Left out

- Subprocess plumbing (`run`), `git_is_up_to_date`, `svn_is_up_to_date`, the checkout probes and argument parsing come before line 505 and are not part of this model. The listings and histories are inputs to `Driver.Run`.
- `git_last_change` and `svn_last_change` (running `git log`/`svn log`, parsing ISO dates) are not modelled. Each side's history is a constant map from path to last change, and `extract_last_svn_log_message` is modelled on its own.
- `sha256_file`: two copies count as the same exactly when their bytes are equal. I/O errors while hashing, which crash the program, are not modelled.
- `copy_file`'s `ensure_parent_dir` and `shutil.copy2` metadata: a working copy is a flat map from relative path to bytes.
- `remove_file` is never called by the program and is not modelled.
- Console output (`print`, the summary counts, the question texts) is not modelled. `handle_mismatch`'s display of timestamps and message uses `indent_message`, which is modelled.
- An exception ends the program. The model stops with a `Halt` value instead: `EndOfInput` when the replies run out, as `input()` raising `EOFError` would; `MissingSource` when a copy's source file is absent, as `shutil.copy2` raising would. A failing `git`/`svn` command is not modelled.
- Prompt.PromptYesNo: the question text and the "Please answer y or n." retry message are not modelled.
- Ignore entries are all read as absolute paths; a relative entry is read as if rooted at "/". `os.path.commonpath` would raise on mixing relative and absolute paths, and that raise is not modelled.
- The ignore file is read in text mode: lines split at "\n" and "\r". Other `str.strip` white space is only stripped.
- Baseline.Rebaseline: receives the tracked sets after the ignore sets were taken out, as `main` passes them.
- Baseline.IgnoreFile.AppendToIgnore: starts the append on a fresh line when the file's last line has no line end; as written (git-svn-sync.py:67-69) that line would absorb the first new path (see "## Findings"). On a file that ends a line the two agree, as `Baseline.Appended` and `Baseline.Rebaselined` state.
- Baseline.AppendedClean: starts the append on a fresh line when the file's last line has no line end; as written (git-svn-sync.py:67-69) that line would absorb the first new path (see "## Findings"). On a file that ends a line the two agree, as `Baseline.Appended` and `Baseline.Rebaselined` state.
- Baseline.RebaselinedEntries: starts the append on a fresh line when the file's last line has no line end; as written (git-svn-sync.py:67-69) that line would absorb the first new path (see "## Findings"). On a file that ends a line the two agree, as `Baseline.Appended` and `Baseline.Rebaselined` state.
- Baseline.RebaselineRecordsAsymmetric: starts the append on a fresh line when the file's last line has no line end; as written (git-svn-sync.py:67-69) that line would absorb the first new path (see "## Findings"). On a file that ends a line the two agree, as `Baseline.Appended` and `Baseline.Rebaselined` state.
- Baseline.RebaselineRecordsPlaceholders: starts the append on a fresh line when the file's last line has no line end; as written (git-svn-sync.py:67-69) that line would absorb the first new path (see "## Findings"). On a file that ends a line the two agree, as `Baseline.Appended` and `Baseline.Rebaselined` state.
- Baseline.RebaselinedPathIgnored: starts the append on a fresh line when the file's last line has no line end; as written (git-svn-sync.py:67-69) that line would absorb the first new path (see "## Findings"). On a file that ends a line the two agree, as `Baseline.Appended` and `Baseline.Rebaselined` state.
- Baseline.Rebaselined: starts the append on a fresh line when the file's last line has no line end; as written (git-svn-sync.py:67-69) that line would absorb the first new path (see "## Findings"). On a file that ends a line the two agree, as `Baseline.Appended` and `Baseline.Rebaselined` state.
- Baseline.Rebaseline: starts the append on a fresh line when the file's last line has no line end; as written (git-svn-sync.py:67-69) that line would absorb the first new path (see "## Findings"). On a file that ends a line the two agree, as `Baseline.Appended` and `Baseline.Rebaselined` state.
- Driver.Run: starts the append on a fresh line when the file's last line has no line end; as written (git-svn-sync.py:67-69) that line would absorb the first new path (see "## Findings"). On a file that ends a line the two agree, as `Baseline.Appended` and `Baseline.Rebaselined` state.
- Baseline.SeedPlaceholders: seeds placeholders by the corrected filing test (no entry filed under the root), not the `commonpath` test of git-svn-sync.py:535-538. The two differ only when an entry is a root itself or has a component starting with "..", for example entries "/g" and "/s" for roots /g and /s, or "/x/../g/a" for root /g (see "## Findings"). Elsewhere they agree, as `Baseline.PlaceholdersAgree` states.
- Baseline.Rebaseline: seeds placeholders by the corrected filing test (no entry filed under the root), not the `commonpath` test of git-svn-sync.py:535-538. The two differ only when an entry is a root itself or has a component starting with "..", for example entries "/g" and "/s" for roots /g and /s, or "/x/../g/a" for root /g (see "## Findings"). Elsewhere they agree, as `Baseline.PlaceholdersAgree` states.
- Baseline.RebaselineIdempotent: seeds placeholders by the corrected filing test (no entry filed under the root), not the `commonpath` test of git-svn-sync.py:535-538. The two differ only when an entry is a root itself or has a component starting with "..", for example entries "/g" and "/s" for roots /g and /s, or "/x/../g/a" for root /g (see "## Findings"). Elsewhere they agree, as `Baseline.PlaceholdersAgree` states.
- Baseline.RebaselineCoversRoots: seeds placeholders by the corrected filing test (no entry filed under the root), not the `commonpath` test of git-svn-sync.py:535-538. The two differ only when an entry is a root itself or has a component starting with "..", for example entries "/g" and "/s" for roots /g and /s, or "/x/../g/a" for root /g (see "## Findings"). Elsewhere they agree, as `Baseline.PlaceholdersAgree` states.
- Baseline.RebaselinedPathIgnored: seeds placeholders by the corrected filing test (no entry filed under the root), not the `commonpath` test of git-svn-sync.py:535-538. The two differ only when an entry is a root itself or has a component starting with "..", for example entries "/g" and "/s" for roots /g and /s, or "/x/../g/a" for root /g (see "## Findings"). Elsewhere they agree, as `Baseline.PlaceholdersAgree` states.
- Driver.Run: seeds placeholders by the corrected filing test (no entry filed under the root), not the `commonpath` test of git-svn-sync.py:535-538. The two differ only when an entry is a root itself or has a component starting with "..", for example entries "/g" and "/s" for roots /g and /s, or "/x/../g/a" for root /g (see "## Findings"). Elsewhere they agree, as `Baseline.PlaceholdersAgree` states.
- Baseline.RebaselineIdempotent: is stated for the corrected model; `Baseline.RebaselineIdempotentAsWritten` states it for the source's own append and `commonpath` test.
- `append_to_ignore` has no dry-run guard, so `--rebaseline --dry-run` still writes the ignore file; the model keeps that behaviour.
- `extract_last_svn_log_message`: a message line that itself starts with five dashes ends the message early; the model keeps this, and SvnLog.ExtractFromLines requires a body without such lines.
- `l.rstrip("\n")` in `extract_last_svn_log_message` does nothing after `splitlines`, and is left out.
- Decisions.IndentMessage: the fallback `or [msg]` cannot be reached for a non-empty message, and the model keeps the fallback without proving anything about it.
- Decisions.Effective: a timestamp of 0 reads as missing (`ts or -1`), as in the source. Decisions.NewerIsMostRecent requires non-negative timestamps.
- Git and SVN commits are modelled as log entries of kind, path and message; the other effects of `git add`, `svn add` and aliasing between files are not modelled.
- The status dictionary is a sequence in insertion order, which is sorted path order.

## Findings

| source | as written | input that shows it | evidently intended | confidence | as-written member | corrected member |
|---|---|---|---|---|---|---|
| git-svn-sync.py:66-69 | the new paths are appended straight after the old text, so a last line without a line end absorbs the first new path | an ignore file whose only text is "/g/a" with no line end, appending "/g/b": the file reads back as the single entry "/g/a/g/b" | start the append on a fresh line, keeping every old entry | not executed | Baseline.AppendAsWrittenLosesEntry | Baseline.AppendedEntries |
| git-svn-sync.py:535-538 | the placeholder test uses `commonpath([root, p]) == root`, which holds for the root itself, while coverage (lines 508-516) needs an entry strictly below the root | an ignore file holding just the two roots "/g" and "/s": rebaseline seeds no placeholder, yet every normal run is refused for lack of entries for Git and SVN | seed a placeholder for every root that has no entry filed under it, so a rebaseline always unblocks the next normal run | not executed | Baseline.PlaceholderAsWrittenLeavesRootsUncovered | Baseline.RebaselineCoversRoots |
