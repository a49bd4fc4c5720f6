/**
 * One run of the synchroniser after the checkouts have been found and
 * indexed: the ignore baseline is resolved against the two roots, a normal
 * run is refused without one, a rebaseline run records the asymmetric files,
 * and a normal run reconciles the three work lists.
 */
module Driver {
  import opened Wrappers
  import opened Paths
  import opened Baseline
  import opened Listing
  import opened Inventory
  import opened Executor

  /**
   * How a run ends: refused because a root has no baseline entry (saying
   * which), after recording a rebaseline, or after the reconciliation, with
   * what stopped it, if anything, and the replies left unread.
   */
  datatype RunResult =
    | MissingBaseline(git: bool, svn: bool)
    | Recorded(added: seq<string>, placeholders: seq<string>)
    | Reconciled(halt: Option<Halt>, unread: seq<string>)

  /** The Git tracked set once the Git ignore set is taken out. */
  function GitWorking(gitListing: string, entries: set<string>, gitRoot: Path): set<string> {
    GitLsFiles(gitListing) - IgnoreSetFor(entries, gitRoot)
  }

  /** The SVN tracked set once the SVN ignore set is taken out. */
  function SvnWorking(svnListing: string, entries: set<string>, svnRoot: Path): set<string> {
    SvnFiles(svnListing) - IgnoreSetFor(entries, svnRoot)
  }

  /**
   * `main` from indexing on. `gitListing` and `svnListing` are the outputs
   * of `git ls-files` and `svn list -R .`; the histories are what `git log`
   * and `svn log` report for each path; `replies` are the user's answers.
   */
  method Run(file: IgnoreFile, ws: Workspace, gitRoot: Path, svnRoot: Path,
             gitListing: string, svnListing: string,
             gitHistory: map<string, Change>, svnHistory: map<string, Change>,
             rebaseline: bool, autoYes: bool, replies: seq<string>)
    returns (result: RunResult)
    modifies file, ws
    ensures var entries := old(file.Entries());
      !rebaseline && !Covered(entries, gitRoot, svnRoot) ==>
        && result == MissingBaseline(IgnoreSetFor(entries, gitRoot) == {}, IgnoreSetFor(entries, svnRoot) == {})
        && file.content == old(file.content) && ws.State() == old(ws.State())
    ensures var entries := old(file.Entries());
      var gitSet := GitWorking(gitListing, entries, gitRoot);
      var svnSet := SvnWorking(svnListing, entries, svnRoot);
      var asym := Asymmetric(gitSet, svnSet, gitRoot, svnRoot);
      rebaseline ==>
        && result.Recorded?
        && result.added == NewEntries(asym, entries)
        && result.placeholders == (if result.added == [] then Placeholders(entries, gitRoot, svnRoot) else [])
        && file.content == Rebaselined(old(file.content), asym, Placeholders(entries, gitRoot, svnRoot))
        && ws.State() == old(ws.State())
    ensures var entries := old(file.Entries());
      var c := Checkouts(GitWorking(gitListing, entries, gitRoot), SvnWorking(svnListing, entries, svnRoot),
                         old(ws.gitFiles), old(ws.svnFiles), gitHistory, svnHistory);
      !rebaseline && Covered(entries, gitRoot, svnRoot) ==>
        && result.Reconciled?
        && Outcome(ws.State(), result.halt, result.unread)
           == Synced(old(ws.State()), StatusTable(c), gitHistory, svnHistory, replies, autoYes, ws.dryRun)
        && file.content == old(file.content)
  {
    var gitSet := GitLsFiles(gitListing);
    var svnSet := SvnLsFiles(svnListing);
    var entries := LoadIgnoreSet(file.content);
    var ignoreGit, ignoreSvn := ResolveIgnores(entries, gitRoot, svnRoot);
    if !rebaseline && (ignoreGit == {} || ignoreSvn == {}) {
      return MissingBaseline(ignoreGit == {}, ignoreSvn == {});
    }
    gitSet := gitSet - ignoreGit;
    svnSet := svnSet - ignoreSvn;
    if rebaseline {
      var added, placeholders := Rebaseline(file, gitSet, svnSet, gitRoot, svnRoot);
      return Recorded(added, placeholders);
    }
    var c := Checkouts(gitSet, svnSet, ws.gitFiles, ws.svnFiles, gitHistory, svnHistory);
    var halt, rest := Reconcile(ws, c, replies, autoYes);
    return Reconciled(halt, rest);
  }

  /** A normal run over the checkouts `c`, whose copies are those of `ws`: compare, then reconcile. */
  method Reconcile(ws: Workspace, c: Checkouts, replies: seq<string>, autoYes: bool)
    returns (halt: Option<Halt>, rest: seq<string>)
    modifies ws
    ensures Outcome(ws.State(), halt, rest)
            == Synced(old(ws.State()), StatusTable(c), c.gitHistory, c.svnHistory, replies, autoYes, ws.dryRun)
  {
    var status, _ := CompareAndCollect(c);
    halt, rest := ws.Sync(status, c.gitHistory, c.svnHistory, replies, autoYes);
  }
}
