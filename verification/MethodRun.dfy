/**
 A run by method reference, from the ref to the files it runs: the clone cache (`api/method_cache.py`) hands the
 package over, its files are copied out (`api/method_source.py`), and the run starts from the copy.
 */
module MethodRun {
  import opened Wrappers
  import opened FileTree
  import opened SafePath
  import opened BundleDisk
  import opened CacheProtocol
  import MethodPackage
  import RunSource

  /** Without a file there is no text, and without a text no run. */
  lemma EmptyCopyIsRefused(d: RunSource.Deployment, declaresStructures: bool)
    ensures RunSource.PackageSource(d, [], declaresStructures) == Err(RunSource.NoText)
  {
  }

  lemma CopiedFilesHavePaths(w: World, outcome: Outcome)
    requires outcome.Returned?
    ensures HavePaths(CommitsFiles(w, outcome))
  {
    MethodPackage.PackageFilesAreTheTrees(w.treeOf(outcome.sha), outcome.package);
    var files := CommitsFiles(w, outcome);
    assert forall i :: 0 <= i < |files| ==> files[i] in files;
  }

  /** These are the files of the tree below this directory, by their paths from it, but version control and tooling. */
  ghost predicate AreThePackages(tree: Tree, package: Path, files: seq<Entry>) {
    forall entry :: entry in files <==>
      && entry.path != [] && ".git" !in entry.path && "__pycache__" !in entry.path
      && (FsNode.File(package + entry.path, entry.data) in tree
        || Symlink(package + entry.path, Some(entry.data)) in tree)
  }

  /**
   Over every run of the cache, other requests' evictions and other processes' removals between the return and the
   copy included: a run by method reference that starts has exactly the package's files in a commit that its ref
   named between the request's start and its return.
   */
  lemma StartedRunHasItsCommitsFiles(w: World, states: seq<State>, steps: seq<Step>, k: nat, t: Tid,
          d: RunSource.Deployment, declaresStructures: bool)
    requires Run(w, states, steps) && k < |states| && HasCopied(states[k], t)
    ensures var r := states[k].requests[t];
            var outcome, files := r.phase.outcome, r.phase.copy.files;
            && HavePaths(files)
            && (RunSource.PackageSource(d, files, declaresStructures).Ok? ==>
                  && files == CommitsFiles(w, outcome)
                  && AreThePackages(w.treeOf(outcome.sha), outcome.package, files)
                  && NamedBetween(states[k].history, r.ref, r.start, r.phase.end, outcome.sha))
  {
    CopyIsWholeOrEmpty(w, states, steps, k, t);
    ReturnsAreHonest(w, states, steps, k, t);
    MethodPackage.PackageFilesAreTheTrees(w.treeOf(states[k].requests[t].phase.outcome.sha),
                                          states[k].requests[t].phase.outcome.package);
    CopiedFilesHavePaths(w, states[k].requests[t].phase.outcome);
    EmptyCopyIsRefused(d, declaresStructures);
  }
}
