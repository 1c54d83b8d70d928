/**
 The clone cache as a protocol (`get_or_fetch` of `api/method_cache.py`): any number of requests run it
 interleaved over one shared directory, the remote repository may be repointed at every step, and other
 processes may install into and remove from the same directory, even while this process holds its lock.
 A request that got its clone then copies the files out, with no lock held (`api/method_source.py`).
 */
module CacheProtocol {
  import opened Wrappers
  import opened FileTree
  import opened SafePath
  import BundleIngest
  import opened MethodPackage
  import opened CloneEviction
  import opened EvictionSteps

  type Ref = string
  type Tid = nat
  type DirId = nat

  /** What every ref of the remote names, at one instant. */
  type Snapshot = map<Ref, Sha>

  datatype World = World(limits: Limits, treeOf: Sha -> Tree)

  type Entry = BundleIngest.Entry

  /** The package is a directory of the clone. */
  datatype Outcome = Returned(sha: Sha, package: Path, tree: Tree) | Failed

  /**
   The copying of a package's files: first they are listed, and then as many are read. A copy that found one of
   them gone is broken.
   */
  datatype Copy = Unlisted | Copying(count: nat, files: seq<Entry>) | Copied(files: seq<Entry>) | Broken

  /** How far one request has come; `dir` names its own staging directory. */
  datatype Phase =
    | Started
    | Resolved(sha: Sha)
    | Cloning(dir: DirId, head: Option<Sha>)
    | Cloned(dir: DirId, sha: Sha)
    | Renaming(dir: DirId, sha: Sha)
    | Evicting(dir: DirId, sha: Sha, pass: Pass)
    | Closing(dir: DirId, outcome: Outcome)
    | Done(end: nat, outcome: Outcome, copy: Copy)

  datatype Request = Request(ref: Ref, start: nat, phase: Phase)

  /** What the requests of the process share. */
  datatype Disk = Disk(root: Root, staging: map<DirId, Clone>, lock: Option<Tid>)

  datatype State = State(history: seq<Snapshot>, disk: Disk, requests: map<Tid, Request>)

  datatype Action =
    | Resolve(sha: Sha)
    | ResolveFails
    | Hit(now: int, package: Option<Path>)
    | HitFails
    | Miss(dir: DirId)
    | CloneReadsHead(sha: Sha)
    | CloneWrites(partial: Clone)
    | CloneEnds(mtime: int)
    | CloneFails
    | CheckTarget
    | Rename(moves: bool)
    | Sweep(reading: Reading)
    | Locate(package: Option<Path>)
    | Cleanup
    | CopyLists
    | CopyFile
    | CopyEnds
    | CopyBreaks

  datatype Step =
    | MoveRemote(snapshot: Snapshot)
    | Begin(t: Tid, ref: Ref)
    | Act(t: Tid, action: Action)
    | ForeignInstall(sha: Sha, mtime: int)
    | ForeignRemove(sha: Sha)

  /** The commit the ref names now. */
  predicate NamedNow(history: seq<Snapshot>, ref: Ref, sha: Sha) {
    history != [] && ref in history[|history| - 1] && history[|history| - 1][ref] == sha
  }

  /** The ref named this commit at some instant from `start` on, before `end`. */
  ghost predicate NamedBetween(history: seq<Snapshot>, ref: Ref, start: nat, end: nat, sha: Sha) {
    exists i :: start <= i < end <= |history| && ref in history[i] && history[i][ref] == sha
  }

  /** A miss between making its staging directory and removing it. */
  predicate InFlightMiss(phase: Phase) {
    !phase.Started? && !phase.Resolved? && !phase.Done?
  }

  predicate UsesDir(phase: Phase, dir: DirId) {
    InFlightMiss(phase) && phase.dir == dir
  }

  predicate IsForeign(step: Step) {
    step.ForeignInstall? || step.ForeignRemove?
  }

  /** A fresh random name: no staged directory has it, and no request is about to use it. */
  ghost predicate Fresh(s: State, dir: DirId) {
    dir !in s.disk.staging && forall t :: t in s.requests ==> !UsesDir(s.requests[t].phase, dir)
  }

  predicate HasReturned(phase: Phase) {
    phase.Done? && phase.outcome.Returned?
  }

  /** What locating the package in the clone of this commit answers; it may fail. */
  function Located(root: Root, sha: Sha, package: Option<Path>): Outcome {
    if package.Some? && sha in root then Returned(sha, package.value, root[sha].tree) else Failed
  }

  /** The files a listing finds now in the located package; of a clone that is gone, none. */
  function PackageThere(root: Root, outcome: Outcome): seq<Entry>
    requires outcome.Returned?
  {
    if outcome.sha in root then PackageFiles(PackageListing(root[outcome.sha].tree, outcome.package)) else []
  }

  /** One atomic action of request `t`: from its phase and the shared disk to the next ones. */
  ghost predicate Does(w: World, history: seq<Snapshot>, ref: Ref, t: Tid, phase: Phase, action: Action,
          d: Disk, d': Disk, phase': Phase) {
    match action
    case Resolve(sha) => phase.Started? && NamedNow(history, ref, sha) && d' == d && phase' == Resolved(sha)
    case ResolveFails => phase.Started? && d' == d && phase' == Done(|history|, Failed, Broken)
    case Hit(time, package) =>
      && phase.Resolved? && d.lock.None? && phase.sha in d.root
      && d' == d.(root := d.root[phase.sha := d.root[phase.sha].(mtime := time)])
      && phase' == Done(|history|, Located(d.root, phase.sha, package), Unlisted)
    case HitFails =>
      // Another process removed the clone between the lookup and the refreshing of its time.
      phase.Resolved? && d.lock.None? && d' == d && phase' == Done(|history|, Failed, Broken)
    case Miss(dir) =>
      phase.Resolved? && d.lock.None? && phase.sha !in d.root && d' == d && phase' == Cloning(dir, None)
    case CloneReadsHead(sha) =>
      phase.Cloning? && phase.head.None? && NamedNow(history, ref, sha) && d' == d
        && phase' == phase.(head := Some(sha))
    case CloneWrites(partial) =>
      phase.Cloning? && d' == d.(staging := d.staging[phase.dir := partial]) && phase' == phase
    case CloneEnds(mtime) =>
      && phase.Cloning? && phase.head.Some?
      && d' == d.(staging := d.staging[phase.dir := Clone(w.treeOf(phase.head.value), mtime)])
      && phase' == Cloned(phase.dir, phase.head.value)
    case CloneFails => phase.Cloning? && d' == d && phase' == Closing(phase.dir, Failed)
    case CheckTarget =>
      && phase.Cloned? && d.lock.None? && d' == d.(lock := Some(t))
      && phase' == if phase.sha in d.root then Evicting(phase.dir, phase.sha, Listing)
        else Renaming(phase.dir, phase.sha)
    case Rename(moves) =>
      // A rename that fails is ignored; onto a directory another process installed since the check it must fail.
      && phase.Renaming? && phase.dir in d.staging && (phase.sha in d.root ==> !moves)
      && d' == (if moves
        then d.(root := d.root[phase.sha := d.staging[phase.dir]], staging := d.staging - {phase.dir}) else d)
      && phase' == Evicting(phase.dir, phase.sha, Listing)
    case Sweep(reading) =>
      // An exception inside the eviction leaves through the lock.
      && phase.Evicting? && CanSweep(w.limits, d.root, phase.pass, reading)
      && var after := SweepStep(w.limits, d.root, phase.pass, reading);
      && d' == d.(root := after.root, lock := if after.pass.Raised? then None else d.lock)
      && phase' == if after.pass.Raised? then Closing(phase.dir, Failed) else phase.(pass := after.pass)
    case Locate(package) =>
      && phase.Evicting? && phase.pass.Swept? && d' == d.(lock := None)
      && phase' == Closing(phase.dir, Located(d.root, phase.sha, package))
    case Cleanup =>
      && phase.Closing? && d' == d.(staging := d.staging - {phase.dir})
      && phase' == Done(|history|, phase.outcome, Unlisted)
    case CopyLists =>
      && HasReturned(phase) && phase.copy.Unlisted? && d' == d
      && phase' == phase.(copy := Copying(|PackageThere(d.root, phase.outcome)|, []))
    case CopyFile =>
      && HasReturned(phase) && phase.copy.Copying? && d' == d
      && |phase.copy.files| < phase.copy.count && |phase.copy.files| < |PackageThere(d.root, phase.outcome)|
      && phase' == phase.(copy :=
        phase.copy.(files := phase.copy.files + [PackageThere(d.root, phase.outcome)[|phase.copy.files|]]))
    case CopyEnds =>
      && HasReturned(phase) && phase.copy.Copying? && |phase.copy.files| == phase.copy.count && d' == d
      && phase' == phase.(copy := Copied(phase.copy.files))
    case CopyBreaks =>
      && HasReturned(phase) && phase.copy.Copying? && |phase.copy.files| < phase.copy.count && d' == d
      && phase.outcome.sha !in d.root && phase' == phase.(copy := Broken)
  }

  /** One atomic step of one request, of the remote, or of another process. */
  ghost predicate Next(w: World, s: State, step: Step, s': State) {
    match step
    case MoveRemote(snapshot) =>
      s' == s.(history := s.history + [snapshot])
    case Begin(t, ref) =>
      && t !in s.requests && s.history != []
      && s' == s.(requests := s.requests[t := Request(ref, |s.history| - 1, Started)])
    case Act(t, action) =>
      && t in s.requests && t in s'.requests && (action.Miss? ==> Fresh(s, action.dir))
      && var r := s.requests[t];
      && Does(w, s.history, r.ref, t, r.phase, action, s.disk, s'.disk, s'.requests[t].phase)
      && s' == State(s.history, s'.disk, s.requests[t := r.(phase := s'.requests[t].phase)])
    case ForeignInstall(sha, mtime) =>
      && sha !in s.disk.root
      && s' == s.(disk := s.disk.(root := s.disk.root[sha := Clone(w.treeOf(sha), mtime)]))
    case ForeignRemove(sha) =>
      s' == s.(disk := s.disk.(root := s.disk.root - {sha}))
  }

  /** A process starts over complete clones left by earlier ones, with nothing staged and nothing running. */
  ghost predicate Init(w: World, s: State) {
    && s.history != [] && s.requests == map[] && s.disk.staging == map[] && s.disk.lock.None?
    && CompleteClones(w, s.disk.root)
  }

  ghost predicate Run(w: World, states: seq<State>, steps: seq<Step>) {
    && |states| == |steps| + 1
    && Init(w, states[0])
    && forall k :: 0 <= k < |steps| ==> Next(w, states[k], steps[k], states[k + 1])
  }

  /** No partial clone is visible: every entry of the root is exactly its commit's tree. */
  ghost predicate CompleteClones(w: World, root: Root) {
    forall sha :: sha in root ==> root[sha].tree == w.treeOf(sha)
  }

  ghost predicate GoodOutcome(w: World, history: seq<Snapshot>, r: Request, end: nat, outcome: Outcome) {
    outcome.Returned? ==>
      NamedBetween(history, r.ref, r.start, end, outcome.sha) && outcome.tree == w.treeOf(outcome.sha)
  }

  /** The files of the located package in the commit itself. */
  function CommitsFiles(w: World, outcome: Outcome): seq<Entry>
    requires outcome.Returned?
  {
    PackageFiles(PackageListing(w.treeOf(outcome.sha), outcome.package))
  }

  /** Either all of the commit's files were listed or none, and those read so far are the first of them. */
  ghost predicate GoodCopy(w: World, outcome: Outcome, copy: Copy)
    requires outcome.Returned?
  {
    match copy
    case Copying(count, files) =>
      (count == |CommitsFiles(w, outcome)| || count == 0) && |files| <= count && files <= CommitsFiles(w, outcome)
    case Copied(files) => files == CommitsFiles(w, outcome) || files == []
    case _ => true
  }

  ghost predicate StagedFor(w: World, history: seq<Snapshot>, staging: map<DirId, Clone>, r: Request, dir: DirId,
          sha: Sha) {
    && NamedBetween(history, r.ref, r.start, |history|, sha)
    && dir in staging && staging[dir].tree == w.treeOf(sha)
  }

  /** What is known of a request in each phase. */
  ghost predicate GoodRequest(w: World, history: seq<Snapshot>, staging: map<DirId, Clone>, r: Request) {
    && r.start < |history|
    && match r.phase
       case Started => true
       case Resolved(sha) => NamedBetween(history, r.ref, r.start, |history|, sha)
       case Cloning(_, head) => head.Some? ==> NamedBetween(history, r.ref, r.start, |history|, head.value)
       case Cloned(dir, sha) => StagedFor(w, history, staging, r, dir, sha)
       case Renaming(dir, sha) => StagedFor(w, history, staging, r, dir, sha)
       case Evicting(_, sha, _) => NamedBetween(history, r.ref, r.start, |history|, sha)
       case Closing(_, outcome) => GoodOutcome(w, history, r, |history|, outcome)
       case Done(end, outcome, copy) =>
         && GoodOutcome(w, history, r, end, outcome)
         && (outcome.Returned? ==> GoodCopy(w, outcome, copy))
  }

  ghost predicate GoodRequests(w: World, s: State) {
    forall t :: t in s.requests ==> GoodRequest(w, s.history, s.disk.staging, s.requests[t])
  }

  /** Every staged directory belongs to one in-flight miss, and no two share one. */
  ghost predicate OwnedStaging(s: State) {
    && (forall dir :: dir in s.disk.staging ==> exists t :: t in s.requests && UsesDir(s.requests[t].phase, dir))
    && (forall t, u :: t in s.requests && u in s.requests && t != u && InFlightMiss(s.requests[t].phase)
                       ==> !UsesDir(s.requests[u].phase, s.requests[t].phase.dir))
  }

  predicate HoldsLock(phase: Phase) {
    phase.Renaming? || phase.Evicting?
  }

  ghost predicate LockHeldBy(s: State) {
    && (s.disk.lock.Some? ==> s.disk.lock.value in s.requests)
    && forall t :: t in s.requests ==> (HoldsLock(s.requests[t].phase) <==> s.disk.lock == Some(t))
  }

  ghost predicate Safe(w: World, s: State) {
    && s.history != []
    && CompleteClones(w, s.disk.root) && GoodRequests(w, s) && OwnedStaging(s) && LockHeldBy(s)
  }

  // What one action does, aside from the other requests.

  lemma NamedNowIsNamed(history: seq<Snapshot>, ref: Ref, start: nat, sha: Sha)
    requires NamedNow(history, ref, sha) && start < |history|
    ensures NamedBetween(history, ref, start, |history|, sha)
  {
    assert history[|history| - 1][ref] == sha;
  }

  lemma ActionKeepsClones(w: World, history: seq<Snapshot>, t: Tid, r: Request, action: Action, d: Disk, d': Disk,
          phase': Phase)
    requires CompleteClones(w, d.root) && GoodRequest(w, history, d.staging, r)
    requires Does(w, history, r.ref, t, r.phase, action, d, d', phase')
    ensures CompleteClones(w, d'.root)
  {
  }

  lemma ActionKeepsRequest(w: World, history: seq<Snapshot>, t: Tid, r: Request, action: Action, d: Disk, d': Disk,
          phase': Phase)
    requires CompleteClones(w, d.root) && GoodRequest(w, history, d.staging, r)
    requires Does(w, history, r.ref, t, r.phase, action, d, d', phase')
    ensures GoodRequest(w, history, d'.staging, r.(phase := phase'))
  {
    match action
    case Resolve(sha) => NamedNowIsNamed(history, r.ref, r.start, sha);
    case CloneReadsHead(sha) => NamedNowIsNamed(history, r.ref, r.start, sha);
    case _ =>
  }

  /** An action writes, moves and removes nothing staged but in the directory its request uses. */
  lemma ActionStagesItsOwn(w: World, history: seq<Snapshot>, ref: Ref, t: Tid, phase: Phase, action: Action,
          d: Disk, d': Disk, phase': Phase)
    requires Does(w, history, ref, t, phase, action, d, d', phase')
    ensures forall dir :: dir in d.staging && !UsesDir(phase, dir) ==>
            dir in d'.staging && d'.staging[dir] == d.staging[dir]
    ensures forall dir :: dir in d'.staging && !UsesDir(phase', dir) ==> dir in d.staging && !UsesDir(phase, dir)
    ensures InFlightMiss(phase') ==> action == Miss(phase'.dir) || UsesDir(phase, phase'.dir)
  {
  }

  lemma ActionMovesLock(w: World, history: seq<Snapshot>, ref: Ref, t: Tid, phase: Phase, action: Action,
          d: Disk, d': Disk, phase': Phase)
    requires Does(w, history, ref, t, phase, action, d, d', phase') && (HoldsLock(phase) <==> d.lock == Some(t))
    ensures HoldsLock(phase') <==> d'.lock == Some(t)
    ensures d'.lock == d.lock || (d.lock.None? && d'.lock == Some(t)) || (d.lock == Some(t) && d'.lock.None?)
  {
  }

  /** Only a rename adds a clone, and only with the lock free or held does an action change the root at all. */
  lemma ActionChangesRoot(w: World, history: seq<Snapshot>, ref: Ref, t: Tid, phase: Phase, action: Action,
          d: Disk, d': Disk, phase': Phase)
    requires Does(w, history, ref, t, phase, action, d, d', phase')
    ensures !action.Rename? ==> Smaller(d'.root, d.root)
    ensures d'.root != d.root ==> HoldsLock(phase) || d.lock.None?
  {
    if action.Sweep? {
      SweepShrinks(w.limits, d.root, phase.pass, action.reading);
    }
  }

  // Every step keeps the invariant.

  lemma NamingOutlivesMoves(history: seq<Snapshot>, snapshot: Snapshot, ref: Ref, start: nat, end: nat, sha: Sha)
    requires NamedBetween(history, ref, start, end, sha)
    ensures NamedBetween(history + [snapshot], ref, start, end, sha)
    ensures end == |history| ==> NamedBetween(history + [snapshot], ref, start, end + 1, sha)
  {
    var i :| start <= i < end <= |history| && ref in history[i] && history[i][ref] == sha;
    assert (history + [snapshot])[i] == history[i];
  }

  lemma RemoteMoveKeepsRequest(w: World, history: seq<Snapshot>, snapshot: Snapshot, staging: map<DirId, Clone>,
          r: Request)
    requires GoodRequest(w, history, staging, r)
    ensures GoodRequest(w, history + [snapshot], staging, r)
  {
    forall end: nat, sha | NamedBetween(history, r.ref, r.start, end, sha)
      ensures NamedBetween(history + [snapshot], r.ref, r.start, end, sha)
      ensures end == |history| ==> NamedBetween(history + [snapshot], r.ref, r.start, end + 1, sha)
    {
      NamingOutlivesMoves(history, snapshot, r.ref, r.start, end, sha);
    }
  }

  lemma StepKeepsClones(w: World, s: State, step: Step, s': State)
    requires Safe(w, s) && Next(w, s, step, s')
    ensures CompleteClones(w, s'.disk.root) && s'.history != []
  {
    if step.Act? {
      ActionKeepsClones(w, s.history, step.t, s.requests[step.t], step.action, s.disk, s'.disk,
        s'.requests[step.t].phase);
    }
  }

  /** No step of one request writes, moves or removes what another in-flight miss has staged. */
  lemma StagingOfOthersIsKept(w: World, s: State, step: Step, s': State, u: Tid)
    requires OwnedStaging(s) && Next(w, s, step, s') && u in s.requests && (step.Act? ==> step.t != u)
    requires InFlightMiss(s.requests[u].phase) && s.requests[u].phase.dir in s.disk.staging
    ensures s.requests[u].phase.dir in s'.disk.staging
    ensures s'.disk.staging[s.requests[u].phase.dir] == s.disk.staging[s.requests[u].phase.dir]
  {
    if step.Act? {
      var r := s.requests[step.t];
      ActionStagesItsOwn(w, s.history, r.ref, step.t, r.phase, step.action,
                         s.disk, s'.disk, s'.requests[step.t].phase);
    }
  }

  lemma StepKeepsRequest(w: World, s: State, step: Step, s': State, u: Tid)
    requires Safe(w, s) && Next(w, s, step, s') && u in s.requests
    ensures u in s'.requests && GoodRequest(w, s'.history, s'.disk.staging, s'.requests[u])
  {
    assert GoodRequest(w, s.history, s.disk.staging, s.requests[u]);
    match step
    case MoveRemote(snapshot) => RemoteMoveKeepsRequest(w, s.history, snapshot, s.disk.staging, s.requests[u]);
    case Act(t, action) =>
      if t == u {
        ActionKeepsRequest(w, s.history, t, s.requests[t], action, s.disk, s'.disk, s'.requests[t].phase);
      } else if s.requests[u].phase.Cloned? || s.requests[u].phase.Renaming? {
        assert s.requests[u].phase.dir in s.disk.staging;
        StagingOfOthersIsKept(w, s, step, s', u);
      }
    case _ =>
  }

  lemma StepKeepsRequests(w: World, s: State, step: Step, s': State)
    requires Safe(w, s) && Next(w, s, step, s')
    ensures GoodRequests(w, s')
  {
    forall u | u in s'.requests ensures GoodRequest(w, s'.history, s'.disk.staging, s'.requests[u]) {
      if u in s.requests {
        StepKeepsRequest(w, s, step, s', u);
      }
    }
  }

  lemma StepKeepsLock(w: World, s: State, step: Step, s': State)
    requires LockHeldBy(s) && Next(w, s, step, s')
    ensures LockHeldBy(s')
  {
    if step.Act? {
      var r := s.requests[step.t];
      ActionMovesLock(w, s.history, r.ref, step.t, r.phase, step.action,
                      s.disk, s'.disk, s'.requests[step.t].phase);
    }
  }

  lemma ActionKeepsStaging(w: World, s: State, t: Tid, action: Action, s': State)
    requires OwnedStaging(s) && Next(w, s, Act(t, action), s')
    ensures OwnedStaging(s')
  {
    var phase, phase' := s.requests[t].phase, s'.requests[t].phase;
    var ref := s.requests[t].ref;
    ActionStagesItsOwn(w, s.history, ref, t, phase, action, s.disk, s'.disk, phase');
    forall dir | dir in s'.disk.staging ensures exists u :: u in s'.requests && UsesDir(s'.requests[u].phase, dir) {
      if UsesDir(phase', dir) {
        assert t in s'.requests;
      } else {
        var u :| u in s.requests && UsesDir(s.requests[u].phase, dir);
        assert u in s'.requests && s'.requests[u] == s.requests[u];
      }
    }
    forall u | u in s.requests && u != t
      ensures InFlightMiss(phase') ==> !UsesDir(s.requests[u].phase, phase'.dir)
    {
    }
  }

  lemma StepKeepsStaging(w: World, s: State, step: Step, s': State)
    requires OwnedStaging(s) && Next(w, s, step, s')
    ensures OwnedStaging(s')
  {
    match step
    case Act(t, action) => ActionKeepsStaging(w, s, t, action, s');
    case Begin(t, _) => BeginKeepsStaging(s, t, s');
    case _ =>
  }

  lemma BeginKeepsStaging(s: State, t: Tid, s': State)
    requires OwnedStaging(s) && t !in s.requests && s'.disk == s.disk
    requires exists r: Request :: r.phase.Started? && s'.requests == s.requests[t := r]
    ensures OwnedStaging(s')
  {
    forall dir | dir in s'.disk.staging ensures exists u :: u in s'.requests && UsesDir(s'.requests[u].phase, dir) {
      var u :| u in s.requests && UsesDir(s.requests[u].phase, dir);
      assert u in s'.requests && s'.requests[u] == s.requests[u];
    }
  }

  lemma StepIsSafe(w: World, s: State, step: Step, s': State)
    requires Safe(w, s) && Next(w, s, step, s')
    ensures Safe(w, s')
  {
    StepKeepsClones(w, s, step, s');
    StepKeepsRequests(w, s, step, s');
    StepKeepsLock(w, s, step, s');
    StepKeepsStaging(w, s, step, s');
  }

  lemma {:induction false} RunIsSafe(w: World, states: seq<State>, steps: seq<Step>, k: nat)
    requires Run(w, states, steps) && k < |states|
    ensures Safe(w, states[k])
  {
    if k > 0 {
      RunIsSafe(w, states, steps, k - 1);
      StepIsSafe(w, states[k - 1], steps[k - 1], states[k]);
    }
  }

  /**
   In every interleaving, with the remote moving and other processes working at any step: no partial
   clone is ever visible under the root, and every request that returned recorded a commit its ref named
   at an instant between its start and its return, and located exactly that commit's tree.
   */
  lemma ReturnsAreHonest(w: World, states: seq<State>, steps: seq<Step>, k: nat, t: Tid)
    requires Run(w, states, steps) && k < |states|
    ensures CompleteClones(w, states[k].disk.root)
    ensures t in states[k].requests && states[k].requests[t].phase.Done?
            && states[k].requests[t].phase.outcome.Returned? ==>
              var r := states[k].requests[t];
              && NamedBetween(states[k].history, r.ref, r.start, r.phase.end, r.phase.outcome.sha)
              && r.phase.outcome.tree == w.treeOf(r.phase.outcome.sha)
  {
    RunIsSafe(w, states, steps, k);
    if t in states[k].requests {
      assert GoodRequest(w, states[k].history, states[k].disk.staging, states[k].requests[t]);
    }
  }

  // Copying the files out, after the lock is released.

  /** A request whose copy has ended. */
  predicate HasCopied(s: State, t: Tid) {
    t in s.requests && HasReturned(s.requests[t].phase) && s.requests[t].phase.copy.Copied?
  }

  /** At this state the request has returned, its package is still to be listed, and its clone is gone. */
  ghost predicate GoneBeforeListing(s: State, t: Tid) {
    && t in s.requests && HasReturned(s.requests[t].phase) && s.requests[t].phase.copy.Unlisted?
    && s.requests[t].phase.outcome.sha !in s.disk.root
  }

  /** The package has been listed, without finding all the commit's files. */
  ghost predicate ListedShort(w: World, s: State, t: Tid) {
    && t in s.requests && HasReturned(s.requests[t].phase)
    && match s.requests[t].phase.copy
       case Copying(count, _) => count != |CommitsFiles(w, s.requests[t].phase.outcome)|
       case Copied(files) => files != CommitsFiles(w, s.requests[t].phase.outcome)
       case _ => false
  }

  lemma StepListsShort(w: World, s: State, step: Step, s': State, t: Tid)
    requires Safe(w, s) && Next(w, s, step, s') && ListedShort(w, s', t)
    ensures ListedShort(w, s, t) || GoneBeforeListing(s, t)
  {
    if t in s.requests {
      assert GoodRequest(w, s.history, s.disk.staging, s.requests[t]);
    }
  }

  lemma {:induction false} ShortListingMeansGone(w: World, states: seq<State>, steps: seq<Step>, k: nat, t: Tid)
    requires Run(w, states, steps) && k < |states| && ListedShort(w, states[k], t)
    ensures exists j :: 0 <= j < k && GoneBeforeListing(states[j], t)
  {
    if k > 0 {
      RunIsSafe(w, states, steps, k - 1);
      StepListsShort(w, states[k - 1], steps[k - 1], states[k], t);
      if ListedShort(w, states[k - 1], t) {
        ShortListingMeansGone(w, states, steps, k - 1, t);
      }
    }
  }

  /**
   Evictions may come between the return and the copy. Still, over every run, a copy that ended has exactly the
   package's files in the commit the request recorded, or it is empty, the clone having gone before the listing.
   */
  lemma CopyIsWholeOrEmpty(w: World, states: seq<State>, steps: seq<Step>, k: nat, t: Tid)
    requires Run(w, states, steps) && k < |states| && HasCopied(states[k], t)
    ensures var phase := states[k].requests[t].phase;
            || phase.copy.files == CommitsFiles(w, phase.outcome)
            || (phase.copy.files == [] && exists j :: 0 <= j < k && GoneBeforeListing(states[j], t))
  {
    RunIsSafe(w, states, steps, k);
    assert GoodRequest(w, states[k].history, states[k].disk.staging, states[k].requests[t]);
    if ListedShort(w, states[k], t) {
      ShortListingMeansGone(w, states, steps, k, t);
    }
  }
}
