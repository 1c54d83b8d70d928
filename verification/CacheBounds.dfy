/**
 The bounds of the clone cache over whole runs of the protocol, and what a request's own eviction does to the
 clone it installed (`get_or_fetch` and `_evict` of `api/method_cache.py`).
 */
module CacheBounds {
  import opened Wrappers
  import opened SafePath
  import opened CloneEviction
  import opened EvictionSteps
  import opened InstalledClone
  import opened CacheProtocol

  ghost predicate NoneEvicting(s: State) {
    forall t :: t in s.requests ==> !s.requests[t].phase.Evicting?
  }

  /** This step is an eviction's, and an exception ends it. */
  predicate Raises(step: Step, s': State) {
    step.Act? && step.action.Sweep? && step.t in s'.requests && s'.requests[step.t].phase.Closing?
  }

  predicate EndsEviction(step: Step) {
    step.Act? && step.action.Locate?
  }

  /** The last eviction to end was left by an exception. */
  predicate Overdue(states: seq<State>, steps: seq<Step>, k: nat)
    requires k <= |steps| && |states| == |steps| + 1
  {
    k > 0 && (Raises(steps[k - 1], states[k]) || (!EndsEviction(steps[k - 1]) && Overdue(states, steps, k - 1)))
  }

  /** An eviction under way still has every clone on its lists; between evictions the root is within bounds. */
  ghost predicate Bounded(w: World, s: State, overdue: bool) {
    && (forall t :: t in s.requests && s.requests[t].phase.Evicting? ==>
      Covers(w.limits, s.disk.root, s.requests[t].phase.pass))
    && (NoneEvicting(s) && !overdue ==> WithinBounds(w.limits, s.disk.root))
  }

  lemma SameSizesKeepBounds(limits: Limits, root: Root, root': Root)
    requires WithinBounds(limits, root) && Smaller(root', root)
    ensures WithinBounds(limits, root')
  {
    RootBytesOfSubset(root', root);
  }

  /** While one request evicts, no other changes the root. */
  lemma HolderOwnsRoot(w: World, s: State, step: Step, s': State, t: Tid)
    requires LockHeldBy(s) && Next(w, s, step, s') && !IsForeign(step)
    requires t in s.requests && s.requests[t].phase.Evicting? && (step.Act? ==> step.t != t)
    ensures s'.disk.root == s.disk.root && t in s'.requests && s'.requests[t] == s.requests[t]
  {
    if step.Act? {
      var r := s.requests[step.t];
      ActionChangesRoot(w, s.history, r.ref, step.t, r.phase, step.action,
                        s.disk, s'.disk, s'.requests[step.t].phase);
    }
  }

  lemma OnlyOneEvicts(s: State, t: Tid)
    requires LockHeldBy(s) && t in s.requests && HoldsLock(s.requests[t].phase)
    ensures forall u :: u in s.requests && u != t ==> !s.requests[u].phase.Evicting?
  {
  }

  /** One operation of an eviction: it covers what is left, or it has raised and the root is overdue. */
  lemma SweepIsBounded(w: World, s: State, t: Tid, reading: Reading, s': State, overdue: bool)
    requires LockHeldBy(s) && Bounded(w, s, overdue) && Next(w, s, Act(t, Sweep(reading)), s')
    ensures Bounded(w, s', Raises(Act(t, Sweep(reading)), s') || overdue)
  {
    SweepCovers(w.limits, s.disk.root, s.requests[t].phase.pass, reading);
    OnlyOneEvicts(s, t);
    if !Raises(Act(t, Sweep(reading)), s') {
      assert t in s'.requests && s'.requests[t].phase.Evicting?;
    }
  }

  lemma LocateIsBounded(w: World, s: State, t: Tid, package: Option<Path>, s': State, overdue: bool)
    requires LockHeldBy(s) && Bounded(w, s, overdue) && Next(w, s, Act(t, Locate(package)), s')
    ensures Bounded(w, s', false)
  {
    OnlyOneEvicts(s, t);
    assert Covers(w.limits, s.disk.root, s.requests[t].phase.pass);
  }

  lemma RenameIsBounded(w: World, s: State, t: Tid, moves: bool, s': State, overdue: bool)
    requires LockHeldBy(s) && Bounded(w, s, overdue) && Next(w, s, Act(t, Rename(moves)), s')
    ensures Bounded(w, s', overdue)
  {
    OnlyOneEvicts(s, t);
    assert t in s'.requests && s'.requests[t].phase.Evicting?;
  }

  /** Every other step only removes clones or refreshes a time, and begins no eviction but at its listing. */
  lemma OtherStepsShrink(w: World, s: State, step: Step, s': State)
    requires Next(w, s, step, s') && !step.ForeignInstall?
    requires step.Act? ==> !step.action.Rename? && !step.action.Sweep? && !step.action.Locate?
    ensures Smaller(s'.disk.root, s.disk.root)
    ensures forall t :: t in s'.requests && s'.requests[t].phase.Evicting? ==>
              || s'.requests[t].phase.pass.Listing?
              || (t in s.requests && s.requests[t].phase == s'.requests[t].phase)
    ensures NoneEvicting(s') ==> NoneEvicting(s)
  {
    if step.Act? {
      var r := s.requests[step.t];
      ActionChangesRoot(w, s.history, r.ref, step.t, r.phase, step.action,
                        s.disk, s'.disk, s'.requests[step.t].phase);
      ActionKeepsEvicting(w, s, step.t, step.action, s');
    } else {
      forall t | t in s.requests ensures t in s'.requests && s'.requests[t] == s.requests[t] {
      }
    }
  }

  lemma ActionKeepsEvicting(w: World, s: State, t: Tid, action: Action, s': State)
    requires Next(w, s, Act(t, action), s') && !action.Rename? && !action.Sweep? && !action.Locate?
    ensures !s.requests[t].phase.Evicting?
    ensures s'.requests[t].phase.Evicting? ==> s'.requests[t].phase.pass.Listing?
    ensures NoneEvicting(s') ==> NoneEvicting(s)
  {
    if NoneEvicting(s') {
      forall u | u in s.requests ensures !s.requests[u].phase.Evicting? {
        assert u in s'.requests;
      }
    }
  }

  lemma StepIsBounded(w: World, s: State, step: Step, s': State, overdue: bool)
    requires LockHeldBy(s) && Bounded(w, s, overdue) && Next(w, s, step, s') && !step.ForeignInstall?
    ensures Bounded(w, s', Raises(step, s') || (!EndsEviction(step) && overdue))
  {
    if step.Act? && step.action.Sweep? {
      SweepIsBounded(w, s, step.t, step.action.reading, s', overdue);
    } else if step.Act? && step.action.Locate? {
      LocateIsBounded(w, s, step.t, step.action.package, s', overdue);
    } else if step.Act? && step.action.Rename? {
      RenameIsBounded(w, s, step.t, step.action.moves, s', overdue);
    } else {
      OtherStepsShrink(w, s, step, s');
      ShrinkingIsBounded(w, s, s', overdue);
    }
  }

  lemma ShrinkingIsBounded(w: World, s: State, s': State, overdue: bool)
    requires Bounded(w, s, overdue) && Smaller(s'.disk.root, s.disk.root) && (NoneEvicting(s') ==> NoneEvicting(s))
    requires forall t :: t in s'.requests && s'.requests[t].phase.Evicting? ==>
               || s'.requests[t].phase.pass.Listing?
               || (t in s.requests && s.requests[t].phase == s'.requests[t].phase)
    ensures Bounded(w, s', overdue)
  {
    forall t | t in s'.requests && s'.requests[t].phase.Evicting?
      ensures Covers(w.limits, s'.disk.root, s'.requests[t].phase.pass)
    {
      if !s'.requests[t].phase.pass.Listing? {
        CoversShrinks(w.limits, s.disk.root, s'.disk.root, s.requests[t].phase.pass);
      }
    }
    if NoneEvicting(s') && !overdue {
      SameSizesKeepBounds(w.limits, s.disk.root, s'.disk.root);
    }
  }

  ghost predicate NoForeignInstall(steps: seq<Step>) {
    forall k :: 0 <= k < |steps| ==> !steps[k].ForeignInstall?
  }

  lemma {:induction false} RunIsBounded(w: World, states: seq<State>, steps: seq<Step>, k: nat)
    requires Run(w, states, steps) && NoForeignInstall(steps) && WithinBounds(w.limits, states[0].disk.root)
            && k < |states|
    ensures Bounded(w, states[k], Overdue(states, steps, k))
  {
    if k > 0 {
      RunIsSafe(w, states, steps, k - 1);
      RunIsBounded(w, states, steps, k - 1);
      StepIsBounded(w, states[k - 1], steps[k - 1], states[k], Overdue(states, steps, k - 1));
    }
  }

  /** Before the lookup, or after everything: nothing of this request is in flight. */
  predicate IsIdle(phase: Phase) {
    phase.Started? || phase.Resolved? || phase.Done?
  }

  ghost function Misses(s: State): set<Tid> {
    set t | t in s.requests && InFlightMiss(s.requests[t].phase)
  }

  /** A set every member of which one of the owners covers, each owner covering at most one, is no larger. */
  lemma {:induction false} CoveredSetIsSmaller(dirs: set<DirId>, owners: set<Tid>, owner: map<DirId, Tid>)
    requires forall d :: d in dirs ==> d in owner && owner[d] in owners
    requires forall d, e :: d in dirs && e in dirs && d != e ==> owner[d] != owner[e]
    ensures |dirs| <= |owners|
  {
    if dirs != {} {
      var d :| d in dirs;
      CoveredSetIsSmaller(dirs - {d}, owners - {owner[d]}, owner);
    }
  }

  /** Staging holds at most one directory per in-flight miss, and so nothing when none is in flight. */
  lemma StagingIsOwned(s: State)
    requires OwnedStaging(s)
    ensures |s.disk.staging| <= |Misses(s)|
    ensures forall t :: t in Misses(s) <==> t in s.requests && !IsIdle(s.requests[t].phase)
    ensures (forall t :: t in s.requests ==> IsIdle(s.requests[t].phase)) ==> s.disk.staging == map[]
  {
    var owner := map dir | dir in s.disk.staging :: OwnerOf(s, dir);
    CoveredSetIsSmaller(s.disk.staging.Keys, Misses(s), owner);
  }

  ghost function OwnerOf(s: State, dir: DirId): (t: Tid)
    requires OwnedStaging(s) && dir in s.disk.staging
    ensures t in s.requests && UsesDir(s.requests[t].phase, dir)
  {
    var t :| t in s.requests && UsesDir(s.requests[t].phase, dir);
    t
  }

  lemma UnlockedMeansNoneEvicting(s: State)
    requires LockHeldBy(s) && s.disk.lock.None?
    ensures NoneEvicting(s)
  {
  }

  /**
   Over every run of one process started within bounds, other processes removing clones at any step, even
   in the middle of an eviction: whenever the lock is free the cache is within its count and byte bounds,
   unless the last eviction to end was left by an exception. At every state staging holds at most one
   directory per in-flight miss and nothing once none is in flight, failed fetches included.
   */
  lemma BoundsHoldWheneverUnlocked(w: World, states: seq<State>, steps: seq<Step>, k: nat)
    requires Run(w, states, steps) && NoForeignInstall(steps) && WithinBounds(w.limits, states[0].disk.root)
            && k < |states|
    ensures states[k].disk.lock.None? && !Overdue(states, steps, k) ==>
              && |states[k].disk.root| <= w.limits.maxClones
              && (|states[k].disk.root| <= 1 || RootBytes(states[k].disk.root) <= w.limits.maxBytes)
    ensures |states[k].disk.staging| <= |Misses(states[k])|
    ensures (forall t :: t in states[k].requests ==> IsIdle(states[k].requests[t].phase)) ==>
              states[k].disk.staging == map[]
  {
    RunIsSafe(w, states, steps, k);
    RunIsBounded(w, states, steps, k);
    StagingIsOwned(states[k]);
    if states[k].disk.lock.None? {
      UnlockedMeansNoneEvicting(states[k]);
    }
  }

  // Undisturbed evictions.

  /** Other processes leave the directory alone while this one evicts. */
  ghost predicate EvictsUndisturbed(states: seq<State>, steps: seq<Step>)
    requires |states| == |steps| + 1
  {
    forall k :: 0 <= k < |steps| && IsForeign(steps[k]) ==> NoneEvicting(states[k])
  }

  ghost predicate ExactSweeps(w: World, s: State) {
    forall t :: t in s.requests && s.requests[t].phase.Evicting? ==>
      exists was :: Exact(w.limits, was, s.disk.root, s.requests[t].phase.pass)
  }

  /** An undisturbed step keeps the evictions of `was` exact: the evicting request's own, and any other's. */
  lemma StepIsExact(w: World, s: State, step: Step, s': State, t: Tid, was: Root)
    requires LockHeldBy(s) && Next(w, s, step, s') && !IsForeign(step)
    requires t in s.requests && s.requests[t].phase.Evicting?
            && Exact(w.limits, was, s.disk.root, s.requests[t].phase.pass)
    ensures t in s'.requests && !(step.Act? && step.t == t && Raises(step, s'))
    ensures s'.requests[t].phase.Evicting? ==> Exact(w.limits, was, s'.disk.root, s'.requests[t].phase.pass)
  {
    if step.Act? && step.t == t {
      if step.action.Sweep? {
        SweepIsExact(w.limits, was, s.disk.root, s.requests[t].phase.pass, step.action.reading);
      }
    } else {
      HolderOwnsRoot(w, s, step, s', t);
    }
  }

  lemma StepKeepsExactSweeps(w: World, s: State, step: Step, s': State)
    requires LockHeldBy(s) && Next(w, s, step, s') && ExactSweeps(w, s) && (IsForeign(step) ==> NoneEvicting(s))
    ensures ExactSweeps(w, s') && !Raises(step, s')
  {
    if !IsForeign(step) {
      forall t | t in s.requests && s.requests[t].phase.Evicting?
        ensures t in s'.requests && !(step.Act? && step.t == t && Raises(step, s'))
        ensures s'.requests[t].phase.Evicting? ==>
                exists was :: Exact(w.limits, was, s'.disk.root, s'.requests[t].phase.pass)
      {
        var was :| Exact(w.limits, was, s.disk.root, s.requests[t].phase.pass);
        StepIsExact(w, s, step, s', t, was);
      }
      forall t | t in s'.requests && s'.requests[t].phase.Evicting?
        && !(t in s.requests && s.requests[t].phase.Evicting?)
        ensures exists was :: Exact(w.limits, was, s'.disk.root, s'.requests[t].phase.pass)
      {
        assert s'.requests[t].phase.pass == Listing;
        assert Exact(w.limits, s'.disk.root, s'.disk.root, Listing);
      }
    }
  }

  lemma {:induction false} UndisturbedNeverRaises(w: World, states: seq<State>, steps: seq<Step>, k: nat)
    requires Run(w, states, steps) && EvictsUndisturbed(states, steps) && k < |states|
    ensures ExactSweeps(w, states[k]) && !Overdue(states, steps, k)
  {
    if k > 0 {
      UndisturbedNeverRaises(w, states, steps, k - 1);
      RunIsSafe(w, states, steps, k - 1);
      StepKeepsExactSweeps(w, states[k - 1], steps[k - 1], states[k]);
    }
  }

  /**
   So where other processes neither install nor remove during an eviction, the bounds hold whenever the lock is
   free.
   */
  lemma UndisturbedBoundsHold(w: World, states: seq<State>, steps: seq<Step>, k: nat)
    requires Run(w, states, steps) && NoForeignInstall(steps) && EvictsUndisturbed(states, steps)
    requires WithinBounds(w.limits, states[0].disk.root) && k < |states| && states[k].disk.lock.None?
    ensures WithinBounds(w.limits, states[k].disk.root)
  {
    UndisturbedNeverRaises(w, states, steps, k);
    BoundsHoldWheneverUnlocked(w, states, steps, k);
  }

  // A miss and its own clone.

  /** From its rename at `j` on, request `t` is evicting at every state up to `k`, and no other process steps in. */
  ghost predicate EvictsAlone(states: seq<State>, steps: seq<Step>, j: nat, k: nat, t: Tid)
    requires |states| == |steps| + 1 && j < k <= |steps|
  {
    && (forall i :: j < i <= k ==> t in states[i].requests && states[i].requests[t].phase.Evicting?)
    && (forall i :: j < i < k ==> !IsForeign(steps[i]))
  }

  lemma {:induction false} EvictionIsOfTheInstalled(w: World, states: seq<State>, steps: seq<Step>, j: nat, k: nat,
          t: Tid)
    requires Run(w, states, steps) && j < k <= |steps| && steps[j].Act? && steps[j].t == t && steps[j].action.Rename?
    requires EvictsAlone(states, steps, j, k, t)
    ensures Exact(w.limits, states[j + 1].disk.root, states[k].disk.root, states[k].requests[t].phase.pass)
    ensures states[k].requests[t].phase.sha == states[j].requests[t].phase.sha
  {
    if k == j + 1 {
      assert states[k].requests[t].phase.pass == Listing;
    } else {
      EvictionIsOfTheInstalled(w, states, steps, j, k - 1, t);
      RunIsSafe(w, states, steps, k - 1);
      StepIsExact(w, states[k - 1], steps[k - 1], states[k], t, states[j + 1].disk.root);
      if !(steps[k - 1].Act? && steps[k - 1].t == t) {
        HolderOwnsRoot(w, states[k - 1], steps[k - 1], states[k], t);
      }
    }
  }

  /** Request `t` moves its clone into the root at step `j`, and at `k` its eviction, alone till then, has ended. */
  ghost predicate InstallsAndEvicts(states: seq<State>, steps: seq<Step>, j: nat, k: nat, t: Tid, sha: Sha,
          clone: Clone, pass: Pass)
    requires |states| == |steps| + 1 && j < k <= |steps|
  {
    && steps[j] == Act(t, Rename(true)) && EvictsAlone(states, steps, j, k, t)
    && t in states[j].requests && states[j].requests[t].phase.Renaming?
    && states[j].requests[t].phase.sha == sha
    && states[j].requests[t].phase.dir in states[j].disk.staging
    && states[j].disk.staging[states[j].requests[t].phase.dir] == clone
    && pass.Swept? && states[k].requests[t].phase.pass == pass
  }

  /**
   A miss whose eviction ran undisturbed has lost the clone it installed exactly when that clone does not
   outlive the eviction. Where no time is equal to the clone's own, its rivals are the newer clones of the
   root before the rename.
   */
  lemma OwnCloneIsLostIff(w: World, states: seq<State>, steps: seq<Step>, j: nat, k: nat, t: Tid, sha: Sha,
          clone: Clone, pass: Pass)
    requires Run(w, states, steps) && j < k <= |steps| && InstallsAndEvicts(states, steps, j, k, t, sha, clone, pass)
    ensures var root := states[j].disk.root;
            && sha !in root
            && (sha !in states[k].disk.root <==> !Outlives(w.limits, pass.now, clone, Rivals(root, pass.entries, sha)))
            && ((forall name :: name in root ==> root[name].mtime != clone.mtime)
                  ==> Rivals(root, pass.entries, sha) == Newer(root, clone))
  {
    var root := states[j].disk.root;
    EvictionIsOfTheInstalled(w, states, steps, j, k, t);
    assert Next(w, states[j], steps[j], states[j + 1]);
    assert states[j + 1].disk.root == root[sha := clone];
    InstalledCloneSurvives(w.limits, root, sha, clone, pass.now, pass.entries);
    if forall name :: name in root ==> root[name].mtime != clone.mtime {
      RivalsAreTheNewer(root, sha, clone, pass.entries);
    }
  }

  /**
   Then, wherever the package is found in any clone there is to look at, the request fails exactly for want of its
   own.
   */
  lemma MissFailsForItsOwnCloneIff(w: World, states: seq<State>, steps: seq<Step>, j: nat, k: nat, t: Tid, sha: Sha,
          clone: Clone, pass: Pass, package: Path)
    requires Run(w, states, steps) && j < k < |steps| && InstallsAndEvicts(states, steps, j, k, t, sha, clone, pass)
    requires steps[k] == Act(t, Locate(Some(package)))
    ensures t in states[k + 1].requests && states[k + 1].requests[t].phase.Closing?
    ensures states[k + 1].requests[t].phase.outcome == Failed
       <==> !Outlives(w.limits, pass.now, clone, Rivals(states[j].disk.root, pass.entries, sha))
  {
    OwnCloneIsLostIff(w, states, steps, j, k, t, sha, clone, pass);
    EvictionIsOfTheInstalled(w, states, steps, j, k, t);
    assert Next(w, states[k], steps[k], states[k + 1]);
  }
}
