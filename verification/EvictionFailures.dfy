/**
 Exactly when an eviction of the clone cache is left by an exception (`_evict` of `api/method_cache.py`): when an
 entry it listed is gone as it reads the entry's time, or as it walks the entry; and who can have removed it.
 */
module EvictionFailures {
  import opened Wrappers
  import opened CloneEviction
  import opened EvictionSteps
  import opened CacheProtocol
  import opened CacheBounds

  /** The entry whose directory the next operation reads, if it reads one. */
  function Wanted(limits: Limits, pass: Pass): Option<Sha>
    requires pass.Valid()
  {
    match pass
    case Stating(names, n, _) => if n < |names| then Some(names[n]) else None
    case Aging(entries, _, i, _) => if i < |entries| && entries[i] != entries[|entries| - 1] then Some(entries[i])
      else None
    case Sizing(_, _, survivors, k, _) => if k < |survivors| then Some(survivors[k]) else None
    case Dropping(_, _, survivors, total) => if IsOver(limits, survivors, total) then Some(survivors[0]) else None
    case _ => None
  }

  /** Reading the time of a missing entry raises; walking one may also find nothing in it. */
  predicate ReadsTime(pass: Pass) {
    pass.Stating? || pass.Aging?
  }

  /** The entries an eviction may still read or keep. */
  ghost predicate Pending(pass: Pass, name: Sha) {
    match pass
    case Stating(names, _, _) => name in names
    case Aging(entries, _, i, survivors) => i <= |entries| && (name in survivors || name in entries[i..])
    case Sizing(_, _, survivors, _, _) => name in survivors
    case Dropping(_, _, survivors, _) => name in survivors
    case _ => false
  }

  /** No entry is on the eviction's lists twice. */
  ghost predicate Distinct(pass: Pass) {
    match pass
    case Stating(names, _, _) => NoDuplicates(names)
    case Aging(entries, _, i, survivors) => i <= |entries| && NoDuplicates(survivors + entries[i..])
    case Sizing(_, _, survivors, _, _) => NoDuplicates(survivors)
    case Dropping(_, _, survivors, _) => NoDuplicates(survivors)
    case _ => true
  }

  /** One operation: what it removes is pending no more, and nothing new becomes pending after the listing. */
  ghost predicate Forwards(root: Root, root': Root, pass: Pass, pass': Pass) {
    && Distinct(pass')
    && forall name :: Pending(pass', name) ==> Pending(pass, name) && (name in root ==> name in root')
  }

  lemma AgingForwards(limits: Limits, root: Root, entries: seq<Sha>, now: int, i: nat, survivors: seq<Sha>)
    requires Aging(entries, now, i, survivors).Valid() && Distinct(Aging(entries, now, i, survivors))
    ensures var after := AgeNext(limits, root, entries, now, i, survivors);
            Forwards(root, after.root, Aging(entries, now, i, survivors), after.pass)
  {
    var all := survivors + entries[i..];
    if i == |entries| {
      assert all == survivors;
    } else {
      var entry, rest := entries[i], entries[i + 1..];
      assert all == survivors + [entry] + rest && all[|survivors|] == entry;
      assert forall name :: name in entries[i..] <==> name == entry || name in rest;
      WithoutOne(survivors, entry, rest);
    }
  }

  lemma WithoutOne(a: seq<Sha>, x: Sha, b: seq<Sha>)
    requires NoDuplicates(a + [x] + b)
    ensures NoDuplicates(a + b) && x !in a && x !in b
  {
    var all := a + [x] + b;
    assert all[|a|] == x;
    assert forall i :: 0 <= i < |a| ==> all[i] == a[i];
    assert forall i :: 0 <= i < |b| ==> all[|a| + 1 + i] == b[i];
    forall i, j | 0 <= i < j < |a + b| ensures (a + b)[i] != (a + b)[j] {
      assert forall m :: 0 <= m < |a + b| ==> (a + b)[m] == all[if m < |a| then m else m + 1];
    }
  }

  lemma WithoutFirst(names: seq<Sha>)
    requires NoDuplicates(names) && names != []
    ensures NoDuplicates(names[1..]) && forall name :: name in names[1..] ==> name in names && name != names[0]
  {
    assert forall i :: 0 <= i < |names| - 1 ==> names[1..][i] == names[i + 1];
  }

  lemma StatingForwards(root: Root, names: seq<Sha>, n: nat, seen: Root, now: int)
    requires Stating(names, n, seen).Valid() && NoDuplicates(names)
    ensures Forwards(root, root, Stating(names, n, seen), StatNext(root, names, n, seen, now))
  {
    if n == |names| && names != [] {
      SortGivesMtimeOrder(seen, names);
      var entries := SortByMtime(seen, names);
      assert [] + entries[0..] == entries;
    }
  }

  lemma DroppingForwards(limits: Limits, root: Root, entries: seq<Sha>, now: int, survivors: seq<Sha>, total: int,
          missing: bool)
    requires NoDuplicates(survivors)
    ensures var after := DropNext(limits, root, entries, now, survivors, total, missing);
            Forwards(root, after.root, Dropping(entries, now, survivors, total), after.pass)
  {
    if IsOver(limits, survivors, total) {
      WithoutFirst(survivors);
    }
  }

  lemma SweepForwards(limits: Limits, root: Root, pass: Pass, reading: Reading)
    requires CanSweep(limits, root, pass, reading) && !pass.Listing? && Distinct(pass)
    ensures var after := SweepStep(limits, root, pass, reading); Forwards(root, after.root, pass, after.pass)
  {
    match pass
    case Stating(names, n, seen) => StatingForwards(root, names, n, seen, reading.now);
    case Aging(entries, now, i, survivors) => AgingForwards(limits, root, entries, now, i, survivors);
    case Dropping(entries, now, survivors, total) =>
      DroppingForwards(limits, root, entries, now, survivors, total, reading.missing);
    case _ =>
  }

  /** Where one operation raises: its entry is gone, and the operation is one that minds. */
  lemma SweepRaisesIff(limits: Limits, root: Root, pass: Pass, reading: Reading)
    requires CanSweep(limits, root, pass, reading)
    ensures SweepStep(limits, root, pass, reading).pass.Raised? <==>
            && Wanted(limits, pass).Some? && Wanted(limits, pass).value !in root
            && (ReadsTime(pass) || reading.missing)
    ensures Wanted(limits, pass).Some? ==> Pending(pass, Wanted(limits, pass).value)
  {
  }

  /** Request `t` is evicting, its listing done. */
  predicate HasListed(s: State, t: Tid) {
    t in s.requests && s.requests[t].phase.Evicting? && !s.requests[t].phase.pass.Listing?
  }

  /**
   At step `j`, while request `t` evicts, another process removes this entry, and at no state up to `k` is it
   back.
   */
  ghost predicate RemovedAt(states: seq<State>, steps: seq<Step>, j: nat, k: nat, t: Tid, name: Sha)
    requires |states| == |steps| + 1 && k <= |steps|
  {
    && j < k && steps[j] == ForeignRemove(name) && name in states[j].disk.root
    && (forall i :: j <= i <= k ==> HasListed(states[i], t))
    && (forall i :: j < i <= k ==> name !in states[i].disk.root)
  }

  /** Another process removed this entry since the listing, and it is not back. */
  ghost predicate RemovedSinceListing(states: seq<State>, steps: seq<Step>, k: nat, t: Tid, name: Sha)
    requires |states| == |steps| + 1 && k <= |steps|
  {
    exists j :: 0 <= j < k && RemovedAt(states, steps, j, k, t, name)
  }

  /** Every pending entry is there, or another process has removed it since the listing. */
  ghost predicate Accounted(states: seq<State>, steps: seq<Step>, k: nat, t: Tid)
    requires |states| == |steps| + 1 && k <= |steps|
  {
    HasListed(states[k], t) ==>
      && Distinct(states[k].requests[t].phase.pass)
      && forall name :: Pending(states[k].requests[t].phase.pass, name) ==>
           name in states[k].disk.root || RemovedSinceListing(states, steps, k, t, name)
  }

  lemma StillRemoved(states: seq<State>, steps: seq<Step>, k: nat, t: Tid, name: Sha)
    requires |states| == |steps| + 1 && k < |steps| && RemovedSinceListing(states, steps, k, t, name)
    requires HasListed(states[k + 1], t) && name !in states[k + 1].disk.root
    ensures RemovedSinceListing(states, steps, k + 1, t, name)
  {
    var j :| 0 <= j < k && RemovedAt(states, steps, j, k, t, name);
    assert RemovedAt(states, steps, j, k + 1, t, name);
  }

  /** How an eviction under way gets to the next state: by its own operation, by another process, or not at all. */
  lemma ListedStep(w: World, s: State, step: Step, s': State, t: Tid)
    requires LockHeldBy(s) && Next(w, s, step, s') && HasListed(s', t)
    ensures t in s.requests && s.requests[t].phase.Evicting?
    ensures step.Act? && step.t == t ==>
              && step.action.Sweep? && CanSweep(w.limits, s.disk.root, s.requests[t].phase.pass, step.action.reading)
              && Moment(s'.disk.root, s'.requests[t].phase.pass)
                 == SweepStep(w.limits, s.disk.root, s.requests[t].phase.pass, step.action.reading)
    ensures !(step.Act? && step.t == t) ==>
              && s'.requests[t] == s.requests[t]
              && (IsForeign(step) || s'.disk.root == s.disk.root)
  {
    if !(step.Act? && step.t == t) && !IsForeign(step) {
      HolderOwnsRoot(w, s, step, s', t);
    }
  }

  /** The eviction's own operation. */
  lemma OwnOperationAccounts(w: World, states: seq<State>, steps: seq<Step>, k: nat, t: Tid)
    requires Run(w, states, steps) && k < |steps| && LockHeldBy(states[k]) && Accounted(states, steps, k, t)
    requires steps[k].Act? && steps[k].t == t && HasListed(states[k + 1], t)
    ensures Accounted(states, steps, k + 1, t)
  {
    var s, s' := states[k], states[k + 1];
    ListedStep(w, s, steps[k], s', t);
    var pass, pass' := s.requests[t].phase.pass, s'.requests[t].phase.pass;
    if !pass.Listing? {
      SweepForwards(w.limits, s.disk.root, pass, steps[k].action.reading);
      forall name | Pending(pass', name) && name !in s'.disk.root
        ensures RemovedSinceListing(states, steps, k + 1, t, name)
      {
        StillRemoved(states, steps, k, t, name);
      }
    }
  }

  /** Any other step. */
  lemma OtherStepAccounts(w: World, states: seq<State>, steps: seq<Step>, k: nat, t: Tid)
    requires Run(w, states, steps) && k < |steps| && LockHeldBy(states[k]) && Accounted(states, steps, k, t)
    requires !(steps[k].Act? && steps[k].t == t) && HasListed(states[k + 1], t)
    ensures Accounted(states, steps, k + 1, t)
  {
    var s, s' := states[k], states[k + 1];
    ListedStep(w, s, steps[k], s', t);
    forall name | Pending(s'.requests[t].phase.pass, name) && name !in s'.disk.root
      ensures RemovedSinceListing(states, steps, k + 1, t, name)
    {
      if name in s.disk.root {
        assert RemovedAt(states, steps, k, k + 1, t, name);
      } else {
        StillRemoved(states, steps, k, t, name);
      }
    }
  }

  lemma {:induction false} EveryEntryIsAccounted(w: World, states: seq<State>, steps: seq<Step>, k: nat, t: Tid)
    requires Run(w, states, steps) && k < |states|
    ensures Accounted(states, steps, k, t)
  {
    if k > 0 && HasListed(states[k], t) {
      RunIsSafe(w, states, steps, k - 1);
      EveryEntryIsAccounted(w, states, steps, k - 1, t);
      if steps[k - 1].Act? && steps[k - 1].t == t {
        OwnOperationAccounts(w, states, steps, k - 1, t);
      } else {
        OtherStepAccounts(w, states, steps, k - 1, t);
      }
    }
  }

  /**
   Over every run, an eviction's operation raises exactly when another process has removed the entry it reads since
   this eviction listed it, and the entry is not back, and the operation reads its time or its walk minds.
   */
  lemma RaisesExactlyWhenRemoved(w: World, states: seq<State>, steps: seq<Step>, k: nat, t: Tid, reading: Reading)
    requires Run(w, states, steps) && k < |steps| && steps[k] == Act(t, Sweep(reading))
    ensures t in states[k].requests && states[k].requests[t].phase.Evicting? && states[k].requests[t].phase.pass.Valid()
    ensures var pass := states[k].requests[t].phase.pass;
            Raises(steps[k], states[k + 1]) <==>
            && Wanted(w.limits, pass).Some?
            && RemovedSinceListing(states, steps, k, t, Wanted(w.limits, pass).value)
            && (ReadsTime(pass) || reading.missing)
  {
    assert Next(w, states[k], steps[k], states[k + 1]);
    var pass := states[k].requests[t].phase.pass;
    SweepRaisesIff(w.limits, states[k].disk.root, pass, reading);
    EveryEntryIsAccounted(w, states, steps, k, t);
  }
}
