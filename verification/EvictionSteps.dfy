/**
 The eviction (`_evict` of `api/method_cache.py`) one directory operation at a time, so that other processes may
 remove clones between any two of them. Read undisturbed it is the closed form `Evicted`; disturbed, it may be
 left by an exception, but whenever it finishes the root is within its bounds.
 */
module EvictionSteps {
  import opened CloneEviction

  /** How far an eviction has come, with its local variables. */
  datatype Pass =
    | Listing
    | Stating(names: seq<Sha>, n: nat, seen: Root)
    | Aging(entries: seq<Sha>, now: int, i: nat, survivors: seq<Sha>)
    | Sizing(entries: seq<Sha>, now: int, survivors: seq<Sha>, k: nat, total: int)
    | Dropping(entries: seq<Sha>, now: int, survivors: seq<Sha>, total: int)
    | Swept(entries: seq<Sha>, now: int)
    | Raised
  {
    predicate Valid() {
      match this
      case Stating(names, n, seen) => n <= |names| && forall m :: 0 <= m < n ==> names[m] in seen
      case Aging(entries, _, i, _) => entries != [] && i <= |entries|
      case Sizing(_, _, survivors, k, _) => k <= |survivors|
      case _ => true
    }
  }

  /** What one operation reads: the listing, the clock, or a directory that goes missing while it is walked. */
  datatype Reading = Reading(listing: seq<Sha>, now: int, missing: bool)

  datatype Moment = Moment(root: Root, pass: Pass)

  /** The bytes a walk finds now; a directory that is gone has none. */
  function SizeNow(root: Root, name: Sha): nat {
    if name in root then SizeBytes(root[name].tree) else 0
  }

  ghost predicate CanSweep(limits: Limits, root: Root, pass: Pass, reading: Reading) {
    && pass.Valid() && !pass.Swept? && !pass.Raised?
    && (pass.Listing? ==> Lists(root, reading.listing))
    && (reading.missing ==>
          match pass
          case Sizing(_, _, survivors, k, _) => k < |survivors| && survivors[k] !in root
          case Dropping(_, _, survivors, total) => IsOver(limits, survivors, total) && survivors[0] !in root
          case _ => false)
  }

  /** The loop condition of the count and byte pass. */
  predicate IsOver(limits: Limits, survivors: seq<Sha>, total: int) {
    |survivors| > 1 && (|survivors| > limits.maxClones || total > limits.maxBytes)
  }

  /** One operation of an eviction. Reading the time of a missing entry raises. */
  function SweepStep(limits: Limits, root: Root, pass: Pass, reading: Reading): (after: Moment)
    requires pass.Valid()
    ensures after.pass.Valid()
  {
    match pass
    case Listing => Moment(root, Stating(reading.listing, 0, map[]))
    case Stating(names, n, seen) => Moment(root, StatNext(root, names, n, seen, reading.now))
    case Aging(entries, now, i, survivors) => AgeNext(limits, root, entries, now, i, survivors)
    case Sizing(entries, now, survivors, k, total) =>
      Moment(root,
             if reading.missing then Raised
             else if k == |survivors| then Dropping(entries, now, survivors, total)
             else Sizing(entries, now, survivors, k + 1, total + SizeNow(root, survivors[k])))
    case Dropping(entries, now, survivors, total) => DropNext(limits, root, entries, now, survivors, total,
      reading.missing)
    case _ => Moment(root, pass)
  }

  function StatNext(root: Root, names: seq<Sha>, n: nat, seen: Root, now: int): (pass: Pass)
    requires Stating(names, n, seen).Valid()
    ensures pass.Valid()
  {
    if n == |names| then
      if names == [] then Swept([], now)
      else
        assert names[0] in SortByMtime(seen, names);
        Aging(SortByMtime(seen, names), now, 0, [])
    else if names[n] in root then Stating(names, n + 1, seen[names[n] := root[names[n]]])
    else Raised
  }

  function AgeNext(limits: Limits, root: Root, entries: seq<Sha>, now: int, i: nat,
          survivors: seq<Sha>): (after: Moment)
    requires Aging(entries, now, i, survivors).Valid()
    ensures after.pass.Valid()
  {
    if i == |entries| then Moment(root, Sizing(entries, now, survivors, 0, 0))
    else if entries[i] == entries[|entries| - 1] then Moment(root, Aging(entries, now, i + 1, survivors + [entries[i]]))
    else if entries[i] !in root then Moment(root, Raised)
    else if TooOld(limits, root, now, entries[i])
      then Moment(root - {entries[i]}, Aging(entries, now, i + 1, survivors))
    else Moment(root, Aging(entries, now, i + 1, survivors + [entries[i]]))
  }

  function DropNext(limits: Limits, root: Root, entries: seq<Sha>, now: int, survivors: seq<Sha>, total: int,
          missing: bool)
    : (after: Moment)
    ensures after.pass.Valid()
  {
    if missing then Moment(root, Raised)
    else if IsOver(limits, survivors, total) then
      Moment(root - {survivors[0]}, Dropping(entries, now, survivors[1..], total - SizeNow(root, survivors[0])))
    else Moment(root, Swept(entries, now))
  }

  ghost predicate Smaller(root': Root, root: Root) {
    forall name :: name in root' ==> name in root && root'[name].tree == root[name].tree
  }

  lemma SweepShrinks(limits: Limits, root: Root, pass: Pass, reading: Reading)
    requires pass.Valid()
    ensures Smaller(SweepStep(limits, root, pass, reading).root, root)
  {
  }

  // What holds whatever other processes remove in between.

  ghost function Part(root: Root, names: seq<Sha>): Root {
    map name | name in root && name in names :: root[name]
  }

  /** Every clone there is still on the eviction's lists, and the total it keeps is never too low. */
  ghost predicate Covers(limits: Limits, root: Root, pass: Pass) {
    match pass
    case Listing => true
    case Stating(names, _, _) => forall name :: name in root ==> name in names
    case Aging(entries, _, i, survivors) => i <= |entries| && forall name :: name in root ==>
      name in survivors || name in entries[i..]
    case Sizing(_, _, survivors, k, total) =>
      && (forall name :: name in root ==> name in survivors)
      && k <= |survivors| && RootBytes(Part(root, survivors[..k])) <= total
    case Dropping(_, _, survivors, total) => (forall name :: name in root ==> name in survivors)
      && RootBytes(root) <= total
    case Swept(_, _) => WithinBounds(limits, root)
    case Raised => true
  }

  lemma CoversShrinks(limits: Limits, root: Root, root': Root, pass: Pass)
    requires Covers(limits, root, pass) && Smaller(root', root)
    ensures Covers(limits, root', pass)
  {
    RootBytesOfSubset(root', root);
    if pass.Sizing? {
      RootBytesOfSubset(Part(root', pass.survivors[..pass.k]), Part(root, pass.survivors[..pass.k]));
    }
  }

  lemma {:induction false} FewerThanListed(keys: set<Sha>, names: seq<Sha>)
    requires forall name :: name in keys ==> name in names
    ensures |keys| <= |names|
    decreases |names|
  {
    if names == [] {
      assert keys == {};
    } else {
      var n := |names| - 1;
      FewerThanListed(keys - {names[n]}, names[..n]);
    }
  }

  lemma PartGrows(root: Root, names: seq<Sha>, k: nat)
    requires k < |names|
    ensures RootBytes(Part(root, names[..k + 1])) <= RootBytes(Part(root, names[..k])) + SizeNow(root, names[k])
  {
    var more, part := Part(root, names[..k + 1]), Part(root, names[..k]);
    assert forall name :: name in names[..k + 1] <==> name in names[..k] || name == names[k];
    if names[k] in root {
      RootBytesRemove(more, names[k]);
      RootBytesOfSubset(more - {names[k]}, part);
    } else {
      assert more == part;
    }
  }

  lemma SizingCovers(limits: Limits, root: Root, entries: seq<Sha>, now: int, survivors: seq<Sha>, k: nat, total: int)
    requires Covers(limits, root, Sizing(entries, now, survivors, k, total))
    ensures k == |survivors| ==> Covers(limits, root, Dropping(entries, now, survivors, total))
    ensures k < |survivors| ==>
            Covers(limits, root, Sizing(entries, now, survivors, k + 1, total + SizeNow(root, survivors[k])))
  {
    if k == |survivors| {
      assert survivors[..k] == survivors;
      assert Part(root, survivors) == root;
    } else {
      PartGrows(root, survivors, k);
    }
  }

  lemma DroppingCovers(limits: Limits, root: Root, entries: seq<Sha>, now: int, survivors: seq<Sha>, total: int)
    requires Covers(limits, root, Dropping(entries, now, survivors, total))
    ensures var after := DropNext(limits, root, entries, now, survivors, total, false);
            Covers(limits, after.root, after.pass)
  {
    if IsOver(limits, survivors, total) {
      BytesWithout(root, survivors[0]);
      forall name | name in root - {survivors[0]} ensures name in survivors[1..] {
        assert name in survivors;
      }
    } else {
      FewerThanListed(root.Keys, survivors);
    }
  }

  lemma BytesWithout(root: Root, name: Sha)
    ensures RootBytes(root - {name}) + SizeNow(root, name) == RootBytes(root)
  {
    if name in root {
      RootBytesRemove(root, name);
    } else {
      assert root - {name} == root;
    }
  }

  lemma AgingCovers(limits: Limits, root: Root, entries: seq<Sha>, now: int, i: nat, survivors: seq<Sha>)
    requires Aging(entries, now, i, survivors).Valid() && Covers(limits, root, Aging(entries, now, i, survivors))
    ensures var after := AgeNext(limits, root, entries, now, i, survivors); Covers(limits, after.root, after.pass)
  {
    if i == |entries| {
      assert Part(root, survivors[..0]) == map[];
    } else {
      assert forall name :: name in entries[i..] ==> name == entries[i] || name in entries[i + 1..];
    }
  }

  lemma StatingCovers(limits: Limits, root: Root, names: seq<Sha>, n: nat, seen: Root, now: int)
    requires Stating(names, n, seen).Valid() && Covers(limits, root, Stating(names, n, seen))
    ensures Covers(limits, root, StatNext(root, names, n, seen, now))
  {
    if names == [] {
      assert root == map[];
    } else if n == |names| {
      var entries := SortByMtime(seen, names);
      assert entries[0..] == entries;
    }
  }

  /** One operation later, every clone is still covered, and a finished eviction has left the root within its bounds. */
  lemma SweepCovers(limits: Limits, root: Root, pass: Pass, reading: Reading)
    requires CanSweep(limits, root, pass, reading) && Covers(limits, root, pass)
    ensures var after := SweepStep(limits, root, pass, reading); Covers(limits, after.root, after.pass)
  {
    match pass
    case Stating(names, n, seen) => StatingCovers(limits, root, names, n, seen, reading.now);
    case Aging(entries, now, i, survivors) => AgingCovers(limits, root, entries, now, i, survivors);
    case Sizing(entries, now, survivors, k, total) => SizingCovers(limits, root, entries, now, survivors, k, total);
    case Dropping(entries, now, survivors, total) => DroppingCovers(limits, root, entries, now, survivors, total);
    case _ =>
  }

  // What holds when nothing is removed in between.

  /**
   The eviction of `was`, read undisturbed so far: it cannot have raised, and at its end it has left the closed
   form.
   */
  ghost predicate Exact(limits: Limits, was: Root, root: Root, pass: Pass) {
    match pass
    case Listing => root == was
    case Stating(names, n, seen) =>
      && root == was && Lists(was, names) && n <= |names|
      && forall name ::
        (name in seen <==> name in names[..n]) && (name in seen ==> name in was && seen[name] == was[name])
    case Aging(entries, now, i, survivors) =>
      MtimeOrder(was, entries) && AgePass(limits, was, now, entries, root, survivors, i)
    case Sizing(entries, now, survivors, k, total) =>
      && MtimeOrder(was, entries) && Remaining(limits, was, now, entries, root, survivors)
      && (forall name :: name in survivors ==> name in was)
      && k <= |survivors| && total + TotalBytes(was, survivors[k..]) == TotalBytes(was, survivors)
    case Dropping(entries, now, survivors, total) =>
      && MtimeOrder(was, entries) && Remaining(limits, was, now, entries, root, survivors)
      && (forall name :: name in survivors ==> name in was)
      && total == TotalBytes(was, survivors)
    case Swept(entries, now) => MtimeOrder(was, entries) && root == Evicted(limits, was, now, entries)
    case Raised => false
  }

  lemma StatingIsExact(limits: Limits, was: Root, names: seq<Sha>, n: nat, seen: Root, now: int)
    requires Exact(limits, was, was, Stating(names, n, seen)) && Stating(names, n, seen).Valid()
    ensures Exact(limits, was, was, StatNext(was, names, n, seen, now))
  {
    if n < |names| {
      StatReadsOne(was, names, n);
    } else if names != [] {
      SortedIsExact(limits, was, names, seen, now);
    } else {
      NothingListed(limits, was, now);
    }
  }

  lemma StatReadsOne(was: Root, names: seq<Sha>, n: nat)
    requires Lists(was, names) && n < |names|
    ensures names[n] in was
    ensures forall name :: name in names[..n + 1] <==> name in names[..n] || name == names[n]
  {
    assert names[n] in names;
  }

  lemma SortedIsExact(limits: Limits, was: Root, names: seq<Sha>, seen: Root, now: int)
    requires Exact(limits, was, was, Stating(names, |names|, seen)) && names != []
    ensures Exact(limits, was, was, Aging(SortByMtime(was, names), now, 0, [])) && seen == was
  {
    assert names[..|names|] == names;
    SortGivesMtimeOrder(was, names);
    assert names[0] in SortByMtime(was, names);
  }

  lemma NothingListed(limits: Limits, was: Root, now: int)
    requires Lists(was, [])
    ensures MtimeOrder(was, []) && was == Evicted(limits, was, now, [])
  {
    assert was == map[];
  }

  lemma AgingIsExact(limits: Limits, was: Root, root: Root, entries: seq<Sha>, now: int, i: nat, survivors: seq<Sha>)
    requires Aging(entries, now, i, survivors).Valid() && Exact(limits, was, root, Aging(entries, now, i, survivors))
    ensures var after := AgeNext(limits, root, entries, now, i, survivors); Exact(limits, was, after.root, after.pass)
  {
    if i == |entries| {
      AgePassLeaves(limits, was, now, entries, root, survivors);
      RemainingAreThere(limits, was, now, entries, root, survivors);
      assert survivors[0..] == survivors;
    } else {
      assert entries[i] in root && root[entries[i]] == was[entries[i]];
      if entries[i] != entries[|entries| - 1] && TooOld(limits, was, now, entries[i]) {
        AgePassRemoves(limits, was, now, entries, root, survivors, i);
      } else {
        AgePassKeeps(limits, was, now, entries, root, survivors, i);
      }
    }
  }

  lemma SizingIsExact(limits: Limits, was: Root, root: Root, entries: seq<Sha>, now: int, survivors: seq<Sha>, k: nat,
          total: int)
    requires Exact(limits, was, root, Sizing(entries, now, survivors, k, total))
    ensures k == |survivors| ==> Exact(limits, was, root, Dropping(entries, now, survivors, total))
    ensures k < |survivors| ==> survivors[k] in root
    ensures k < |survivors| ==>
            Exact(limits, was, root, Sizing(entries, now, survivors, k + 1, total + SizeNow(root, survivors[k])))
  {
    RemainingAreThere(limits, was, now, entries, root, survivors);
    if k < |survivors| {
      assert survivors[k] in survivors && survivors[k..][1..] == survivors[k + 1..];
    }
  }

  lemma DroppingIsExact(limits: Limits, was: Root, root: Root, entries: seq<Sha>, now: int, survivors: seq<Sha>,
          total: int)
    requires Exact(limits, was, root, Dropping(entries, now, survivors, total))
    ensures survivors != [] && survivors[0] in root
    ensures var after := DropNext(limits, root, entries, now, survivors, total, false);
            Exact(limits, was, after.root, after.pass)
  {
    RemainingAreThere(limits, was, now, entries, root, survivors);
    assert survivors[0] in survivors;
    if IsOver(limits, survivors, total) {
      OldestDrops(limits, was, now, entries, root, survivors);
    } else {
      RemainingStand(limits, was, now, entries, root, survivors);
    }
  }

  /** An undisturbed eviction never raises, and when it ends it has left exactly the closed form's survivors. */
  lemma SweepIsExact(limits: Limits, was: Root, root: Root, pass: Pass, reading: Reading)
    requires CanSweep(limits, root, pass, reading) && Exact(limits, was, root, pass)
    ensures var after := SweepStep(limits, root, pass, reading); Exact(limits, was, after.root, after.pass)
  {
    match pass
    case Stating(names, n, seen) => StatingIsExact(limits, was, names, n, seen, reading.now);
    case Aging(entries, now, i, survivors) => AgingIsExact(limits, was, root, entries, now, i, survivors);
    case Sizing(entries, now, survivors, k, total) => SizingIsExact(limits, was, root, entries, now, survivors, k,
      total);
    case Dropping(entries, now, survivors, total) => DroppingIsExact(limits, was, root, entries, now, survivors, total);
    case _ =>
  }
}
