/**
 A clone and the eviction its own install triggers (`get_or_fetch` of `api/method_cache.py`): exactly when the
 clone that was just renamed into the root is still there afterwards.
 */
module InstalledClone {
  import opened FileTree
  import opened CloneEviction

  ghost predicate Behind(order: seq<Sha>, a: Sha, b: Sha) {
    exists i, j :: 0 <= i < j < |order| && order[i] == a && order[j] == b
  }

  /** The clones that stand behind the given one in the order, and so go after it. */
  ghost function Rivals(root: Root, order: seq<Sha>, sha: Sha): Root {
    map name | name in root && Behind(order, sha, name) :: root[name]
  }

  /** Young enough, and within both bounds together with its rivals; or without a rival at all. */
  ghost predicate Outlives(limits: Limits, now: int, clone: Clone, rivals: Root) {
    || rivals == map[]
    || (&& now - clone.mtime <= limits.maxAge
        && |rivals| + 1 <= limits.maxClones
        && SizeBytes(clone.tree) + RootBytes(rivals) <= limits.maxBytes)
  }

  lemma BehindIsAfter(order: seq<Sha>, i: int, name: Sha)
    requires NoDuplicates(order) && 0 <= i < |order|
    ensures Behind(order, order[i], name) <==> name in order[i + 1..]
  {
    if name in order[i + 1..] {
      var j :| 0 <= j < |order[i + 1..]| && order[i + 1..][j] == name;
      assert order[i + 1 + j] == name;
    }
    if Behind(order, order[i], name) {
      var m, j :| 0 <= m < j < |order| && order[m] == order[i] && order[j] == name;
      assert m == i && order[i + 1..][j - i - 1] == name;
    }
  }

  lemma RivalsAreListed(root: Root, sha: Sha, clone: Clone, order: seq<Sha>, i: int)
    requires sha !in root && MtimeOrder(root[sha := clone], order) && 0 <= i < |order| && order[i] == sha
    ensures Lists(Rivals(root, order, sha), order[i + 1..])
    ensures forall name :: name in order[i + 1..] ==> name in root
  {
    var rest := order[i + 1..];
    forall name ensures name in Rivals(root, order, sha) <==> name in rest {
      BehindIsAfter(order, i, name);
      if name in rest {
        var j :| 0 <= j < |rest| && rest[j] == name;
        assert order[i + 1 + j] == name && name in order;
      }
    }
  }

  lemma RivalSizes(root: Root, sha: Sha, clone: Clone, order: seq<Sha>, i: int)
    requires sha !in root && MtimeOrder(root[sha := clone], order) && 0 <= i < |order| && order[i] == sha
    ensures |Rivals(root, order, sha)| == |order| - i - 1
    ensures TotalBytes(root[sha := clone], order[i..]) == SizeBytes(clone.tree) + RootBytes(Rivals(root, order, sha))
  {
    var installed, rest := root[sha := clone], order[i + 1..];
    RivalsAreListed(root, sha, clone, order, i);
    RootBytesIsTotal(Rivals(root, order, sha), rest);
    SameTotal(Rivals(root, order, sha), installed, rest);
    assert order[i..][1..] == rest;
  }

  lemma KeepableIffOutlives(limits: Limits, root: Root, sha: Sha, clone: Clone, now: int, order: seq<Sha>, i: int)
    requires sha !in root && MtimeOrder(root[sha := clone], order) && 0 <= i < |order| && order[i] == sha
    ensures Keepable(limits, root[sha := clone], now, order, i)
            <==> Outlives(limits, now, clone, Rivals(root, order, sha))
  {
    RivalSizes(root, sha, clone, order, i);
    var rivals := Rivals(root, order, sha);
    assert rivals == map[] <==> |rivals| == 0;
  }

  /**
   Exactly when a clone outlives the eviction that its own install triggers, in whatever order equal times are
   taken.
   */
  lemma InstalledCloneSurvives(limits: Limits, root: Root, sha: Sha, clone: Clone, now: int, order: seq<Sha>)
    requires sha !in root && MtimeOrder(root[sha := clone], order)
    ensures sha in Evicted(limits, root[sha := clone], now, order)
       <==> Outlives(limits, now, clone, Rivals(root, order, sha))
  {
    assert sha in root[sha := clone];
    var i := PositionOf(root[sha := clone], order, sha);
    KeepableIffOutlives(limits, root, sha, clone, now, order, i);
    EvictedEntries(limits, root[sha := clone], now, order);
  }

  lemma PositionOf(root: Root, order: seq<Sha>, sha: Sha) returns (i: int)
    requires Lists(root, order) && sha in root
    ensures 0 <= i < |order| && order[i] == sha
  {
    assert sha in order;
    i :| 0 <= i < |order| && order[i] == sha;
  }

  /** The clones strictly newer than the given one. */
  ghost function Newer(root: Root, clone: Clone): Root {
    map name | name in root && clone.mtime < root[name].mtime :: root[name]
  }

  /** Where no other clone has the same time, the rivals are the newer clones, in every order. */
  lemma RivalsAreTheNewer(root: Root, sha: Sha, clone: Clone, order: seq<Sha>)
    requires sha !in root && MtimeOrder(root[sha := clone], order)
    requires forall name :: name in root ==> root[name].mtime != clone.mtime
    ensures Rivals(root, order, sha) == Newer(root, clone)
  {
    var installed := root[sha := clone];
    forall name | name in root ensures Behind(order, sha, name) <==> clone.mtime < root[name].mtime {
      assert sha in order && name in order;
      var i :| 0 <= i < |order| && order[i] == sha;
      var j :| 0 <= j < |order| && order[j] == name;
      BehindIsAfter(order, i, name);
      if i < j {
        assert NotNewer(installed, order[i], order[j]) && order[i + 1..][j - i - 1] == name;
      } else {
        assert NotNewer(installed, order[j], order[i]);
      }
    }
  }

  /** Insertion puts the name after everything that is not newer and before everything that is. */
  lemma {:induction false} InsertSplits(root: Root, name: Sha, sorted: seq<Sha>) returns (k: nat)
    requires name in root && (forall other :: other in sorted ==> other in root) && ByMtime(root, sorted)
    ensures k <= |sorted| && InsertByMtime(root, name, sorted) == sorted[..k] + [name] + sorted[k..]
    ensures forall j :: 0 <= j < k ==> root[sorted[j]].mtime <= root[name].mtime
    ensures forall j :: k <= j < |sorted| ==> root[name].mtime < root[sorted[j]].mtime
  {
    var n := |sorted| - 1;
    if sorted == [] || root[sorted[n]].mtime <= root[name].mtime {
      k := |sorted|;
      forall j | 0 <= j < k ensures root[sorted[j]].mtime <= root[name].mtime {
        assert j < n ==> NotNewer(root, sorted[j], sorted[n]);
      }
    } else {
      var shorter := sorted[..n];
      assert forall i, j {:trigger NotNewer(root, shorter[i], shorter[j])} :: 0 <= i < j < n ==>
        NotNewer(root, sorted[i], sorted[j]);
      k := InsertSplits(root, name, shorter);
      assert forall j :: 0 <= j < n ==> shorter[j] == sorted[j];
      assert shorter[k..] + [sorted[n]] == sorted[k..] && shorter[..k] == sorted[..k];
    }
  }

  lemma BehindInserted(sorted: seq<Sha>, k: nat, name: Sha, a: Sha, b: Sha)
    requires k <= |sorted| && NoDuplicates(sorted) && name !in sorted && a in sorted && b in sorted
    ensures var inserted := sorted[..k] + [name] + sorted[k..];
            && (Behind(inserted, a, b) <==> Behind(sorted, a, b))
            && (Behind(inserted, a, name) <==> a in sorted[..k])
            && (Behind(inserted, name, b) <==> b in sorted[k..])
  {
    var inserted := sorted[..k] + [name] + sorted[k..];
    var i :| 0 <= i < |sorted| && sorted[i] == a;
    var j :| 0 <= j < |sorted| && sorted[j] == b;
    var i', j' := if i < k then i else i + 1, if j < k then j else j + 1;
    InsertedIsDistinct(sorted, k, name);
    assert inserted[i'] == a && inserted[j'] == b && inserted[k] == name;
    BehindByIndex(inserted, i', j');
    BehindByIndex(sorted, i, j);
    BehindByIndex(inserted, i', k);
    BehindByIndex(inserted, k, j');
    assert i < k <==> a in sorted[..k] by { if i < k { assert sorted[..k][i] == a; } }
    assert k <= j <==> b in sorted[k..] by { if k <= j { assert sorted[k..][j - k] == b; } }
  }

  lemma InsertedIsDistinct(sorted: seq<Sha>, k: nat, name: Sha)
    requires k <= |sorted| && NoDuplicates(sorted) && name !in sorted
    ensures NoDuplicates(sorted[..k] + [name] + sorted[k..])
  {
    var inserted := sorted[..k] + [name] + sorted[k..];
    forall i, j | 0 <= i < j < |inserted| ensures inserted[i] != inserted[j] {
      assert forall m :: 0 <= m < |inserted| && m != k ==> inserted[m] == sorted[if m < k then m else m - 1];
    }
  }

  lemma BehindByIndex(order: seq<Sha>, i: int, j: int)
    requires NoDuplicates(order) && 0 <= i < |order| && 0 <= j < |order|
    ensures Behind(order, order[i], order[j]) <==> i < j
  {
  }

  /** The sort is stable: an entry goes after another when it is newer, or was listed later with an equal time. */
  lemma {:induction false} SortIsStable(root: Root, listing: seq<Sha>, a: Sha, b: Sha)
    requires NoDuplicates(listing) && forall name :: name in listing ==> name in root
    requires a in listing && b in listing && a != b
    ensures Behind(SortByMtime(root, listing), a, b) <==>
            || root[a].mtime < root[b].mtime
            || (root[a].mtime == root[b].mtime && Behind(listing, a, b))
  {
    var n := |listing| - 1;
    var shorter, last := listing[..n], listing[n];
    var sorted := SortByMtime(root, shorter);
    SortGivesMtimeOrder(root, shorter);
    assert last !in shorter && last !in sorted && listing == shorter + [last] + [];
    var k := InsertSplits(root, last, sorted);
    var other := if a == last then b else a;
    assert other in shorter && (a == last || a in shorter) && (b == last || b in shorter);
    BehindInserted(sorted, k, last, if a == last then other else a, if b == last then other else b);
    assert shorter[..n] == shorter && shorter[n..] == [];
    BehindInserted(shorter, n, last, if a == last then other else a, if b == last then other else b);
    if a != last && b != last {
      SortIsStable(root, shorter, a, b);
    } else {
      PlaceOf(root, last, sorted, k, other);
    }
  }

  lemma PlaceOf(root: Root, name: Sha, sorted: seq<Sha>, k: nat, other: Sha)
    requires name in root && (forall entry :: entry in sorted ==> entry in root) && k <= |sorted| && other in sorted
    requires forall j :: 0 <= j < k ==> root[sorted[j]].mtime <= root[name].mtime
    requires forall j :: k <= j < |sorted| ==> root[name].mtime < root[sorted[j]].mtime
    ensures other in sorted[..k] <==> root[other].mtime <= root[name].mtime
    ensures other in sorted[k..] <==> root[name].mtime < root[other].mtime
  {
    var j :| 0 <= j < |sorted| && sorted[j] == other;
    if j < k {
      assert sorted[..k][j] == other;
    } else {
      assert sorted[k..][j - k] == other;
    }
  }

  /** The clones newer than the given one, or listed after it with the same time. */
  ghost function LaterInListing(root: Root, sha: Sha, clone: Clone, listing: seq<Sha>): Root {
    map name | name in root && IsLater(root[name], clone, Behind(listing, sha, name)) :: root[name]
  }

  predicate IsLater(other: Clone, clone: Clone, listedAfter: bool) {
    clone.mtime < other.mtime || (clone.mtime == other.mtime && listedAfter)
  }

  lemma RivalsAreLater(root: Root, sha: Sha, clone: Clone, listing: seq<Sha>)
    requires sha !in root && Lists(root[sha := clone], listing)
    ensures Rivals(root, SortByMtime(root[sha := clone], listing), sha) == LaterInListing(root, sha, clone, listing)
  {
    var installed := root[sha := clone];
    forall name | name in root
      ensures Behind(SortByMtime(installed, listing), sha, name)
              <==> IsLater(root[name], clone, Behind(listing, sha, name))
    {
      SortIsStable(installed, listing, sha, name);
    }
  }

  /**
   The same, on what is there before the call: a clone just renamed into the root outlives the eviction
   exactly when no clone is newer nor listed after it with the same time, or it is young enough and fits
   both bounds together with all of these.
   */
  lemma InstalledCloneSurvivesIff(limits: Limits, root: Root, sha: Sha, clone: Clone, now: int, listing: seq<Sha>)
    requires sha !in root && Lists(root[sha := clone], listing)
    ensures MtimeOrder(root[sha := clone], SortByMtime(root[sha := clone], listing))
    ensures sha in Evicted(limits, root[sha := clone], now, SortByMtime(root[sha := clone], listing))
       <==> Outlives(limits, now, clone, LaterInListing(root, sha, clone, listing))
  {
    SortGivesMtimeOrder(root[sha := clone], listing);
    RivalsAreLater(root, sha, clone, listing);
    InstalledCloneSurvives(limits, root, sha, clone, now, SortByMtime(root[sha := clone], listing));
  }

  /**
   The module's documentation says an insert never evicts the most recently used entry. It can: a clone
   whose directory time is older than another entry's is evicted by its own install, here under a
   one-clone bound.
   */
  lemma InstallCanEvictItsOwnClone()
    ensures
      var limits := Limits(1, 100, 100);
      var root: Root :=
        map["old-tag" := Clone([File(["f"], [0])], 7), "just-installed" := Clone([File(["f"], [0])], 5)];
      forall order :: MtimeOrder(root, order) ==>
        Evicted(limits, root, 8, order) == map["old-tag" := Clone([File(["f"], [0])], 7)]
  {
    var limits := Limits(1, 100, 100);
    var root: Root := map["old-tag" := Clone([File(["f"], [0])], 7), "just-installed" := Clone([File(["f"], [0])], 5)];
    forall order | MtimeOrder(root, order)
      ensures Evicted(limits, root, 8, order) == map["old-tag" := Clone([File(["f"], [0])], 7)]
    {
      RootBytesIsTotal(root, order);
      assert root.Keys == {"old-tag", "just-installed"};
      assert |order| == 2;
      assert order[0] in order && order[1] in order && NotNewer(root, order[0], order[1]);
      assert order == ["just-installed", "old-tag"];
      EvictedEntries(limits, root, 8, order);
    }
  }
}
