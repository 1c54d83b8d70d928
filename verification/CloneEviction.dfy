/**
 The on-disk part of the clone cache (`api/method_cache.py`): one directory per commit SHA, each
 with a modification time that serves as its last use, and the eviction that keeps the directory
 set within the age, count and byte bounds.

 Modification times and the clock are inputs, and removing a directory succeeds.
 */
module CloneEviction {
  import opened Wrappers
  import opened FileTree

  type Sha = string

  datatype Clone = Clone(tree: Tree, mtime: int)

  /** The cache root without its staging directory: what `iterdir` lists, by name. */
  type Root = map<Sha, Clone>

  datatype Limits = Limits(maxClones: pos, maxBytes: pos, maxAge: pos)

  /** Only regular files count; a symlink is not followed. */
  function SizeBytes(tree: Tree): nat {
    if tree == [] then 0
    else SizeBytes(tree[..|tree| - 1]) + if tree[|tree| - 1].File? then |tree[|tree| - 1].data| else 0
  }

  /** One regular file weighs its content, nothing else weighs anything, and trees add up. */
  lemma SizeOfNode(node: FsNode)
    ensures SizeBytes([node]) == if node.File? then |node.data| else 0
  {
    assert [node][..0] == [];
  }

  lemma {:induction false} SizeOfConcat(a: Tree, b: Tree)
    ensures SizeBytes(a + b) == SizeBytes(a) + SizeBytes(b)
  {
    if b == [] {
      assert a + b == a;
    } else {
      assert (a + b)[..|a + b| - 1] == a + b[..|b| - 1];
      SizeOfConcat(a, b[..|b| - 1]);
    }
  }

  function TotalBytes(root: Root, names: seq<Sha>): nat
    requires forall name :: name in names ==> name in root
  {
    if names == [] then 0 else SizeBytes(root[names[0]].tree) + TotalBytes(root, names[1..])
  }

  ghost predicate NoDuplicates<T>(s: seq<T>) {
    forall i, j :: 0 <= i < j < |s| ==> s[i] != s[j]
  }

  ghost predicate Lists(root: Root, names: seq<Sha>) {
    && NoDuplicates(names)
    && (forall name :: name in names <==> name in root)
  }

  ghost predicate NotNewer(root: Root, a: Sha, b: Sha)
    requires a in root && b in root
  {
    root[a].mtime <= root[b].mtime
  }

  ghost predicate ByMtime(root: Root, names: seq<Sha>)
    requires forall name :: name in names ==> name in root
  {
    forall i, j {:trigger NotNewer(root, names[i], names[j])} :: 0 <= i < j < |names| ==>
      NotNewer(root, names[i], names[j])
  }

  /** The entries of the root, oldest first; entries with equal times stand in any order. */
  ghost predicate MtimeOrder(root: Root, order: seq<Sha>) {
    Lists(root, order) && ByMtime(root, order)
  }

  predicate TooOld(limits: Limits, root: Root, now: int, name: Sha)
    requires name in root
  {
    now - root[name].mtime > limits.maxAge
  }

  /**
   Whether the entry at position `i` of the mtime order outlives an eviction: the newest always does;
   any other one when it is young enough and it and everything newer fit both bounds together.
   */
  predicate Keepable(limits: Limits, root: Root, now: int, order: seq<Sha>, i: int)
    requires forall name :: name in order ==> name in root
    requires 0 <= i < |order|
  {
    || i == |order| - 1
    || (&& !TooOld(limits, root, now, order[i])
        && |order| - i <= limits.maxClones
        && TotalBytes(root, order[i..]) <= limits.maxBytes)
  }

  /** What an eviction leaves of the root. */
  ghost function Evicted(limits: Limits, root: Root, now: int, order: seq<Sha>): Root
    requires MtimeOrder(root, order)
  {
    map name | name in root
      && (exists i :: 0 <= i < |order| && order[i] == name && Keepable(limits, root, now, order, i)) :: root[name]
  }

  /** `left` is the part of the root whose names stand at position `cut` of the order or later. */
  ghost predicate HoldsFrom(left: Root, root: Root, order: seq<Sha>, cut: int) {
    && (forall name :: name in left ==> name in root && left[name] == root[name])
    && (forall k :: 0 <= k < |order| ==> (order[k] in left <==> cut <= k))
  }

  /** Stable insertion of one name by modification time, after every name that is not newer. */
  function InsertByMtime(root: Root, name: Sha, sorted: seq<Sha>): (r: seq<Sha>)
    requires name in root && forall other :: other in sorted ==> other in root
    ensures forall other :: other in r <==> other == name || other in sorted
  {
    if sorted == [] || root[sorted[|sorted| - 1]].mtime <= root[name].mtime then sorted + [name]
    else InsertByMtime(root, name, sorted[..|sorted| - 1]) + [sorted[|sorted| - 1]]
  }

  /** `sorted(root.iterdir(), key=mtime)`, for whatever order the directory is listed in. */
  function SortByMtime(root: Root, listing: seq<Sha>): (r: seq<Sha>)
    requires forall name :: name in listing ==> name in root
    ensures forall name :: name in r <==> name in listing
  {
    if listing == [] then []
    else InsertByMtime(root, listing[|listing| - 1], SortByMtime(root, listing[..|listing| - 1]))
  }

  lemma {:induction false} InsertKeepsDistinct(root: Root, name: Sha, sorted: seq<Sha>)
    requires name in root && name !in sorted && forall other :: other in sorted ==> other in root
    requires NoDuplicates(sorted)
    ensures NoDuplicates(InsertByMtime(root, name, sorted))
  {
    if sorted != [] && root[sorted[|sorted| - 1]].mtime > root[name].mtime {
      var shorter := sorted[..|sorted| - 1];
      InsertKeepsDistinct(root, name, shorter);
      assert sorted[|sorted| - 1] !in InsertByMtime(root, name, shorter);
    }
  }

  lemma {:induction false} InsertKeepsOrder(root: Root, name: Sha, sorted: seq<Sha>)
    requires name in root && forall other :: other in sorted ==> other in root
    requires ByMtime(root, sorted)
    ensures ByMtime(root, InsertByMtime(root, name, sorted))
  {
    if sorted == [] {
      return;
    }
    var last := sorted[|sorted| - 1];
    var shorter := sorted[..|sorted| - 1];
    forall other | other in sorted ensures NotNewer(root, other, last) {
      var j :| 0 <= j < |sorted| && sorted[j] == other;
      assert j < |sorted| - 1 ==> NotNewer(root, sorted[j], sorted[|sorted| - 1]);
    }
    if NotNewer(root, last, name) {
      assert forall i :: 0 <= i < |sorted| ==> sorted[i] in sorted;
    } else {
      assert forall i, j {:trigger NotNewer(root, shorter[i], shorter[j])} :: 0 <= i < j < |shorter| ==>
        NotNewer(root, sorted[i], sorted[j]);
      InsertKeepsOrder(root, name, shorter);
      var inserted := InsertByMtime(root, name, shorter);
      assert forall i :: 0 <= i < |inserted| ==> inserted[i] in inserted;
    }
  }

  /** Whatever order the directory lists its entries in, sorting gives an mtime order of the root. */
  lemma {:induction false} SortGivesMtimeOrder(root: Root, listing: seq<Sha>)
    requires NoDuplicates(listing) && forall name :: name in listing ==> name in root
    ensures NoDuplicates(SortByMtime(root, listing)) && ByMtime(root, SortByMtime(root, listing))
    ensures Lists(root, listing) ==> MtimeOrder(root, SortByMtime(root, listing))
  {
    if listing != [] {
      var shorter := listing[..|listing| - 1];
      SortGivesMtimeOrder(root, shorter);
      assert listing[|listing| - 1] !in shorter;
      InsertKeepsDistinct(root, listing[|listing| - 1], SortByMtime(root, shorter));
      InsertKeepsOrder(root, listing[|listing| - 1], SortByMtime(root, shorter));
    }
  }

  lemma {:induction false} TotalOfSuffix(root: Root, names: seq<Sha>, i: int, j: int)
    requires forall name :: name in names ==> name in root
    requires 0 <= i <= j <= |names|
    ensures TotalBytes(root, names[j..]) <= TotalBytes(root, names[i..])
    decreases j - i
  {
    if i < j {
      assert names[i..][1..] == names[i + 1..];
      TotalOfSuffix(root, names, i + 1, j);
    }
  }

  lemma OlderIsTooOld(limits: Limits, root: Root, now: int, order: seq<Sha>, i: int, j: int)
    requires forall name :: name in order ==> name in root
    requires ByMtime(root, order) && 0 <= i <= j < |order| && TooOld(limits, root, now, order[j])
    ensures TooOld(limits, root, now, order[i])
  {
    assert i < j ==> NotNewer(root, order[i], order[j]);
  }

  /** Everything newer than a survivor survives too: survivors are a suffix of the mtime order. */
  lemma KeepableIsUpwardClosed(limits: Limits, root: Root, now: int, order: seq<Sha>, i: int, j: int)
    requires forall name :: name in order ==> name in root
    requires ByMtime(root, order) && 0 <= i <= j < |order|
    requires Keepable(limits, root, now, order, i)
    ensures Keepable(limits, root, now, order, j)
  {
    if i < j && j != |order| - 1 {
      if TooOld(limits, root, now, order[j]) {
        OlderIsTooOld(limits, root, now, order, i, j);
      }
      TotalOfSuffix(root, order, i, j);
    }
  }

  lemma EvictedEntries(limits: Limits, root: Root, now: int, order: seq<Sha>)
    requires MtimeOrder(root, order)
    ensures forall name :: name in Evicted(limits, root, now, order) ==>
            name in root && Evicted(limits, root, now, order)[name] == root[name]
    ensures forall i :: 0 <= i < |order| ==>
            (order[i] in Evicted(limits, root, now, order) <==> Keepable(limits, root, now, order, i))
  {
  }

  /** The position the survivors start at. */
  lemma SurvivorCut(limits: Limits, root: Root, now: int, order: seq<Sha>) returns (cut: nat)
    requires forall name :: name in order ==> name in root
    requires ByMtime(root, order) && order != []
    ensures cut < |order|
    ensures forall i :: 0 <= i < |order| ==> (Keepable(limits, root, now, order, i) <==> cut <= i)
  {
    cut := |order| - 1;
    while cut > 0 && Keepable(limits, root, now, order, cut - 1)
      invariant cut < |order| && Keepable(limits, root, now, order, cut)
    {
      cut := cut - 1;
    }
    forall i | 0 <= i < |order| ensures Keepable(limits, root, now, order, i) <==> cut <= i {
      if cut <= i {
        KeepableIsUpwardClosed(limits, root, now, order, cut, i);
      } else if Keepable(limits, root, now, order, i) {
        KeepableIsUpwardClosed(limits, root, now, order, i, cut - 1);
      }
    }
  }

  /** The first survivor's position fixes everything eviction leaves. */
  lemma NewestSuffixIsEvicted(limits: Limits, root: Root, now: int, order: seq<Sha>, cut: int, left: Root)
    requires MtimeOrder(root, order) && 0 <= cut < |order| && HoldsFrom(left, root, order, cut)
    requires Keepable(limits, root, now, order, cut)
    requires cut == 0 || !Keepable(limits, root, now, order, cut - 1)
    ensures left == Evicted(limits, root, now, order)
  {
    var first := SurvivorCut(limits, root, now, order);
    assert first == cut;
    EvictedEntries(limits, root, now, order);
    forall name | name in root ensures name in left <==> name in Evicted(limits, root, now, order) {
      assert name in order;
    }
  }

  /**
   The survivors are exactly a contiguous newest suffix of the mtime order. It holds the newest entry,
   no survivor but the newest is too old, it meets both bounds unless it is the newest alone, and it is
   the longest suffix of the age survivors that does.
   */
  lemma EvictionKeepsNewestSuffix(limits: Limits, root: Root, now: int, order: seq<Sha>) returns (cut: nat)
    requires MtimeOrder(root, order) && order != []
    ensures cut < |order|
    ensures HoldsFrom(Evicted(limits, root, now, order), root, order, cut)
    ensures forall i :: cut <= i < |order| - 1 ==> !TooOld(limits, root, now, order[i])
    ensures cut == |order| - 1
            || (|order| - cut <= limits.maxClones && TotalBytes(root, order[cut..]) <= limits.maxBytes)
    ensures forall k :: 0 <= k < cut ==>
              || TooOld(limits, root, now, order[k])
              || |order| - k > limits.maxClones
              || TotalBytes(root, order[k..]) > limits.maxBytes
  {
    cut := SurvivorCut(limits, root, now, order);
    EvictedEntries(limits, root, now, order);
    assert Keepable(limits, root, now, order, cut);
    forall k | 0 <= k < cut
      ensures TooOld(limits, root, now, order[k]) || |order| - k > limits.maxClones
              || TotalBytes(root, order[k..]) > limits.maxBytes
    {
      assert !Keepable(limits, root, now, order, k);
    }
    forall i | cut <= i < |order| - 1 ensures !TooOld(limits, root, now, order[i]) {
      assert Keepable(limits, root, now, order, i);
    }
  }

  lemma {:induction false} SameTotal(a: Root, b: Root, names: seq<Sha>)
    requires forall name :: name in names ==> name in a && name in b && a[name].tree == b[name].tree
    ensures TotalBytes(a, names) == TotalBytes(b, names)
  {
    if names != [] {
      SameTotal(a, b, names[1..]);
    }
  }

  /** The bytes of a whole root, independent of any listing order. */
  ghost function RootBytes(root: Root): nat
    decreases |root|
  {
    if root == map[] then 0
    else
      var name :| name in root;
      SizeBytes(root[name].tree) + RootBytes(root - {name})
  }

  lemma {:induction false} RootBytesRemove(root: Root, name: Sha)
    requires name in root
    ensures RootBytes(root) == SizeBytes(root[name].tree) + RootBytes(root - {name})
    ensures |root| == |root - {name}| + 1
    decreases |root|
  {
    assert root.Keys == (root - {name}).Keys + {name};
    var picked :| picked in root && RootBytes(root) == SizeBytes(root[picked].tree) + RootBytes(root - {picked});
    if picked != name {
      RootBytesRemove(root - {picked}, name);
      RootBytesRemove(root - {name}, picked);
      assert root - {picked} - {name} == root - {name} - {picked};
    }
  }

  lemma RootBytesOfOne(name: Sha, clone: Clone)
    ensures RootBytes(map[]) == 0 && RootBytes(map[name := clone]) == SizeBytes(clone.tree)
  {
    RootBytesRemove(map[name := clone], name);
    assert map[name := clone] - {name} == map[];
  }

  lemma {:induction false} RootBytesIsTotal(root: Root, names: seq<Sha>)
    requires Lists(root, names)
    ensures RootBytes(root) == TotalBytes(root, names) && |root| == |names|
  {
    if names == [] {
      assert root == map[];
    } else {
      assert names[0] in root;
      RootBytesRemove(root, names[0]);
      var rest := root - {names[0]};
      forall name ensures name in names[1..] <==> name in rest {
        if name in names[1..] { assert name in names; }
        if name in rest { assert name in names; }
      }
      RootBytesIsTotal(rest, names[1..]);
      SameTotal(rest, root, names[1..]);
    }
  }

  lemma {:induction false} RootBytesOfSubset(smaller: Root, root: Root)
    requires forall name :: name in smaller ==> name in root && root[name].tree == smaller[name].tree
    ensures RootBytes(smaller) <= RootBytes(root) && |smaller| <= |root|
    decreases |root|
  {
    if smaller != map[] {
      var name :| name in smaller;
      RootBytesRemove(smaller, name);
      RootBytesRemove(root, name);
      RootBytesOfSubset(smaller - {name}, root - {name});
    }
  }

  /** The bounds the cache promises: few enough clones, and few enough bytes unless one clone alone is too big. */
  ghost predicate WithinBounds(limits: Limits, root: Root) {
    |root| <= limits.maxClones && (|root| <= 1 || RootBytes(root) <= limits.maxBytes)
  }

  lemma SuffixIsListed(left: Root, root: Root, order: seq<Sha>, cut: int)
    requires Lists(root, order) && 0 <= cut <= |order| && HoldsFrom(left, root, order, cut)
    ensures Lists(left, order[cut..])
  {
    forall name | name in left ensures name in order[cut..] {
      assert name in order;
    }
  }

  lemma EvictionRestoresBounds(limits: Limits, root: Root, now: int, order: seq<Sha>)
    requires MtimeOrder(root, order)
    ensures WithinBounds(limits, Evicted(limits, root, now, order))
  {
    if order == [] {
      assert Evicted(limits, root, now, order) == map[];
    } else {
      var cut := EvictionKeepsNewestSuffix(limits, root, now, order);
      var left := Evicted(limits, root, now, order);
      SuffixIsListed(left, root, order, cut);
      RootBytesIsTotal(left, order[cut..]);
      SameTotal(left, root, order[cut..]);
    }
  }

  /** Evicting again at the same moment removes nothing more, whatever order equal times are taken in. */
  lemma EvictionIsIdempotent(limits: Limits, root: Root, now: int, order: seq<Sha>, order': seq<Sha>)
    requires MtimeOrder(root, order) && MtimeOrder(Evicted(limits, root, now, order), order')
    ensures Evicted(limits, Evicted(limits, root, now, order), now, order') == Evicted(limits, root, now, order)
  {
    var left := Evicted(limits, root, now, order);
    if order' != [] {
      EvictionRestoresBounds(limits, root, now, order);
      RootBytesIsTotal(left, order');
      assert order'[0..] == order';
      if |order'| > 1 {
        YoungUnlessAlone(limits, root, now, order, order'[0], order'[1]);
      }
      assert Keepable(limits, left, now, order', 0);
      NewestSuffixIsEvicted(limits, left, now, order', 0, left);
    }
  }

  /** Two survivors, the first no newer than the second: neither is too old. */
  lemma YoungUnlessAlone(limits: Limits, root: Root, now: int, order: seq<Sha>, a: Sha, b: Sha)
    requires MtimeOrder(root, order) && a != b
    requires a in Evicted(limits, root, now, order) && b in Evicted(limits, root, now, order)
    ensures !TooOld(limits, root, now, a)
  {
    var i :| 0 <= i < |order| && order[i] == a && Keepable(limits, root, now, order, i);
    var j :| 0 <= j < |order| && order[j] == b && Keepable(limits, root, now, order, j);
    if i == |order| - 1 {
      assert NotNewer(root, order[j], order[i]);
    }
  }

  /** Taking the oldest entry that is left out of the root, and its bytes out of the total. */
  lemma OldestGoes(left: Root, root: Root, order: seq<Sha>, cut: int)
    requires Lists(root, order) && 0 <= cut < |order| && HoldsFrom(left, root, order, cut)
    ensures order[cut] in left && left[order[cut]] == root[order[cut]]
    ensures HoldsFrom(left - {order[cut]}, root, order, cut + 1)
    ensures order[cut..][1..] == order[cut + 1..]
    ensures TotalBytes(root, order[cut..]) == SizeBytes(root[order[cut]].tree) + TotalBytes(root, order[cut + 1..])
  {
    assert order[cut..][1..] == order[cut + 1..];
  }

  /** The part of the root from `cut` on, one by one: what the two passes size. */
  lemma SameSizes(left: Root, root: Root, order: seq<Sha>, cut: int)
    requires Lists(root, order) && 0 <= cut <= |order| && HoldsFrom(left, root, order, cut)
    ensures forall name :: name in order[cut..] ==> name in left && name in root
    ensures TotalBytes(left, order[cut..]) == TotalBytes(root, order[cut..])
  {
    SuffixIsListed(left, root, order, cut);
    SameTotal(left, root, order[cut..]);
  }

  /**
   The age pass, `seen` entries in: it has removed those before `cut`, and of the rest only the newest may be
   too old.
   */
  ghost predicate AgeCut(limits: Limits, root: Root, now: int, order: seq<Sha>, cut: int, seen: int)
    requires forall name :: name in order ==> name in root
  {
    && 0 <= cut < |order| && cut <= seen <= |order|
    && (cut == 0 || TooOld(limits, root, now, order[cut - 1]))
    && forall k :: cut <= k < seen && k < |order| - 1 ==> !TooOld(limits, root, now, order[k])
  }

  /** Where the age pass stands after `i` entries: what it kept, and what is left of the root. */
  ghost predicate AgePass(limits: Limits, was: Root, now: int, order: seq<Sha>, left: Root, survivors: seq<Sha>, i: int)
    requires forall name :: name in order ==> name in was
  {
    && |survivors| <= i <= |order|
    && var cut := i - |survivors|;
    && AgeCut(limits, was, now, order, cut, i)
    && survivors == order[cut..i]
    && HoldsFrom(left, was, order, cut)
  }

  lemma AgePassRemoves(limits: Limits, was: Root, now: int, order: seq<Sha>, left: Root, survivors: seq<Sha>, i: int)
    requires MtimeOrder(was, order) && AgePass(limits, was, now, order, left, survivors, i)
    requires i < |order| && order[i] != order[|order| - 1] && TooOld(limits, was, now, order[i])
    ensures AgePass(limits, was, now, order, left - {order[i]}, survivors, i + 1)
  {
    OlderIsTooOld(limits, was, now, order, i - |survivors|, i);
    OldestGoes(left, was, order, i);
  }

  lemma AgePassKeeps(limits: Limits, was: Root, now: int, order: seq<Sha>, left: Root, survivors: seq<Sha>, i: int)
    requires MtimeOrder(was, order) && AgePass(limits, was, now, order, left, survivors, i)
    requires i < |order| && (order[i] == order[|order| - 1] || !TooOld(limits, was, now, order[i]))
    ensures AgePass(limits, was, now, order, left, survivors + [order[i]], i + 1)
  {
  }

  /** No survivor starts before `cut`. */
  ghost predicate Passed(limits: Limits, root: Root, now: int, order: seq<Sha>, cut: int)
    requires forall name :: name in order ==> name in root
  {
    0 <= cut < |order| && (cut == 0 || !Keepable(limits, root, now, order, cut - 1))
  }

  lemma OverBoundsPasses(limits: Limits, root: Root, now: int, order: seq<Sha>, cut: int)
    requires forall name :: name in order ==> name in root
    requires 0 <= cut < |order| - 1
            && (|order| - cut > limits.maxClones || TotalBytes(root, order[cut..]) > limits.maxBytes)
    ensures Passed(limits, root, now, order, cut + 1)
  {
  }

  /** Where the count and byte pass stands: a suffix of the order that no too-old entry but the newest is in. */
  ghost predicate Remaining(limits: Limits, was: Root, now: int, order: seq<Sha>, left: Root, survivors: seq<Sha>)
    requires forall name :: name in order ==> name in was
  {
    && 0 < |survivors| <= |order|
    && var cut := |order| - |survivors|;
    && survivors == order[cut..]
    && HoldsFrom(left, was, order, cut)
    && Passed(limits, was, now, order, cut)
    && forall k :: cut <= k < |order| - 1 ==> !TooOld(limits, was, now, order[k])
  }

  lemma AgePassLeaves(limits: Limits, was: Root, now: int, order: seq<Sha>, left: Root, survivors: seq<Sha>)
    requires MtimeOrder(was, order) && AgePass(limits, was, now, order, left, survivors, |order|)
    ensures Remaining(limits, was, now, order, left, survivors)
  {
  }

  /** What remains is there, and as it was. */
  lemma RemainingAreThere(limits: Limits, was: Root, now: int, order: seq<Sha>, left: Root, survivors: seq<Sha>)
    requires MtimeOrder(was, order) && Remaining(limits, was, now, order, left, survivors)
    ensures forall name :: name in survivors ==> name in left && name in was && left[name] == was[name]
    ensures TotalBytes(left, survivors) == TotalBytes(was, survivors)
  {
    SameSizes(left, was, order, |order| - |survivors|);
  }

  /** Over a bound, the oldest goes, and its bytes go from the total. */
  lemma OldestDrops(limits: Limits, was: Root, now: int, order: seq<Sha>, left: Root, survivors: seq<Sha>)
    requires MtimeOrder(was, order) && Remaining(limits, was, now, order, left, survivors)
    requires forall name :: name in survivors ==> name in was
    requires |survivors| > 1 && (|survivors| > limits.maxClones || TotalBytes(was, survivors) > limits.maxBytes)
    ensures survivors[0] in left && left[survivors[0]] == was[survivors[0]]
    ensures Remaining(limits, was, now, order, left - {survivors[0]}, survivors[1..])
    ensures TotalBytes(was, survivors) == SizeBytes(was[survivors[0]].tree) + TotalBytes(was, survivors[1..])
  {
    var cut := |order| - |survivors|;
    OldestGoes(left, was, order, cut);
    OverBoundsPasses(limits, was, now, order, cut);
  }

  /** Within both bounds, or alone, what remains is what an eviction is to leave. */
  lemma RemainingStand(limits: Limits, was: Root, now: int, order: seq<Sha>, left: Root, survivors: seq<Sha>)
    requires MtimeOrder(was, order) && Remaining(limits, was, now, order, left, survivors)
    requires forall name :: name in survivors ==> name in was
    requires |survivors| == 1 || (|survivors| <= limits.maxClones && TotalBytes(was, survivors) <= limits.maxBytes)
    ensures left == Evicted(limits, was, now, order)
  {
    NewestSuffixIsEvicted(limits, was, now, order, |order| - |survivors|, left);
  }

  /** The cache object's directory operations; `get_or_fetch` runs each of them with the lock held. */
  class MethodCloneCache {
    const limits: Limits
    var root: Root

    constructor (limits: Limits, root: Root)
      ensures this.limits == limits && this.root == root
    {
      this.limits := limits;
      this.root := root;
    }

    static method DirectorySizeBytes(tree: Tree) returns (total: nat)
      ensures total == SizeBytes(tree)
    {
      total := 0;
      for k := 0 to |tree|
        invariant total == SizeBytes(tree[..k])
      {
        assert tree[..k + 1][..k] == tree[..k];
        if tree[k].File? {
          total := total + |tree[k].data|;
        }
      }
      assert tree[..|tree|] == tree;
    }

    /** The lookup: a hit refreshes the entry's time, which is the eviction order. */
    method Lookup(sha: Sha, now: int) returns (found: bool)
      modifies this`root
      ensures found == (sha in old(root))
      ensures root == if found then old(root)[sha := Clone(old(root)[sha].tree, now)] else old(root)
    {
      found := sha in root;
      if found {
        root := root[sha := root[sha].(mtime := now)];
      }
    }

    method SumSizes(names: seq<Sha>) returns (total: nat)
      requires forall name :: name in names ==> name in root
      ensures total == TotalBytes(root, names)
    {
      total := 0;
      for k := 0 to |names|
        invariant total + TotalBytes(root, names[k..]) == TotalBytes(root, names)
      {
        assert names[k] in names && names[k..][1..] == names[k + 1..];
        var size := DirectorySizeBytes(root[names[k]].tree);
        total := total + size;
      }
    }

    /** The age pass: it removes a prefix of the mtime order, every entry of it too old, and never the newest. */
    method DropAged(entries: seq<Sha>, now: int) returns (survivors: seq<Sha>)
      requires MtimeOrder(root, entries) && entries != []
      modifies this`root
      ensures AgePass(limits, old(root), now, entries, root, survivors, |entries|)
    {
      ghost var was := root;
      var newest := entries[|entries| - 1];
      survivors := [];
      for i := 0 to |entries|
        invariant AgePass(limits, was, now, entries, root, survivors, i)
      {
        var entry := entries[i];
        if entry != newest && now - root[entry].mtime > limits.maxAge {
          AgePassRemoves(limits, was, now, entries, root, survivors, i);
          root := root - {entry};
        } else {
          AgePassKeeps(limits, was, now, entries, root, survivors, i);
          survivors := survivors + [entry];
        }
      }
    }

    /** The count and byte pass over the age survivors: the running byte total is theirs at every turn. */
    method DropOldest(ghost was: Root, ghost entries: seq<Sha>, ghost now: int, names: seq<Sha>)
      requires MtimeOrder(was, entries) && Remaining(limits, was, now, entries, root, names)
      modifies this`root
      ensures root == Evicted(limits, was, now, entries)
    {
      var survivors := names;
      RemainingAreThere(limits, was, now, entries, root, survivors);
      var totalBytes := SumSizes(survivors);
      while |survivors| > 1 && (|survivors| > limits.maxClones || totalBytes > limits.maxBytes)
        invariant Remaining(limits, was, now, entries, root, survivors)
        invariant forall name :: name in survivors ==> name in was
        invariant totalBytes == TotalBytes(was, survivors)
        decreases |survivors|
      {
        OldestDrops(limits, was, now, entries, root, survivors);
        var oldest := survivors[0];
        survivors := survivors[1..];
        var size := DirectorySizeBytes(root[oldest].tree);
        totalBytes := totalBytes - size;
        root := root - {oldest};
      }
      RemainingStand(limits, was, now, entries, root, survivors);
    }

    /**
     Enforce the age, count and byte bounds, oldest first. What is left is the specification's `Evicted`
     of the sorted entries, whatever order the directory was listed in.
     */
    method Evict(listing: seq<Sha>, now: int)
      requires Lists(root, listing)
      modifies this`root
      ensures MtimeOrder(old(root), SortByMtime(old(root), listing))
      ensures root == Evicted(limits, old(root), now, SortByMtime(old(root), listing))
    {
      ghost var was := root;
      var entries := SortByMtime(root, listing);
      SortGivesMtimeOrder(root, listing);
      if |entries| == 0 {
        return;
      }
      var survivors := DropAged(entries, now);
      AgePassLeaves(limits, was, now, entries, root, survivors);
      DropOldest(was, entries, now, survivors);
    }
  }
}
