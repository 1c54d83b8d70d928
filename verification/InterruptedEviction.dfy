/**
 A run of the clone cache in which what its documentation says of an eviction does not hold
 (`api/method_cache.py`): another process removes a listed clone, and the eviction is left by an exception.
 */
module InterruptedEviction {
  import opened Wrappers
  import opened FileTree
  import opened CloneEviction
  import opened EvictionSteps
  import opened CacheProtocol
  import opened CacheBounds

  /** A run in which no other process installs leads from one state to the other. */
  ghost predicate Reaches(w: World, from: State, to: State) {
    exists states, steps :: Leads(w, states, steps, from, to)
  }

  ghost predicate Leads(w: World, states: seq<State>, steps: seq<Step>, from: State, to: State) {
    Run(w, states, steps) && NoForeignInstall(steps) && states[0] == from && states[|steps|] == to
  }

  lemma ReachesItself(w: World, s: State)
    requires Init(w, s)
    ensures Reaches(w, s, s)
  {
    assert Leads(w, [s], [], s, s);
  }

  lemma ReachesOneMore(w: World, from: State, s: State, step: Step, s': State)
    requires Reaches(w, from, s) && Next(w, s, step, s')
    requires !step.ForeignInstall?
    ensures Reaches(w, from, s')
  {
    var states, steps :| Leads(w, states, steps, from, s);
    var states', steps' := states + [s'], steps + [step];
    forall k | 0 <= k < |steps'| ensures Next(w, states'[k], steps'[k], states'[k + 1]) {
      if k < |steps| {
        assert states'[k] == states[k] && steps'[k] == steps[k] && states'[k + 1] == states[k + 1];
      }
    }
    assert Leads(w, states', steps', from, s');
  }

  /** The base state with request `t`, for this ref, in this phase over this disk. */
  function With(base: State, t: Tid, ref: Ref, d: Disk, phase: Phase): State {
    base.(disk := d, requests := base.requests[t := Request(ref, 0, phase)])
  }

  lemma Acts(w: World, from: State, base: State, t: Tid, ref: Ref, d: Disk, phase: Phase, action: Action, d': Disk,
          phase': Phase)
    requires Reaches(w, from, With(base, t, ref, d, phase))
    requires Does(w, base.history, ref, t, phase, action, d, d', phase')
    requires action.Miss? ==> Fresh(With(base, t, ref, d, phase), action.dir)
    ensures Reaches(w, from, With(base, t, ref, d', phase'))
  {
    var s, s' := With(base, t, ref, d, phase), With(base, t, ref, d', phase');
    assert s'.requests == s.requests[t := s.requests[t].(phase := phase')];
    ReachesOneMore(w, from, s, Act(t, action), s');
  }

  /** A miss that meets nobody: from its start to the beginning of its eviction, its clone installed. */
  lemma MissInstalls(w: World, from: State, base: State, t: Tid, ref: Ref, d: Disk, sha: Sha, mtime: int)
    requires Reaches(w, from, With(base, t, ref, d, Started))
    requires NamedNow(base.history, ref, sha) && sha !in d.root && d.staging == map[] && d.lock.None?
    requires forall u :: u in base.requests ==> !UsesDir(base.requests[u].phase, 0)
    ensures Reaches(w, from,
            With(base, t, ref, Disk(d.root[sha := Clone(w.treeOf(sha), mtime)], map[], Some(t)),
              Evicting(0, sha, Listing)))
  {
    var staged := d.(staging := map[0 := Clone(w.treeOf(sha), mtime)]);
    Acts(w, from, base, t, ref, d, Started, Resolve(sha), d, Resolved(sha));
    Acts(w, from, base, t, ref, d, Resolved(sha), Miss(0), d, Cloning(0, None));
    Acts(w, from, base, t, ref, d, Cloning(0, None), CloneReadsHead(sha), d, Cloning(0, Some(sha)));
    Acts(w, from, base, t, ref, d, Cloning(0, Some(sha)), CloneEnds(mtime), staged, Cloned(0, sha));
    StagedIsInstalled(w, from, base, t, ref, staged, sha);
    assert staged.staging - {0} == map[];
  }

  lemma StagedIsInstalled(w: World, from: State, base: State, t: Tid, ref: Ref, d: Disk, sha: Sha)
    requires Reaches(w, from, With(base, t, ref, d, Cloned(0, sha)))
    requires sha !in d.root && d.lock.None? && 0 in d.staging
    ensures Reaches(w, from,
            With(base, t, ref, Disk(d.root[sha := d.staging[0]], d.staging - {0}, Some(t)),
              Evicting(0, sha, Listing)))
  {
    var locked := d.(lock := Some(t));
    var moved := Disk(d.root[sha := d.staging[0]], d.staging - {0}, Some(t));
    Acts(w, from, base, t, ref, d, Cloned(0, sha), CheckTarget, locked, Renaming(0, sha));
    Acts(w, from, base, t, ref, locked, Renaming(0, sha), Rename(true), moved, Evicting(0, sha, Listing));
  }

  /** A clone of each commit is one file. */
  const TREE_OF: Sha -> Tree :=
    sha => [File(["f"], seq(if sha == "a" then 60 else if sha == "b" then 30 else 50, _ => 0))]

  function CloneOf(sha: Sha, mtime: int): Clone { Clone(TREE_OF(sha), mtime) }

  /** One ref, and no request yet. */
  function Idle(root: Root): State {
    State([map["new" := "c"]], Disk(root, map[], None), map[])
  }

  const TIGHT := World(Limits(8, 100, 100), TREE_OF)

  const TWO_CLONES: Root := map["a" := CloneOf("a", 0), "b" := CloneOf("b", 0)]

  lemma InstallsTheThird(root: Root)
    requires root == TWO_CLONES
    ensures Init(TIGHT, Idle(root))
    ensures Reaches(TIGHT, Idle(root),
                    With(Idle(root), 0, "new", Disk(root["c" := CloneOf("c", 0)], map[], Some(0)),
                      Evicting(0, "c", Listing)))
  {
    var start := Idle(root);
    ReachesItself(TIGHT, start);
    ReachesOneMore(TIGHT, start, start, Begin(0, "new"), With(start, 0, "new", start.disk, Started));
    MissInstalls(TIGHT, start, start, 0, "new", start.disk, "c", 0);
  }

  /**
   Another process removes "b" between the listing and the reading of its time: the eviction raises, and nothing
   goes.
   */
  lemma RaisesOnTheSecond(from: State, base: State, d: Disk, names: seq<Sha>)
    requires names != [] && Lists(d.root, names) && d.lock == Some(0)
    requires Reaches(TIGHT, from, With(base, 0, "new", d, Evicting(0, "c", Listing)))
    ensures Reaches(TIGHT, from,
            With(base, 0, "new", d.(root := d.root - {names[0]}, lock := None), Closing(0, Failed)))
  {
    var reading, d' := Reading(names, 0, false), d.(root := d.root - {names[0]});
    var stating := Evicting(0, "c", Stating(names, 0, map[]));
    Acts(TIGHT, from, base, 0, "new", d, Evicting(0, "c", Listing), Sweep(reading), d, stating);
    ReachesOneMore(TIGHT, from, With(base, 0, "new", d, stating), ForeignRemove(names[0]),
      With(base, 0, "new", d', stating));
    Acts(TIGHT, from, base, 0, "new", d', stating, Sweep(reading), d'.(lock := None), Closing(0, Failed));
  }

  lemma BytesOfTwo(root: Root, a: Sha, b: Sha)
    requires root.Keys == {a, b} && a != b
    ensures RootBytes(root) == SizeBytes(root[a].tree) + SizeBytes(root[b].tree) && |root| == 2
  {
    RootBytesRemove(root, a);
    RootBytesRemove(root - {a}, b);
    assert root - {a} - {b} == map[];
  }

  lemma SizeOfOneFile(sha: Sha)
    ensures SizeBytes(TREE_OF(sha)) == if sha == "a" then 60 else if sha == "b" then 30 else 50
  {
  }

  lemma TwoFitButNotTheOther(fitting: Root, exceeding: Root)
    requires fitting == TWO_CLONES && exceeding == map["a" := CloneOf("a", 0), "c" := CloneOf("c", 0)]
    ensures WithinBounds(TIGHT.limits, fitting) && !WithinBounds(TIGHT.limits, exceeding)
  {
    SizeOfOneFile("a");
    SizeOfOneFile("b");
    SizeOfOneFile("c");
    BytesOfTwo(fitting, "a", "b");
    BytesOfTwo(exceeding, "a", "c");
  }

  lemma ListsThree(root: Root)
    requires root.Keys == {"a", "b", "c"}
    ensures Lists(root, ["b", "a", "c"])
  {
    var names := ["b", "a", "c"];
    assert names[0] in names && names[1] in names && names[2] in names;
  }

  /**
   The documentation says a directory that another process removed is simply skipped. Here its removal makes the
   eviction raise, and the lock is free over a root beyond its byte bound, in a run that began within bounds and
   in which no other process installs.
   */
  lemma InterruptedEvictionLeavesTooMuch() returns (s: State)
    ensures Init(TIGHT, Idle(TWO_CLONES)) && WithinBounds(TIGHT.limits, TWO_CLONES)
    ensures Reaches(TIGHT, Idle(TWO_CLONES), s) && s.disk.lock.None?
    ensures s.disk.root == map["a" := CloneOf("a", 0), "c" := CloneOf("c", 0)]
            && !WithinBounds(TIGHT.limits, s.disk.root)
  {
    var full := Disk(TWO_CLONES["c" := CloneOf("c", 0)], map[], Some(0));
    s := With(Idle(TWO_CLONES), 0, "new", full.(root := full.root - {"b"}, lock := None), Closing(0, Failed));
    ReachesTheInterruption(TWO_CLONES, full);
    assert s.disk.root == map["a" := CloneOf("a", 0), "c" := CloneOf("c", 0)];
    TwoFitButNotTheOther(TWO_CLONES, s.disk.root);
  }

  lemma ReachesTheInterruption(root: Root, full: Disk)
    requires root == TWO_CLONES && full == Disk(root["c" := CloneOf("c", 0)], map[], Some(0))
    ensures Init(TIGHT, Idle(root))
    ensures Reaches(TIGHT, Idle(root),
                    With(Idle(root), 0, "new", full.(root := full.root - {"b"}, lock := None), Closing(0, Failed)))
  {
    InstallsTheThird(root);
    ListsThree(full.root);
    RaisesOnTheSecond(Idle(root), Idle(root), full, ["b", "a", "c"]);
  }
}
