/**
 The vendored-kit sync of `scripts/sync_vendored_kit.py`: a plan lists every vendored file that differs from
 what the kit says it should hold, and applying the plan writes those files and no other.

 Trees hold files only, as a map from place to content. The deck manifest is one opaque value, and which
 deck names pipelex manages is a parameter of the kit.
 */
module KitSync {
  import opened Wrappers
  import opened TextLines
  import opened BackendsToml
  import opened BackendsRenderer
  import opened SwitchRoundTrip
  import opened BackendsDocument
  import opened SwitchRecord

  /** A place below the vendored `inference/` directory, or anywhere else. */
  datatype Place =
    | BackendFile(name: string)
    | RoutingProfiles
    | BackendsFile
    | DeckFile(name: string)
    | Elsewhere(path: string)

  type Tree = map<Place, string>

  datatype Kit = Kit(
    backends: map<string, string>,
    routingProfiles: string,
    backendsToml: string,
    deck: map<string, string>,
    isManagedDeckName: string -> bool,
    manifest: string,
    entries: set<string>)

  predicate Contains(s: string, part: string) {
    |part| <= |s| && (s[..|part|] == part || (s != "" && Contains(s[1..], part)))
  }

  /** The mirror neither counts nor deletes migration leftovers, hand-made backups or Finder files. */
  predicate IsMirroredName(name: string) {
    && name != ".DS_Store" && !EndsWith(name, ".bak")
    && !Contains(name, ".bak.") && !Contains(name, ".rescue.") && !Contains(name, ".pipelex-fix-")
  }

  lemma {:induction false} ContainsIff(s: string, part: string)
    ensures Contains(s, part) <==> exists a, b :: s == a + part + b
  {
    if |part| <= |s| && s[..|part|] == part {
      assert s == "" + part + s[|part|..];
    } else if s != "" {
      ContainsIff(s[1..], part);
      if a, b :| s[1..] == a + part + b {
        assert s == [s[0]] + s[1..] == ([s[0]] + a) + part + b;
      }
    }
    if a, b :| s == a + part + b {
      PartIsContained(a, part, b);
    }
  }

  lemma {:induction false} PartIsContained(a: string, part: string, b: string)
    ensures Contains(a + part + b, part)
  {
    if a != "" {
      assert (a + part + b)[1..] == a[1..] + part + b;
      PartIsContained(a[1..], part, b);
    } else {
      assert a + part + b == part + b;
    }
  }

  /** `name` has this infix. */
  ghost predicate HasInfix(name: string, infix: string) {
    exists a, b :: name == a + infix + b
  }

  /**
   The names left alone: a Finder file, hand-made backups, and migrations' backups, rescue copies and staging
   files.
   */
  lemma NameIsMirroredIff(name: string)
    ensures IsMirroredName(name) <==>
            && name != ".DS_Store" && (forall a :: name != a + ".bak")
            && !HasInfix(name, ".bak.") && !HasInfix(name, ".rescue.") && !HasInfix(name, ".pipelex-fix-")
  {
    ContainsIff(name, ".bak.");
    ContainsIff(name, ".rescue.");
    ContainsIff(name, ".pipelex-fix-");
    if EndsWith(name, ".bak") {
      assert name == name[..|name| - 4] + ".bak";
    }
  }

  const HANDLED_KIT_ENTRIES := {"backends", "deck", "backends.toml", "routing_profiles.toml"}

  function UnhandledEntries(kit: Kit): set<string> {
    set entry | entry in kit.entries && entry !in HANDLED_KIT_ENTRIES && IsMirroredName(entry)
  }

  function At(tree: Tree, place: Place): Option<string> {
    if place in tree then Some(tree[place]) else None
  }

  /** The places the sync owns. */
  predicate Managed(kit: Kit, place: Place) {
    match place
    case BackendFile(name) => IsMirroredName(name)
    case RoutingProfiles => true
    case BackendsFile => true
    case DeckFile(name) => kit.isManagedDeckName(name)
    case Elsewhere(_) => false
  }

  /** What a managed place should hold, or None when nothing should be there. */
  function Target(kit: Kit, rendered: string, place: Place): Option<string> {
    match place
    case BackendFile(name) => if name in kit.backends then Some(kit.backends[name]) else None
    case RoutingProfiles => Some(kit.routingProfiles)
    case BackendsFile => Some(rendered)
    case DeckFile(name) => if name in kit.deck then Some(kit.deck[name]) else None
    case Elsewhere(_) => None
  }

  datatype SyncError = SwitchSource(error: SwitchError) | UnrecordedBackends | KitShape(problem: RenderError)

  /** A kit backend without a recorded switch is new only if its backend file is new too. */
  predicate IsUnrecorded(tree: Tree, switches: map<string, bool>, name: string) {
    name !in switches && BackendFile(name + ".toml") in tree
  }

  /** What planning renders for `backends.toml`, or the error it stops with. */
  function Planned(kit: Kit, tree: Tree): Result<string, SyncError> {
    match ReadSwitches(At(tree, BackendsFile))
    case Err(error) => Err(SwitchSource(error))
    case Ok(switches) => PlannedFrom(ReadText(kit.backendsToml), tree, switches)
  }

  function PlannedFrom(kitText: string, tree: Tree, switches: map<string, bool>): Result<string, SyncError> {
    match Load(kitText)
    case None => Err(KitShape(KitIsNotToml))
    case Some(doc) =>
      if exists name :: name in doc.tables && IsUnrecorded(tree, switches, name) then Err(UnrecordedBackends)
      else
        match Render(kitText, switches)
        case Err(error) => Err(KitShape(error))
        case Ok(text) => Ok(text)
  }

  /** The switches of backends the kit no longer has. */
  function Dropped(kit: Kit, tree: Tree): map<string, bool>
    requires Planned(kit, tree).Ok?
  {
    var switches := ReadSwitches(At(tree, BackendsFile)).value;
    map name | name in switches && name !in Load(ReadText(kit.backendsToml)).value.tables :: switches[name]
  }

  /** One vendored file that differs from the kit, and what it should hold. */
  datatype Drift = Drift(place: Place, content: Option<string>)

  /** `drifts` names exactly the differing places among `places`, each once, with what it should hold. */
  ghost predicate Plans(kit: Kit, rendered: string, tree: Tree, places: set<Place>, drifts: seq<Drift>) {
    && (forall i, j :: 0 <= i < j < |drifts| ==> drifts[i].place != drifts[j].place)
    && (forall i :: 0 <= i < |drifts| ==>
          && drifts[i].place in places
          && drifts[i].content == Target(kit, rendered, drifts[i].place)
          && At(tree, drifts[i].place) != drifts[i].content)
    && (forall place :: place in places && At(tree, place) != Target(kit, rendered, place) ==> Names(drifts, place))
  }

  ghost predicate Names(drifts: seq<Drift>, place: Place) {
    exists i :: 0 <= i < |drifts| && drifts[i].place == place
  }

  /** A plan for the whole tree. */
  ghost predicate PlanFor(kit: Kit, rendered: string, tree: Tree, drifts: seq<Drift>) {
    exists places: set<Place> ::
      && Plans(kit, rendered, tree, places, drifts)
      && (forall place :: place in places ==> Managed(kit, place))
      && (forall place :: Managed(kit, place) && place !in places ==> At(tree, place) == Target(kit, rendered, place))
  }

  /** The tree after a sync: managed places as the kit says, every other as it was. */
  ghost predicate Synced(kit: Kit, rendered: string, tree: Tree, tree': Tree) {
    forall place :: At(tree', place) == if Managed(kit, place) then Target(kit, rendered, place) else At(tree, place)
  }

  function Compare(tree: Tree, target: Place, expected: Option<string>): seq<Drift> {
    if expected == At(tree, target) then [] else [Drift(target, expected)]
  }

  lemma ComparingAddsOne(kit: Kit, rendered: string, tree: Tree, places: set<Place>, drifts: seq<Drift>, place: Place)
    requires Plans(kit, rendered, tree, places, drifts) && place !in places
    ensures Plans(kit, rendered, tree, places + {place}, drifts + Compare(tree, place, Target(kit, rendered, place)))
  {
    var drifts' := drifts + Compare(tree, place, Target(kit, rendered, place));
    forall p | p in places + {place} && At(tree, p) != Target(kit, rendered, p) ensures Names(drifts', p) {
      if p == place {
        assert drifts'[|drifts|].place == place;
      } else {
        var i :| 0 <= i < |drifts| && drifts[i].place == p;
        assert drifts'[i].place == p;
      }
    }
  }

  /** The mirrored file names of the kit's backends and of the vendored ones. */
  function BackendPlaces(kit: Kit, tree: Tree): set<Place> {
    (set name | name in kit.backends && IsMirroredName(name) :: BackendFile(name))
    + (set place | place in tree && place.BackendFile? && IsMirroredName(place.name) :: place)
  }

  function DeckPlaces(kit: Kit, tree: Tree): set<Place> {
    (set name | name in kit.deck && kit.isManagedDeckName(name) :: DeckFile(name))
    + (set place | place in tree && place.DeckFile? && kit.isManagedDeckName(place.name) :: place)
  }

  class SyncPlan {
    var drifts: seq<Drift>
    var manifestIsStale: bool
    var unhandledKitEntries: set<string>
    var droppedSwitches: map<string, bool>

    constructor ()
      ensures drifts == [] && !manifestIsStale && unhandledKitEntries == {} && droppedSwitches == map[]
    {
      drifts, manifestIsStale, unhandledKitEntries, droppedSwitches := [], false, {}, map[];
    }

    predicate IsClean()
      reads this
    {
      drifts == [] && !manifestIsStale && unhandledKitEntries == {}
    }

    method CompareFile(tree: Tree, target: Place, expected: Option<string>)
      modifies this`drifts
      ensures drifts == old(drifts) + Compare(tree, target, expected)
    {
      if expected.None? {
        if target in tree {
          drifts := drifts + [Drift(target, None)];
        }
      } else if target !in tree || tree[target] != expected.value {
        drifts := drifts + [Drift(target, expected)];
      }
    }

    /** Compare each of the given places with what it should hold, in any order. */
    method ComparePlaces(kit: Kit, ghost rendered: string, tree: Tree, places: set<Place>, ghost done: set<Place>)
      requires Plans(kit, rendered, tree, done, drifts) && done !! places && BackendsFile !in places
      modifies this`drifts
      ensures Plans(kit, rendered, tree, done + places, drifts)
    {
      var left := places;
      while left != {}
        invariant left <= places && Plans(kit, rendered, tree, done + (places - left), drifts)
        decreases left
      {
        var place :| place in left;
        ComparingAddsOne(kit, rendered, tree, done + (places - left), drifts, place);
        CompareFile(tree, place, Target(kit, "", place));
        assert done + (places - left) + {place} == done + (places - (left - {place}));
        left := left - {place};
      }
      assert done + (places - left) == done + places;
    }

    /** `backends/` mirrors the kit, and `routing_profiles.toml` is the kit's. */
    method PlanMirrors(kit: Kit, ghost rendered: string, tree: Tree)
      requires drifts == []
      modifies this`drifts
      ensures Plans(kit, rendered, tree, BackendPlaces(kit, tree) + {RoutingProfiles}, drifts)
    {
      var places := BackendPlaces(kit, tree);
      ComparePlaces(kit, rendered, tree, places, {});
      assert {} + places == places;
      ComparingAddsOne(kit, rendered, tree, places, drifts, RoutingProfiles);
      CompareFile(tree, RoutingProfiles, Some(kit.routingProfiles));
    }

    /** The switches are read, and every refusal happens, before anything is rendered. */
    method RenderFromRecord(kit: Kit, tree: Tree) returns (result: Result<string, SyncError>)
      modifies this`droppedSwitches
      ensures result == Planned(kit, tree)
      ensures result.Ok? ==> droppedSwitches == Dropped(kit, tree)
    {
      var switches := ReadEnabledSwitches(At(tree, BackendsFile));
      if switches.Err? {
        return Err(SwitchSource(switches.error));
      }
      var kitText := ReadText(kit.backendsToml);
      var document := Load(kitText);
      if document.None? {
        return Err(KitShape(KitIsNotToml));
      }
      if exists name :: name in document.value.tables && IsUnrecorded(tree, switches.value, name) {
        return Err(UnrecordedBackends);
      }
      droppedSwitches := map name | name in switches.value && name !in document.value.tables :: switches.value[name];
      var text := RenderBackendsToml(kitText, switches.value);
      if text.Err? {
        return Err(KitShape(text.error));
      }
      result := Ok(text.value);
    }

    /** `backends.toml` is the kit's, with this image's switches. */
    method PlanBackendsToml(kit: Kit, ghost rendered: string, tree: Tree) returns (result: Result<string, SyncError>)
      requires Plans(kit, rendered, tree, BackendPlaces(kit, tree) + {RoutingProfiles}, drifts)
      requires Planned(kit, tree).Ok? ==> rendered == Planned(kit, tree).value
      modifies this`drifts, this`droppedSwitches
      ensures result == Planned(kit, tree)
      ensures result.Ok? ==>
                && Plans(kit, rendered, tree, BackendPlaces(kit, tree) + {RoutingProfiles} + {BackendsFile}, drifts)
                && droppedSwitches == Dropped(kit, tree)
    {
      result := RenderFromRecord(kit, tree);
      if result.Ok? {
        ComparingAddsOne(kit, rendered, tree, BackendPlaces(kit, tree) + {RoutingProfiles}, drifts, BackendsFile);
        CompareFile(tree, BackendsFile, Some(result.value));
      }
    }

    /** The numbered deck files are the kit's, and so is the manifest. */
    method PlanDeck(kit: Kit, ghost rendered: string, tree: Tree, manifest: Option<string>)
      requires Plans(kit, rendered, tree, BackendPlaces(kit, tree) + {RoutingProfiles} + {BackendsFile}, drifts)
      modifies this`drifts, this`manifestIsStale
      ensures PlanFor(kit, rendered, tree, drifts)
      ensures manifestIsStale == (manifest != Some(kit.manifest))
    {
      ComparePlaces(kit, rendered, tree, DeckPlaces(kit, tree), BackendPlaces(kit, tree) + {RoutingProfiles}
        + {BackendsFile});
      AllPlacesAreCompared(kit, rendered, tree, drifts);
      manifestIsStale := manifest != Some(kit.manifest);
    }
  }

  lemma AllPlacesAreCompared(kit: Kit, rendered: string, tree: Tree, drifts: seq<Drift>)
    requires Plans(kit, rendered, tree, BackendPlaces(kit, tree) + {RoutingProfiles} + {BackendsFile}
            + DeckPlaces(kit, tree), drifts)
    ensures PlanFor(kit, rendered, tree, drifts)
  {
    var places := BackendPlaces(kit, tree) + {RoutingProfiles} + {BackendsFile} + DeckPlaces(kit, tree);
    forall place | Managed(kit, place) && place !in places ensures At(tree, place) == Target(kit, rendered, place) {
      match place
      case BackendFile(name) => assert name !in kit.backends && place !in tree;
      case DeckFile(name) => assert name !in kit.deck && place !in tree;
      case _ =>
    }
  }

  /** Planning stops with an error or gives a plan for the whole tree, and it changes nothing. */
  method PlanSync(kit: Kit, tree: Tree, manifest: Option<string>)
    returns (plan: SyncPlan, result: Result<string, SyncError>)
    ensures fresh(plan) && result == Planned(kit, tree)
    ensures result.Ok? ==>
              && PlanFor(kit, result.value, tree, plan.drifts)
              && plan.manifestIsStale == (manifest != Some(kit.manifest))
              && plan.unhandledKitEntries == UnhandledEntries(kit)
              && plan.droppedSwitches == Dropped(kit, tree)
  {
    plan := new SyncPlan();
    ghost var rendered := if Planned(kit, tree).Ok? then Planned(kit, tree).value else "";
    plan.unhandledKitEntries := UnhandledEntries(kit);
    plan.PlanMirrors(kit, rendered, tree);
    result := plan.PlanBackendsToml(kit, rendered, tree);
    if result.Ok? {
      plan.PlanDeck(kit, rendered, tree, manifest);
    }
  }

  /** The vendored directory on disk. */
  class VendoredDir {
    var files: Tree
    var manifest: Option<string>

    constructor (files: Tree, manifest: Option<string>)
      ensures this.files == files && this.manifest == manifest
    {
      this.files, this.manifest := files, manifest;
    }

    /** Removing a file that is not there would raise. */
    method Unlink(place: Place)
      requires place in files
      modifies this`files
      ensures files == old(files) - {place}
    {
      files := files - {place};
    }

    /**
     Applying a plan, in whatever order it lists the drifts, gives the synced tree: managed places hold what
     the kit says and no other place changes. No removal finds its file missing.
     */
    method ApplyPlan(plan: SyncPlan, kit: Kit, ghost rendered: string)
      requires PlanFor(kit, rendered, files, plan.drifts)
      requires plan.manifestIsStale == (manifest != Some(kit.manifest))
      modifies this
      ensures Synced(kit, rendered, old(files), files)
      ensures manifest == Some(kit.manifest)
    {
      ghost var was := files;
      var drifts := plan.drifts;
      for k := 0 to |drifts|
        invariant forall place :: !Names(drifts[..k], place) ==> At(files, place) == At(was, place)
        invariant forall i :: 0 <= i < k ==> At(files, drifts[i].place) == drifts[i].content
        invariant manifest == old(manifest)
      {
        assert !Names(drifts[..k], drifts[k].place);
        if drifts[k].content.None? {
          Unlink(drifts[k].place);
        } else {
          files := files[drifts[k].place := drifts[k].content.value];
        }
        forall place | !Names(drifts[..k + 1], place) ensures !Names(drifts[..k], place) && place != drifts[k].place {
          assert drifts[..k + 1][k] == drifts[k];
          assert forall i :: 0 <= i < k ==> drifts[..k + 1][i] == drifts[..k][i];
        }
      }
      assert drifts[..|drifts|] == drifts;
      AppliedPlanSyncs(kit, rendered, was, files, drifts);
      if plan.manifestIsStale {
        manifest := Some(kit.manifest);
      }
    }
  }

  lemma AppliedPlanSyncs(kit: Kit, rendered: string, tree: Tree, tree': Tree, drifts: seq<Drift>)
    requires PlanFor(kit, rendered, tree, drifts)
    requires forall place :: !Names(drifts, place) ==> At(tree', place) == At(tree, place)
    requires forall i :: 0 <= i < |drifts| ==> At(tree', drifts[i].place) == drifts[i].content
    ensures Synced(kit, rendered, tree, tree')
  {
    forall place
      ensures At(tree', place) == if Managed(kit, place) then Target(kit, rendered, place) else At(tree, place)
    {
      if Names(drifts, place) {
        var i :| 0 <= i < |drifts| && drifts[i].place == place;
      }
    }
  }

  /** The entries no rule of the script covers, and the switches of backends that are gone. */
  lemma ReportedEntriesAre(kit: Kit, tree: Tree)
    ensures forall entry :: entry in UnhandledEntries(kit) <==>
              && entry in kit.entries && IsMirroredName(entry)
              && entry != "backends" && entry != "deck" && entry != "backends.toml" && entry != "routing_profiles.toml"
    ensures Planned(kit, tree).Ok? ==>
              var record := ReadSwitches(At(tree, BackendsFile)).value;
              forall name ::
                && (name in Dropped(kit, tree) <==>
                      name in record && !HasHeader(KindsOf(ReadText(kit.backendsToml)), name))
                && (name in Dropped(kit, tree) ==> Dropped(kit, tree)[name] == record[name])
  {
    if Planned(kit, tree).Ok? {
      var kinds := KindsOf(ReadText(kit.backendsToml));
      TextLoadsAsKinds(ReadText(kit.backendsToml));
      TablesAreTheHeaders(kinds);
      forall name ensures name in Load(ReadText(kit.backendsToml)).value.tables <==> HasHeader(kinds, name) {
      }
    }
  }

  /** Two trees synced from the same one are equal: the order of the drifts does not matter. */
  lemma SyncedTreeIsUnique(kit: Kit, rendered: string, tree: Tree, a: Tree, b: Tree)
    requires Synced(kit, rendered, tree, a) && Synced(kit, rendered, tree, b)
    ensures a == b
  {
    assert forall place :: At(a, place) == At(b, place);
    assert forall place :: place in a <==> At(a, place).Some?;
    assert forall place :: place in b <==> At(b, place).Some?;
    assert forall place :: place in a ==> At(a, place) == Some(a[place]);
  }

  /**
   After a sync the mirrored part of `backends/` is the kit's, as a map, the two files beside it are the kit's
   and the rendered one, and no unmanaged place has changed.
   */
  lemma SyncMirrorsTheKit(kit: Kit, rendered: string, tree: Tree, tree': Tree)
    requires Synced(kit, rendered, tree, tree')
    ensures (map name | name in kit.backends && IsMirroredName(name) :: kit.backends[name])
         == (map place | place in tree' && place.BackendFile? && IsMirroredName(place.name) ::
           place.name := tree'[place])
    ensures At(tree', RoutingProfiles) == Some(kit.routingProfiles) && At(tree', BackendsFile) == Some(rendered)
    ensures forall place :: !Managed(kit, place) ==> At(tree', place) == At(tree, place)
  {
    forall name | IsMirroredName(name) ensures At(tree', BackendFile(name))
      == Target(kit, rendered, BackendFile(name)) {
      assert Managed(kit, BackendFile(name));
    }
  }

  /** So is the managed part of the deck. */
  lemma SyncMirrorsTheDeck(kit: Kit, rendered: string, tree: Tree, tree': Tree)
    requires Synced(kit, rendered, tree, tree')
    ensures (map name | name in kit.deck && kit.isManagedDeckName(name) :: kit.deck[name])
         == (map place | place in tree' && place.DeckFile? && kit.isManagedDeckName(place.name) ::
           place.name := tree'[place])
  {
    forall name | kit.isManagedDeckName(name) ensures At(tree', DeckFile(name))
      == Target(kit, rendered, DeckFile(name)) {
      assert Managed(kit, DeckFile(name));
    }
  }

  function Leftovers(a: string, b: string): set<string> {
    {".DS_Store", a + ".bak", a + ".bak." + b, a + ".rescue." + b, a + ".pipelex-fix-" + b}
  }

  /** A sync touches no file that is left alone, wherever below `backends/` it comes from. */
  lemma LeftoversAreKept(kit: Kit, rendered: string, tree: Tree, tree': Tree, a: string, b: string)
    requires Synced(kit, rendered, tree, tree')
    ensures forall name :: name in Leftovers(a, b) ==> At(tree', BackendFile(name)) == At(tree, BackendFile(name))
  {
    forall name | name in Leftovers(a, b)
      ensures !Managed(kit, BackendFile(name))
    {
      NameIsMirroredIff(name);
    }
  }

  /** A kit table without a recorded switch, whose backend file is already vendored. */
  ghost predicate HasUnrecorded(kit: Kit, tree: Tree)
    requires ReadSwitches(At(tree, BackendsFile)).Ok?
  {
    exists name :: HasHeader(KindsOf(ReadText(kit.backendsToml)), name)
      && name !in ReadSwitches(At(tree, BackendsFile)).value && BackendFile(name + ".toml") in tree
  }

  /** Exactly when planning goes through, and what stops it otherwise, in this order. */
  lemma PlanningIsRefusedIff(kit: Kit, tree: Tree)
    ensures var record, kitText := ReadSwitches(At(tree, BackendsFile)), ReadText(kit.backendsToml);
            if record.Err? then Planned(kit, tree) == Err(SwitchSource(record.error))
            else if Load(kitText).None? then Planned(kit, tree) == Err(KitShape(KitIsNotToml))
            else if HasUnrecorded(kit, tree) then Planned(kit, tree) == Err(UnrecordedBackends)
            else
              && (Planned(kit, tree).Err? ==> Planned(kit, tree) == Err(KitShape(TableWithoutSwitch)))
              && (Planned(kit, tree).Ok? <==>
                    forall name :: HasHeader(KindsOf(kitText), name) ==> HasSwitchLine(SplitLines(kitText), name))
              && (Planned(kit, tree).Ok? ==> Render(kitText, record.value) == Ok(Planned(kit, tree).value))
  {
    var record, kitText := ReadSwitches(At(tree, BackendsFile)), ReadText(kit.backendsToml);
    if record.Ok? && Load(kitText).Some? {
      UnrecordedIff(kit, tree);
      RendersIff(kitText, record.value);
    }
  }

  lemma UnrecordedIff(kit: Kit, tree: Tree)
    requires ReadSwitches(At(tree, BackendsFile)).Ok? && Load(ReadText(kit.backendsToml)).Some?
    ensures HasUnrecorded(kit, tree) <==>
            exists name :: name in Load(ReadText(kit.backendsToml)).value.tables
              && IsUnrecorded(tree, ReadSwitches(At(tree, BackendsFile)).value, name)
  {
    var kinds := KindsOf(ReadText(kit.backendsToml));
    TextLoadsAsKinds(ReadText(kit.backendsToml));
    TablesAreTheHeaders(kinds);
    forall name ensures name in Load(ReadText(kit.backendsToml)).value.tables <==> HasHeader(kinds, name) {
    }
  }

  /** A plan is empty exactly when the tree is its own sync. */
  lemma PlanIsEmptyIff(kit: Kit, rendered: string, tree: Tree, drifts: seq<Drift>)
    requires PlanFor(kit, rendered, tree, drifts)
    ensures drifts == [] <==> Synced(kit, rendered, tree, tree)
  {
    if drifts == [] {
      AppliedPlanSyncs(kit, rendered, tree, tree, drifts);
    } else {
      var place := drifts[0].place;
      assert Managed(kit, place) && At(tree, place) != Target(kit, rendered, place);
    }
  }

  /** Whether the kit's `backends.toml` has a table at all. */
  ghost predicate KitHasTables(kit: Kit) {
    Load(ReadText(kit.backendsToml)).Some? && Load(ReadText(kit.backendsToml)).value.tables.Keys != {}
  }

  /**
   One sync is a fixed point: on the tree it leaves, planning again succeeds exactly when the kit has a
   table, and then it renders the same text and finds nothing to do, although the first sync's own output
   is the second's switch record.
   */
  lemma SyncConverges(kit: Kit, tree: Tree, tree': Tree, drifts: seq<Drift>)
    requires Planned(kit, tree).Ok? && Synced(kit, Planned(kit, tree).value, tree, tree')
    ensures Planned(kit, tree').Ok? <==> KitHasTables(kit)
    ensures KitHasTables(kit) ==> Planned(kit, tree') == Planned(kit, tree)
    ensures KitHasTables(kit) && PlanFor(kit, Planned(kit, tree).value, tree', drifts) ==> drifts == []
    ensures !KitHasTables(kit) ==> Planned(kit, tree') == Err(SwitchSource(NoTable))
  {
    var rendered := Planned(kit, tree).value;
    var kitText := ReadText(kit.backendsToml);
    var switches := ReadSwitches(At(tree, BackendsFile)).value;
    assert At(tree', BackendsFile) == Some(rendered);
    ReadBackGivesTheRecord(kitText, switches);
    if KitHasTables(kit) {
      var tables := Load(kitText).value.tables;
      var again := ReadSwitches(Some(rendered)).value;
      assert forall name :: name in tables ==> name in again;
      RenderIsStable(kitText, switches, again);
      if PlanFor(kit, rendered, tree', drifts) {
        assert Synced(kit, rendered, tree', tree');
        PlanIsEmptyIff(kit, rendered, tree', drifts);
      }
    }
  }

  // A kit without a table.

  /** A record of one table, "[a]". */
  const ONE_TABLE := "[a]\n"

  lemma OneTableIsAHeader()
    ensures Classify(ONE_TABLE) == Header("a")
  {
    SpanIs(IsBlank, ONE_TABLE, 0, 0);
    SpanIs(IsBlank, ONE_TABLE, 1, 1);
    SpanIs(IsBlank, ONE_TABLE, 2, 2);
    SpanIs(IsBlank, ONE_TABLE, 3, 3);
    SpanIs(IsBareKeyChar, ONE_TABLE, 1, 2);
    assert ONE_TABLE[1..2] == "a";
  }

  lemma OneTableIsALine()
    ensures SplitLines(ONE_TABLE) == [ONE_TABLE] && Plain(ONE_TABLE) && ReadText(ONE_TABLE) == ONE_TABLE
  {
    TranslationKeepsIff(ONE_TABLE, '\r', '\n');
    SplitFirstLine(ONE_TABLE, "");
    assert ONE_TABLE + "" == ONE_TABLE;
  }

  lemma OneLineLoads(line: string)
    requires SplitLines(line) == [line] && Plain(line) && Classify(line).Header?
    ensures Load(line) == AddLine(EMPTY_DOC, Classify(line))
  {
    var lines := [line];
    assert lines[..|lines| - 1] == [];
    assert LoadLines([]) == Some(EMPTY_DOC);
  }

  lemma OneTableLoads()
    ensures Load(ONE_TABLE) == Some(Doc({}, map["a" := Table({}, None)], Some("a")))
    ensures ReadText(ONE_TABLE) == ONE_TABLE
  {
    OneTableIsAHeader();
    OneTableIsALine();
    OneLineLoads(ONE_TABLE);
  }

  /** A kit whose `backends.toml` is empty, and which has nothing else. */
  function BareKit(): Kit {
    Kit(map[], "", "", map[], _ => false, "", {})
  }

  /**
   With such a kit a sync goes through, and on the tree it leaves every later planning stops: there is no table
   to read.
   */
  lemma SyncOfABareKitDoesNotConverge()
    ensures var kit, tree: Tree := BareKit(), map[BackendsFile := ONE_TABLE];
            && Planned(kit, tree).Ok?
            && forall tree' :: Synced(kit, Planned(kit, tree).value, tree, tree') ==>
                 Planned(kit, tree') == Err(SwitchSource(NoTable))
  {
    var kit, tree: Tree := BareKit(), map[BackendsFile := ONE_TABLE];
    OneTableLoads();
    BareKitPlans(tree);
    forall tree' | Synced(kit, Planned(kit, tree).value, tree, tree')
      ensures Planned(kit, tree') == Err(SwitchSource(NoTable))
    {
      SyncConverges(kit, tree, tree', []);
    }
  }

  lemma BareKitPlans(tree: Tree)
    requires tree == map[BackendsFile := ONE_TABLE]
    requires Load(ReadText(ONE_TABLE)) == Some(Doc({}, map["a" := Table({}, None)], Some("a")))
    ensures Planned(BareKit(), tree).Ok? && !KitHasTables(BareKit())
  {
    var tables := map["a" := Table({}, None)];
    assert tables.Keys == {"a"} && TableSwitch(tables["a"]) == Some(true);
    assert forall name :: name in tables ==> name == "a";
    assert tables != map[];
    assert ReadSwitches(At(tree, BackendsFile)).Ok?;
    assert ReadText("") == "" && Load("") == Some(EMPTY_DOC) && EMPTY_DOC.tables.Keys == {};
  }

  // The script's two modes.

  /** `make kit-sync`: a refused plan changes nothing, and any other leaves the synced tree. */
  method RunSync(dir: VendoredDir, kit: Kit) returns (result: Result<string, SyncError>, succeeds: bool)
    modifies dir
    ensures result == Planned(kit, old(dir.files))
    ensures result.Err? ==> dir.files == old(dir.files) && dir.manifest == old(dir.manifest)
    ensures result.Ok? ==> Synced(kit, result.value, old(dir.files), dir.files) && dir.manifest == Some(kit.manifest)
    ensures succeeds <==> result.Ok? && UnhandledEntries(kit) == {}
  {
    var plan;
    plan, result := PlanSync(kit, dir.files, dir.manifest);
    if result.Err? {
      return result, false;
    }
    if plan.drifts != [] || plan.manifestIsStale {
      dir.ApplyPlan(plan, kit, result.value);
    } else {
      PlanIsEmptyIff(kit, result.value, dir.files, plan.drifts);
    }
    succeeds := plan.unhandledKitEntries == {};
  }

  /** `make kit-check`: it passes exactly on a tree a sync would leave as it is, beside a fresh manifest. */
  method RunCheck(dir: VendoredDir, kit: Kit) returns (passes: bool)
    ensures passes <==>
            && Planned(kit, dir.files).Ok? && Synced(kit, Planned(kit, dir.files).value, dir.files, dir.files)
            && dir.manifest == Some(kit.manifest) && UnhandledEntries(kit) == {}
  {
    var plan, result := PlanSync(kit, dir.files, dir.manifest);
    if result.Err? {
      return false;
    }
    PlanIsEmptyIff(kit, result.value, dir.files, plan.drifts);
    passes := plan.IsClean();
  }

  /** A check right after a sync that planned passes exactly when the sync itself succeeded and the kit has a table. */
  method SyncThenCheck(dir: VendoredDir, kit: Kit)
    returns (result: Result<string, SyncError>, succeeds: bool, passes: bool)
    modifies dir
    ensures result.Ok? ==> (passes <==> succeeds && KitHasTables(kit))
  {
    ghost var before := dir.files;
    result, succeeds := RunSync(dir, kit);
    if result.Ok? {
      SyncConverges(kit, before, dir.files, []);
      assert Synced(kit, result.value, dir.files, dir.files);
    }
    passes := RunCheck(dir, kit);
  }
}
