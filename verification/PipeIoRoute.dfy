/**
 The pipe-io route (`api/routes/pipelex/pipe_io.py`): it opens a library, selects a pipe or describes all of
 them, and gives the library back on every exit.

 The three artifacts of a pipe are opaque, and deriving them may fail.
 */
module PipeIoRoute {
  import opened Wrappers
  import opened EntryPipe

  type LibraryId = nat

  datatype Artifacts = Artifacts(contract: string, inputForm: string, outputForm: string)

  datatype Request = Request(pipeRef: Option<string>, allPipes: bool)

  /** How resolving the request's closure ends. */
  datatype Load = FetchFails | InvalidClosure | Loads(closure: Closure, manifestMainPipe: Option<string>)

  /** The valid arm: the selection, the default, and the three maps. */
  datatype Report = Report(
    pipeRef: Option<string>,
    defaultPipeRef: Option<string>,
    contracts: map<string, string>,
    inputForms: map<string, string>,
    outputForms: map<string, string>)

  datatype Response =
    | Valid(report: Report)
    | InvalidVerdict
    | FetchProblem
    | SelectionRefused(kind: MissKind)
    | CannotDerive

  /** The libraries the process holds open, and the current one. */
  class LibraryManager {
    var open: set<LibraryId>
    var current: Option<LibraryId>

    constructor ()
      ensures open == {} && current.None?
    {
      open, current := {}, None;
    }

    /** Loaded on success: the new library is open and current. On failure everything is as before. */
    method ResolveRequestedCrate(load: Load, id: LibraryId) returns (loaded: bool)
      requires id !in open
      modifies this
      ensures loaded == load.Loads?
      ensures loaded ==> open == old(open) + {id} && current == Some(id)
      ensures !loaded ==> open == old(open) && current == old(current)
    {
      var before := current;
      if load.FetchFails? {
        return false;
      }
      open, current := open + {id}, Some(id);
      if load.InvalidClosure? {
        open, current := open - {id}, before;
        return false;
      }
      loaded := true;
    }

    method TeardownCurrentLibrary()
      modifies this
      ensures current.None?
      ensures open == if old(current).Some? then old(open) - {old(current).value} else old(open)
    {
      var id := current;
      current := None;
      if id.Some? {
        open := open - {id.value};
      }
    }
  }

  /** The closure's own pipes, in load order. */
  function OwnPipes(pipeRefs: seq<string>): seq<string> {
    if pipeRefs == [] then []
    else if IsCrossPackage(pipeRefs[0]) then OwnPipes(pipeRefs[1..])
    else [pipeRefs[0]] + OwnPipes(pipeRefs[1..])
  }

  /** The maps for the described pipes, or nothing if one pipe's artifacts cannot be derived. */
  method BuildArtifacts(described: seq<string>, derive: string -> Option<Artifacts>)
    returns (built: bool, contracts: map<string, string>, inputForms: map<string, string>,
          outputForms: map<string, string>)
    ensures built <==> forall i :: 0 <= i < |described| ==> derive(described[i]).Some?
    ensures built ==> contracts.Keys == inputForms.Keys == outputForms.Keys == set ref | ref in described
    ensures built ==> forall ref :: ref in described ==>
              derive(ref) == Some(Artifacts(contracts[ref], inputForms[ref], outputForms[ref]))
  {
    contracts, inputForms, outputForms := map[], map[], map[];
    for i := 0 to |described|
      invariant contracts.Keys == inputForms.Keys == outputForms.Keys == set ref | ref in described[..i]
      invariant forall ref :: ref in described[..i] ==>
                  derive(ref) == Some(Artifacts(contracts[ref], inputForms[ref], outputForms[ref]))
      invariant forall k :: 0 <= k < i ==> derive(described[k]).Some?
    {
      var ref := described[i];
      assert described[..i + 1] == described[..i] + [ref];
      var artifacts := derive(ref);
      if artifacts.None? {
        return false, contracts, inputForms, outputForms;
      }
      contracts := contracts[ref := artifacts.value.contract];
      inputForms := inputForms[ref := artifacts.value.inputForm];
      outputForms := outputForms[ref := artifacts.value.outputForm];
    }
    assert described[..|described|] == described;
    built := true;
  }

  /** What the caller may rely on in a valid answer. */
  ghost predicate HonestReport(request: Request, closure: Closure, manifestMainPipe: Option<string>,
          derive: string -> Option<Artifacts>, report: Report) {
    var default := SelectedRef(SelectDefaultPipe(closure, manifestMainPipe));
    && report.defaultPipeRef == default
    && report.contracts.Keys == report.inputForms.Keys == report.outputForms.Keys
    && (request.pipeRef.Some? ==>
      report.pipeRef == SelectedRef(Lookup(closure.pipeRefs, request.pipeRef.value)) && report.pipeRef.Some?)
    && (request.pipeRef.None? ==> report.pipeRef == default)
    && (if request.allPipes then report.contracts.Keys == OwnRefs(closure.pipeRefs)
        else report.pipeRef.Some? && report.contracts.Keys == {report.pipeRef.value})
    && forall ref :: ref in report.contracts.Keys ==>
         derive(ref) == Some(Artifacts(report.contracts[ref], report.inputForms[ref], report.outputForms[ref]))
  }

  /** The selection this request is refused for, if it is: `all_pipes` needs one only for a ref it names. */
  function RefusedSelection(request: Request, closure: Closure, manifestMainPipe: Option<string>): Option<MissKind> {
    var selection := ResolveRequestedPipe(closure, request.pipeRef, manifestMainPipe);
    if selection.Selected? || (request.allPipes && request.pipeRef.None?) then None else Some(selection.kind)
  }

  /** A selector that was sent must select; without one a single-pipe request needs the default to. */
  lemma SelectionIsRefusedIff(request: Request, closure: Closure, manifestMainPipe: Option<string>)
    ensures RefusedSelection(request, closure, manifestMainPipe) ==
            match request.pipeRef
            case Some(ref) =>
              (match Lookup(closure.pipeRefs, ref) case Miss(kind) => Some(kind) case Selected(_) => None)
            case None =>
              if request.allPipes then None
              else match SelectDefaultPipe(closure,
                manifestMainPipe) case Miss(kind) => Some(kind) case Selected(_) => None
  {
  }

  /** Described are all own pipes, or the one pipe the sent selector or the default selects. */
  lemma DescribedAre(request: Request, closure: Closure, manifestMainPipe: Option<string>)
    requires RefusedSelection(request, closure, manifestMainPipe).None?
    ensures request.allPipes ==> forall ref :: ref in Described(request, closure, manifestMainPipe) <==>
              ref in closure.pipeRefs && !IsCrossPackage(ref)
    ensures !request.allPipes ==>
              match request.pipeRef
              case Some(selector) =>
                && Lookup(closure.pipeRefs, selector).Selected?
                && Described(request, closure, manifestMainPipe) == {Lookup(closure.pipeRefs, selector).ref}
              case None =>
                && SelectDefaultPipe(closure, manifestMainPipe).Selected?
                && Described(request, closure, manifestMainPipe) == {SelectDefaultPipe(closure, manifestMainPipe).ref}
  {
  }

  lemma {:induction false} OwnPipesAreOwnRefs(pipeRefs: seq<string>)
    ensures forall ref :: ref in OwnPipes(pipeRefs) <==> ref in OwnRefs(pipeRefs)
  {
    if pipeRefs != [] {
      OwnPipesAreOwnRefs(pipeRefs[1..]);
      assert forall ref :: ref in pipeRefs <==> ref == pipeRefs[0] || ref in pipeRefs[1..];
    }
  }

  /** The pipes an answer describes: all of the library's own, or the selected one. */
  function Described(request: Request, closure: Closure, manifestMainPipe: Option<string>): set<string> {
    if request.allPipes then OwnRefs(closure.pipeRefs)
    else
      var selection := ResolveRequestedPipe(closure, request.pipeRef, manifestMainPipe);
      if selection.Selected? then {selection.ref} else {}
  }

  /** The body of the route's `try`, run with the library loaded. */
  method Describe(request: Request, closure: Closure, manifestMainPipe: Option<string>,
          derive: string -> Option<Artifacts>)
    returns (response: Response)
    ensures RefusedSelection(request, closure, manifestMainPipe).Some? ==>
              response == SelectionRefused(RefusedSelection(request, closure, manifestMainPipe).value)
    ensures RefusedSelection(request, closure, manifestMainPipe).None? ==>
              if forall ref :: ref in Described(request, closure, manifestMainPipe) ==> derive(ref).Some?
              then response.Valid? else response == CannotDerive
    ensures response.Valid? ==> HonestReport(request, closure, manifestMainPipe, derive, response.report)
  {
    var defaultPipe := SelectDefaultPipe(closure, manifestMainPipe);
    var defaultPipeRef := SelectedRef(defaultPipe);
    var pipeRef: Option<string>;
    var describedPipes: seq<string>;
    OwnPipesAreOwnRefs(closure.pipeRefs);
    if request.allPipes {
      if request.pipeRef.Some? {
        var requested := ResolveRequestedPipe(closure, request.pipeRef, manifestMainPipe);
        if requested.Miss? {
          return SelectionRefused(requested.kind);
        }
        pipeRef := Some(requested.ref);
      } else {
        pipeRef := defaultPipeRef;
      }
      describedPipes := OwnPipes(closure.pipeRefs);
    } else {
      var requested := ResolveRequestedPipe(closure, request.pipeRef, manifestMainPipe);
      if requested.Miss? {
        return SelectionRefused(requested.kind);
      }
      pipeRef := Some(requested.ref);
      describedPipes := [requested.ref];
      SelectionIsOwn(closure, request.pipeRef, manifestMainPipe);
    }
    assert forall ref :: ref in describedPipes <==> ref in Described(request, closure, manifestMainPipe);
    var built, contracts, inputForms, outputForms := BuildArtifacts(describedPipes, derive);
    if !built {
      var i :| 0 <= i < |describedPipes| && derive(describedPipes[i]).None?;
      assert describedPipes[i] in describedPipes;
      return CannotDerive;
    }
    assert (set ref | ref in describedPipes) == Described(request, closure, manifestMainPipe);
    response := Valid(Report(pipeRef, defaultPipeRef, contracts, inputForms, outputForms));
  }

  /** What any selection selects is a pipe of the library's own. */
  lemma SelectionIsOwn(closure: Closure, pipeRef: Option<string>, manifestMainPipe: Option<string>)
    requires ResolveRequestedPipe(closure, pipeRef, manifestMainPipe).Selected?
    ensures ResolveRequestedPipe(closure, pipeRef, manifestMainPipe).ref in OwnRefs(closure.pipeRefs)
  {
    var ref := ResolveRequestedPipe(closure, pipeRef, manifestMainPipe).ref;
    forall selector | Selects(closure.pipeRefs, selector, ref) ensures ref in OwnRefs(closure.pipeRefs) {
      if selector !in OwnRefs(closure.pipeRefs) {
        assert ref in BareMatches(closure.pipeRefs, selector);
      }
    }
  }

  /**
   The route. On every exit the libraries open are the ones that were; a loaded library leaves none current, not the
   one that was; a valid answer is honest; a request with `all_pipes` that names no pipe is never refused a selection.
   */
  method PipeIo(manager: LibraryManager, request: Request, load: Load, id: LibraryId,
          derive: string -> Option<Artifacts>)
    returns (response: Response)
    requires id !in manager.open
    modifies manager
    ensures manager.open == old(manager.open)
    ensures manager.current == if load.Loads? then None else old(manager.current)
    ensures load.FetchFails? <==> response == FetchProblem
    ensures load.InvalidClosure? <==> response == InvalidVerdict
    ensures load.Loads? && response.Valid? ==>
            HonestReport(request, load.closure, load.manifestMainPipe, derive, response.report)
    ensures load.Loads? ==>
              (response.SelectionRefused? <==> RefusedSelection(request, load.closure, load.manifestMainPipe).Some?)
    ensures load.Loads? && RefusedSelection(request, load.closure, load.manifestMainPipe).None? ==>
              if forall ref :: ref in Described(request, load.closure, load.manifestMainPipe) ==> derive(ref).Some?
              then response.Valid? else response == CannotDerive
    ensures request.allPipes && request.pipeRef.None? ==> !response.SelectionRefused?
  {
    var loaded := manager.ResolveRequestedCrate(load, id);
    if !loaded {
      return if load.FetchFails? then FetchProblem else InvalidVerdict;
    }
    response := Describe(request, load.closure, load.manifestMainPipe, derive);
    manager.TeardownCurrentLibrary();
  }
}
