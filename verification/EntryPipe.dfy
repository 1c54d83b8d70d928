/**
 Which pipe a request that names none selects. The tooling routes (`api/routes/pipelex/crate_ops.py`) ask
 the engine's entry lookup over the loaded library; `/validate` (`api/routes/pipelex/validate.py`) works on
 the qualified refs of its verdict alone. The two chains are written independently.

 The engine is not part of the repository; its lookup is modelled by the rule `validate.py` documents: an
 exact ref of the library's own matches outright, a bare code matches across domains, and an ambiguous one
 selects nothing.
 */
module EntryPipe {
  import opened Wrappers

  /** A domain of the closure and the entry pipe it declares; an empty declaration is none. */
  datatype Domain = Domain(code: string, mainPipe: Option<string>)

  /** A loaded closure: its domains in order, and the refs of every pipe the library holds. */
  datatype Closure = Closure(domains: seq<Domain>, pipeRefs: seq<string>)

  datatype MissKind = NotFound | Ambiguous

  datatype Selection = Selected(ref: string) | Miss(kind: MissKind)

  function SelectedRef(s: Selection): Option<string> { if s.Selected? then Some(s.ref) else None }

  /** A ref into an installed dependency, `alias->domain.code`. */
  predicate IsCrossPackage(ref: string) {
    exists i {:trigger ref[i]} :: 0 <= i < |ref| - 1 && ref[i] == '-' && ref[i + 1] == '>'
  }

  /** `ref.rpartition(".")[2]` */
  function BareCode(ref: string): (code: string)
    ensures '.' !in code
  {
    if ref == "" || ref[|ref| - 1] == '.' then "" else BareCode(ref[..|ref| - 1]) + [ref[|ref| - 1]]
  }

  // The engine's entry lookup, as a rule on the set of the library's own refs.

  function OwnRefs(pipeRefs: seq<string>): set<string> {
    set ref | ref in pipeRefs && !IsCrossPackage(ref)
  }

  function BareMatches(pipeRefs: seq<string>, code: string): set<string> {
    set ref | ref in OwnRefs(pipeRefs) && BareCode(ref) == code
  }

  /** The lookup selects this ref. */
  ghost predicate Selects(pipeRefs: seq<string>, selector: string, ref: string) {
    if selector in OwnRefs(pipeRefs) then ref == selector else BareMatches(pipeRefs, selector) == {ref}
  }

  lemma SingletonHasOneMember(s: set<string>)
    requires |s| == 1
    ensures forall a, b :: a in s && b in s ==> a == b
  {
    forall a, b | a in s && b in s ensures a == b {
      assert |s - {a}| == 0;
      assert b !in s - {a};
    }
  }

  function OnlyMember(s: set<string>): (member: string)
    requires |s| == 1
    ensures s == {member}
  {
    SingletonHasOneMember(s);
    var member :| member in s;
    member
  }

  function Lookup(pipeRefs: seq<string>, selector: string): (s: Selection)
    ensures s.Selected? ==> Selects(pipeRefs, selector, s.ref)
    ensures s.Miss? ==> forall ref :: !Selects(pipeRefs, selector, ref)
  {
    if selector in OwnRefs(pipeRefs) then Selected(selector)
    else
      var matches := BareMatches(pipeRefs, selector);
      if |matches| == 1 then Selected(OnlyMember(matches)) else Miss(if matches == {} then NotFound else Ambiguous)
  }

  /** Why a lookup selects nothing: no own pipe has the code, or two have. */
  lemma LookupMissesIff(pipeRefs: seq<string>, selector: string)
    ensures Lookup(pipeRefs, selector) == Miss(NotFound) <==>
            forall ref :: ref in pipeRefs && !IsCrossPackage(ref) ==> ref != selector && BareCode(ref) != selector
    ensures Lookup(pipeRefs, selector) == Miss(Ambiguous) <==>
            && (selector in pipeRefs ==> IsCrossPackage(selector))
            && exists a, b :: a in BareMatches(pipeRefs, selector) && b in BareMatches(pipeRefs, selector) && a != b
  {
    var matches := BareMatches(pipeRefs, selector);
    assert forall ref :: ref in matches <==> ref in pipeRefs && !IsCrossPackage(ref) && BareCode(ref) == selector;
    if |matches| == 1 {
      SingletonHasOneMember(matches);
      assert OnlyMember(matches) in matches;
    } else if matches != {} {
      var a :| a in matches;
      assert |matches - {a}| > 0;
      var b :| b in matches - {a};
    }
  }

  /** A bare match is an own pipe of any domain with the code; a ref without a dot is its own code. */
  lemma {:induction false} UndottedIsItsCode(ref: string)
    requires '.' !in ref
    ensures BareCode(ref) == ref
  {
    if ref != "" {
      UndottedIsItsCode(ref[..|ref| - 1]);
    }
  }

  lemma CrossPackageIff(ref: string)
    ensures IsCrossPackage(ref) <==> exists a, b :: ref == a + "->" + b
  {
    if i :| 0 <= i < |ref| - 1 && ref[i] == '-' && ref[i + 1] == '>' {
      assert ref == ref[..i] + "->" + ref[i + 2..];
    }
    if a, b :| ref == a + "->" + b {
      assert ref[|a|] == '-' && ref[|a| + 1] == '>';
    }
  }

  // The tooling routes' default chain.

  /** The qualified refs the domains declare as their entry pipes. */
  function Candidates(domains: seq<Domain>): seq<string> {
    if domains == [] then []
    else
      var rest := Candidates(domains[1..]);
      if domains[0].mainPipe.Some? && domains[0].mainPipe.value != ""
        then [domains[0].code + "." + domains[0].mainPipe.value] + rest else rest
  }

  function SelectDefaultPipe(closure: Closure, manifestMainPipe: Option<string>): Selection {
    if manifestMainPipe.Some? && manifestMainPipe.value != "" then Lookup(closure.pipeRefs, manifestMainPipe.value)
    else
      var candidates := Candidates(closure.domains);
      if candidates == [] then Miss(NotFound)
      else if |candidates| > 1 then Miss(Ambiguous)
      else Lookup(closure.pipeRefs, candidates[0])
  }

  /** A request's own selector wins over the default chain. */
  function ResolveRequestedPipe(closure: Closure, pipeRef: Option<string>,
          manifestMainPipe: Option<string>): Selection {
    if pipeRef.Some? then Lookup(closure.pipeRefs, pipeRef.value) else SelectDefaultPipe(closure, manifestMainPipe)
  }

  // `/validate`'s chain, on lists.

  /** The refs with this bare code, each once. */
  function DistinctMatches(refs: seq<string>, code: string): seq<string>
  {
    if refs == [] then []
    else
      var rest := DistinctMatches(refs[1..], code);
      if !IsCrossPackage(refs[0]) && BareCode(refs[0]) == code && refs[0] !in rest then [refs[0]] + rest else rest
  }

  function QualifyManifestMainPipe(mainPipe: string, pipeRefs: seq<string>): Option<string> {
    if mainPipe in pipeRefs && !IsCrossPackage(mainPipe) then Some(mainPipe)
    else
      var matches := DistinctMatches(pipeRefs, mainPipe);
      if |matches| == 1 then Some(matches[0]) else None
  }

  /** The entry pipe of the primary blueprint, which is the first to declare one. */
  function PrimaryMainPipe(domains: seq<Domain>): Option<string> {
    if domains == [] then None
    else if domains[0].mainPipe.Some? && domains[0].mainPipe.value != ""
      then Some(domains[0].code + "." + domains[0].mainPipe.value)
    else PrimaryMainPipe(domains[1..])
  }

  function EffectiveDefaultPipeRef(closure: Closure, manifestMainPipe: Option<string>): Option<string> {
    if manifestMainPipe.Some? then QualifyManifestMainPipe(manifestMainPipe.value, closure.pipeRefs)
    else PrimaryMainPipe(closure.domains)
  }

  // The chains compared.

  lemma {:induction false} DistinctMatchesAreBareMatches(refs: seq<string>, code: string)
    ensures forall ref :: ref in DistinctMatches(refs, code) <==> ref in BareMatches(refs, code)
  {
    if refs != [] {
      DistinctMatchesAreBareMatches(refs[1..], code);
      assert forall ref :: ref in refs <==> ref == refs[0] || ref in refs[1..];
    }
  }

  lemma {:induction false} DistinctCount(refs: seq<string>, code: string)
    ensures |BareMatches(refs, code)| == |DistinctMatches(refs, code)|
  {
    if refs == [] {
      assert BareMatches(refs, code) == {};
    } else {
      DistinctCount(refs[1..], code);
      DistinctMatchesAreBareMatches(refs, code);
      DistinctMatchesAreBareMatches(refs[1..], code);
      var rest, matches := DistinctMatches(refs[1..], code), DistinctMatches(refs, code);
      assert BareMatches(refs, code) == if matches == rest then BareMatches(refs[1..], code)
        else BareMatches(refs[1..], code) + {refs[0]};
    }
  }

  /** Both lookups resolve the same selectors, to the same refs. */
  lemma QualifyIsLookup(pipeRefs: seq<string>, selector: string)
    ensures QualifyManifestMainPipe(selector, pipeRefs) == SelectedRef(Lookup(pipeRefs, selector))
  {
    var matches := DistinctMatches(pipeRefs, selector);
    DistinctMatchesAreBareMatches(pipeRefs, selector);
    DistinctCount(pipeRefs, selector);
    if |matches| == 1 {
      assert matches[0] in BareMatches(pipeRefs, selector);
    }
  }

  lemma {:induction false} PrimaryIsFirstCandidate(domains: seq<Domain>)
    ensures PrimaryMainPipe(domains) == if Candidates(domains) == [] then None else Some(Candidates(domains)[0])
  {
    if domains != [] {
      PrimaryIsFirstCandidate(domains[1..]);
    }
  }

  lemma {:induction false} CandidatesOfConcat(a: seq<Domain>, b: seq<Domain>)
    ensures Candidates(a + b) == Candidates(a) + Candidates(b)
  {
    if a == [] {
      assert a + b == b;
    } else {
      assert (a + b)[1..] == a[1..] + b;
      CandidatesOfConcat(a[1..], b);
    }
  }

  lemma CandidateOfOne(code: string, mainPipe: Option<string>)
    ensures Candidates([Domain(code, mainPipe)]) ==
            match mainPipe case Some(pipe) => if pipe == "" then [] else [code + "." + pipe] case None => []
  {
    assert [Domain(code, mainPipe)][1..] == [];
  }

  /**
   Without a manifest code, none declared selects nothing and so do several, of which `/validate` reports the
   first.
   */
  lemma UndecidedDefaults(closure: Closure)
    ensures Candidates(closure.domains) == [] ==>
              SelectDefaultPipe(closure, None) == Miss(NotFound) && EffectiveDefaultPipeRef(closure, None) == None
    ensures |Candidates(closure.domains)| > 1 ==>
              && SelectDefaultPipe(closure, None) == Miss(Ambiguous)
              && EffectiveDefaultPipeRef(closure, None) == Some(Candidates(closure.domains)[0])
  {
    PrimaryIsFirstCandidate(closure.domains);
  }

  lemma {:induction false} CandidatesAreQualified(domains: seq<Domain>)
    ensures forall candidate :: candidate in Candidates(domains) ==> '.' in candidate
  {
    if domains != [] {
      CandidatesAreQualified(domains[1..]);
      if domains[0].mainPipe.Some? {
        var candidate := domains[0].code + "." + domains[0].mainPipe.value;
        assert candidate[|domains[0].code|] == '.';
      }
    }
  }

  /** A qualified selector is never a bare code, so it selects itself or nothing. */
  lemma QualifiedSelectsItself(pipeRefs: seq<string>, selector: string)
    requires '.' in selector
    ensures SelectedRef(Lookup(pipeRefs, selector)) == if selector in OwnRefs(pipeRefs) then Some(selector) else None
  {
    assert BareMatches(pipeRefs, selector) == {};
    if selector in OwnRefs(pipeRefs) {
      assert Selects(pipeRefs, selector, selector);
    }
  }

  /** The one declared entry pipe that is there to run. */
  ghost predicate DeclaresOnePresentPipe(closure: Closure) {
    |Candidates(closure.domains)| == 1 && Candidates(closure.domains)[0] in OwnRefs(closure.pipeRefs)
  }

  /** Every pipe of the library has a code. */
  ghost predicate PipesHaveCodes(pipeRefs: seq<string>) {
    forall ref :: ref in pipeRefs ==> ref != "" && BareCode(ref) != ""
  }

  lemma ClosureDefault(closure: Closure)
    ensures SelectedRef(SelectDefaultPipe(closure, None)) ==
            if DeclaresOnePresentPipe(closure) then Some(Candidates(closure.domains)[0]) else None
    ensures SelectDefaultPipe(closure, Some("")) == SelectDefaultPipe(closure, None)
  {
    var candidates := Candidates(closure.domains);
    CandidatesAreQualified(closure.domains);
    if |candidates| == 1 {
      QualifiedSelectsItself(closure.pipeRefs, candidates[0]);
    }
  }

  /**
   Whenever the tooling routes select a default pipe, `/validate` reports the same qualified ref (manifest codes
   are non-empty).
   */
  lemma SelectedDefaultIsReported(closure: Closure, manifestMainPipe: Option<string>)
    requires manifestMainPipe != Some("")
    requires SelectDefaultPipe(closure, manifestMainPipe).Selected?
    ensures EffectiveDefaultPipeRef(closure, manifestMainPipe) == Some(SelectDefaultPipe(closure, manifestMainPipe).ref)
  {
    if manifestMainPipe.Some? {
      QualifyIsLookup(closure.pipeRefs, manifestMainPipe.value);
    } else {
      ClosureDefault(closure);
      PrimaryIsFirstCandidate(closure.domains);
    }
  }

  /**
   Exactly when the two chains answer alike: always with a manifest code; without one, when no domain
   declares an entry pipe, or exactly one does and its pipe is there; and on an empty manifest code, which
   one chain takes for a code and the other for none, when the closure's own default selects nothing.
   */
  lemma ChainsAgreeIff(closure: Closure, manifestMainPipe: Option<string>)
    requires PipesHaveCodes(closure.pipeRefs)
    ensures EffectiveDefaultPipeRef(closure, manifestMainPipe)
            == SelectedRef(SelectDefaultPipe(closure, manifestMainPipe)) <==>
            match manifestMainPipe
            case Some(code) => code != "" || !DeclaresOnePresentPipe(closure)
            case None => Candidates(closure.domains) == [] || DeclaresOnePresentPipe(closure)
  {
    ClosureDefault(closure);
    PrimaryIsFirstCandidate(closure.domains);
    if manifestMainPipe.Some? {
      QualifyIsLookup(closure.pipeRefs, manifestMainPipe.value);
      if manifestMainPipe.value == "" {
        assert BareMatches(closure.pipeRefs, "") == {};
        assert forall ref :: !Selects(closure.pipeRefs, "", ref);
      }
    }
  }

  lemma BareCodeOf(domain: string, code: string)
    requires '.' !in code
    ensures BareCode(domain + "." + code) == code
  {
    if code == "" {
      assert domain + "." + code == domain + ".";
    } else {
      var n := |code| - 1;
      assert (domain + "." + code)[..|domain + "." + code| - 1] == domain + "." + code[..n];
      BareCodeOf(domain, code[..n]);
    }
  }

  /** An empty manifest code: the tooling routes fall back to the one declared pipe, `/validate` reports none. */
  lemma EmptyManifestCodePartsTheChains()
    ensures var closure := Closure([Domain("smoke", Some("echo"))], ["smoke.echo"]);
            && SelectDefaultPipe(closure, Some("")) == Selected("smoke.echo")
            && EffectiveDefaultPipeRef(closure, Some("")) == None
  {
    var closure := Closure([Domain("smoke", Some("echo"))], ["smoke.echo"]);
    var ref := "smoke.echo";
    assert ref == "smoke" + "." + "echo";
    BareCodeOf("smoke", "echo");
    assert closure.domains[1..] == [];
    assert Candidates(closure.domains) == [ref];
    assert !IsCrossPackage(ref);
    assert ref in OwnRefs(closure.pipeRefs);
    ChainsAgreeIff(closure, Some(""));
    ClosureDefault(closure);
    QualifyIsLookup(closure.pipeRefs, "");
    assert BareMatches(closure.pipeRefs, "") == {};
    assert forall r :: !Selects(closure.pipeRefs, "", r);
  }
}
