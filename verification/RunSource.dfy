/**
 What a run request runs: a fetched package, a method bundle, inline contents or a registered pipe
 (`api/schemas/models.py`, `api/routes/pipelex/pipeline.py`, `api/method_source.py`). A bundle and a package
 are split the same way: `.mthds` texts travel as contents, the rest as a temporary library directory.

 Texts are kept as bytes, and which bytes are valid UTF-8 is a parameter. Fetching, locating and bounding a
 package, and the structures check, happen before what is modelled here.
 */
module RunSource {
  import opened Wrappers
  import opened Segments
  import opened SafePath
  import opened BundleIngest
  import opened BundleDisk
  import opened TextLines
  import opened MethodPackage

  const MANIFEST_FILENAME := "METHODS.toml"
  const MAX_METHOD_REF_LEN := 512

  // The request.

  datatype Body = Body(
    pipeCode: Option<string>,
    mthdsContents: Option<seq<Bytes>>,
    legacyContent: Option<Bytes>,
    bundle: Option<Upload>,
    files: Option<seq<Item>>,
    methodRef: Option<string>,
    unhandledKeys: set<string>)

  datatype RunRequest = RunRequest(
    pipeCode: Option<string>,
    mthdsContents: Option<seq<Bytes>>,
    bundle: Option<Upload>,
    files: Option<seq<Item>>,
    methodRef: Option<string>)
  {
    predicate HasBundle() { bundle.Some? || files.Some? }
    predicate HasContents() { mthdsContents.Some? && mthdsContents.value != [] }
  }

  datatype RequestRefusal =
    | UnhandledKeys(keys: set<string>)
    | BundleAndContents
    | RefAndContents
    | RefAndBundle
    | NoSource
    | BadMethodRef

  function RequestOf(body: Body): RunRequest {
    var contents :=
      if body.mthdsContents.Some? then body.mthdsContents
      else if body.legacyContent.Some? then Some([body.legacyContent.value])
      else None;
    RunRequest(body.pipeCode, contents, body.bundle, body.files, body.methodRef)
  }

  function RefuseSourceLess(body: Body, r: RunRequest): Option<RequestRefusal> {
    if r.pipeCode.Some? || r.HasContents() || r.HasBundle() || r.methodRef.Some? then None
    else if body.unhandledKeys == {} then None
    else Some(UnhandledKeys(body.unhandledKeys))
  }

  function ValidateRequest(r: RunRequest): Option<RequestRefusal> {
    if r.HasBundle() && r.HasContents() then Some(BundleAndContents)
    else if r.methodRef.Some? && r.HasContents() then Some(RefAndContents)
    else if r.methodRef.Some? && r.HasBundle() then Some(RefAndBundle)
    else if r.pipeCode.None? && !r.HasContents() && !r.HasBundle() && r.methodRef.None? then Some(NoSource)
    else if r.methodRef.Some? && !(1 <= |r.methodRef.value| <= MAX_METHOD_REF_LEN) then Some(BadMethodRef)
    else None
  }

  function FromBody(body: Body): Result<RunRequest, RequestRefusal> {
    var r := RequestOf(body);
    match RefuseSourceLess(body, r)
    case Some(refusal) => Err(refusal)
    case None =>
      match ValidateRequest(r)
      case Some(refusal) => Err(refusal)
      case None => Ok(r)
  }

  datatype Family = Address | Bundle | Inline | Registered

  /** Every source the request carries; a pipe code is one only where there is no other. */
  ghost function Sources(r: RunRequest): set<Family> {
    var carried :=
      (if r.methodRef.Some? then {Address} else {})
      + (if r.HasBundle() then {Bundle} else {})
      + (if r.HasContents() then {Inline} else {});
    if carried == {} && r.pipeCode.Some? then {Registered} else carried
  }

  /** The source `_run_source` takes. */
  function TakenSource(r: RunRequest): Family {
    if r.methodRef.Some? then Address else if r.HasBundle() then Bundle else if r.HasContents() then Inline
      else Registered
  }

  /** A body is accepted exactly when it carries one source (with a well-sized address), and that one is run. */
  lemma AcceptedRequestHasOneSource(body: Body)
    ensures FromBody(body).Ok? <==>
            && |Sources(RequestOf(body))| == 1
            && (body.methodRef.Some? ==> 1 <= |body.methodRef.value| <= MAX_METHOD_REF_LEN)
    ensures FromBody(body).Ok? ==> Sources(FromBody(body).value) == {TakenSource(FromBody(body).value)}
  {
    var r := RequestOf(body);
    var carried := Sources(r);
    if FromBody(body).Ok? {
      assert carried == {TakenSource(r)};
    } else if r.methodRef.Some? && r.HasBundle() {
      assert {Address, Bundle} <= carried;
      TwoIsNotOne(carried, Address, Bundle);
    } else if r.methodRef.Some? && r.HasContents() {
      assert {Address, Inline} <= carried;
      TwoIsNotOne(carried, Address, Inline);
    } else if r.HasBundle() && r.HasContents() {
      assert {Bundle, Inline} <= carried;
      TwoIsNotOne(carried, Bundle, Inline);
    }
  }

  /** What is accepted is the body's own, the legacy single content counting only where the list is missing. */
  lemma AcceptedRequestIsTheBodys(body: Body)
    requires FromBody(body).Ok?
    ensures var r := FromBody(body).value;
            && r.pipeCode == body.pipeCode && r.bundle == body.bundle && r.files == body.files
              && r.methodRef == body.methodRef
            && r.mthdsContents == match (body.mthdsContents, body.legacyContent)
                                  case (Some(contents), _) => Some(contents)
                                  case (None, Some(content)) => Some([content])
                                  case (None, None) => None
  {
  }

  /** Exactly which bodies are accepted, and what each other one is refused for. */
  lemma BodyIsAcceptedIff(body: Body)
    ensures var address, bundle := body.methodRef.Some?, body.bundle.Some? || body.files.Some?;
            var inline := if body.mthdsContents.Some? then body.mthdsContents.value != [] else body.legacyContent.Some?;
            if bundle && inline then FromBody(body) == Err(BundleAndContents)
            else if address && inline then FromBody(body) == Err(RefAndContents)
            else if address && bundle then FromBody(body) == Err(RefAndBundle)
            else if !address && !bundle && !inline && body.pipeCode.None? then
              FromBody(body) == Err(if body.unhandledKeys == {} then NoSource else UnhandledKeys(body.unhandledKeys))
            else if address && !(1 <= |body.methodRef.value| <= 512) then FromBody(body) == Err(BadMethodRef)
            else FromBody(body).Ok?
  {
  }

  lemma TwoIsNotOne(s: set<Family>, a: Family, b: Family)
    requires a in s && b in s && a != b
    ensures |s| >= 2
  {
    assert s == {a, b} + (s - {a, b});
  }

  // Suffixes of names.

  /** `rfind(".")`, or -1 */
  function LastDot(name: string): (i: int)
    ensures -1 <= i < |name| && (i >= 0 ==> name[i] == '.') && forall k :: i < k < |name| ==> name[k] != '.'
  {
    if name == "" then -1 else if name[|name| - 1] == '.' then |name| - 1 else LastDot(name[..|name| - 1])
  }

  /** `PurePath.suffix`: empty for a name that begins or ends at its last dot. */
  function Suffix(name: string): string {
    var i := LastDot(name);
    if 0 < i < |name| - 1 then name[i..] else ""
  }

  function FileName(path: Path): string
    requires path != []
  {
    path[|path| - 1]
  }

  /** A dot and then no further dot or slash. */
  predicate IsSuffix(suffix: string) {
    |suffix| > 1 && suffix[0] == '.' && forall k :: 0 < k < |suffix| ==> suffix[k] != '.' && suffix[k] != '/'
  }

  /** Ending with a suffix and having it differ only on the name that is nothing but the suffix. */
  lemma EndsWithIsSuffix(name: string, suffix: string)
    requires IsSuffix(suffix)
    ensures EndsWith(name, suffix) <==> Suffix(name) == suffix || name == suffix
  {
    if EndsWith(name, suffix) {
      var i := |name| - |suffix|;
      assert forall k :: i <= k < |name| ==> name[k] == name[i..][k - i];
      assert LastDot(name) == i;
    }
  }

  /** A whole path ends with a suffix exactly when its last component does. */
  lemma {:induction false} PathEndsWithItsName(path: Path, suffix: string)
    requires path != [] && IsSuffix(suffix)
    ensures EndsWith(Join(path), suffix) <==> EndsWith(FileName(path), suffix)
  {
    if |path| > 1 {
      PathEndsWithItsName(path[1..], suffix);
      var rest := Join(path[1..]);
      var whole := path[0] + "/" + rest;
      assert Join(path) == whole;
      BehindSlash(path[0], rest, suffix);
    }
  }

  lemma BehindSlash(before: string, rest: string, suffix: string)
    requires IsSuffix(suffix)
    ensures EndsWith(before + "/" + rest, suffix) <==> EndsWith(rest, suffix)
  {
    var whole := before + "/" + rest;
    if |suffix| <= |rest| {
      assert whole[|whole| - |suffix|..] == rest[|rest| - |suffix|..];
    } else if |suffix| <= |whole| {
      var k := |suffix| - |rest| - 1;
      assert whole[|whole| - |suffix|..][k] == whole[|before|] == '/';
      assert suffix[k] != '/';
    }
  }

  // The two splits.

  predicate EntryEndsWith(path: Path, suffix: string) { EndsWith(Print(path), suffix) }

  predicate FileHasSuffix(path: Path, suffix: string)
    requires path != []
  {
    Suffix(FileName(path)) == suffix
  }

  const MTHDS := ".mthds"
  const PYTHON := ".py"

  /** The bundle's texts, in order. */
  function BundleTexts(entries: seq<Entry>): seq<Bytes> {
    if entries == [] then []
    else
      var last := entries[|entries| - 1];
      BundleTexts(entries[..|entries| - 1]) + if EntryEndsWith(last.path, MTHDS) then [last.data] else []
  }

  function BundleOthers(entries: seq<Entry>): seq<Entry> {
    if entries == [] then []
    else
      var last := entries[|entries| - 1];
      BundleOthers(entries[..|entries| - 1]) + if EntryEndsWith(last.path, MTHDS) then [] else [last]
  }

  /** A package's text is read in text mode. */
  function ReadText(data: Bytes): Bytes { Translated(data, 13, 10) }

  function PackageTexts(files: seq<Entry>): seq<Bytes>
    requires HavePaths(files)
  {
    if files == [] then []
    else
      var last := files[|files| - 1];
      PackageTexts(files[..|files| - 1]) + if FileHasSuffix(last.path, MTHDS) then [ReadText(last.data)] else []
  }

  function PackageOthers(files: seq<Entry>): seq<Entry>
    requires HavePaths(files)
  {
    if files == [] then []
    else
      var last := files[|files| - 1];
      PackageOthers(files[..|files| - 1])
      + if FileHasSuffix(last.path, MTHDS) || FileName(last.path) == MANIFEST_FILENAME then [] else [last]
  }

  /** What became of one file: a text, or a file of its own at its path. */
  datatype Piece = Text(data: Bytes) | Other(entry: Entry)

  /** The original list, put together again from the two sides by which side each item went to. */
  function Weave(toText: seq<bool>, texts: seq<Bytes>, others: seq<Entry>): seq<Piece> {
    if toText == [] then []
    else
      var n := |toText| - 1;
      if toText[n] then
        if texts == [] then [] else Weave(toText[..n], texts[..|texts| - 1], others) + [Text(texts[|texts| - 1])]
      else if others == [] then []
      else Weave(toText[..n], texts, others[..|others| - 1]) + [Other(others[|others| - 1])]
  }

  function Flags(entries: seq<Entry>): seq<bool> {
    if entries == [] then []
    else Flags(entries[..|entries| - 1]) + [EntryEndsWith(entries[|entries| - 1].path, MTHDS)]
  }

  /** Every entry of the bundle, in order: the content of a text, and every other file with its path. */
  function BundlePieces(entries: seq<Entry>): seq<Piece> {
    if entries == [] then []
    else
      var last := entries[|entries| - 1];
      BundlePieces(entries[..|entries| - 1])
        + [if EntryEndsWith(last.path, MTHDS) then Text(last.data) else Other(last)]
  }

  lemma WeaveText(toText: seq<bool>, texts: seq<Bytes>, others: seq<Entry>, text: Bytes)
    ensures Weave(toText + [true], texts + [text], others) == Weave(toText, texts, others) + [Text(text)]
  {
    assert (toText + [true])[..|toText|] == toText && (texts + [text])[..|texts|] == texts;
  }

  lemma WeaveOther(toText: seq<bool>, texts: seq<Bytes>, others: seq<Entry>, other: Entry)
    ensures Weave(toText + [false], texts, others + [other]) == Weave(toText, texts, others) + [Other(other)]
  {
    assert (toText + [false])[..|toText|] == toText && (others + [other])[..|others|] == others;
  }

  /**
   The bundle split loses nothing, duplicates nothing and keeps the order: the two sides weave back into the
   bundle.
   */
  lemma {:induction false} BundleSplitWeaves(entries: seq<Entry>)
    ensures |Flags(entries)| == |entries|
    ensures Weave(Flags(entries), BundleTexts(entries), BundleOthers(entries)) == BundlePieces(entries)
  {
    if entries != [] {
      var n := |entries| - 1;
      var flags, texts, others := Flags(entries[..n]), BundleTexts(entries[..n]), BundleOthers(entries[..n]);
      BundleSplitWeaves(entries[..n]);
      if EntryEndsWith(entries[n].path, MTHDS) {
        WeaveText(flags, texts, others, entries[n].data);
        assert BundleOthers(entries) == others;
      } else {
        WeaveOther(flags, texts, others, entries[n]);
        assert BundleTexts(entries) == texts;
      }
    }
  }

  /** The files of a package that go anywhere at all: all but its manifest. */
  predicate IsEligible(path: Path)
    requires path != []
  {
    FileHasSuffix(path, MTHDS) || FileName(path) != MANIFEST_FILENAME
  }

  function PackageFlags(files: seq<Entry>): seq<bool>
    requires HavePaths(files)
  {
    if files == [] then []
    else
      var last := files[|files| - 1];
      PackageFlags(files[..|files| - 1]) + if IsEligible(last.path) then [FileHasSuffix(last.path, MTHDS)] else []
  }

  /** Every file of the package but its manifest, in order. */
  function PackagePieces(files: seq<Entry>): seq<Piece>
    requires HavePaths(files)
  {
    if files == [] then []
    else
      var last := files[|files| - 1];
      PackagePieces(files[..|files| - 1])
      + if FileHasSuffix(last.path, MTHDS) then [Text(ReadText(last.data))]
        else if IsEligible(last.path) then [Other(last)]
        else []
  }

  /** So does the package split, over every file but the manifest. */
  lemma {:induction false} PackageSplitWeaves(files: seq<Entry>)
    requires HavePaths(files)
    ensures Weave(PackageFlags(files), PackageTexts(files), PackageOthers(files)) == PackagePieces(files)
  {
    if files != [] {
      var n := |files| - 1;
      var flags, texts, others := PackageFlags(files[..n]), PackageTexts(files[..n]), PackageOthers(files[..n]);
      PackageSplitWeaves(files[..n]);
      if FileHasSuffix(files[n].path, MTHDS) {
        WeaveText(flags, texts, others, ReadText(files[n].data));
        assert PackageOthers(files) == others;
      } else if IsEligible(files[n].path) {
        WeaveOther(flags, texts, others, files[n]);
        assert PackageTexts(files) == texts;
      } else {
        assert PackageFlags(files) == flags && PackageOthers(files) == others && PackageTexts(files) == texts;
      }
    }
  }

  // Where the two splits agree.

  /** A file both splits treat alike. */
  ghost predicate SplitsAlike(entry: Entry)
    requires entry.path != []
  {
    && FileName(entry.path) != MTHDS && FileName(entry.path) != MANIFEST_FILENAME
    && (FileHasSuffix(entry.path, MTHDS) ==> 13 !in entry.data)
  }

  ghost predicate AllSplitAlike(files: seq<Entry>)
    requires HavePaths(files)
  {
    forall i :: 0 <= i < |files| ==> SplitsAlike(files[i])
  }

  lemma AlikeUpToTheLast(files: seq<Entry>)
    requires HavePaths(files) && files != []
    ensures AllSplitAlike(files) <==> AllSplitAlike(files[..|files| - 1]) && SplitsAlike(files[|files| - 1])
  {
    var n := |files| - 1;
    forall i | 0 <= i < n ensures SplitsAlike(files[i]) <==> SplitsAlike(files[..n][i]) {
      assert files[..n][i] == files[i];
    }
    if AllSplitAlike(files[..n]) && SplitsAlike(files[n]) {
      forall i | 0 <= i < |files| ensures SplitsAlike(files[i]) {
        assert i < n ==> SplitsAlike(files[..n][i]);
      }
    }
  }

  lemma EntrySuffix(path: Path, suffix: string)
    requires path != [] && IsSuffix(suffix)
    ensures EntryEndsWith(path, suffix) <==> FileHasSuffix(path, suffix) || FileName(path) == suffix
  {
    PathEndsWithItsName(path, suffix);
    EndsWithIsSuffix(FileName(path), suffix);
  }

  lemma {:induction false} SplitCounts(files: seq<Entry>)
    requires HavePaths(files)
    ensures |BundleTexts(files)| >= |PackageTexts(files)|
    ensures |BundleTexts(files)| + |BundleOthers(files)| >= |PackageTexts(files)| + |PackageOthers(files)|
  {
    if files != [] {
      SplitCounts(files[..|files| - 1]);
      EntrySuffix(files[|files| - 1].path, MTHDS);
    }
  }

  lemma ManifestIsNoText()
    ensures Suffix(MANIFEST_FILENAME) != MTHDS && !EndsWith(MANIFEST_FILENAME, MTHDS)
  {
    EndsWithIsSuffix(MANIFEST_FILENAME, MTHDS);
    assert MANIFEST_FILENAME[6..][5] == 'l' && MTHDS[5] == 's';
  }

  /**
   Over the same files the bundle split and the package split give the same texts and the same other files
   exactly when no file is the manifest, none is named just `.mthds`, and no text needs its newlines translated.
   */
  lemma {:induction false} SplitsAgreeIff(files: seq<Entry>)
    requires HavePaths(files)
    ensures BundleTexts(files) == PackageTexts(files) && BundleOthers(files) == PackageOthers(files)
       <==> AllSplitAlike(files)
  {
    if files != [] {
      var n := |files| - 1;
      SplitsAgreeIff(files[..n]);
      SplitCounts(files[..n]);
      LastFileSplits(files);
      AlikeUpToTheLast(files);
    }
  }

  lemma LastFileSplits(files: seq<Entry>)
    requires HavePaths(files) && files != []
    requires |BundleTexts(files[..|files| - 1])| >= |PackageTexts(files[..|files| - 1])|
    requires |BundleTexts(files[..|files| - 1])| + |BundleOthers(files[..|files| - 1])|
          >= |PackageTexts(files[..|files| - 1])| + |PackageOthers(files[..|files| - 1])|
    ensures BundleTexts(files) == PackageTexts(files) && BundleOthers(files) == PackageOthers(files) <==>
            && SplitsAlike(files[|files| - 1])
            && BundleTexts(files[..|files| - 1]) == PackageTexts(files[..|files| - 1])
            && BundleOthers(files[..|files| - 1]) == PackageOthers(files[..|files| - 1])
  {
    var n := |files| - 1;
    var last := files[n];
    EntrySuffix(last.path, MTHDS);
    ManifestIsNoText();
    TranslationKeepsIff(last.data, 13, 10);
    var bt, bo, pt, po :=
      BundleTexts(files[..n]), BundleOthers(files[..n]), PackageTexts(files[..n]), PackageOthers(files[..n]);
    if FileName(last.path) == MTHDS {
      assert |BundleTexts(files)| == |bt| + 1 && |PackageTexts(files)| == |pt|;
    } else if FileName(last.path) == MANIFEST_FILENAME {
      assert |BundleTexts(files)| == |bt| && |BundleOthers(files)| == |bo| + 1;
      assert |PackageTexts(files)| == |pt| && |PackageOthers(files)| == |po|;
    } else if FileHasSuffix(last.path, MTHDS) {
      AppendsAreEqualIff(bt, last.data, pt, ReadText(last.data));
      assert bo + [] == bo && po + [] == po;
    } else {
      AppendsAreEqualIff(bo, last, po, last);
      assert bt + [] == bt && pt + [] == pt;
    }
  }

  lemma AppendsAreEqualIff<T>(a: seq<T>, x: T, b: seq<T>, y: T)
    ensures a + [x] == b + [y] <==> a == b && x == y
  {
    if a + [x] == b + [y] {
      assert |a| == |b| && (a + [x])[|a|] == x && (b + [y])[|b|] == y;
      assert a == (a + [x])[..|a|] && b == (b + [y])[..|b|];
    }
  }

  // Resolving a source.

  datatype SourceRefusal =
    | BadBundle(refusal: Refusal)
    | CustomCodeRequiresSandbox | StructuresRefused
    | NotUtf8 | TextTooLong | NoText
    | CannotWrite

  datatype Source = Source(texts: seq<Bytes>, library: Option<DiskTree>)

  type SourceOutcome = Result<Source, SourceRefusal>

  /** What the deployment decides: whether Python runs in a sandbox, what is text, and how long one may be. */
  datatype Deployment = Deployment(hosted: bool, isUtf8: Bytes -> bool, maxTextBytes: nat)

  predicate BundleHasPython(entries: seq<Entry>) {
    exists i :: 0 <= i < |entries| && EntryEndsWith(entries[i].path, PYTHON)
  }

  predicate PackageHasPython(files: seq<Entry>)
    requires HavePaths(files)
  {
    exists i :: 0 <= i < |files| && FileHasSuffix(files[i].path, PYTHON)
  }

  /** Texts and library, once the gate is passed and every text is readable. */
  function Assemble(texts: seq<Bytes>, others: seq<Entry>): SourceOutcome
    requires HavePaths(others)
  {
    if texts == [] then Err(NoText)
    else if others == [] then Ok(Source(texts, None))
    else if WriteAll(others).None? then Err(CannotWrite)
    else Ok(Source(texts, WriteAll(others)))
  }

  /**
   Exactly when texts and other files make a source, and what it then holds: the texts, and a library of
   exactly the other files unless there are none.
   */
  lemma AssembledIff(texts: seq<Bytes>, others: seq<Entry>)
    requires HavePaths(others)
    ensures Assemble(texts, others).Ok? <==> texts != [] && NoClash(others)
    ensures Assemble(texts, others).Err? ==> Assemble(texts, others) == Err(if texts == [] then NoText else CannotWrite)
    ensures Assemble(texts, others).Ok? ==>
              var source := Assemble(texts, others).value;
              && source.texts == texts
              && (source.library.None? <==> others == [])
              && (source.library.Some? ==> HoldsBundle(others, source.library.value))
  {
    WritingIsExact(others);
  }

  predicate BundleTextsReadable(d: Deployment, entries: seq<Entry>) {
    forall i :: 0 <= i < |entries| && EntryEndsWith(entries[i].path, MTHDS) ==> d.isUtf8(entries[i].data)
  }

  function BundleSource(d: Deployment, entries: seq<Entry>): SourceOutcome
    requires HavePaths(entries)
  {
    if BundleHasPython(entries) && !d.hosted then Err(CustomCodeRequiresSandbox)
    else if !BundleTextsReadable(d, entries) then Err(NotUtf8)
    else
      OthersHavePaths(entries);
      Assemble(BundleTexts(entries), BundleOthers(entries))
  }

  lemma {:induction false} OthersHavePaths(entries: seq<Entry>)
    requires HavePaths(entries)
    ensures HavePaths(BundleOthers(entries)) && HavePaths(PackageOthers(entries))
  {
    if entries != [] {
      OthersHavePaths(entries[..|entries| - 1]);
    }
  }

  /** Why a package's text cannot be taken, if it cannot: decoded first, then measured. */
  function TextRefusal(d: Deployment, data: Bytes): Option<SourceRefusal> {
    if !d.isUtf8(data) then Some(NotUtf8) else if |ReadText(data)| > d.maxTextBytes then Some(TextTooLong) else None
  }

  /** The first text of the package that cannot be taken decides. */
  function FirstTextRefusal(d: Deployment, files: seq<Entry>): Option<SourceRefusal>
    requires HavePaths(files)
  {
    if files == [] then None
    else
      var before, last := FirstTextRefusal(d, files[..|files| - 1]), files[|files| - 1];
      if before.Some? then before else if FileHasSuffix(last.path, MTHDS) then TextRefusal(d, last.data) else None
  }

  function PackageSource(d: Deployment, files: seq<Entry>, declaresStructures: bool): SourceOutcome
    requires HavePaths(files)
  {
    if PackageHasPython(files) && !d.hosted then Err(CustomCodeRequiresSandbox)
    else if PackageHasPython(files) && declaresStructures then Err(StructuresRefused)
    else if FirstTextRefusal(d, files).Some? then Err(FirstTextRefusal(d, files).value)
    else
      OthersHavePaths(files);
      Assemble(PackageTexts(files), PackageOthers(files))
  }

  /** Two files' splits are those of each, for a bundle and for a package. */
  lemma {:induction false} BundleSplitOfConcat(a: seq<Entry>, b: seq<Entry>)
    ensures BundleTexts(a + b) == BundleTexts(a) + BundleTexts(b)
    ensures BundleOthers(a + b) == BundleOthers(a) + BundleOthers(b)
  {
    if b == [] {
      assert a + b == a;
    } else {
      assert (a + b)[..|a + b| - 1] == a + b[..|b| - 1];
      BundleSplitOfConcat(a, b[..|b| - 1]);
    }
  }

  lemma BundleSplitOfOne(entry: Entry)
    ensures BundleTexts([entry]) == if EndsWith(Print(entry.path), ".mthds") then [entry.data] else []
    ensures BundleOthers([entry]) == if EndsWith(Print(entry.path), ".mthds") then [] else [entry]
  {
    assert [entry][..0] == [];
  }

  lemma {:induction false} PackageTextsOfConcat(a: seq<Entry>, b: seq<Entry>)
    requires HavePaths(a) && HavePaths(b)
    ensures HavePaths(a + b) && PackageTexts(a + b) == PackageTexts(a) + PackageTexts(b)
  {
    if b == [] {
      assert a + b == a;
    } else {
      assert (a + b)[..|a + b| - 1] == a + b[..|b| - 1];
      PackageTextsOfConcat(a, b[..|b| - 1]);
    }
  }

  lemma {:induction false} PackageOthersOfConcat(a: seq<Entry>, b: seq<Entry>)
    requires HavePaths(a) && HavePaths(b)
    ensures HavePaths(a + b) && PackageOthers(a + b) == PackageOthers(a) + PackageOthers(b)
  {
    if b == [] {
      assert a + b == a;
    } else {
      assert (a + b)[..|a + b| - 1] == a + b[..|b| - 1];
      PackageOthersOfConcat(a, b[..|b| - 1]);
    }
  }

  lemma PackageSplitOfConcat(a: seq<Entry>, b: seq<Entry>)
    requires HavePaths(a) && HavePaths(b)
    ensures HavePaths(a + b)
    ensures PackageTexts(a + b) == PackageTexts(a) + PackageTexts(b)
    ensures PackageOthers(a + b) == PackageOthers(a) + PackageOthers(b)
  {
    PackageTextsOfConcat(a, b);
    PackageOthersOfConcat(a, b);
  }

  lemma PackageSplitOfOne(file: Entry)
    requires file.path != []
    ensures var name := file.path[|file.path| - 1];
            && PackageTexts([file]) == (if Suffix(name) == ".mthds" then [Translated(file.data, 13, 10)] else [])
            && PackageOthers([file]) ==
               if Suffix(name) == ".mthds" || name == "METHODS.toml" then [] else [file]
  {
    assert [file][..0] == [];
  }

  /** A text is taken if it is UTF-8 and, with its line ends translated, not too long. */
  predicate IsTaken(d: Deployment, data: Bytes) {
    d.isUtf8(data) && |Translated(data, 13, 10)| <= d.maxTextBytes
  }

  ghost predicate TextsAreTaken(d: Deployment, files: seq<Entry>)
    requires HavePaths(files)
  {
    forall i :: 0 <= i < |files| && FileHasSuffix(files[i].path, ".mthds") ==> IsTaken(d, files[i].data)
  }

  lemma TakenUpToTheLast(d: Deployment, files: seq<Entry>)
    requires HavePaths(files) && files != []
    ensures var n := |files| - 1;
            TextsAreTaken(d, files) <==>
            TextsAreTaken(d, files[..n]) && (FileHasSuffix(files[n].path, ".mthds") ==> IsTaken(d, files[n].data))
  {
    var n := |files| - 1;
    assert forall i :: 0 <= i < n ==> files[..n][i] == files[i];
  }

  lemma {:induction false} NoneIsRefusedIff(d: Deployment, files: seq<Entry>)
    requires HavePaths(files)
    ensures FirstTextRefusal(d, files).None? <==> TextsAreTaken(d, files)
  {
    if files != [] {
      NoneIsRefusedIff(d, files[..|files| - 1]);
      TakenUpToTheLast(d, files);
    }
  }

  /** The first text that is not taken is refused for its encoding first, and then for its length. */
  lemma FirstRefusalIs(d: Deployment, files: seq<Entry>, k: nat)
    requires HavePaths(files) && k < |files| && TextsAreTaken(d, files[..k])
    requires FileHasSuffix(files[k].path, ".mthds") && !IsTaken(d, files[k].data)
    ensures FirstTextRefusal(d, files) == Some(if d.isUtf8(files[k].data) then TextTooLong else NotUtf8)
  {
    NoneIsRefusedIff(d, files[..k]);
    OneFileFurther(d, files, k);
    RefusalIsFinal(d, files, k + 1);
  }

  ghost predicate PackageNames(files: seq<Entry>, suffix: string)
    requires HavePaths(files)
  {
    exists i :: 0 <= i < |files| && Suffix(FileName(files[i].path)) == suffix
  }

  ghost predicate BundleNames(entries: seq<Entry>, suffix: string) {
    exists i :: 0 <= i < |entries| && EndsWith(Print(entries[i].path), suffix)
  }

  /** A package is refused for its Python, and then for the structures it declares, before anything else. */
  lemma PackageGateIff(d: Deployment, files: seq<Entry>, declaresStructures: bool)
    requires HavePaths(files)
    ensures PackageSource(d, files, declaresStructures) == Err(CustomCodeRequiresSandbox) <==>
            PackageNames(files, ".py") && !d.hosted
    ensures PackageSource(d, files, declaresStructures) == Err(StructuresRefused) <==>
            PackageNames(files, ".py") && d.hosted && declaresStructures
  {
    OthersHavePaths(files);
    RefusalsAreOfTexts(d, files);
    assert PackageHasPython(files) <==> PackageNames(files, ".py");
  }

  lemma {:induction false} RefusalsAreOfTexts(d: Deployment, files: seq<Entry>)
    requires HavePaths(files)
    ensures FirstTextRefusal(d, files) in {None, Some(NotUtf8), Some(TextTooLong)}
  {
    if files != [] {
      RefusalsAreOfTexts(d, files[..|files| - 1]);
    }
  }

  /** Exactly which packages are run. */
  lemma PackageIsRunIff(d: Deployment, files: seq<Entry>, declaresStructures: bool)
    requires HavePaths(files)
    ensures HavePaths(PackageOthers(files))
    ensures PackageSource(d, files, declaresStructures).Ok? <==>
            && (PackageNames(files, ".py") ==> d.hosted && !declaresStructures)
            && TextsAreTaken(d, files) && PackageTexts(files) != [] && NoClash(PackageOthers(files))
  {
    OthersHavePaths(files);
    NoneIsRefusedIff(d, files);
    AssembledIff(PackageTexts(files), PackageOthers(files));
    assert PackageHasPython(files) <==> PackageNames(files, ".py");
  }

  ghost predicate TextsAreReadable(d: Deployment, entries: seq<Entry>) {
    forall i :: 0 <= i < |entries| && EndsWith(Print(entries[i].path), ".mthds") ==> d.isUtf8(entries[i].data)
  }

  /** Exactly which bundles are run, and which are refused for their Python before anything else. */
  lemma BundleIsRunIff(d: Deployment, entries: seq<Entry>)
    requires HavePaths(entries)
    ensures HavePaths(BundleOthers(entries))
    ensures BundleSource(d, entries) == Err(CustomCodeRequiresSandbox) <==> BundleNames(entries, ".py") && !d.hosted
    ensures BundleSource(d, entries).Ok? <==>
            && (BundleNames(entries, ".py") ==> d.hosted)
            && TextsAreReadable(d, entries) && BundleTexts(entries) != [] && NoClash(BundleOthers(entries))
  {
    OthersHavePaths(entries);
    AssembledIff(BundleTexts(entries), BundleOthers(entries));
    PythonAndTextsByName(d, entries);
  }

  lemma PythonAndTextsByName(d: Deployment, entries: seq<Entry>)
    ensures BundleHasPython(entries) <==> BundleNames(entries, ".py")
    ensures BundleTextsReadable(d, entries) <==> TextsAreReadable(d, entries)
  {
    forall i | 0 <= i < |entries|
      ensures EntryEndsWith(entries[i].path, PYTHON) <==> EndsWith(Print(entries[i].path), ".py")
      ensures EntryEndsWith(entries[i].path, MTHDS) <==> EndsWith(Print(entries[i].path), ".mthds")
    {
    }
  }

  /** Hand the library directory over for the run, if there is anything to put into it. */
  method AssembleOnDisk(disk: TempDisk, texts: seq<Bytes>, others: seq<Entry>, dirName: DirName, root: seq<string>,
          run: Materialized -> Use)
    returns (outcome: SourceOutcome)
    requires HaveDescendingPaths(others) && dirName !in disk.dirs
    modifies disk
    ensures outcome == Assemble(texts, others)
    ensures disk.dirs == old(disk.dirs)
    ensures disk.made == old(disk.made) + if texts != [] && others != [] then 1 else 0
  {
    if |texts| == 0 {
      return Err(NoText);
    }
    if |others| == 0 {
      return Ok(Source(texts, None));
    }
    var handed, exit := disk.WithMaterialized(others, dirName, root, run);
    outcome := if handed.Some? then Ok(Source(texts, Some(handed.value.tree))) else Err(CannotWrite);
  }

  /**
   `_bundle_run_source`: the gate comes before any write, so a bundle with Python on an unhosted deployment
   is refused with no directory made; every other bundle is split, and its library is gone after the run.
   */
  method BundleRunSource(disk: TempDisk, d: Deployment, limits: Limits, upload: Option<Upload>,
          files: Option<seq<Item>>, dirName: DirName, root: seq<string>, run: Materialized -> Use)
    returns (outcome: SourceOutcome)
    requires dirName !in disk.dirs
    modifies disk
    ensures disk.dirs == old(disk.dirs)
    ensures var parsed := ParseBundle(limits, upload, files);
            match parsed
            case Err(refusal) => outcome == Err(BadBundle(refusal)) && disk.made == old(disk.made)
            case Ok(entries) =>
              && HavePaths(entries) && outcome == BundleSource(d, entries)
              && (BundleHasPython(entries) && !d.hosted ==>
                outcome == Err(CustomCodeRequiresSandbox) && disk.made == old(disk.made))
  {
    var parsed, _ := DecodeBundle(limits, upload, files);
    if parsed.Err? {
      return Err(BadBundle(parsed.error));
    }
    ParsedBundleIsSafe(limits, upload, files);
    var entries := parsed.value;
    assert HaveDescendingPaths(entries) by {
      forall i | 0 <= i < |entries| ensures entries[i].path != [] && Descends(entries[i].path) {
        assert entries[i] in entries;
        SafePathDescends(entries[i].path);
      }
    }
    if BundleHasPython(entries) && !d.hosted {
      return Err(CustomCodeRequiresSandbox);
    }
    var split := SplitBundle(d, entries);
    if split.None? {
      return Err(NotUtf8);
    }
    OthersDescend(entries);
    outcome := AssembleOnDisk(disk, split.value.0, split.value.1, dirName, root, run);
  }

  predicate HaveDescendingPaths(entries: seq<Entry>) {
    HavePaths(entries) && forall i :: 0 <= i < |entries| ==> Descends(entries[i].path)
  }

  lemma {:induction false} OthersDescend(entries: seq<Entry>)
    requires HaveDescendingPaths(entries)
    ensures HaveDescendingPaths(BundleOthers(entries)) && HaveDescendingPaths(PackageOthers(entries))
  {
    if entries != [] {
      OthersDescend(entries[..|entries| - 1]);
    }
  }

  /** The bundle's loop: a text that is not UTF-8 stops it. */
  method SplitBundle(d: Deployment, entries: seq<Entry>) returns (split: Option<(seq<Bytes>, seq<Entry>)>)
    ensures split == if BundleTextsReadable(d, entries) then Some((BundleTexts(entries), BundleOthers(entries)))
            else None
  {
    var texts: seq<Bytes> := [];
    var others: seq<Entry> := [];
    for i := 0 to |entries|
      invariant texts == BundleTexts(entries[..i]) && others == BundleOthers(entries[..i])
      invariant BundleTextsReadable(d, entries[..i])
    {
      OneEntryFurther(d, entries, i);
      if EndsWith(Print(entries[i].path), MTHDS) {
        if !d.isUtf8(entries[i].data) {
          return None;
        }
        texts := texts + [entries[i].data];
      } else {
        others := others + [entries[i]];
      }
    }
    assert entries[..|entries|] == entries;
    split := Some((texts, others));
  }

  lemma OneEntryFurther(d: Deployment, entries: seq<Entry>, i: nat)
    requires i < |entries|
    ensures BundleTextsReadable(d, entries[..i + 1]) <==>
            BundleTextsReadable(d, entries[..i])
              && (EntryEndsWith(entries[i].path, MTHDS) ==> d.isUtf8(entries[i].data))
    ensures BundleTextsReadable(d, entries) ==> BundleTextsReadable(d, entries[..i + 1])
    ensures BundleTexts(entries[..i + 1]) == BundleTexts(entries[..i]) + if EntryEndsWith(entries[i].path, MTHDS)
            then [entries[i].data] else []
    ensures BundleOthers(entries[..i + 1]) == BundleOthers(entries[..i]) + if EntryEndsWith(entries[i].path, MTHDS)
            then [] else [entries[i]]
  {
    var shorter := entries[..i + 1];
    assert shorter[..i] == entries[..i];
    assert forall k :: 0 <= k <= i ==> shorter[k] == entries[k];
  }

  // A fetched package.

  /** The package's loop: the first text that is not UTF-8 or too long stops it. */
  method SplitPackage(d: Deployment, files: seq<Entry>) returns (split: Result<(seq<Bytes>, seq<Entry>), SourceRefusal>)
    requires HavePaths(files)
    ensures split == match FirstTextRefusal(d, files)
                     case Some(refusal) => Err(refusal)
                     case None => Ok((PackageTexts(files), PackageOthers(files)))
  {
    var texts: seq<Bytes> := [];
    var others: seq<Entry> := [];
    for i := 0 to |files|
      invariant texts == PackageTexts(files[..i]) && others == PackageOthers(files[..i])
      invariant FirstTextRefusal(d, files[..i]).None?
    {
      var file := files[i];
      OneFileFurther(d, files, i);
      if FileHasSuffix(file.path, MTHDS) {
        var refusal := TextRefusal(d, file.data);
        if refusal.Some? {
          RefusalIsFinal(d, files, i + 1);
          return Err(refusal.value);
        }
        texts := texts + [ReadText(file.data)];
      } else if FileName(file.path) != MANIFEST_FILENAME {
        others := others + [file];
      }
    }
    assert files[..|files|] == files;
    split := Ok((texts, others));
  }

  lemma OneFileFurther(d: Deployment, files: seq<Entry>, i: nat)
    requires HavePaths(files) && i < |files| && FirstTextRefusal(d, files[..i]).None?
    ensures PackageTexts(files[..i + 1]) == PackageTexts(files[..i]) + if FileHasSuffix(files[i].path, MTHDS)
            then [ReadText(files[i].data)] else []
    ensures PackageOthers(files[..i + 1]) ==
            PackageOthers(files[..i]) + if FileHasSuffix(files[i].path, MTHDS)
              || FileName(files[i].path) == MANIFEST_FILENAME then [] else [files[i]]
    ensures FirstTextRefusal(d, files[..i + 1]) == if FileHasSuffix(files[i].path, MTHDS)
            then TextRefusal(d, files[i].data) else None
  {
    assert files[..i + 1][..i] == files[..i];
  }

  lemma {:induction false} RefusalIsFinal(d: Deployment, files: seq<Entry>, k: nat)
    requires HavePaths(files) && k <= |files| && FirstTextRefusal(d, files[..k]).Some?
    ensures FirstTextRefusal(d, files) == FirstTextRefusal(d, files[..k])
    decreases |files| - k
  {
    if k < |files| {
      assert files[..k + 1][..k] == files[..k];
      RefusalIsFinal(d, files, k + 1);
    } else {
      assert files[..k] == files;
    }
  }

  /** `fetched_method_source`: the same gate before any write, and the structures check where Python is allowed. */
  method FetchedMethodSource(disk: TempDisk, d: Deployment, listing: seq<Listed>, declaresStructures: bool,
          dirName: DirName, root: seq<string>, run: Materialized -> Use)
    returns (outcome: SourceOutcome)
    requires dirName !in disk.dirs
    requires forall i :: 0 <= i < |listing| ==> listing[i].path != [] && Descends(listing[i].path)
    modifies disk
    ensures disk.dirs == old(disk.dirs)
    ensures var files := PackageFiles(listing);
            && HavePaths(files) && outcome == PackageSource(d, files, declaresStructures)
            && (PackageHasPython(files) && !d.hosted ==>
              outcome == Err(CustomCodeRequiresSandbox) && disk.made == old(disk.made))
  {
    var files := ListPackageFiles(listing);
    PackageFilesDescend(listing);
    if PackageHasPython(files) {
      if !d.hosted {
        return Err(CustomCodeRequiresSandbox);
      }
      if declaresStructures {
        return Err(StructuresRefused);
      }
    }
    var split := SplitPackage(d, files);
    if split.Err? {
      return Err(split.error);
    }
    OthersDescend(files);
    outcome := AssembleOnDisk(disk, split.value.0, split.value.1, dirName, root, run);
  }

  lemma PackageFilesDescend(listing: seq<Listed>)
    requires forall i :: 0 <= i < |listing| ==> listing[i].path != [] && Descends(listing[i].path)
    ensures HaveDescendingPaths(PackageFiles(listing))
  {
    PackageFilesAreListed(listing);
    var files := PackageFiles(listing);
    assert forall i :: 0 <= i < |files| ==> files[i] in files;
  }

  /** The two gates see Python in the same files, but for one named just `.py`. */
  lemma GatesAgreeIff(files: seq<Entry>)
    requires HavePaths(files)
    ensures BundleHasPython(files) == PackageHasPython(files) <==>
            PackageHasPython(files) || forall i :: 0 <= i < |files| ==> FileName(files[i].path) != PYTHON
  {
    forall i | 0 <= i < |files|
      ensures EntryEndsWith(files[i].path, PYTHON)
              <==> FileHasSuffix(files[i].path, PYTHON) || FileName(files[i].path) == PYTHON
    {
      EntrySuffix(files[i].path, PYTHON);
    }
  }

  /**
   One method, shipped either way: where the splits and the gates treat every file alike and no text is too long
   for a package, both transports resolve to the same source or the same refusal, texts that are not UTF-8 included.
   */
  lemma TransportsResolveAlike(d: Deployment, files: seq<Entry>)
    requires HavePaths(files) && AllSplitAlike(files)
    requires forall i :: 0 <= i < |files| ==> FileName(files[i].path) != PYTHON
    requires TextsAreShort(d, files)
    ensures BundleSource(d, files) == PackageSource(d, files, false)
  {
    SplitsAgreeIff(files);
    GatesAgreeIff(files);
    TextsRefusedAlike(d, files);
  }

  /** Only texts are measured. */
  ghost predicate TextsAreShort(d: Deployment, files: seq<Entry>)
    requires HavePaths(files)
  {
    forall i :: 0 <= i < |files| && FileHasSuffix(files[i].path, MTHDS) ==> |files[i].data| <= d.maxTextBytes
  }

  lemma {:induction false} TextsRefusedAlike(d: Deployment, files: seq<Entry>)
    requires HavePaths(files) && AllSplitAlike(files) && TextsAreShort(d, files)
    ensures FirstTextRefusal(d, files) == if BundleTextsReadable(d, files) then None else Some(NotUtf8)
  {
    if files != [] {
      var n := |files| - 1;
      AlikeUpToTheLast(files);
      assert TextsAreShort(d, files[..n]) by {
        assert forall i :: 0 <= i < n ==> files[..n][i] == files[i];
      }
      TextsRefusedAlike(d, files[..n]);
      LastRefusedAlike(d, files[n]);
      ReadableUpToTheLast(d, files);
    }
  }

  lemma LastRefusedAlike(d: Deployment, last: Entry)
    requires last.path != [] && SplitsAlike(last) && (FileHasSuffix(last.path, MTHDS) ==> |last.data| <= d.maxTextBytes)
    ensures FileHasSuffix(last.path, MTHDS) <==> EntryEndsWith(last.path, MTHDS)
    ensures FileHasSuffix(last.path, MTHDS) ==> TextRefusal(d, last.data) == if d.isUtf8(last.data) then None
            else Some(NotUtf8)
  {
    EntrySuffix(last.path, MTHDS);
    TranslationKeepsIff(last.data, 13, 10);
  }

  lemma ReadableUpToTheLast(d: Deployment, files: seq<Entry>)
    requires files != []
    ensures var n := |files| - 1;
            BundleTextsReadable(d, files) <==>
            BundleTextsReadable(d, files[..n]) && (EntryEndsWith(files[n].path, MTHDS) ==> d.isUtf8(files[n].data))
  {
    var n := |files| - 1;
    assert forall i :: 0 <= i < n ==> files[..n][i] == files[i];
  }

  // Files on which the transports part.

  lemma {:induction false} LastDotIs(name: string, i: nat)
    requires i < |name| && name[i] == '.' && forall k :: i < k < |name| ==> name[k] != '.'
    ensures LastDot(name) == i
  {
  }

  lemma NamesOfOneSuffix()
    ensures Suffix(".py") == "" && Suffix(".mthds") == "" && Suffix("m.mthds") == MTHDS
    ensures EndsWith(".mthds", MTHDS) && !EndsWith(".py", MTHDS) && EndsWith("m.mthds", MTHDS)
  {
    LastDotIs(".py", 0);
    LastDotIs(".mthds", 0);
    LastDotIs("m.mthds", 1);
    assert "m.mthds"[1..] == MTHDS;
  }

  const METHOD_FILE := Entry(["m.mthds"], [])

  const BARE_PYTHON := Entry([".py"], [1])

  const BARE_TEXT := Entry([".mthds"], [])

  lemma MethodFileIsAText()
    ensures PackageTexts([METHOD_FILE]) == [[]] && PackageOthers([METHOD_FILE]) == []
    ensures !FileHasSuffix(METHOD_FILE.path, PYTHON)
  {
    NamesOfOneSuffix();
    PackageSplitOfOne(METHOD_FILE);
    assert Translated(METHOD_FILE.data, 13, 10) == [];
  }

  lemma BarePythonIsAFile()
    ensures PackageTexts([BARE_PYTHON]) == [] && PackageOthers([BARE_PYTHON]) == [BARE_PYTHON]
    ensures !FileHasSuffix(BARE_PYTHON.path, PYTHON) && !FileHasSuffix(BARE_PYTHON.path, MTHDS)
  {
    NamesOfOneSuffix();
    PackageSplitOfOne(BARE_PYTHON);
  }

  lemma PackageOfMethodAndPython(d: Deployment)
    requires d.isUtf8([])
    ensures PackageTexts([METHOD_FILE, BARE_PYTHON]) == [[]]
            && PackageOthers([METHOD_FILE, BARE_PYTHON]) == [BARE_PYTHON]
    ensures FirstTextRefusal(d, [METHOD_FILE, BARE_PYTHON]).None? && !PackageHasPython([METHOD_FILE, BARE_PYTHON])
  {
    var files := [METHOD_FILE, BARE_PYTHON];
    MethodFileIsAText();
    BarePythonIsAFile();
    assert files == [METHOD_FILE] + [BARE_PYTHON];
    PackageSplitOfConcat([METHOD_FILE], [BARE_PYTHON]);
    assert Translated(METHOD_FILE.data, 13, 10) == [];
    NoneIsRefusedIff(d, files);
  }

  /**
   Python is to be refused on an unhosted deployment before anything touches the disk. A package whose only Python
   is a file named just `.py` is accepted there, with that file in its library; the same files as a bundle are refused.
   */
  lemma BarePythonPassesThePackageGate(d: Deployment)
    requires !d.hosted && d.isUtf8([])
    ensures var files, outcome := [METHOD_FILE, BARE_PYTHON], PackageSource(d, [METHOD_FILE, BARE_PYTHON], false);
            && BundleSource(d, files) == Err(CustomCodeRequiresSandbox)
            && outcome.Ok? && outcome.value.library.Some?
            && [".py"] in outcome.value.library.value && outcome.value.library.value[[".py"]] == File([1])
  {
    var files, others := [METHOD_FILE, BARE_PYTHON], [BARE_PYTHON];
    PackageOfMethodAndPython(d);
    EntrySuffix(BARE_PYTHON.path, PYTHON);
    assert EntryEndsWith(files[1].path, PYTHON);
    AssembledIff([[]], others);
    assert others[..0] == [] && LastWritten(others, [".py"]) == Some([1]);
  }

  /** A file named just `.mthds` is a text of a bundle, and of a package a file like any other. */
  lemma BareTextSplitsApart()
    ensures BundleTexts([BARE_TEXT]) == [[]] && BundleOthers([BARE_TEXT]) == []
    ensures PackageTexts([BARE_TEXT]) == [] && PackageOthers([BARE_TEXT]) == [BARE_TEXT]
  {
    NamesOfOneSuffix();
    EntrySuffix(BARE_TEXT.path, MTHDS);
    ManifestIsNoText();
    assert [BARE_TEXT][..0] == [];
  }
}
