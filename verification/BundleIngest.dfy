/**
 Decoding a caller's method bundle (`api/bundle.py`): a zip read through a bounded stream, or a map of
 files, both turned into the same list of safe paths and contents under the same guards.

 The archive is given decoded, as its members in order with their full decompressed contents; a bounded
 read of `n` bytes gives the first `n` of them. File contents are given encoded.
 */
module BundleIngest {
  import opened Wrappers
  import opened SafePath
  import Segments

  datatype Limits = Limits(maxFiles: pos, maxBytes: pos)

  /** A named content: a member of the archive, or an item of the `files` map. */
  datatype Item = Item(name: string, content: Bytes)

  datatype Entry = Entry(path: Path, data: Bytes)

  datatype Refusal =
    | BothForms | NeitherForm
    | EncodedTooLong | NotBase64 | NotZip
    | NoFiles | TooManyFiles
    | BadName(name: string, reason: PathRefusal)
    | NoFilename(name: string)
    | TooLarge(name: string)

  /** The base64 field: how long it is, and what it decodes to. */
  datatype Decoded = BadBase64 | BadZip | Archive(members: seq<Item>)
  datatype Upload = Upload(length: nat, decoded: Decoded)

  type Outcome = Result<seq<Entry>, Refusal>

  predicate IsDirectory(name: string) { name != "" && name[|name| - 1] == '/' }

  /** `member.read(n)` */
  function ReadBounded(content: Bytes, n: nat): Bytes {
    content[..if n <= |content| then n else |content|]
  }

  function Files(items: seq<Item>): seq<Item> {
    if items == [] then []
    else if IsDirectory(items[0].name) then Files(items[1..])
    else [items[0]] + Files(items[1..])
  }

  function After(entries: seq<Entry>, rest: Outcome): Outcome {
    match rest case Ok(more) => Ok(entries + more) case Err(refusal) => Err(refusal)
  }

  /** What the zip loop gives from here on, with this many bytes already accepted. */
  function ZipFrom(limits: Limits, members: seq<Item>, total: nat): Outcome
    requires total <= limits.maxBytes
  {
    if members == [] then Ok([])
    else
      match SafeRelpath(members[0].name)
      case Err(reason) => Err(BadName(members[0].name, reason))
      case Ok(path) =>
        if path == [] then ZipFrom(limits, members[1..], total)
        else
          var data := ReadBounded(members[0].content, limits.maxBytes - total + 1);
          if total + |data| > limits.maxBytes then Err(TooLarge(members[0].name))
          else After([Entry(path, data)], ZipFrom(limits, members[1..], total + |data|))
  }

  /** What the `files` loop gives from here on. */
  function FilesFrom(limits: Limits, items: seq<Item>, total: nat): Outcome {
    if items == [] then Ok([])
    else
      match SafeRelpath(items[0].name)
      case Err(reason) => Err(BadName(items[0].name, reason))
      case Ok(path) =>
        if path == [] then Err(NoFilename(items[0].name))
        else if total + |items[0].content| > limits.maxBytes then Err(TooLarge(items[0].name))
        else After([Entry(path, items[0].content)], FilesFrom(limits, items[1..], total + |items[0].content|))
  }

  function GuardCount(limits: Limits, count: nat): Option<Refusal> {
    if count == 0 then Some(NoFiles) else if count > limits.maxFiles then Some(TooManyFiles) else None
  }

  function EncodedLimit(limits: Limits): nat { limits.maxBytes * 4 / 3 + 4 }

  function EntriesFromZip(limits: Limits, upload: Upload): Outcome {
    if upload.length > EncodedLimit(limits) then Err(EncodedTooLong)
    else
      match upload.decoded
      case BadBase64 => Err(NotBase64)
      case BadZip => Err(NotZip)
      case Archive(items) =>
        var members := Files(items);
        var refusal := GuardCount(limits, |members|);
        if refusal.Some? then Err(refusal.value) else ZipFrom(limits, members, 0)
  }

  function EntriesFromFiles(limits: Limits, items: seq<Item>): Outcome {
    var refusal := GuardCount(limits, |items|);
    if refusal.Some? then Err(refusal.value) else FilesFrom(limits, items, 0)
  }

  function ParseBundle(limits: Limits, upload: Option<Upload>, files: Option<seq<Item>>): Outcome {
    match (upload, files)
    case (Some(_), Some(_)) => Err(BothForms)
    case (Some(u), None) => EntriesFromZip(limits, u)
    case (None, Some(items)) => EntriesFromFiles(limits, items)
    case (None, None) => Err(NeitherForm)
  }

  /**
   The zip loop. However large the members are, it pulls at most one byte over the ceiling out of them, and
   at every turn the budget and the accepted bytes add up to the ceiling.
   */
  method ReadZipMembers(limits: Limits, members: seq<Item>) returns (result: Outcome, ghost pulled: nat)
    ensures result == ZipFrom(limits, members, 0)
    ensures pulled <= limits.maxBytes + 1
  {
    var entries: seq<Entry> := [];
    var totalBytes := 0;
    var budget := limits.maxBytes;
    pulled := 0;
    assert members[0..] == members;
    AfterNothing(ZipFrom(limits, members, 0));
    for i := 0 to |members|
      invariant budget + totalBytes == limits.maxBytes && budget >= 0 && totalBytes >= 0 && pulled == totalBytes
      invariant ZipFrom(limits, members, 0) == After(entries, ZipFrom(limits, members[i..], totalBytes))
    {
      assert members[i..][1..] == members[i + 1..];
      match SafeRelpath(members[i].name) {
        case Err(reason) => return Err(BadName(members[i].name, reason)), pulled;
        case Ok(path) =>
          if path != [] {
            var data := ReadBounded(members[i].content, budget + 1);
            pulled := pulled + |data|;
            totalBytes := totalBytes + |data|;
            if totalBytes > limits.maxBytes {
              return Err(TooLarge(members[i].name)), pulled;
            }
            AfterIsAssociative(entries, [Entry(path, data)], ZipFrom(limits, members[i + 1..], totalBytes));
            budget := limits.maxBytes - totalBytes;
            entries := entries + [Entry(path, data)];
          }
      }
    }
    assert entries + [] == entries;
    result := Ok(entries);
  }

  lemma AfterNothing(rest: Outcome)
    ensures After([], rest) == rest
  {
    if rest.Ok? {
      assert [] + rest.value == rest.value;
    }
  }

  lemma AfterIsAssociative(a: seq<Entry>, b: seq<Entry>, rest: Outcome)
    ensures After(a, After(b, rest)) == After(a + b, rest)
  {
    if rest.Ok? {
      assert a + (b + rest.value) == a + b + rest.value;
    }
  }

  /** The `files` loop. */
  method ReadFiles(limits: Limits, items: seq<Item>) returns (result: Outcome)
    ensures result == FilesFrom(limits, items, 0)
  {
    var entries: seq<Entry> := [];
    var totalBytes := 0;
    assert items[0..] == items;
    AfterNothing(FilesFrom(limits, items, 0));
    for i := 0 to |items|
      invariant totalBytes >= 0
      invariant FilesFrom(limits, items, 0) == After(entries, FilesFrom(limits, items[i..], totalBytes))
    {
      assert items[i..][1..] == items[i + 1..];
      match SafeRelpath(items[i].name) {
        case Err(reason) => return Err(BadName(items[i].name, reason));
        case Ok(path) =>
          if path == [] {
            return Err(NoFilename(items[i].name));
          }
          totalBytes := totalBytes + |items[i].content|;
          if totalBytes > limits.maxBytes {
            return Err(TooLarge(items[i].name));
          }
          AfterIsAssociative(entries, [Entry(path, items[i].content)], FilesFrom(limits, items[i + 1..], totalBytes));
          entries := entries + [Entry(path, items[i].content)];
      }
    }
    assert entries + [] == entries;
    result := Ok(entries);
  }

  /** `parse_bundle`, by the two loops; whatever it answers, it decompresses at most one byte over the ceiling. */
  method DecodeBundle(limits: Limits, upload: Option<Upload>, files: Option<seq<Item>>)
    returns (result: Outcome, ghost pulled: nat)
    ensures result == ParseBundle(limits, upload, files)
    ensures pulled <= limits.maxBytes + 1
  {
    pulled := 0;
    match (upload, files) {
      case (Some(_), Some(_)) => result := Err(BothForms);
      case (None, None) => result := Err(NeitherForm);
      case (None, Some(items)) =>
        var refusal := GuardCount(limits, |items|);
        if refusal.Some? {
          return Err(refusal.value), pulled;
        }
        result := ReadFiles(limits, items);
      case (Some(u), None) =>
        if u.length > EncodedLimit(limits) || !u.decoded.Archive?
          || GuardCount(limits, |Files(u.decoded.members)|).Some? {
          return EntriesFromZip(limits, u), pulled;
        }
        result, pulled := ReadZipMembers(limits, Files(u.decoded.members));
    }
  }

  // What an accepted bundle is, said without the loops.

  /** Every item's parsed path and full content, for the items that have a path. */
  function Whole(items: seq<Item>): seq<Entry> {
    if items == [] then []
    else
      var path := SafeRelpath(items[0].name);
      if path.Ok? && path.value != [] then [Entry(path.value, items[0].content)] + Whole(items[1..])
        else Whole(items[1..])
  }

  function TotalBytes(entries: seq<Entry>): nat {
    if entries == [] then 0 else |entries[0].data| + TotalBytes(entries[1..])
  }

  ghost predicate AllNamesSafe(items: seq<Item>) {
    forall i :: 0 <= i < |items| ==> SafeRelpath(items[i].name).Ok?
  }

  /**
   The zip reader never truncates. It accepts exactly the members whose names are all safe and whose full
   contents together fit the ceiling, and then every entry is a member's full content.
   */
  lemma {:induction false} ZipNeverTruncates(limits: Limits, members: seq<Item>, total: nat)
    requires total <= limits.maxBytes
    ensures ZipFrom(limits, members, total).Ok?
            <==> AllNamesSafe(members) && total + TotalBytes(Whole(members)) <= limits.maxBytes
    ensures ZipFrom(limits, members, total).Ok? ==> ZipFrom(limits, members, total).value == Whole(members)
  {
    if members != [] {
      var path := SafeRelpath(members[0].name);
      assert AllNamesSafe(members) ==> AllNamesSafe(members[1..]);
      assert path.Ok? && AllNamesSafe(members[1..]) ==> AllNamesSafe(members);
      if path.Ok? {
        if path.value == [] {
          ZipNeverTruncates(limits, members[1..], total);
        } else {
          var entry := Entry(path.value, members[0].content);
          assert ([entry] + Whole(members[1..]))[1..] == Whole(members[1..]);
          if total + |members[0].content| <= limits.maxBytes {
            assert ReadBounded(members[0].content, limits.maxBytes - total + 1) == members[0].content;
            ZipNeverTruncates(limits, members[1..], total + |members[0].content|);
          }
        }
      }
    }
  }

  /**
   Nor does the other form: it accepts exactly the safe names with a component whose contents together fit, and
   takes them whole.
   */
  lemma {:induction false} FilesNeverTruncate(limits: Limits, items: seq<Item>, total: nat)
    requires total <= limits.maxBytes
    ensures FilesFrom(limits, items, total).Ok? <==>
            && AllNamesSafe(items) && (forall i :: 0 <= i < |items| ==> SafeRelpath(items[i].name) != Ok([]))
            && total + TotalBytes(Whole(items)) <= limits.maxBytes
    ensures FilesFrom(limits, items, total).Ok? ==>
              FilesFrom(limits, items, total).value == Whole(items) && |Whole(items)| == |items|
  {
    if items != [] {
      var path := SafeRelpath(items[0].name);
      assert AllNamesSafe(items) ==> AllNamesSafe(items[1..]);
      assert path.Ok? && AllNamesSafe(items[1..]) ==> AllNamesSafe(items);
      if path.Ok? && path.value != [] {
        if total + |items[0].content| <= limits.maxBytes {
          FilesNeverTruncate(limits, items[1..], total + |items[0].content|);
        }
        assert ([Entry(path.value, items[0].content)] + Whole(items[1..]))[1..] == Whole(items[1..]);
      }
    }
  }

  lemma {:induction false} WholeIsSafe(items: seq<Item>)
    ensures forall i :: 0 <= i < |Whole(items)| ==> Whole(items)[i].path != [] && IsSafePath(Whole(items)[i].path)
  {
    if items != [] {
      WholeIsSafe(items[1..]);
      if SafeRelpath(items[0].name).Ok? {
        AcceptedNamesAreSafe(items[0].name);
      }
    }
  }

  /** Whatever form it came in, every entry of a parsed bundle has a safe path with at least one component. */
  lemma ParsedBundleIsSafe(limits: Limits, upload: Option<Upload>, files: Option<seq<Item>>)
    requires ParseBundle(limits, upload, files).Ok?
    ensures forall entry :: entry in ParseBundle(limits, upload, files).value ==>
            entry.path != [] && IsSafePath(entry.path)
  {
    if upload.Some? {
      var members := Files(upload.value.decoded.members);
      ZipNeverTruncates(limits, members, 0);
      WholeIsSafe(members);
    } else {
      FilesNeverTruncate(limits, files.value, 0);
      WholeIsSafe(files.value);
    }
  }

  // What is counted, and what is accepted.

  lemma {:induction false} FilesOfConcat(a: seq<Item>, b: seq<Item>)
    ensures Files(a + b) == Files(a) + Files(b)
  {
    if a == [] {
      assert a + b == b;
    } else {
      assert (a + b)[1..] == a[1..] + b;
      FilesOfConcat(a[1..], b);
    }
  }

  /** Of single items, those whose names end with a slash are no files. */
  lemma FileOfOne(item: Item)
    ensures Files([item]) == if item.name != "" && item.name[|item.name| - 1] == '/' then [] else [item]
  {
    assert [item][1..] == [];
  }

  lemma {:induction false} WholeOfConcat(a: seq<Item>, b: seq<Item>)
    ensures Whole(a + b) == Whole(a) + Whole(b)
  {
    if a == [] {
      assert a + b == b;
    } else {
      assert (a + b)[1..] == a[1..] + b;
      WholeOfConcat(a[1..], b);
    }
  }

  lemma {:induction false} BytesOfConcat(a: seq<Entry>, b: seq<Entry>)
    ensures TotalBytes(a + b) == TotalBytes(a) + TotalBytes(b)
  {
    if a == [] {
      assert a + b == b;
    } else {
      assert (a + b)[1..] == a[1..] + b;
      BytesOfConcat(a[1..], b);
    }
  }

  lemma BytesOfOne(entry: Entry)
    ensures TotalBytes([entry]) == |entry.data|
  {
  }

  /**
   The encoded cap lets through every archive whose encoding is of no more bytes than the ceiling, and none much
   larger.
   */
  lemma EncodedCapFits(limits: Limits, size: nat)
    ensures size <= limits.maxBytes ==> (size + 2) / 3 * 4 <= EncodedLimit(limits)
    ensures size > limits.maxBytes + 3 ==> (size + 2) / 3 * 4 > EncodedLimit(limits)
  {
  }

  /** Exactly one form, with neither too few nor too many files, safe names and contents within the ceiling. */
  lemma BundleIsAcceptedIff(limits: Limits, upload: Option<Upload>, files: Option<seq<Item>>)
    ensures ParseBundle(limits, upload, files).Ok? <==>
            || (&& upload.Some? && files.None? && upload.value.length <= EncodedLimit(limits)
              && upload.value.decoded.Archive?
                && var members := Files(upload.value.decoded.members);
                && 0 < |members| <= limits.maxFiles && AllNamesSafe(members)
                  && TotalBytes(Whole(members)) <= limits.maxBytes)
            || (&& upload.None? && files.Some?
                && 0 < |files.value| <= limits.maxFiles && AllNamesSafe(files.value)
                && (forall i :: 0 <= i < |files.value| ==> SafeRelpath(files.value[i].name) != Ok([]))
                && TotalBytes(Whole(files.value)) <= limits.maxBytes)
    ensures upload.Some? && files.Some? ==> ParseBundle(limits, upload, files) == Err(BothForms)
    ensures upload.None? && files.None? ==> ParseBundle(limits, upload, files) == Err(NeitherForm)
  {
    if upload.Some? && files.None? && upload.value.decoded.Archive? {
      ZipNeverTruncates(limits, Files(upload.value.decoded.members), 0);
    }
    if files.Some? {
      FilesNeverTruncate(limits, files.value, 0);
    }
  }

  /** Before its loop, a form is refused for what it is as a whole. */
  lemma WholeBundleRefusals(limits: Limits, upload: Upload)
    ensures EntriesFromZip(limits, upload) == Err(EncodedTooLong) <==> upload.length > EncodedLimit(limits)
    ensures upload.length <= EncodedLimit(limits) ==>
              && (EntriesFromZip(limits, upload) == Err(NotBase64) <==> upload.decoded.BadBase64?)
              && (EntriesFromZip(limits, upload) == Err(NotZip) <==> upload.decoded.BadZip?)
              && (upload.decoded.Archive? ==>
                    var members := Files(upload.decoded.members);
                    && (EntriesFromZip(limits, upload) == Err(NoFiles) <==> members == [])
                    && (EntriesFromZip(limits, upload) == Err(TooManyFiles) <==> |members| > limits.maxFiles))
  {
    if upload.decoded.Archive? && ZipFrom(limits, Files(upload.decoded.members), 0).Err? {
      ZipRefusesAMember(limits, Files(upload.decoded.members), 0);
    }
  }

  lemma MapRefusals(limits: Limits, items: seq<Item>)
    ensures EntriesFromFiles(limits, items) == Err(NoFiles) <==> items == []
    ensures EntriesFromFiles(limits, items) == Err(TooManyFiles) <==> |items| > limits.maxFiles
  {
    MapLoopCountsNothing(limits, items, 0);
  }

  // The two transports.

  /** A name both transports treat alike: not a directory's, and not one without a component. */
  predicate IsPlainName(name: string) {
    !IsDirectory(name) && SafeRelpath(name) != Ok([])
  }

  ghost predicate AllPlain(items: seq<Item>) {
    forall i :: 0 <= i < |items| ==> IsPlainName(items[i].name)
  }

  lemma {:induction false} PlainItemsAreFiles(items: seq<Item>)
    requires AllPlain(items)
    ensures Files(items) == items
  {
    if items != [] {
      PlainItemsAreFiles(items[1..]);
    }
  }

  lemma {:induction false} LoopsAgree(limits: Limits, items: seq<Item>, total: nat)
    requires total <= limits.maxBytes && AllPlain(items)
    ensures ZipFrom(limits, items, total) == FilesFrom(limits, items, total)
  {
    if items != [] && SafeRelpath(items[0].name).Ok? {
      assert IsPlainName(items[0].name);
      if total + |items[0].content| <= limits.maxBytes {
        assert ReadBounded(items[0].content, limits.maxBytes - total + 1) == items[0].content;
        LoopsAgree(limits, items[1..], total + |items[0].content|);
      }
    }
  }

  /** The transports are equivalent: the same entries, or the same refusal at the same entry. */
  lemma TransportsAgree(limits: Limits, length: nat, items: seq<Item>)
    requires AllPlain(items) && length <= EncodedLimit(limits)
    ensures EntriesFromZip(limits, Upload(length, Archive(items))) == EntriesFromFiles(limits, items)
  {
    PlainItemsAreFiles(items);
    if GuardCount(limits, |items|).None? {
      LoopsAgree(limits, items, 0);
    }
  }

  lemma {:induction false} CountsOfZipForm(limits: Limits, items: seq<Item>)
    ensures |Whole(Files(items))| <= |Files(items)| <= |items|
    ensures |Whole(Files(items))| == |items| ==> AllPlain(items)
  {
    if items != [] {
      CountsOfZipForm(limits, items[1..]);
      var rest := Files(items[1..]);
      if !IsDirectory(items[0].name) {
        assert ([items[0]] + rest)[1..] == rest;
        if |Whole(Files(items))| == |items| {
          assert IsPlainName(items[0].name);
        }
      }
    }
  }

  /**
   Exactly when the transports agree, wherever at least one of them accepts: when every name is plain. A
   directory-like name is skipped in an archive but becomes a file in the map; a name without a component
   is skipped in an archive but refused in the map.
   */
  lemma TransportsAgreeIff(limits: Limits, length: nat, items: seq<Item>)
    requires length <= EncodedLimit(limits)
    requires EntriesFromZip(limits, Upload(length, Archive(items))).Ok? || EntriesFromFiles(limits, items).Ok?
    ensures EntriesFromZip(limits, Upload(length, Archive(items))) == EntriesFromFiles(limits, items)
            <==> AllPlain(items)
  {
    var zip, files := EntriesFromZip(limits, Upload(length, Archive(items))), EntriesFromFiles(limits, items);
    if AllPlain(items) {
      TransportsAgree(limits, length, items);
    } else if zip.Ok? && files.Ok? {
      ZipNeverTruncates(limits, Files(items), 0);
      FilesNeverTruncate(limits, items, 0);
      CountsOfZipForm(limits, items);
      assert |zip.value| != |files.value|;
    }
  }

  // Where both forms refuse.

  /** The names of a map are distinct. */
  ghost predicate DistinctNames(items: seq<Item>) {
    forall i, j :: 0 <= i < j < |items| ==> items[i].name != items[j].name
  }

  function Contents(items: seq<Item>): nat {
    if items == [] then 0 else |items[0].content| + Contents(items[1..])
  }

  /** A name that leads to a file: safe, and with a component. */
  predicate HasComponent(name: string) {
    SafeRelpath(name).Ok? && SafeRelpath(name) != Ok([])
  }

  /**
   Both loops stop at item `j`, with this many bytes taken before: every item before it has a safe name with a
   component, and fits the map; and `j`, no directory, is badly named, or too large even without the directories
   before it.
   */
  ghost predicate BothStopAt(limits: Limits, items: seq<Item>, zipTotal: nat, mapTotal: nat, j: nat) {
    && j < |items|
    && (forall i :: 0 <= i < j ==> HasComponent(items[i].name))
    && mapTotal + Contents(items[..j]) <= limits.maxBytes
    && IsPlainName(items[j].name)
    && (SafeRelpath(items[j].name).Err?
        || zipTotal + Contents(Files(items[..j])) + |items[j].content| > limits.maxBytes)
  }

  ghost predicate BothStop(limits: Limits, items: seq<Item>, zipTotal: nat, mapTotal: nat) {
    exists j: nat :: BothStopAt(limits, items, zipTotal, mapTotal, j)
  }

  predicate Refuses(refusal: Refusal, name: string) {
    (refusal.BadName? || refusal.TooLarge?) && refusal.name == name
  }

  lemma {:induction false} FilesAreItems(items: seq<Item>)
    ensures forall item :: item in Files(items) ==> item in items
  {
    if items != [] {
      FilesAreItems(items[1..]);
    }
  }

  /** The archive's loop refuses for one of its members. */
  lemma {:induction false} ZipRefusesAMember(limits: Limits, members: seq<Item>, total: nat)
    requires total <= limits.maxBytes && ZipFrom(limits, members, total).Err?
    ensures exists item :: item in members && Refuses(ZipFrom(limits, members, total).error, item.name)
  {
    if members != [] {
      var path := SafeRelpath(members[0].name);
      assert members[0] in members;
      if path.Ok? {
        var data := ReadBounded(members[0].content, limits.maxBytes - total + 1);
        var total' := if path.value == [] then total else total + |data|;
        if total' <= limits.maxBytes {
          ZipRefusesAMember(limits, members[1..], total');
        }
      }
    }
  }

  /** A refusal of the rest of the archive is for another name than the first item's. */
  lemma RestRefusesAnother(limits: Limits, items: seq<Item>, total: nat)
    requires items != [] && DistinctNames(items) && total <= limits.maxBytes
    requires ZipFrom(limits, Files(items[1..]), total).Err?
    ensures !Refuses(ZipFrom(limits, Files(items[1..]), total).error, items[0].name)
    ensures !ZipFrom(limits, Files(items[1..]), total).error.NoFilename?
  {
    ZipRefusesAMember(limits, Files(items[1..]), total);
    FilesAreItems(items[1..]);
  }

  /** What the archive has taken after this item. */
  function TakenAfter(item: Item, zipTotal: nat): nat {
    if IsDirectory(item.name) then zipTotal else zipTotal + |item.content|
  }

  lemma ContentsAfterFirst(items: seq<Item>, zipTotal: nat, j: nat)
    requires j < |items|
    ensures Contents(items[..j + 1]) == |items[0].content| + Contents(items[1..][..j])
    ensures zipTotal + Contents(Files(items[..j + 1]))
            == TakenAfter(items[0], zipTotal) + Contents(Files(items[1..][..j]))
  {
    var before := items[..j + 1];
    assert before[0] == items[0] && before[1..] == items[1..][..j];
    if !IsDirectory(items[0].name) {
      assert Files(before)[1..] == Files(before[1..]);
    }
  }

  lemma NamesAfterFirst(items: seq<Item>, j: nat)
    requires j < |items|
    ensures (forall i :: 0 <= i < j + 1 ==> HasComponent(items[i].name)) <==>
            HasComponent(items[0].name) && forall i :: 0 <= i < j ==> HasComponent(items[1..][i].name)
  {
    assert forall i :: 0 <= i < j ==> items[1..][i] == items[i + 1];
    assert forall i :: 1 <= i < j + 1 ==> items[i] == items[1..][i - 1];
  }

  lemma StopIsLater(limits: Limits, items: seq<Item>, zipTotal: nat, mapTotal: nat, j: nat)
    requires items != []
    ensures BothStopAt(limits, items, zipTotal, mapTotal, j + 1) <==>
            && HasComponent(items[0].name)
            && BothStopAt(limits, items[1..], TakenAfter(items[0], zipTotal), mapTotal + |items[0].content|, j)
  {
    if j < |items| - 1 {
      ContentsAfterFirst(items, zipTotal, j);
      NamesAfterFirst(items, j);
      assert items[1..][j] == items[j + 1];
    }
  }

  lemma StopsLater(limits: Limits, items: seq<Item>, zipTotal: nat, mapTotal: nat)
    requires items != []
    ensures BothStop(limits, items, zipTotal, mapTotal) <==>
            || BothStopAt(limits, items, zipTotal, mapTotal, 0)
            || (&& HasComponent(items[0].name)
                && BothStop(limits, items[1..], TakenAfter(items[0], zipTotal), mapTotal + |items[0].content|))
  {
    if BothStop(limits, items, zipTotal, mapTotal) {
      var j: nat :| BothStopAt(limits, items, zipTotal, mapTotal, j);
      if j > 0 {
        StopIsLater(limits, items, zipTotal, mapTotal, j - 1);
      }
    }
    if HasComponent(items[0].name)
      && BothStop(limits, items[1..], TakenAfter(items[0], zipTotal), mapTotal + |items[0].content|) {
      var j: nat :| BothStopAt(limits, items[1..], TakenAfter(items[0], zipTotal), mapTotal + |items[0].content|, j);
      StopIsLater(limits, items, zipTotal, mapTotal, j);
      assert BothStopAt(limits, items, zipTotal, mapTotal, j + 1);
    }
  }

  lemma RestIsDistinct(items: seq<Item>)
    requires items != [] && DistinctNames(items)
    ensures DistinctNames(items[1..])
  {
    assert forall i :: 0 <= i < |items| - 1 ==> items[1..][i] == items[i + 1];
  }

  /** Two loops that both refuse give the same refusal exactly when they stop at the same item. */
  lemma {:induction false} LoopsRefuseAlikeIff(limits: Limits, items: seq<Item>, zipTotal: nat, mapTotal: nat)
    requires zipTotal <= mapTotal <= limits.maxBytes && DistinctNames(items)
    requires ZipFrom(limits, Files(items), zipTotal).Err? && FilesFrom(limits, items, mapTotal).Err?
    ensures ZipFrom(limits, Files(items), zipTotal) == FilesFrom(limits, items, mapTotal)
       <==> BothStop(limits, items, zipTotal, mapTotal)
  {
    var item := items[0];
    if HasComponent(item.name) && mapTotal + |item.content| <= limits.maxBytes {
      FirstItemFits(limits, items, zipTotal, mapTotal);
      FittingItemIsNoStop(limits, items, zipTotal, mapTotal);
      RestIsDistinct(items);
      LoopsRefuseAlikeIff(limits, items[1..], TakenAfter(item, zipTotal), mapTotal + |item.content|);
    } else {
      FirstItemStops(limits, items, zipTotal, mapTotal);
    }
  }

  lemma FirstFile(items: seq<Item>)
    requires items != [] && !IsDirectory(items[0].name)
    ensures Files(items) != [] && Files(items)[0] == items[0] && Files(items)[1..] == Files(items[1..])
  {
  }

  /** The archive's loop takes the first member. */
  lemma ZipTakesFirst(limits: Limits, members: seq<Item>, total: nat)
    requires members != [] && HasComponent(members[0].name) && total + |members[0].content| <= limits.maxBytes
    requires ZipFrom(limits, members, total).Err?
    ensures ZipFrom(limits, members[1..], total + |members[0].content|) == ZipFrom(limits, members, total)
  {
    assert ReadBounded(members[0].content, limits.maxBytes - total + 1) == members[0].content;
  }

  lemma MapTakesFirst(limits: Limits, items: seq<Item>, total: nat)
    requires items != [] && HasComponent(items[0].name) && total + |items[0].content| <= limits.maxBytes
    requires FilesFrom(limits, items, total).Err?
    ensures FilesFrom(limits, items[1..], total + |items[0].content|) == FilesFrom(limits, items, total)
  {
  }

  /** Both loops take the first item, or the archive's skips it. */
  lemma FirstItemFits(limits: Limits, items: seq<Item>, zipTotal: nat, mapTotal: nat)
    requires items != [] && zipTotal <= mapTotal && HasComponent(items[0].name)
    requires mapTotal + |items[0].content| <= limits.maxBytes
    requires ZipFrom(limits, Files(items), zipTotal).Err? && FilesFrom(limits, items, mapTotal).Err?
    ensures ZipFrom(limits, Files(items[1..]), TakenAfter(items[0], zipTotal))
         == ZipFrom(limits, Files(items), zipTotal)
    ensures FilesFrom(limits, items[1..], mapTotal + |items[0].content|) == FilesFrom(limits, items, mapTotal)
  {
    MapTakesFirst(limits, items, mapTotal);
    if !IsDirectory(items[0].name) {
      FirstFile(items);
      ZipTakesFirst(limits, Files(items), zipTotal);
    }
  }

  lemma FittingItemIsNoStop(limits: Limits, items: seq<Item>, zipTotal: nat, mapTotal: nat)
    requires items != [] && zipTotal <= mapTotal && HasComponent(items[0].name)
    requires mapTotal + |items[0].content| <= limits.maxBytes
    ensures BothStop(limits, items, zipTotal, mapTotal) <==>
            BothStop(limits, items[1..], TakenAfter(items[0], zipTotal), mapTotal + |items[0].content|)
  {
    StopsLater(limits, items, zipTotal, mapTotal);
    assert Files(items[..0]) == [];
  }

  /** The map's loop stops at the first item. */
  lemma FirstItemStops(limits: Limits, items: seq<Item>, zipTotal: nat, mapTotal: nat)
    requires items != [] && zipTotal <= mapTotal <= limits.maxBytes && DistinctNames(items)
    requires ZipFrom(limits, Files(items), zipTotal).Err?
    requires !HasComponent(items[0].name) || mapTotal + |items[0].content| > limits.maxBytes
    ensures ZipFrom(limits, Files(items), zipTotal) == FilesFrom(limits, items, mapTotal)
       <==> BothStop(limits, items, zipTotal, mapTotal)
  {
    var item := items[0];
    var data := ReadBounded(item.content, limits.maxBytes - zipTotal + 1);
    StopsLater(limits, items, zipTotal, mapTotal);
    if IsDirectory(item.name) {
      RestRefusesAnother(limits, items, zipTotal);
    } else {
      assert Files(items)[1..] == Files(items[1..]);
      if SafeRelpath(item.name).Ok? {
        var total := if SafeRelpath(item.name).value == [] then zipTotal else zipTotal + |data|;
        if total <= limits.maxBytes {
          RestRefusesAnother(limits, items, total);
        }
      }
    }
  }

  /**
   Where both forms refuse, they give the same refusal exactly when there is no file at all, or the archive's files
   alone are too many, or the map's are not and both loops stop at the same item.
   */
  lemma RefusalsAgreeIff(limits: Limits, length: nat, items: seq<Item>)
    requires length <= EncodedLimit(limits) && DistinctNames(items)
    requires EntriesFromZip(limits, Upload(length, Archive(items))).Err? && EntriesFromFiles(limits, items).Err?
    ensures EntriesFromZip(limits, Upload(length, Archive(items))) == EntriesFromFiles(limits, items) <==>
            || items == []
            || |Files(items)| > limits.maxFiles
            || (|items| <= limits.maxFiles && BothStop(limits, items, 0, 0))
  {
    CountsOfZipForm(limits, items);
    if 0 < |items| <= limits.maxFiles {
      if Files(items) == [] {
        OnlyDirectories(limits, items);
        MapLoopCountsNothing(limits, items, 0);
      } else {
        LoopsRefuseAlikeIff(limits, items, 0, 0);
      }
    } else if 0 < |Files(items)| <= limits.maxFiles {
      ZipRefusesAMember(limits, Files(items), 0);
    }
  }

  lemma {:induction false} OnlyDirectories(limits: Limits, items: seq<Item>)
    requires Files(items) == []
    ensures forall i :: 0 <= i < |items| ==> IsDirectory(items[i].name)
  {
    if items != [] {
      OnlyDirectories(limits, items[1..]);
    }
  }

  lemma {:induction false} MapLoopCountsNothing(limits: Limits, items: seq<Item>, total: nat)
    ensures FilesFrom(limits, items, total) != Err(NoFiles) && FilesFrom(limits, items, total) != Err(TooManyFiles)
  {
    if items != [] {
      MapLoopCountsNothing(limits, items[1..], total + |items[0].content|);
    }
  }

  /** The module says the two forms are equivalent; on a name like "b/", a component and a slash, they are not. */
  lemma DirectoryNamesDiffer(limits: Limits, part: string)
    requires IsSafePart(part)
    ensures EntriesFromZip(limits, Upload(1, Archive([Item(part + "/", [])]))) == Err(NoFiles)
    ensures EntriesFromFiles(limits, [Item(part + "/", [])]) == Ok([Entry([part], [])])
  {
    var item := Item(part + "/", []);
    assert [item][1..] == [];
    assert Files([item]) == [];
    SlashAfter(part);
    assert [Entry([part], [])] + [] == [Entry([part], [])];
    assert FilesFrom(limits, [item], 0) == After([Entry([part], [])], FilesFrom(limits, [], 0));
  }

  lemma SlashAfter(part: string)
    requires IsSafePart(part)
    ensures SafeRelpath(part + "/") == Ok([part])
  {
    SplitAfter(part);
  }

  lemma SplitAfter(part: string)
    requires IsSafePart(part)
    ensures Components(Segments.Split(part + "/")) == [part]
  {
    Segments.SplitOfSegment(part);
    Segments.SplitOfAppend(part, "");
    assert part + "/" + "" == part + "/";
    assert [part] + Segments.Split("") == [part, ""];
    assert [part, ""][1..] == [""] && [""][1..] == [];
  }
}
