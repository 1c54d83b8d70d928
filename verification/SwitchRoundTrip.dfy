/**
 Rendering `backends.toml` and reading it back: the switches that come back are the ones that went in, and
 nothing else in the kit's text changes.
 */
module SwitchRoundTrip {
  import opened Wrappers
  import opened TextLines
  import opened BackendsToml
  import opened BackendsRenderer

  /** The document with the switched tables' `enabled` replaced. */
  ghost function Switched(doc: Doc, switched: set<string>, switches: map<string, bool>): Doc {
    doc.(tables := map name | name in doc.tables ::
      if name in switched then Table(doc.tables[name].keys, Some(Bool(SwitchFor(switches, name))))
        else doc.tables[name])
  }

  /** What the renderer's loop and a reader of the same lines agree on. */
  ghost predicate InStep(doc: Doc, r: Rendering) {
    && r.table == doc.current
    && forall name :: name in r.switched ==> name in doc.tables && "enabled" in doc.tables[name].keys
  }

  /**
   One rendered line, in the reader's terms: the same kind of line, or the same table's switch with the recorded
   value.
   */
  ghost predicate Renders(r: Rendering, r': Rendering, kind: Kind, kind': Kind, switches: map<string, bool>) {
    && r'.table == (if kind.Header? then Some(kind.name) else r.table)
    && (|| (r'.switched == r.switched && kind' == kind)
        || (&& r.table.Some? && kind.Assign? && kind.key == "enabled"
            && r'.switched == r.switched + {r.table.value}
            && kind' == Assign("enabled", Bool(SwitchFor(switches, r.table.value)))))
  }

  lemma RenderedKind(r: Rendering, line: string, switches: map<string, bool>)
    requires !Classify(line).Outside?
    ensures var r' := RenderLine(r, line, switches);
            && |r'.lines| == |r.lines| + 1 && r'.lines[..|r.lines|] == r.lines
            && Renders(r, r', Classify(line), Classify(r'.lines[|r.lines|]), switches)
  {
    HeadersAgree(line);
    if MatchHeader(line).None? && MatchSwitch(line).Some? {
      RewrittenSwitch(line, r.table.Some? && SwitchFor(switches, r.table.value));
    }
  }

  /** A line that is kept adds the same to the document whether or not the switches before it were replaced. */
  lemma KeptLine(doc: Doc, doc': Doc, switched: set<string>, kind: Kind, switches: map<string, bool>)
    requires doc.Valid() && AddLine(doc, kind) == Some(doc')
    requires forall name :: name in switched ==> name in doc.tables && "enabled" in doc.tables[name].keys
    ensures AddLine(Switched(doc, switched, switches), kind) == Some(Switched(doc', switched, switches))
    ensures forall name :: name in switched ==> name in doc'.tables && "enabled" in doc'.tables[name].keys
  {
    var added := AddLine(Switched(doc, switched, switches), kind);
    assert added.Some? && added.value.tables == Switched(doc', switched, switches).tables;
  }

  /** A replaced switch adds the recorded value where the kit's line added its own. */
  lemma ReplacedLine(doc: Doc, doc': Doc, switched: set<string>, table: string, kit: Value, switches: map<string, bool>)
    requires doc.Valid() && doc.current == Some(table) && AddLine(doc, Assign("enabled", kit)) == Some(doc')
    requires forall name :: name in switched ==> name in doc.tables && "enabled" in doc.tables[name].keys
    ensures AddLine(Switched(doc, switched, switches), Assign("enabled", Bool(SwitchFor(switches, table))))
         == Some(Switched(doc', switched + {table}, switches))
    ensures forall name :: name in switched + {table} ==> name in doc'.tables && "enabled" in doc'.tables[name].keys
  {
    var added := AddLine(Switched(doc, switched, switches), Assign("enabled", Bool(SwitchFor(switches, table))));
    assert added.Some? && added.value.tables == Switched(doc', switched + {table}, switches).tables;
  }

  /** One line further, the renderer's output still loads as the kit's document with the switches replaced. */
  lemma LineInStep(doc: Doc, doc': Doc, r: Rendering, r': Rendering, kind: Kind, kind': Kind,
          switches: map<string, bool>)
    requires doc.Valid() && InStep(doc, r) && AddLine(doc, kind) == Some(doc') && Renders(r, r', kind, kind', switches)
    ensures InStep(doc', r')
    ensures AddLine(Switched(doc, r.switched, switches), kind') == Some(Switched(doc', r'.switched, switches))
  {
    if r'.switched == r.switched && kind' == kind {
      KeptLine(doc, doc', r.switched, kind, switches);
    } else {
      ReplacedLine(doc, doc', r.switched, r.table.value, kind.value, switches);
    }
  }

  lemma {:induction false} RenderedLinesLoad(lines: seq<string>, switches: map<string, bool>)
    requires LoadLines(lines).Some?
    ensures var doc, r := LoadLines(lines).value, RenderLines(lines, switches);
            && InStep(doc, r) && |r.lines| == |lines|
            && LoadLines(r.lines) == Some(Switched(doc, r.switched, switches))
  {
    if lines == [] {
      assert Switched(EMPTY_DOC, {}, switches).tables == map[];
    } else {
      var n := |lines| - 1;
      RenderedLinesLoad(lines[..n], switches);
      var r, r' := RenderLines(lines[..n], switches), RenderLines(lines, switches);
      RenderedKind(r, lines[n], switches);
      LineInStep(LoadLines(lines[..n]).value, LoadLines(lines).value, r, r', Classify(lines[n]),
        Classify(r'.lines[n]), switches);
    }
  }

  /** Comment lines put in front change nothing a reader sees. */
  lemma {:induction false} LoadBehindComments(comments: seq<string>, lines: seq<string>)
    requires forall i :: 0 <= i < |comments| ==> CommentLine(comments[i])
    ensures LoadLines(comments + lines) == LoadLines(lines)
    decreases |comments| + |lines|
  {
    if lines != [] {
      assert (comments + lines)[..|comments + lines| - 1] == comments + lines[..|lines| - 1];
      LoadBehindComments(comments, lines[..|lines| - 1]);
    } else if comments != [] {
      var n := |comments| - 1;
      assert comments + lines == comments && comments[..n] + lines == comments[..n];
      CommentSaysNothing(comments[n]);
      LoadBehindComments(comments[..n], lines);
    }
  }

  // The rendered text, byte for byte.

  /** A line either stays as it is or changes in the boolean the switch regex matched, and nowhere else. */
  ghost predicate SameButSwitch(line: string, line': string) {
    || line' == line
    || exists value :: MatchSwitch(line).Some? && line' == WithSwitch(line, MatchSwitch(line).value, value)
  }

  lemma {:induction false} OnlySwitchesChange(lines: seq<string>, switches: map<string, bool>)
    ensures |RenderLines(lines, switches).lines| == |lines|
    ensures forall i :: 0 <= i < |lines| ==> SameButSwitch(lines[i], RenderLines(lines, switches).lines[i])
  {
    if lines != [] {
      var n := |lines| - 1;
      OnlySwitchesChange(lines[..n], switches);
      LastLineChanges(lines, switches);
      forall i | 0 <= i < n ensures SameButSwitch(lines[i], RenderLines(lines, switches).lines[i]) {
        assert SameButSwitch(lines[..n][i], RenderLines(lines[..n], switches).lines[i]);
      }
    }
  }

  lemma LastLineChanges(lines: seq<string>, switches: map<string, bool>)
    requires lines != []
    ensures var n := |lines| - 1;
            exists line' ::
              SameButSwitch(lines[n], line')
                && RenderLines(lines, switches).lines == RenderLines(lines[..n], switches).lines + [line']
  {
    var n := |lines| - 1;
    var r, r' := RenderLines(lines[..n], switches), RenderLines(lines, switches);
    var line' := r'.lines[|r'.lines| - 1];
    if line' != lines[n] {
      assert line' == WithSwitch(lines[n], MatchSwitch(lines[n]).value, SwitchFor(switches, r.table.value));
    }
    assert SameButSwitch(lines[n], line');
  }

  /** A rewritten line ends as the line did, and brings in no foreign character. */
  lemma RewriteKeepsEnds(line: string, line': string)
    requires SameButSwitch(line, line')
    ensures Complete(line) ==> Complete(line')
    ensures Unbroken(line) ==> Unbroken(line')
    ensures Plain(line) ==> Plain(line')
  {
    if line' != line {
      var value :| line' == WithSwitch(line, MatchSwitch(line).value, value);
      var was := MatchedToken(line);
      var m := MatchSwitch(line).value;
      var token := Token(value);
      PartReplaced(line, m.start, m.end, Token(was), token);
    }
  }

  lemma PartReplaced(line: string, start: nat, end: nat, was: string, part: string)
    requires start < end <= |line| && line[start..end] == was && was != "" && part != "" && Inline(was) && Inline(part)
    ensures var line' := line[..start] + part + line[end..];
            && (Complete(line) ==> Complete(line')) && (Unbroken(line) ==> Unbroken(line'))
              && (Plain(line) ==> Plain(line'))
  {
    var line' := line[..start] + part + line[end..];
    assert line[end - 1] == was[|was| - 1];
    forall j | 0 <= j < |line'|
      ensures j < start ==> line'[j] == line[j]
      ensures start <= j < start + |part| ==> line'[j] == part[j - start]
      ensures start + |part| <= j ==> line'[j] == line[j - start - |part| + end]
    {
    }
  }

  lemma {:induction false} RewriteKeepsLines(lines: seq<string>, lines': seq<string>)
    requires |lines| == |lines'| && forall i :: 0 <= i < |lines| ==> SameButSwitch(lines[i], lines'[i])
    ensures ProperLines(lines) ==> ProperLines(lines')
    ensures Plain(Concat(lines)) ==> Plain(Concat(lines'))
  {
    if lines != [] {
      RewriteKeepsEnds(lines[0], lines'[0]);
      RewriteKeepsLines(lines[1..], lines'[1..]);
      PlainParts(lines[0], Concat(lines[1..]));
      PlainParts(lines'[0], Concat(lines'[1..]));
    }
  }

  lemma PlainParts(a: string, b: string)
    ensures Plain(a + b) <==> Plain(a) && Plain(b)
  {
    assert forall i :: 0 <= i < |a| ==> (a + b)[i] == a[i];
    assert forall i :: 0 <= i < |b| ==> (a + b)[|a| + i] == b[i];
  }

  lemma {:induction false} BehindComments(comments: seq<string>, lines: seq<string>)
    requires forall i :: 0 <= i < |comments| ==> CommentLine(comments[i])
    requires ProperLines(lines) && Plain(Concat(lines))
    ensures ProperLines(comments + lines) && Plain(Concat(comments + lines))
  {
    if comments == [] {
      assert comments + lines == lines;
    } else {
      assert comments + lines == [comments[0]] + (comments[1..] + lines);
      BehindComments(comments[1..], lines);
      PlainParts(comments[0], Concat(comments[1..] + lines));
    }
  }

  /**
   The rendered text is the preamble and then the kit's lines, each unchanged but for the boolean of a
   switch; and it loads as the kit's document with every table's switch set from the record.
   */
  lemma RenderedText(kitText: string, switches: map<string, bool>)
    requires Render(kitText, switches).Ok?
    ensures var lines, rendered := SplitLines(kitText), RenderLines(SplitLines(kitText), switches).lines;
            && Concat(lines) == kitText
            && Render(kitText, switches).value == Concat(PREAMBLE_LINES) + Concat(rendered)
            && |rendered| == |lines|
            && forall i :: 0 <= i < |lines| ==> SameButSwitch(lines[i], rendered[i])
    ensures Load(kitText).Some?
    ensures Load(Render(kitText, switches).value)
            == Some(Switched(Load(kitText).value, Load(kitText).value.tables.Keys, switches))
  {
    var lines := SplitLines(kitText);
    var r := RenderLines(lines, switches);
    SplitIsProper(kitText);
    OnlySwitchesChange(lines, switches);
    RewriteKeepsLines(lines, r.lines);
    ConcatAppend(PREAMBLE_LINES, r.lines);
    RenderedLoads(kitText, r.lines, switches);
  }

  lemma RenderedLoads(kitText: string, rendered: seq<string>, switches: map<string, bool>)
    requires Render(kitText, switches).Ok? && rendered == RenderLines(SplitLines(kitText), switches).lines
    requires ProperLines(rendered) && Plain(Concat(rendered))
    ensures Load(Concat(PREAMBLE_LINES + rendered))
            == Some(Switched(Load(kitText).value, Load(kitText).value.tables.Keys, switches))
  {
    var lines := SplitLines(kitText);
    var r := RenderLines(lines, switches);
    RenderedLinesLoad(lines, switches);
    var kit := Load(kitText).value.tables.Keys;
    assert kit - r.switched == {};
    assert kit <= r.switched by {
      forall name | name in kit ensures name in r.switched {
        assert name !in kit - r.switched;
      }
    }
    assert r.switched == kit;
    PreambleIsComments();
    BehindComments(PREAMBLE_LINES, rendered);
    SplitOfConcat(PREAMBLE_LINES + rendered);
    LoadBehindComments(PREAMBLE_LINES, rendered);
  }

  // `read_enabled_switches`

  datatype SwitchError = Missing | NotToml | NotBoolean | NoTable

  /** The switch a loaded table carries; a table with no `enabled` key is on. */
  function TableSwitch(table: Table): Option<bool> {
    match table.enabled
    case None => Some(true)
    case Some(Bool(value)) => Some(value)
    case Some(_) => None
  }

  /** Each table's switch, or why there is none to read. */
  function TableSwitches(tables: map<string, Table>): Result<map<string, bool>, SwitchError> {
    if exists name :: name in tables && TableSwitch(tables[name]).None? then Err(NotBoolean)
    else if tables == map[] then Err(NoTable)
    else Ok(map name | name in tables :: TableSwitch(tables[name]).value)
  }

  function ReadSwitches(content: Option<string>): Result<map<string, bool>, SwitchError> {
    if content.None? then Err(Missing)
    else
      match Load(ReadText(content.value))
      case None => Err(NotToml)
      case Some(doc) => TableSwitches(doc.tables)
  }

  method ReadEnabledSwitches(content: Option<string>) returns (result: Result<map<string, bool>, SwitchError>)
    ensures result == ReadSwitches(content)
  {
    if content.None? {
      return Err(Missing);
    }
    var document := Load(ReadText(content.value));
    if document.None? {
      return Err(NotToml);
    }
    var tables := document.value.tables;
    var switches: map<string, bool> := map[];
    var names := tables.Keys;
    while names != {}
      invariant names <= tables.Keys
      invariant switches.Keys == tables.Keys - names
      invariant forall name :: name in switches ==> TableSwitch(tables[name]) == Some(switches[name])
      decreases names
    {
      var name :| name in names;
      var switch := TableSwitch(tables[name]);
      if switch.None? {
        return Err(NotBoolean);
      }
      switches := switches[name := switch.value];
      names := names - {name};
    }
    assert forall name :: name in tables ==> TableSwitch(tables[name]) == Some(switches[name]);
    if switches == map[] {
      assert tables == map[] by { assert tables.Keys == {}; }
      return Err(NoTable);
    }
    assert tables != map[] by { assert switches.Keys == tables.Keys; }
    assert switches == map name | name in tables :: TableSwitch(tables[name]).value;
    result := Ok(switches);
  }

  lemma SwitchedTablesRead(doc: Doc, switches: map<string, bool>)
    ensures TableSwitches(Switched(doc, doc.tables.Keys, switches).tables)
         == if doc.tables.Keys == {} then Err(NoTable)
           else Ok(map name | name in doc.tables.Keys :: SwitchFor(switches, name))
  {
    var tables := Switched(doc, doc.tables.Keys, switches).tables;
    assert tables.Keys == doc.tables.Keys;
    assert forall name :: name in tables ==> TableSwitch(tables[name]) == Some(SwitchFor(switches, name));
    if tables.Keys == {} {
      assert tables == map[];
    } else {
      assert tables != map[];
      assert TableSwitches(tables).value == map name | name in doc.tables.Keys :: SwitchFor(switches, name);
    }
  }

  /**
   Reading the rendered file back gives, for every kit backend, exactly the switch recorded before, or off
   when none was, and no other backend; a kit without a table leaves nothing to read.
   */
  lemma ReadBackGivesTheRecord(kitText: string, switches: map<string, bool>)
    requires Render(kitText, switches).Ok?
    ensures Load(kitText).Some?
    ensures ReadSwitches(Some(Render(kitText, switches).value)) ==
            var kit := Load(kitText).value.tables.Keys;
            if kit == {} then Err(NoTable)
              else Ok(map name | name in kit :: if name in switches then switches[name] else false)
  {
    RenderedText(kitText, switches);
    PlainHasNoReturn(Render(kitText, switches).value);
    SwitchedTablesRead(Load(kitText).value, switches);
    var kit := Load(kitText).value.tables.Keys;
    assert (map name | name in kit :: SwitchFor(switches, name)) == map name | name in kit :: if name in switches
      then switches[name] else false;
  }

  /** A text that loads at all reads back from its file as it is. */
  lemma PlainHasNoReturn(text: string)
    requires Load(text).Some?
    ensures ReadText(text) == text
  {
    assert forall i :: 0 <= i < |text| ==> IsPlain(text[i]);
    TranslationKeepsIff(text, '\r', '\n');
  }

  // Rendering looks only at the switches of the kit's own tables.

  lemma {:induction false} RenderLooksAtItsTables(lines: seq<string>, a: map<string, bool>, b: map<string, bool>)
    requires LoadLines(lines).Some?
    requires forall name :: name in LoadLines(lines).value.tables ==> SwitchFor(a, name) == SwitchFor(b, name)
    ensures RenderLines(lines, a) == RenderLines(lines, b)
  {
    if lines != [] {
      var n := |lines| - 1;
      var doc := LoadLines(lines[..n]).value;
      assert forall name :: name in doc.tables ==> name in LoadLines(lines).value.tables;
      RenderLooksAtItsTables(lines[..n], a, b);
      RenderedLinesLoad(lines[..n], a);
    }
  }

  /** Rendering from the record a rendering left gives the same text again. */
  lemma RenderIsStable(kitText: string, switches: map<string, bool>, again: map<string, bool>)
    requires Render(kitText, switches).Ok? && ReadSwitches(Some(Render(kitText, switches).value)) == Ok(again)
    ensures Render(kitText, again) == Render(kitText, switches)
  {
    ReadBackGivesTheRecord(kitText, switches);
    RenderLooksAtItsTables(SplitLines(kitText), switches, again);
  }
}
