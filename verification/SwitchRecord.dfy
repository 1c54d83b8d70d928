/**
 The record and the rendering, line by line (`read_enabled_switches` and `render_backends_toml` of
 `scripts/sync_vendored_kit.py`): what the record says of each table, exactly which lines are rewritten and to
 what, and exactly which kits can be rendered.
 */
module SwitchRecord {
  import opened Wrappers
  import opened TextLines
  import opened BackendsToml
  import opened BackendsRenderer
  import opened BackendsDocument
  import opened SwitchRoundTrip

  /** What the kinds of a text's lines are. */
  function KindsOf(text: string): seq<Kind> { Kinds(SplitLines(text)) }

  lemma TextLoadsAsKinds(text: string)
    requires Load(text).Some?
    ensures LoadKinds(KindsOf(text)) == Load(text)
  {
    LinesLoadAsKinds(SplitLines(text));
  }

  // The record.

  /** The record holds exactly the tables of the file. */
  lemma RecordHasTheTables(text: string, name: string)
    requires ReadSwitches(Some(text)).Ok?
    ensures name in ReadSwitches(Some(text)).value <==> exists h :: HeaderAt(KindsOf(ReadText(text)), h, name)
  {
    TextLoadsAsKinds(ReadText(text));
    TablesAreTheHeaders(KindsOf(ReadText(text)));
  }

  /** A table that sets `enabled` is on or off as its own line says; a table that does not set it is on. */
  lemma RecordIsWhatLinesSay(text: string, name: string)
    requires ReadSwitches(Some(text)).Ok? && name in ReadSwitches(Some(text)).value
    ensures var kinds := KindsOf(ReadText(text));
            && (forall i, value :: AssignsIn(kinds, i, name, "enabled", value)
                  ==> value == Bool(ReadSwitches(Some(text)).value[name]))
            && ((forall i, value :: !AssignsIn(kinds, i, name, "enabled", value))
                  ==> ReadSwitches(Some(text)).value[name])
  {
    var kinds := KindsOf(ReadText(text));
    var table := Load(ReadText(text)).value.tables[name];
    TextLoadsAsKinds(ReadText(text));
    forall i, value | AssignsIn(kinds, i, name, "enabled", value)
      ensures value == Bool(ReadSwitches(Some(text)).value[name])
    {
      SwitchIsTheAssigned(kinds, name, value);
    }
    if table.enabled.Some? {
      SwitchIsTheAssigned(kinds, name, table.enabled.value);
    }
  }

  /** In terms of the loaded document: a table without the key is on. */
  lemma TableWithoutKeyIsOn(text: string, name: string)
    requires ReadSwitches(Some(text)).Ok? && name in Load(ReadText(text)).value.tables
    requires "enabled" !in Load(ReadText(text)).value.tables[name].keys
    ensures name in ReadSwitches(Some(text)).value && ReadSwitches(Some(text)).value[name]
  {
    TextLoadsAsKinds(ReadText(text));
    SwitchesHaveKeys(KindsOf(ReadText(text)));
  }

  /** And a sync from such a record renders it on. */
  lemma UnsetTableIsRenderedOn(record: string, kitText: string, name: string)
    requires ReadSwitches(Some(record)).Ok? && name in Load(ReadText(record)).value.tables
    requires "enabled" !in Load(ReadText(record)).value.tables[name].keys
    requires Render(kitText, ReadSwitches(Some(record)).value).Ok?
    requires Load(kitText).Some? && name in Load(kitText).value.tables
    ensures var rendered := Load(Render(kitText, ReadSwitches(Some(record)).value).value);
            rendered.Some? && name in rendered.value.tables && rendered.value.tables[name].enabled == Some(Bool(true))
  {
    TableWithoutKeyIsOn(record, name);
    RenderedText(kitText, ReadSwitches(Some(record)).value);
  }

  /** A table of this text assigns something else than a boolean to `enabled`. */
  ghost predicate HasOddSwitch(text: string) {
    exists i, name, value :: AssignsIn(KindsOf(text), i, name, "enabled", value) && !value.Bool?
  }

  /** Exactly why a record is refused. */
  lemma RecordIsRefusedIff(content: Option<string>)
    ensures ReadSwitches(content) == Err(Missing) <==> content.None?
    ensures ReadSwitches(content) == Err(NotToml) <==> content.Some? && Load(ReadText(content.value)).None?
    ensures content.Some? && Load(ReadText(content.value)).Some? ==>
              && (ReadSwitches(content) == Err(NotBoolean) <==> HasOddSwitch(ReadText(content.value)))
              && (ReadSwitches(content) == Err(NoTable) <==>
                    forall h, name :: !HeaderAt(KindsOf(ReadText(content.value)), h, name))
  {
    if content.Some? && Load(ReadText(content.value)).Some? {
      OddSwitchIsInATable(ReadText(content.value));
      var kinds, tables := KindsOf(ReadText(content.value)), Load(ReadText(content.value)).value.tables;
      TextLoadsAsKinds(ReadText(content.value));
      TablesAreTheHeaders(kinds);
      if h, name :| HeaderAt(kinds, h, name) {
        assert name in tables;
      } else {
        assert tables == map[];
      }
    }
  }

  lemma OddSwitchIsInATable(text: string)
    requires Load(text).Some?
    ensures HasOddSwitch(text) <==>
            exists name :: name in Load(text).value.tables && TableSwitch(Load(text).value.tables[name]).None?
  {
    var tables := Load(text).value.tables;
    TextLoadsAsKinds(text);
    if name :| name in tables && TableSwitch(tables[name]).None? {
      var value := tables[name].enabled.value;
      SwitchIsTheAssigned(KindsOf(text), name, value);
      var i :| AssignsIn(KindsOf(text), i, name, "enabled", value);
    }
    if i, name, value :| AssignsIn(KindsOf(text), i, name, "enabled", value) && !value.Bool? {
      SwitchIsTheAssigned(KindsOf(text), name, value);
      assert TableSwitch(tables[name]).None?;
    }
  }

  // The rendering.

  /** A line that the switch regex matches, in this table. */
  ghost predicate SwitchLineIn(lines: seq<string>, i: int, name: string) {
    0 <= i < |lines| && MatchSwitch(lines[i]).Some? && InTable(Kinds(lines), i, name)
  }

  lemma KindsOfPrefix(lines: seq<string>, n: nat)
    requires n <= |lines|
    ensures Kinds(lines[..n]) == Kinds(lines)[..n]
  {
  }

  lemma SwitchLineBefore(lines: seq<string>, i: int, name: string)
    requires lines != [] && i < |lines| - 1
    ensures SwitchLineIn(lines[..|lines| - 1], i, name) <==> SwitchLineIn(lines, i, name)
  {
    KindsOfPrefix(lines, |lines| - 1);
    InTableBefore(Kinds(lines), i, name);
  }

  lemma {:induction false} RendererKnowsTheTable(lines: seq<string>, switches: map<string, bool>)
    requires LoadLines(lines).Some?
    ensures forall name :: RenderLines(lines, switches).table == Some(name) <==> InTable(Kinds(lines), |lines|, name)
  {
    RenderedLinesLoad(lines, switches);
    LinesLoadAsKinds(lines);
    CurrentIsTheLastHeaders(Kinds(lines));
  }

  /** A line of the grammar is not a header and a switch at once. */
  lemma SwitchIsNoHeader(line: string)
    requires MatchSwitch(line).Some?
    ensures MatchHeader(line).None? && line[0] == 'e'
  {
    assert line[0] == line[0..7][0];
  }

  /** What line `i` is rendered to: the recorded boolean in place of its own, if it is a switch of a table. */
  ghost predicate RendersLine(lines: seq<string>, i: int, switches: map<string, bool>, rendered: string)
    requires 0 <= i < |lines|
  {
    && (forall name :: SwitchLineIn(lines, i, name) ==>
          rendered == WithSwitch(lines[i], MatchSwitch(lines[i]).value, name in switches && switches[name]))
    && ((forall name :: !SwitchLineIn(lines, i, name)) ==> rendered == lines[i])
  }

  /** What the renderer makes of a line below this header. */
  function Rendered(table: Option<string>, line: string, switches: map<string, bool>): string {
    if MatchSwitch(line).Some? && table.Some? then
      WithSwitch(line, MatchSwitch(line).value, table.value in switches && switches[table.value])
    else line
  }

  lemma RendererActs(r: Rendering, line: string, switches: map<string, bool>)
    ensures RenderLine(r, line, switches).lines == r.lines + [Rendered(r.table, line, switches)]
    ensures forall name :: name in RenderLine(r, line, switches).switched <==>
              name in r.switched || (MatchSwitch(line).Some? && r.table == Some(name))
  {
    if MatchSwitch(line).Some? {
      SwitchIsNoHeader(line);
    }
  }

  lemma TableDecidesTheLine(lines: seq<string>, n: nat, table: Option<string>, switches: map<string, bool>)
    requires n < |lines| && forall name :: table == Some(name) <==> InTable(Kinds(lines), n, name)
    ensures RendersLine(lines, n, switches, Rendered(table, lines[n], switches))
    ensures forall name :: SwitchLineIn(lines, n, name) <==> MatchSwitch(lines[n]).Some? && table == Some(name)
  {
    if MatchSwitch(lines[n]).Some? && table.Some? {
      assert SwitchLineIn(lines, n, table.value);
    }
  }

  lemma LastLineIsRendered(lines: seq<string>, switches: map<string, bool>)
    requires lines != [] && LoadLines(lines).Some?
    ensures var n := |lines| - 1;
            && |RenderLines(lines, switches).lines| == |lines|
            && RenderLines(lines, switches).lines[..n] == RenderLines(lines[..n], switches).lines
            && RendersLine(lines, n, switches, RenderLines(lines, switches).lines[n])
            && forall name :: name in RenderLines(lines, switches).switched <==>
                 name in RenderLines(lines[..n], switches).switched || SwitchLineIn(lines, n, name)
  {
    var n := |lines| - 1;
    var r := RenderLines(lines[..n], switches);
    OnlySwitchesChange(lines[..n], switches);
    RendererKnowsTheTable(lines[..n], switches);
    KindsOfPrefix(lines, n);
    forall name ensures r.table == Some(name) <==> InTable(Kinds(lines), n, name) {
      InTableBefore(Kinds(lines), n, name);
    }
    RendererActs(r, lines[n], switches);
    TableDecidesTheLine(lines, n, r.table, switches);
  }

  lemma EarlierLineIsRendered(lines: seq<string>, i: int, switches: map<string, bool>, rendered: string)
    requires 0 <= i < |lines| - 1 && RendersLine(lines[..|lines| - 1], i, switches, rendered)
    ensures RendersLine(lines, i, switches, rendered)
  {
    var before := lines[..|lines| - 1];
    assert before[i] == lines[i];
    forall name ensures SwitchLineIn(before, i, name) <==> SwitchLineIn(lines, i, name) {
      SwitchLineBefore(lines, i, name);
    }
  }

  ghost predicate RendersLines(lines: seq<string>, switches: map<string, bool>, rendered: seq<string>) {
    |rendered| == |lines| && forall i :: 0 <= i < |lines| ==> RendersLine(lines, i, switches, rendered[i])
  }

  lemma RendersOneMore(lines: seq<string>, switches: map<string, bool>, rendered: seq<string>)
    requires lines != [] && |rendered| == |lines|
    requires RendersLines(lines[..|lines| - 1], switches, rendered[..|lines| - 1])
    requires RendersLine(lines, |lines| - 1, switches, rendered[|lines| - 1])
    ensures RendersLines(lines, switches, rendered)
  {
    forall i | 0 <= i < |lines| - 1 ensures RendersLine(lines, i, switches, rendered[i]) {
      assert rendered[..|lines| - 1][i] == rendered[i];
      EarlierLineIsRendered(lines, i, switches, rendered[i]);
    }
  }

  /** Every line is rendered so, and no other line changes. */
  lemma {:induction false} LinesAreRendered(lines: seq<string>, switches: map<string, bool>)
    requires LoadLines(lines).Some?
    ensures RendersLines(lines, switches, RenderLines(lines, switches).lines)
  {
    if lines != [] {
      LinesAreRendered(lines[..|lines| - 1], switches);
      LastLineIsRendered(lines, switches);
      RendersOneMore(lines, switches, RenderLines(lines, switches).lines);
    }
  }

  /** This table has a line the switch regex matches. */
  ghost predicate HasSwitchLine(lines: seq<string>, name: string) {
    exists i :: SwitchLineIn(lines, i, name)
  }

  lemma OneMoreSwitchLine(lines: seq<string>, name: string)
    requires lines != []
    ensures HasSwitchLine(lines, name) <==>
            HasSwitchLine(lines[..|lines| - 1], name) || SwitchLineIn(lines, |lines| - 1, name)
  {
    var n := |lines| - 1;
    if i :| SwitchLineIn(lines[..n], i, name) {
      SwitchLineBefore(lines, i, name);
      assert SwitchLineIn(lines, i, name);
    }
    if i :| SwitchLineIn(lines, i, name) {
      if i < n {
        SwitchLineBefore(lines, i, name);
        assert SwitchLineIn(lines[..n], i, name);
      }
    }
  }

  lemma {:induction false} SwitchedAreTheSwitchLines(lines: seq<string>, switches: map<string, bool>, name: string)
    requires LoadLines(lines).Some?
    ensures name in RenderLines(lines, switches).switched <==> HasSwitchLine(lines, name)
  {
    if lines != [] {
      SwitchedAreTheSwitchLines(lines[..|lines| - 1], switches, name);
      LastLineIsRendered(lines, switches);
      OneMoreSwitchLine(lines, name);
    }
  }

  ghost predicate HasHeader(kinds: seq<Kind>, name: string) {
    exists h :: HeaderAt(kinds, h, name)
  }

  /** A kit can be rendered exactly when it is TOML and every table of it has a line the switch regex matches. */
  lemma RendersIff(kitText: string, switches: map<string, bool>)
    ensures Render(kitText, switches) == Err(KitIsNotToml) <==> Load(kitText).None?
    ensures Load(kitText).Some? ==>
              (Render(kitText, switches).Ok? <==>
                 forall name :: HasHeader(KindsOf(kitText), name) ==> HasSwitchLine(SplitLines(kitText), name))
  {
    RefusesIff(kitText, switches);
    if Load(kitText).Some? {
      TextLoadsAsKinds(kitText);
      EveryTableIsSwitchedIff(SplitLines(kitText), switches);
    }
  }

  lemma RefusesIff(kitText: string, switches: map<string, bool>)
    ensures Render(kitText, switches) == Err(KitIsNotToml) <==> Load(kitText).None?
    ensures Load(kitText).Some? ==>
              (Render(kitText, switches).Ok? <==>
                 forall name :: name in Load(kitText).value.tables.Keys ==>
                   name in RenderLines(SplitLines(kitText), switches).switched)
  {
    if Load(kitText).Some? {
      NothingIsLeftIff(Load(kitText).value.tables.Keys, RenderLines(SplitLines(kitText), switches).switched);
    }
  }

  lemma NothingIsLeftIff(a: set<string>, b: set<string>)
    ensures a - b == {} <==> forall name :: name in a ==> name in b
  {
    if a - b == {} {
      forall name | name in a ensures name in b {
        assert name !in a - b;
      }
    }
  }

  lemma EveryTableIsSwitchedIff(lines: seq<string>, switches: map<string, bool>)
    requires LoadLines(lines).Some? && LoadKinds(Kinds(lines)) == LoadLines(lines)
    ensures var tables, switched := LoadLines(lines).value.tables.Keys, RenderLines(lines, switches).switched;
            (forall name :: name in tables ==> name in switched) <==>
            forall name :: HasHeader(Kinds(lines), name) ==> HasSwitchLine(lines, name)
  {
    TablesAreTheHeaders(Kinds(lines));
    var tables, switched := LoadLines(lines).value.tables.Keys, RenderLines(lines, switches).switched;
    forall name
      ensures name in tables <==> HasHeader(Kinds(lines), name)
      ensures name in switched <==> HasSwitchLine(lines, name)
    {
      SwitchedAreTheSwitchLines(lines, switches, name);
    }
  }
}
