/**
 `render_backends_toml` of `scripts/sync_vendored_kit.py`: the kit's text, line by line, with this image's
 `enabled` switches in place of the kit's. The renderer recognises headers and switches with two regular
 expressions, never with the TOML reader; the lemmas below show where the two agree.
 */
module BackendsRenderer {
  import opened Wrappers
  import opened TextLines
  import opened BackendsToml

  predicate IsNotBracket(c: char) { c != '[' && c != ']' }

  predicate IsQuote(c: char) { c == '"' }

  /** What `\b` looks at. Above ASCII every character counts as part of a word; the grammar has none there. */
  predicate IsWordChar(c: char) {
    'a' <= c <= 'z' || 'A' <= c <= 'Z' || '0' <= c <= '9' || c == '_' || c >= '\U{80}'
  }

  /** The header regex: the name between the line's opening bracket and the next bracket, if that one closes. */
  function MatchHeader(line: string): Option<string> {
    if line == "" || line[0] != '[' then None
    else
      var n := Span(IsNotBracket, line, 1);
      if 1 < n < |line| && line[n] == ']' then Some(Strip(IsQuote, Strip(IsSpace, line[1..n]))) else None
  }

  /** The switch regex: where its boolean stands in the line. */
  datatype SwitchMatch = SwitchMatch(start: nat, end: nat)

  function MatchSwitch(line: string): (m: Option<SwitchMatch>)
    ensures m.Some? ==> 7 < m.value.start < m.value.end <= |line|
  {
    if !StartsAt(line, 0, "enabled") then None
    else
      var eq := Span(IsSpace, line, 7);
      if eq == |line| || line[eq] != '=' then None
      else
        var start := Span(IsSpace, line, eq + 1);
        var end := if StartsAt(line, start, "true") then start + 4
          else if StartsAt(line, start, "false") then start + 5 else start;
        if end > start && (end == |line| || !IsWordChar(line[end])) then Some(SwitchMatch(start, end)) else None
  }

  function Token(value: bool): string { if value then "true" else "false" }

  function WithSwitch(line: string, m: SwitchMatch, value: bool): string
    requires m.start <= m.end <= |line|
  {
    line[..m.start] + Token(value) + line[m.end..]
  }

  /** The switch rendered for a table: this image's, or off for one it has no record of. */
  function SwitchFor(switches: map<string, bool>, table: string): bool {
    table in switches && switches[table]
  }

  /** The loop's three variables. */
  datatype Rendering = Rendering(lines: seq<string>, table: Option<string>, switched: set<string>)

  function RenderLine(r: Rendering, line: string, switches: map<string, bool>): Rendering {
    match MatchHeader(line)
    case Some(name) => Rendering(r.lines + [line], Some(name), r.switched)
    case None =>
      match MatchSwitch(line)
      case Some(m) =>
        if r.table.Some? then
          Rendering(r.lines + [WithSwitch(line, m, SwitchFor(switches, r.table.value))], r.table, r.switched
            + {r.table.value})
        else r.(lines := r.lines + [line])
      case None => r.(lines := r.lines + [line])
  }

  function RenderLines(lines: seq<string>, switches: map<string, bool>): Rendering {
    if lines == [] then Rendering([], None, {})
    else RenderLine(RenderLines(lines[..|lines| - 1], switches), lines[|lines| - 1], switches)
  }

  const PREAMBLE_LINES: seq<string> := [
    "# pipelex-api: this is " + "the kit's `inference/" + "backends.toml` from the " + "pinned pipelex, re-synced by"
      + "\n",
    "# `make kit-sync`. Only " + "the `enabled` switches are " + "this image's own choice, "
      + "and the sync keeps them;"
    + "\n",
    "# any other edit is " + "reported as drift by " + "`make kit-check`." + "\n",
    "#" + "\n"
  ]

  datatype RenderError = KitIsNotToml | TableWithoutSwitch

  /** What the renderer gives for a kit text. */
  function Render(kitText: string, switches: map<string, bool>): Result<string, RenderError> {
    var r := RenderLines(SplitLines(kitText), switches);
    match Load(kitText)
    case None => Err(KitIsNotToml)
    case Some(doc) =>
      if doc.tables.Keys - r.switched != {} then Err(TableWithoutSwitch) else Ok(Concat(PREAMBLE_LINES + r.lines))
  }

  method RenderBackendsToml(kitText: string, switches: map<string, bool>) returns (result: Result<string, RenderError>)
    ensures result == Render(kitText, switches)
  {
    var lines := SplitLines(kitText);
    var renderedLines := PREAMBLE_LINES;
    var currentTable: Option<string> := None;
    var switchedTables: set<string> := {};
    for i := 0 to |lines|
      invariant var r := RenderLines(lines[..i], switches);
                renderedLines == PREAMBLE_LINES + r.lines && currentTable == r.table && switchedTables == r.switched
    {
      var line := lines[i];
      OneLineFurther(lines, switches, i);
      var renderedLine := line;
      var header := MatchHeader(line);
      if header.Some? {
        currentTable := header;
      } else if currentTable.Some? {
        var m := MatchSwitch(line);
        if m.Some? {
          renderedLine := WithSwitch(line, m.value, SwitchFor(switches, currentTable.value));
          switchedTables := switchedTables + {currentTable.value};
        }
      }
      renderedLines := renderedLines + [renderedLine];
    }
    assert lines[..|lines|] == lines;
    match Load(kitText) {
      case None => return Err(KitIsNotToml);
      case Some(doc) =>
        if doc.tables.Keys - switchedTables != {} {
          return Err(TableWithoutSwitch);
        }
    }
    result := Ok(Concat(renderedLines));
  }

  lemma OneLineFurther(lines: seq<string>, switches: map<string, bool>, i: nat)
    requires i < |lines|
    ensures RenderLines(lines[..i + 1], switches) == RenderLine(RenderLines(lines[..i], switches), lines[i], switches)
  {
    assert lines[..i + 1][..i] == lines[..i];
  }

  // What the two regular expressions match.

  /** A bracket, characters that are no bracket, at least one, and a closing bracket. */
  ghost predicate IsHeaderMatch(line: string, n: int) {
    && 1 < n < |line| && line[0] == '[' && line[n] == ']'
    && forall x :: 1 <= x < n ==> line[x] != '[' && line[x] != ']'
  }

  lemma HeaderRegex(line: string, n: int)
    requires IsHeaderMatch(line, n)
    ensures MatchHeader(line) == Some(Strip(IsQuote, Strip(IsSpace, line[1..n])))
  {
    SpanIs(IsNotBracket, line, 1, n);
  }

  /** The header regex matches nothing else. */
  lemma HeaderRegexIff(line: string)
    ensures MatchHeader(line).Some? <==> exists n :: IsHeaderMatch(line, n)
  {
    if n :| IsHeaderMatch(line, n) {
      HeaderRegex(line, n);
    }
    if MatchHeader(line).Some? {
      SpanFacts(IsNotBracket, line, 1);
      assert IsHeaderMatch(line, Span(IsNotBracket, line, 1));
    }
  }

  /** `enabled`, spaces, an equals sign, spaces, a boolean, and no word going on. */
  ghost predicate IsSwitchMatch(line: string, eq: nat, start: nat, value: bool) {
    && StartsAt(line, 0, "enabled")
    && 7 <= eq < start && start + |Token(value)| <= |line| && line[eq] == '='
    && (forall x :: 7 <= x < eq || eq < x < start ==> IsSpace(line[x]))
    && StartsAt(line, start, Token(value))
    && var end := start + |Token(value)|; end == |line| || !IsWordChar(line[end])
  }

  /** Where a boolean's word ends, as the switch regex looks for it. */
  lemma WordsEnd(line: string, start: nat, value: bool)
    requires StartsAt(line, start, Token(value))
    ensures start + |Token(value)| ==
            if StartsAt(line, start, "true") then start + 4 else if StartsAt(line, start, "false") then start + 5
              else start
    ensures start < |line| && !IsSpace(line[start])
  {
    TokenStarts(line, start, value);
    if StartsAt(line, start, Token(!value)) {
      TokenStarts(line, start, !value);
    }
  }

  lemma MatchAt(line: string, eq: nat, start: nat, end: nat)
    requires StartsAt(line, 0, "enabled") && 7 <= eq < start < end <= |line| && line[eq] == '='
    requires eq == Span(IsSpace, line, 7) && start == Span(IsSpace, line, eq + 1)
    requires end == if StartsAt(line, start, "true") then start + 4
            else if StartsAt(line, start, "false") then start + 5 else start
    requires end == |line| || !IsWordChar(line[end])
    ensures MatchSwitch(line) == Some(SwitchMatch(start, end))
  {
  }

  lemma SwitchRegex(line: string, eq: nat, start: nat, value: bool)
    requires IsSwitchMatch(line, eq, start, value)
    ensures MatchSwitch(line) == Some(SwitchMatch(start, start + |Token(value)|))
  {
    SpanIs(IsSpace, line, 7, eq);
    WordsEnd(line, start, value);
    SpanIs(IsSpace, line, eq + 1, start);
    MatchAt(line, eq, start, start + |Token(value)|);
  }

  lemma MatchedSwitch(line: string) returns (eq: nat, value: bool)
    requires MatchSwitch(line).Some?
    ensures IsSwitchMatch(line, eq, MatchSwitch(line).value.start, value)
  {
    eq := Span(IsSpace, line, 7);
    SpanFacts(IsSpace, line, 7);
    SpanFacts(IsSpace, line, eq + 1);
    value := MatchedToken(line);
  }

  /** The switch regex matches nothing else. */
  lemma SwitchRegexIff(line: string)
    ensures MatchSwitch(line).Some? <==> exists eq, start, value :: IsSwitchMatch(line, eq, start, value)
  {
    if eq, start, value :| IsSwitchMatch(line, eq, start, value) {
      SwitchRegex(line, eq, start, value);
    }
    if MatchSwitch(line).Some? {
      var eq, value := MatchedSwitch(line);
    }
  }

  // Where the regular expressions and the TOML grammar agree.

  lemma SpelledNameIsStripped(s: string, i: nat, j: nat, name: string)
    requires i < j <= |s| && Spells(s[i..j], name)
    requires forall x :: 0 <= x < i || j <= x < |s| ==> IsBlank(s[x])
    ensures Strip(IsQuote, Strip(IsSpace, s)) == name
    ensures forall x :: 0 <= x < |s| ==> IsNotBracket(s[x])
  {
    var raw := s[i..j];
    assert raw[0] == s[i] && raw[|raw| - 1] == s[j - 1];
    StripIs(IsSpace, s, i, j);
    StripSpelling(raw, name);
    forall x | i <= x < j ensures IsNotBracket(s[x]) {
      assert s[x] == raw[x - i];
      SpellingHasNoBracket(raw, name, x - i);
    }
  }

  lemma SpellingHasNoBracket(raw: string, name: string, x: nat)
    requires Spells(raw, name) && x < |raw|
    ensures IsNotBracket(raw[x])
  {
    if raw == "\"" + name + "\"" && 0 < x < |raw| - 1 {
      assert raw[x] == name[x - 1];
    }
  }

  lemma StripSpelling(raw: string, name: string)
    requires Spells(raw, name)
    ensures Strip(IsQuote, raw) == name
  {
    if raw == name {
      StripIs(IsQuote, raw, 0, |raw|);
    } else if name == "" {
      SpanIs(IsQuote, raw, 0, 2);
    } else {
      assert raw[1] == name[0] && raw[|raw| - 2] == name[|name| - 1] && raw[1..|raw| - 1] == name;
      StripIs(IsQuote, raw, 1, |raw| - 1);
    }
  }

  /** On every line of the grammar the header regex finds exactly the TOML headers, under their TOML names. */
  lemma HeadersAgree(line: string)
    requires !Classify(line).Outside?
    ensures MatchHeader(line) == if Classify(line).Header? then Some(Classify(line).name) else None
  {
    if line != "" && line[0] == '[' {
      BracketMeansHeader(line);
      var i, j, k := HeaderShape(line);
      HeaderNameAgrees(line, i, j, k, Classify(line).name);
    }
  }

  lemma HeaderNameAgrees(line: string, i: nat, j: nat, k: nat, name: string)
    requires 1 <= i < j <= k < |line| && line[0] == '[' && line[k] == ']'
    requires forall x :: 1 <= x < i || j <= x < k ==> IsBlank(line[x])
    requires Spells(line[i..j], name)
    ensures MatchHeader(line) == Some(name)
  {
    var inner := line[1..k];
    SliceOfSlice(line, 1, i, j, k);
    SpelledNameIsStripped(inner, i - 1, j - 1, name);
    forall x | 1 <= x < k ensures IsNotBracket(line[x]) {
      assert line[x] == inner[x - 1];
    }
    SpanIs(IsNotBracket, line, 1, k);
  }

  /** A run of spaces that a character other than a space ends is the run of blanks, if the blanks end there too. */
  lemma RunsAgree(line: string, i: nat)
    requires i <= |line|
    requires var n := Span(IsBlank, line, i); n == |line| || !IsSpace(line[n])
    ensures Span(IsSpace, line, i) == Span(IsBlank, line, i)
  {
    var n := Span(IsBlank, line, i);
    SpanFacts(IsBlank, line, i);
    SpanIs(IsSpace, line, i, n);
  }

  lemma EnabledAssignment(line: string)
    requires StartsAt(line, 0, "enabled") && |line| > 7 && !IsBareKeyChar(line[7])
    ensures Classify(line) ==
            var eq := Span(IsBlank, line, 7);
            if eq == |line| || line[eq] != '=' then Outside
            else
              var value := ParseValue(line, Span(IsBlank, line, eq + 1));
              if value.NotOneLine? then Outside else Assign("enabled", value)
  {
    EnabledIsAKey(line);
  }

  lemma TokenStarts(line: string, i: nat, value: bool)
    requires StartsAt(line, i, Token(value))
    ensures i < |line| && line[i] == if value then 't' else 'f'
  {
    assert line[i..i + |Token(value)|][0] == Token(value)[0];
  }

  lemma ValueStarts(line: string, i: nat)
    requires i <= |line| && !ParseValue(line, i).NotOneLine?
    ensures i < |line| && !IsSpace(line[i])
  {
    if StartsAt(line, i, "true") {
      TokenStarts(line, i, true);
    } else if StartsAt(line, i, "false") {
      TokenStarts(line, i, false);
    }
  }

  /** A line of the grammar that the switch regex matches assigns `enabled` the value at the match. */
  lemma SwitchAssigns(line: string) returns (eq: nat)
    requires !Classify(line).Outside? && MatchSwitch(line).Some?
    ensures StartsAt(line, 0, "enabled") && 7 <= eq < |line| && line[eq] == '='
    ensures eq == Span(IsBlank, line, 7) && MatchSwitch(line).value.start == Span(IsBlank, line, eq + 1)
    ensures Classify(line) == Assign("enabled", ParseValue(line, MatchSwitch(line).value.start))
  {
    assert Span(IsSpace, line, 7) > 7 ==> IsSpace(line[7]);
    EnabledAssignment(line);
    eq := Span(IsBlank, line, 7);
    RunsAgree(line, 7);
    ValueStarts(line, Span(IsBlank, line, eq + 1));
    RunsAgree(line, eq + 1);
  }

  /** `enabled =` from the line's first character on, and a value at `start`. */
  ghost predicate SwitchUpTo(line: string, eq: nat, start: nat) {
    && StartsAt(line, 0, "enabled") && 7 <= eq < start < |line| && line[eq] == '='
    && eq == Span(IsBlank, line, 7) && start == Span(IsBlank, line, eq + 1)
  }

  /** A boolean, followed by nothing but blanks and a comment. */
  ghost predicate ClosingToken(line: string, start: nat, value: bool) {
    StartsAt(line, start, Token(value)) && EndsAt(line, start + |Token(value)|)
  }

  ghost predicate SwitchAt(line: string, eq: nat, start: nat, value: bool) {
    SwitchUpTo(line, eq, start) && ClosingToken(line, start, value)
  }

  lemma TokenParses(line: string, i: nat, value: bool)
    requires StartsAt(line, i, Token(value)) && EndsAt(line, i + |Token(value)|)
    ensures ParseValue(line, i) == Bool(value)
  {
    TokenStarts(line, i, value);
    if StartsAt(line, i, Token(!value)) {
      TokenStarts(line, i, !value);
    }
  }

  lemma SwitchAtIsAssignment(line: string, eq: nat, start: nat, value: bool)
    requires SwitchAt(line, eq, start, value)
    ensures Classify(line) == Assign("enabled", Bool(value))
  {
    TokenParses(line, start, value);
    AssignmentAt(line, eq, start);
  }

  lemma AssignmentAt(line: string, eq: nat, start: nat)
    requires SwitchUpTo(line, eq, start) && !ParseValue(line, start).NotOneLine?
    ensures Classify(line) == Assign("enabled", ParseValue(line, start))
  {
    assert !IsBareKeyChar(line[7]) by { assert eq > 7 ==> IsBlank(line[7]); }
    EnabledAssignment(line);
  }

  lemma BooleanEnds(line: string, i: nat, value: bool)
    requires i <= |line| && !ParseValue(line, i).NotOneLine? && StartsAt(line, i, Token(value))
    ensures EndsAt(line, i + |Token(value)|)
  {
    TokenStarts(line, i, value);
    if StartsAt(line, i, Token(!value)) {
      TokenStarts(line, i, !value);
    }
  }

  lemma MatchedToken(line: string) returns (value: bool)
    requires MatchSwitch(line).Some?
    ensures var m := MatchSwitch(line).value; StartsAt(line, m.start, Token(value)) && m.end == m.start + |Token(value)|
  {
    value := StartsAt(line, MatchSwitch(line).value.start, "true");
  }

  /** The switch regex matches, of the lines of the grammar, only boolean assignments to `enabled`. */
  lemma SwitchShape(line: string) returns (eq: nat, value: bool)
    requires !Classify(line).Outside? && MatchSwitch(line).Some?
    ensures SwitchAt(line, eq, MatchSwitch(line).value.start, value)
    ensures MatchSwitch(line).value.end == MatchSwitch(line).value.start + |Token(value)|
  {
    eq := SwitchAssigns(line);
    value := MatchedToken(line);
    BooleanEnds(line, MatchSwitch(line).value.start, value);
  }

  /** A span behind a replaced part is only shifted. */
  lemma SpanAfter(p: char -> bool, a: string, b: string, i: nat, j: nat)
    requires i <= |a| && j <= |b| && a[i..] == b[j..]
    ensures Span(p, a, i) - i == Span(p, b, j) - j
  {
    var n := Span(p, a, i);
    SpanFacts(p, a, i);
    assert |a| - i == |b| - j;
    assert forall x :: i <= x < |a| ==> a[x] == a[i..][x - i];
    assert forall x :: j <= x < |b| ==> b[x] == b[j..][x - j];
    SpanIs(p, b, j, n - i + j);
  }

  lemma EndsAfter(a: string, b: string, i: nat, j: nat)
    requires i <= |a| && j <= |b| && a[i..] == b[j..] && EndsAt(a, i)
    ensures EndsAt(b, j)
  {
    SpanAfter(IsBlank, a, b, i, j);
    var n := Span(IsBlank, a, i);
    if n < |a| {
      assert a[n] == a[i..][n - i] == b[j..][n - i];
    }
  }

  lemma SpanInPrefix(p: char -> bool, a: string, b: string, i: nat, n: nat)
    requires i <= n < |a| && n < |b| && a[..n + 1] == b[..n + 1] && Span(p, a, i) == n
    ensures Span(p, b, i) == n && b[n] == a[n]
  {
    SpanFacts(p, a, i);
    assert forall x :: 0 <= x <= n ==> b[x] == b[..n + 1][x] == a[..n + 1][x] == a[x];
    SpanIs(p, b, i, n);
  }

  lemma SpanUpTo(p: char -> bool, a: string, b: string, i: nat, n: nat)
    requires i <= n < |a| && n < |b| && a[..n] == b[..n] && Span(p, a, i) == n && !p(b[n])
    ensures Span(p, b, i) == n
  {
    SpanFacts(p, a, i);
    assert forall x :: 0 <= x < n ==> b[x] == b[..n][x] == a[..n][x] == a[x];
    SpanIs(p, b, i, n);
  }

  lemma PrefixOfPrefix(a: string, b: string, n: nat, m: nat)
    requires m <= n <= |a| && n <= |b| && a[..n] == b[..n]
    ensures a[..m] == b[..m]
  {
    assert a[..m] == a[..n][..m];
    assert b[..m] == b[..n][..m];
  }

  /** What the switch's line looks like before its value does not depend on the value. */
  lemma SamePrefix(line: string, after: string, eq: nat, start: nat)
    requires SwitchUpTo(line, eq, start) && start < |after| && after[..start] == line[..start] && !IsBlank(after[start])
    ensures SwitchUpTo(after, eq, start)
  {
    PrefixOfPrefix(line, after, start, 7);
    PrefixOfPrefix(line, after, start, eq + 1);
    SpanInPrefix(IsBlank, line, after, 7, eq);
    SpanUpTo(IsBlank, line, after, eq + 1, start);
  }

  /** The pieces of a line with one part replaced. */
  lemma Replaced(line: string, after: string, start: nat, end: nat, part: string)
    requires start <= end <= |line| && after == line[..start] + part + line[end..] && EndsAt(line, end)
    requires part != "" && !IsBlank(part[0])
    ensures start < |after| && after[..start] == line[..start] && !IsBlank(after[start])
    ensures StartsAt(after, start, part) && EndsAt(after, start + |part|)
  {
    assert after[start + |part|..] == line[end..];
    EndsAfter(line, after, end, start + |part|);
  }

  lemma TokenIsNoBlank(value: bool)
    ensures Token(value) != "" && !IsBlank(Token(value)[0])
  {
  }

  lemma TokenCloses(line: string, start: nat, value: bool)
    requires StartsAt(line, start, Token(value)) && EndsAt(line, start + |Token(value)|)
    ensures ClosingToken(line, start, value)
  {
  }

  lemma TokenReplaced(line: string, after: string, start: nat, was: bool, value: bool)
    requires ClosingToken(line, start, was)
    requires after == line[..start] + Token(value) + line[start + |Token(was)|..]
    ensures start < |after| && after[..start] == line[..start] && !IsBlank(after[start])
    ensures ClosingToken(after, start, value)
  {
    TokenIsNoBlank(value);
    Replaced(line, after, start, start + |Token(was)|, Token(value));
    TokenCloses(after, start, value);
  }

  lemma SwitchAtMoves(line: string, after: string, eq: nat, start: nat, was: bool, value: bool)
    requires SwitchAt(line, eq, start, was)
    requires after == line[..start] + Token(value) + line[start + |Token(was)|..]
    ensures Classify(after) == Assign("enabled", Bool(value))
  {
    TokenReplaced(line, after, start, was, value);
    SamePrefix(line, after, eq, start);
    SwitchAtIsAssignment(after, eq, start, value);
  }

  /** Both before and after a rewrite, the line assigns a boolean to `enabled`: the new one, whatever follows it. */
  lemma RewrittenSwitch(line: string, value: bool)
    requires !Classify(line).Outside? && MatchSwitch(line).Some?
    ensures Classify(line).Assign? && Classify(line).key == "enabled" && Classify(line).value.Bool?
    ensures Classify(WithSwitch(line, MatchSwitch(line).value, value)) == Assign("enabled", Bool(value))
  {
    var eq, was := SwitchShape(line);
    var start := MatchSwitch(line).value.start;
    SwitchAtIsAssignment(line, eq, start, was);
    SwitchAtMoves(line, WithSwitch(line, MatchSwitch(line).value, value), eq, start, was, value);
  }

  /** A line beginning with `enabled` and then no key character is an assignment to that key. */
  lemma EnabledIsAKey(line: string)
    requires StartsAt(line, 0, "enabled") && |line| > 7 && !IsBareKeyChar(line[7])
    ensures Span(IsBlank, line, 0) == 0 && !EndsAt(line, 0) && line[0] == 'e'
    ensures ParseKey(line, 0) == Some(Key("enabled", 7))
  {
    var key := "enabled";
    assert forall x :: 0 <= x < 7 ==> line[x] == line[0..7][x];
    assert forall x :: 0 <= x < 7 ==> line[x] == key[x];
    SpanIs(IsBlank, line, 0, 0);
    SpanIs(IsBareKeyChar, line, 0, 7);
  }

  // The preamble is four comment lines. Its text is given phrase by phrase.

  predicate Inline(s: string) { s != "" && forall j :: 0 <= j < |s| ==> !IsLineBreak(s[j]) && s[j] != '\r' }

  predicate Text(s: string) { Inline(s) && s[0] == '#' }

  lemma Longer(a: string, b: string)
    requires Text(a) && Inline(b)
    ensures Text(a + b)
  {
    forall j | 0 <= j < |a + b| ensures !IsLineBreak((a + b)[j]) && (a + b)[j] != '\r' {
      assert (a + b)[j] == if j < |a| then a[j] else b[j - |a|];
    }
  }

  /** A complete line that begins with '#' says nothing to TOML. */
  predicate CommentLine(line: string) { Complete(line) && line[0] == '#' && Plain(line) }

  lemma EndedComment(s: string)
    requires Text(s)
    ensures CommentLine(s + "\n")
  {
    assert forall j :: 0 <= j < |s| ==> (s + "\n")[j] == s[j];
  }

  lemma CommentSaysNothing(line: string)
    requires CommentLine(line)
    ensures Classify(line) == Skip
  {
    SpanIs(IsBlank, line, 0, 0);
  }

  lemma PreambleLine0()
    ensures CommentLine(PREAMBLE_LINES[0])
  {
    var p0 := "# pipelex-api: this is ";
    var p1 := "the kit's `inference/";
    var p2 := "backends.toml` from the ";
    var p3 := "pinned pipelex, re-synced by";
    Longer(p0, p1);
    Longer(p0 + p1, p2);
    Longer(p0 + p1 + p2, p3);
    EndedComment(p0 + p1 + p2 + p3);
  }

  lemma PreambleLine1()
    ensures CommentLine(PREAMBLE_LINES[1])
  {
    var p0 := "# `make kit-sync`. Only ";
    var p1 := "the `enabled` switches are ";
    var p2 := "this image's own choice, ";
    var p3 := "and the sync keeps them;";
    Longer(p0, p1);
    Longer(p0 + p1, p2);
    Longer(p0 + p1 + p2, p3);
    EndedComment(p0 + p1 + p2 + p3);
  }

  lemma PreambleLine2()
    ensures CommentLine(PREAMBLE_LINES[2])
  {
    var p0 := "# any other edit is ";
    var p1 := "reported as drift by ";
    var p2 := "`make kit-check`.";
    Longer(p0, p1);
    Longer(p0 + p1, p2);
    EndedComment(p0 + p1 + p2);
  }

  lemma PreambleLine3()
    ensures CommentLine(PREAMBLE_LINES[3])
  {
    var p0 := "#";
    EndedComment(p0);
  }

  lemma PreambleIsComments()
    ensures forall i :: 0 <= i < |PREAMBLE_LINES| ==> CommentLine(PREAMBLE_LINES[i])
  {
    PreambleLine0();
    PreambleLine1();
    PreambleLine2();
    PreambleLine3();
  }
}
