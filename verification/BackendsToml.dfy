/**
 The part of TOML that `inference/backends.toml` is written in, and a reader for it: flat `[name]`
 tables with bare or plainly quoted names, one key and one scalar value a line, comments and blank lines.
 The reader stands for `tomllib.loads`; it shares no code with the renderer. Everything else (array
 tables, dotted or indented headers, arrays, inline tables, multi-line strings) is `Outside`.
 */
module BackendsToml {
  import opened Wrappers
  import opened TextLines

  predicate IsBlank(c: char) { c == ' ' || c == '\t' }

  predicate IsBareKeyChar(c: char) {
    'a' <= c <= 'z' || 'A' <= c <= 'Z' || '0' <= c <= '9' || c == '_' || c == '-'
  }

  /** What a quoted name may hold here: no quote, escape, bracket or control character. */
  predicate IsQuotedChar(c: char) {
    ' ' <= c && c != '"' && c != '\\' && c != '[' && c != ']' && c != '\U{7F}' && !IsLineBreak(c)
  }

  predicate StartsScalar(c: char) {
    c == '"' || c == '\'' || '0' <= c <= '9' || c == '+' || c == '-' || c == 'i' || c == 'n'
  }

  /** Nothing is left from `i` on but blanks, a comment or the line's end. */
  predicate EndsAt(s: string, i: nat)
    requires i <= |s|
  {
    var n := Span(IsBlank, s, i);
    n == |s| || s[n] == '#' || s[n] == '\n'
  }

  predicate StartsAt(s: string, i: nat, prefix: string) {
    i + |prefix| <= |s| && s[i..i + |prefix|] == prefix
  }

  datatype Key = Key(name: string, end: nat)

  /** The key spelled at `i`, and where its spelling ends. */
  function ParseKey(s: string, i: nat): (key: Option<Key>)
    requires i <= |s|
    ensures key.Some? ==> i < key.value.end <= |s|
  {
    var bare := Span(IsBareKeyChar, s, i);
    if bare > i then Some(Key(s[i..bare], bare))
    else if i < |s| && s[i] == '"' then
      var n := Span(IsQuotedChar, s, i + 1);
      if n < |s| && s[n] == '"' then Some(Key(s[i + 1..n], n + 1)) else None
    else None
  }

  datatype Value = Bool(value: bool) | OtherScalar | NotOneLine

  function ParseValue(s: string, i: nat): Value
    requires i <= |s|
  {
    if StartsAt(s, i, "true") && EndsAt(s, i + 4) then Bool(true)
    else if StartsAt(s, i, "false") && EndsAt(s, i + 5) then Bool(false)
    else if i < |s| && StartsScalar(s[i]) && !StartsAt(s, i, "\"\"\"") && !StartsAt(s, i, "'''") then OtherScalar
    else NotOneLine
  }

  datatype Kind = Skip | Header(name: string) | Assign(key: string, value: Value) | Outside

  function Classify(line: string): Kind {
    var i := Span(IsBlank, line, 0);
    if EndsAt(line, i) then Skip
    else if line[i] == '[' then (if i == 0 then ClassifyHeader(line) else Outside)
    else ClassifyAssignment(line, i)
  }

  function ClassifyHeader(line: string): Kind
    requires line != ""
  {
    match ParseKey(line, Span(IsBlank, line, 1))
    case None => Outside
    case Some(key) =>
      var k := Span(IsBlank, line, key.end);
      if k < |line| && line[k] == ']' && EndsAt(line, k + 1) then Header(key.name) else Outside
  }

  function ClassifyAssignment(line: string, i: nat): Kind
    requires i <= |line|
  {
    match ParseKey(line, i)
    case None => Outside
    case Some(key) =>
      var eq := Span(IsBlank, line, key.end);
      if eq < |line| && line[eq] == '=' then
        var value := ParseValue(line, Span(IsBlank, line, eq + 1));
        if value.NotOneLine? then Outside else Assign(key.name, value)
      else Outside
  }

  /** A table: its keys, and what it sets `enabled` to. */
  datatype Table = Table(keys: set<string>, enabled: Option<Value>)

  /** A document read so far: the keys before any header, the tables, and the table being read. */
  datatype Doc = Doc(top: set<string>, tables: map<string, Table>, current: Option<string>) {
    predicate Valid() {
      current.Some? ==> current.value in tables
    }
  }

  const EMPTY_DOC := Doc({}, map[], None)

  /** A table or a key defined twice is not TOML. */
  function AddLine(doc: Doc, kind: Kind): (r: Option<Doc>)
    requires doc.Valid()
    ensures r.Some? ==> r.value.Valid()
  {
    match kind
    case Skip => Some(doc)
    case Outside => None
    case Header(name) =>
      if name in doc.tables || name in doc.top then None
      else Some(doc.(tables := doc.tables[name := Table({}, None)], current := Some(name)))
    case Assign(key, value) =>
      match doc.current
      case None => if key in doc.top then None else Some(doc.(top := doc.top + {key}))
      case Some(name) =>
        var table := doc.tables[name];
        if key in table.keys then None
        else Some(doc.(tables :=
          doc.tables[name := Table(table.keys + {key}, if key == "enabled" then Some(value) else table.enabled)]))
  }

  function LoadLines(lines: seq<string>): (r: Option<Doc>)
    ensures r.Some? ==> r.value.Valid()
  {
    if lines == [] then Some(EMPTY_DOC)
    else
      match LoadLines(lines[..|lines| - 1])
      case None => None
      case Some(doc) => AddLine(doc, Classify(lines[|lines| - 1]))
  }

  /** TOML knows no line break but '\n', and text is read with every '\r' translated. */
  predicate IsPlain(c: char) { (IsLineBreak(c) ==> c == '\n') && c != '\r' }

  predicate Plain(s: string) { forall i :: 0 <= i < |s| ==> IsPlain(s[i]) }

  function Load(text: string): (r: Option<Doc>)
    ensures r.Some? ==> r.value.Valid()
  {
    if Plain(text) then LoadLines(SplitLines(text)) else None
  }

  // The shape of a header line.

  /** `raw` spells the table name, bare or quoted. */
  ghost predicate Spells(raw: string, name: string) {
    || (raw == name && raw != "" && forall x :: 0 <= x < |raw| ==> IsBareKeyChar(raw[x]))
    || (raw == "\"" + name + "\"" && forall x :: 0 <= x < |name| ==> IsQuotedChar(name[x]))
  }

  lemma KeyShape(s: string, i: nat)
    requires i <= |s| && ParseKey(s, i).Some?
    ensures Spells(s[i..ParseKey(s, i).value.end], ParseKey(s, i).value.name)
  {
    SpanFacts(IsBareKeyChar, s, i);
    if Span(IsBareKeyChar, s, i) == i {
      var n := Span(IsQuotedChar, s, i + 1);
      SpanFacts(IsQuotedChar, s, i + 1);
      assert s[i..n + 1] == "\"" + s[i + 1..n] + "\"";
    }
  }

  /** A header of the grammar is an opening bracket, blanks, the spelled name, blanks and the closing bracket. */
  lemma HeaderShape(line: string) returns (i: nat, j: nat, k: nat)
    requires Classify(line).Header?
    ensures 1 <= i < j <= k < |line| && line[0] == '[' && line[k] == ']'
    ensures forall x :: 1 <= x < i || j <= x < k ==> IsBlank(line[x])
    ensures Spells(line[i..j], Classify(line).name)
  {
    i := Span(IsBlank, line, 1);
    j := ParseKey(line, i).value.end;
    k := Span(IsBlank, line, j);
    SpanFacts(IsBlank, line, 1);
    SpanFacts(IsBlank, line, j);
    KeyShape(line, i);
  }

  /** A line of the grammar that begins with a bracket is a header. */
  lemma BracketMeansHeader(line: string)
    requires line != "" && line[0] == '[' && !Classify(line).Outside?
    ensures Classify(line).Header?
  {
    SpanIs(IsBlank, line, 0, 0);
  }
}
