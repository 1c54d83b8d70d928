/**
 The lines the reader of `inference/backends.toml` takes for what they are: each kind of line of the grammar, put
 together from its parts, reads as that kind.
 */
module BackendsGrammar {
  import opened Wrappers
  import opened TextLines
  import opened BackendsToml

  predicate Blank(s: string) { forall x :: 0 <= x < |s| ==> s[x] == ' ' || s[x] == '\t' }

  /** Nothing, a comment, or the end of the line, perhaps behind blanks. */
  ghost predicate Ends(s: string) {
    exists i :: 0 <= i <= |s| && Blank(s[..i]) && (i == |s| || s[i] == '#' || s[i] == '\n')
  }

  lemma RunOfBlanks(s: string, i: nat, n: nat)
    requires i <= n <= |s| && Blank(s[i..n]) && (n < |s| ==> s[n] != ' ' && s[n] != '\t')
    ensures Span(IsBlank, s, i) == n
  {
    assert forall x :: i <= x < n ==> s[x] == s[i..n][x - i];
    SpanIs(IsBlank, s, i, n);
  }

  lemma EndsIsEndsAt(s: string, i: nat)
    requires i <= |s|
    ensures EndsAt(s, i) <==> Ends(s[i..])
  {
    var n := Span(IsBlank, s, i);
    SpanFacts(IsBlank, s, i);
    var tail := s[i..];
    assert forall x :: i <= x < |s| ==> s[x] == tail[x - i];
    if EndsAt(s, i) {
      assert Blank(tail[..n - i]) && (n - i == |tail| || tail[n - i] == '#' || tail[n - i] == '\n');
    }
    if Ends(tail) {
      var k :| 0 <= k <= |tail| && Blank(tail[..k]) && (k == |tail| || tail[k] == '#' || tail[k] == '\n');
      assert s[i..i + k] == tail[..k];
      RunOfBlanks(s, i, i + k);
    }
  }

  /** Blank and comment lines, and only these, say nothing. */
  lemma SkippedIff(line: string)
    ensures Classify(line) == Skip <==> Ends(line)
  {
    var i := Span(IsBlank, line, 0);
    SpanFacts(IsBlank, line, 0);
    SpanIs(IsBlank, line, i, i);
    EndsIsEndsAt(line, 0);
    assert line[0..] == line;
  }

  /** A bare name, or a quoted one, is read up to where it ends. */
  lemma SpelledKeyReads(s: string, i: nat, j: nat, name: string)
    requires i < j <= |s| && Spells(s[i..j], name) && (j < |s| ==> !IsBareKeyChar(s[j]))
    ensures ParseKey(s, i) == Some(Key(name, j))
  {
    var raw := s[i..j];
    assert forall x :: i <= x < j ==> s[x] == raw[x - i];
    if s[i] == '"' {
      assert raw[0] == '"' && raw == "\"" + name + "\"";
      assert raw[1..|raw| - 1] == name && raw[|raw| - 1] == '"';
      SpanIs(IsBareKeyChar, s, i, i);
      assert s[i + 1..j - 1] == name;
      assert forall x :: i + 1 <= x < j - 1 ==> s[x] == name[x - i - 1];
      SpanIs(IsQuotedChar, s, i + 1, j - 1);
    } else {
      assert raw[0] == s[i];
      SpanIs(IsBareKeyChar, s, i, j);
    }
  }

  /** The positions of a header's parts: blanks, the name, blanks and the closing bracket. */
  ghost predicate IsHeaderLine(line: string, i: nat, j: nat, k: nat, name: string) {
    && 1 <= i < j <= k < |line| && line[0] == '[' && line[k] == ']'
    && Blank(line[1..i]) && Spells(line[i..j], name) && Blank(line[j..k]) && Ends(line[k + 1..])
  }

  lemma SpellingStarts(raw: string, name: string)
    requires Spells(raw, name)
    ensures raw != "" && !IsBlank(raw[0]) && raw[0] != '#' && raw[0] != '\n'
  {
  }

  /** So written, a header is read as one, with this name. */
  lemma HeaderReads(line: string, i: nat, j: nat, k: nat, name: string)
    requires IsHeaderLine(line, i, j, k, name)
    ensures Classify(line) == Header(name)
  {
    SpellingStarts(line[i..j], name);
    assert line[i] == line[i..j][0];
    SpanIs(IsBlank, line, 0, 0);
    RunOfBlanks(line, 1, i);
    if j < k {
      assert line[j] == line[j..k][0];
    }
    SpelledKeyReads(line, i, j, name);
    RunOfBlanks(line, j, k);
    EndsIsEndsAt(line, k + 1);
  }

  /** The positions of an assignment's parts: blanks, the key, blanks, the equals sign, blanks and the value. */
  ghost predicate IsAssignLine(line: string, i: nat, j: nat, eq: nat, v: nat, key: string) {
    && i < j <= eq < v < |line| && line[eq] == '=' && !IsBlank(line[v])
    && Blank(line[..i]) && Spells(line[i..j], key) && Blank(line[j..eq]) && Blank(line[eq + 1..v])
  }

  lemma PartsOfAnAssignment(line: string, i: nat, j: nat, eq: nat, v: nat, key: string)
    requires IsAssignLine(line, i, j, eq, v, key)
    ensures ParseKey(line, i) == Some(Key(key, j)) && Span(IsBlank, line, j) == eq && Span(IsBlank, line, eq + 1) == v
  {
    if j < eq {
      assert line[j] == line[j..eq][0];
    }
    SpelledKeyReads(line, i, j, key);
    RunOfBlanks(line, j, eq);
    RunOfBlanks(line, eq + 1, v);
  }

  lemma AssignmentBegins(line: string, i: nat, j: nat, key: string)
    requires i < j <= |line| && Blank(line[..i]) && Spells(line[i..j], key)
    ensures Span(IsBlank, line, 0) == i && !EndsAt(line, i) && line[i] != '['
  {
    SpellingStarts(line[i..j], key);
    SpellingIsNoBracket(line[i..j], key);
    assert line[i] == line[i..j][0] && line[0..i] == line[..i];
    RunOfBlanks(line, 0, i);
    SpanIs(IsBlank, line, i, i);
  }

  /** So written, an assignment is read as one, of what its value reads as. */
  lemma AssignmentReads(line: string, i: nat, j: nat, eq: nat, v: nat, key: string)
    requires IsAssignLine(line, i, j, eq, v, key) && !ParseValue(line, v).NotOneLine?
    ensures Classify(line) == Assign(key, ParseValue(line, v))
  {
    AssignmentBegins(line, i, j, key);
    PartsOfAnAssignment(line, i, j, eq, v, key);
  }

  lemma SpellingIsNoBracket(raw: string, name: string)
    requires Spells(raw, name)
    ensures raw[0] != '['
  {
  }

  /** A boolean is the word, with nothing behind it but a comment. */
  lemma BooleanReads(s: string, v: nat, value: bool)
    requires v < |s|
    ensures var word := if value then "true" else "false";
            ParseValue(s, v) == Bool(value) <==> v + |word| <= |s| && s[v..v + |word|] == word && Ends(s[v + |word|..])
  {
    var word := if value then "true" else "false";
    if v + |word| <= |s| {
      EndsIsEndsAt(s, v + |word|);
    }
    if StartsAt(s, v, "true") {
      WordStarts(s, v, "true");
    }
    if StartsAt(s, v, "false") {
      WordStarts(s, v, "false");
    }
  }

  lemma WordStarts(s: string, v: nat, word: string)
    requires StartsAt(s, v, word) && word != ""
    ensures s[v] == word[0]
  {
    assert s[v..v + |word|][0] == word[0];
  }
}
