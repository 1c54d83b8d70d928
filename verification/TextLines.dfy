/** Python text operations: prefixes and suffixes, reading a file as text, splitting lines, stripping. */
module TextLines {

  /** What `str.splitlines` breaks a line at; '\r' never reaches it, since text is read with newlines translated. */
  predicate IsLineBreak(c: char) {
    || c == '\n' || c == '\U{0B}' || c == '\U{0C}' || c == '\U{1C}' || c == '\U{1D}' || c == '\U{1E}'
    || c == '\U{85}' || c == '\U{2028}' || c == '\U{2029}'
  }

  /** `str.isspace`, which `str.strip` and the regex class `\s` share. */
  predicate IsSpace(c: char) {
    || IsLineBreak(c) || c == '\t' || c == '\r' || c == '\U{1F}' || c == ' ' || c == '\U{A0}' || c == '\U{1680}'
    || '\U{2000}' <= c <= '\U{200A}' || c == '\U{202F}' || c == '\U{205F}' || c == '\U{3000}'
  }

  predicate StartsWith(s: string, prefix: string) { |prefix| <= |s| && s[..|prefix|] == prefix }

  predicate EndsWith(s: string, suffix: string) { |suffix| <= |s| && s[|s| - |suffix|..] == suffix }

  /** Universal newlines: both a return with a line feed and a lone return become a line feed. */
  function Translated<T(==)>(s: seq<T>, cr: T, lf: T): seq<T> {
    if s == [] then []
    else if s[0] == cr then [lf] + Translated(if |s| > 1 && s[1] == lf then s[2..] else s[1..], cr, lf)
    else [s[0]] + Translated(s[1..], cr, lf)
  }

  /** Text without a return is read as it is, and no other text is. */
  lemma {:induction false} TranslationKeepsIff<T>(s: seq<T>, cr: T, lf: T)
    requires cr != lf
    ensures cr !in Translated(s, cr, lf)
    ensures Translated(s, cr, lf) == s <==> cr !in s
  {
    if s != [] {
      assert s == [s[0]] + s[1..];
      if s[0] == cr {
        TranslationKeepsIff(if |s| > 1 && s[1] == lf then s[2..] else s[1..], cr, lf);
        assert Translated(s, cr, lf)[0] == lf;
      } else {
        TranslationKeepsIff(s[1..], cr, lf);
        assert Translated(s, cr, lf)[1..] == Translated(s[1..], cr, lf);
      }
    }
  }

  /** What is translated is each line end on its own, a return and a line feed together being one. */
  lemma {:induction false} TranslationOfConcat<T>(a: seq<T>, b: seq<T>, cr: T, lf: T)
    requires cr != lf && (a != [] && b != [] ==> !(a[|a| - 1] == cr && b[0] == lf))
    ensures Translated(a + b, cr, lf) == Translated(a, cr, lf) + Translated(b, cr, lf)
    decreases |a|
  {
    if a == [] {
      assert a + b == b;
    } else {
      var k := if a[0] == cr && |a| > 1 && a[1] == lf then 2 else 1;
      assert (a + b)[k..] == a[k..] + b;
      assert |a| == 1 && a[0] == cr && b != [] ==> (a + b)[1] != lf;
      TranslationOfConcat(a[k..], b, cr, lf);
    }
  }

  lemma TranslationOfEnds<T>(x: T, cr: T, lf: T)
    requires cr != lf
    ensures Translated([cr, lf], cr, lf) == Translated([cr], cr, lf) == [lf]
    ensures x != cr ==> Translated([x], cr, lf) == [x]
  {
    assert [cr, lf][2..] == [] && [cr][1..] == [] && [x][1..] == [];
  }

  /** `read_text` */
  function ReadText(content: string): string { Translated(content, '\r', '\n') }

  /** `splitlines(keepends=True)` */
  function SplitLines(text: string): seq<string> {
    if text == "" then []
    else
      var rest := SplitLines(text[1..]);
      if IsLineBreak(text[0]) || rest == [] then [[text[0]]] + rest
      else [[text[0]] + rest[0]] + rest[1..]
  }

  function Concat(lines: seq<string>): string {
    if lines == [] then "" else lines[0] + Concat(lines[1..])
  }

  lemma {:induction false} ConcatAppend(a: seq<string>, b: seq<string>)
    ensures Concat(a + b) == Concat(a) + Concat(b)
  {
    if a == [] {
      assert a + b == b;
    } else {
      assert (a + b)[0] == a[0] && (a + b)[1..] == a[1..] + b;
      ConcatAppend(a[1..], b);
    }
  }

  predicate Complete(line: string) {
    line != "" && IsLineBreak(line[|line| - 1]) && forall j :: 0 <= j < |line| - 1 ==> !IsLineBreak(line[j])
  }

  predicate Unbroken(line: string) {
    line != "" && forall j :: 0 <= j < |line| ==> !IsLineBreak(line[j])
  }

  /** Lines a text splits into: each ends at its only break, and only the last may lack one. */
  predicate ProperLines(lines: seq<string>) {
    lines == [] || (|lines| == 1 && Unbroken(lines[0])) || (Complete(lines[0]) && ProperLines(lines[1..]))
  }

  lemma {:induction false} SplitIsProper(text: string)
    ensures ProperLines(SplitLines(text)) && Concat(SplitLines(text)) == text
  {
    if text != "" {
      SplitIsProper(text[1..]);
      var rest := SplitLines(text[1..]);
      var lines := SplitLines(text);
      assert text == [text[0]] + text[1..];
      assert lines[1..] == if IsLineBreak(text[0]) || rest == [] then rest else rest[1..];
      if !IsLineBreak(text[0]) && rest != [] {
        assert forall j :: 1 <= j < |lines[0]| ==> lines[0][j] == rest[0][j - 1];
      }
    }
  }

  lemma {:induction false} SplitFirstLine(line: string, text: string)
    requires Complete(line) || (Unbroken(line) && text == "")
    ensures SplitLines(line + text) == [line] + SplitLines(text)
  {
    assert (line + text)[1..] == line[1..] + text;
    if |line| > 1 {
      SplitFirstLine(line[1..], text);
      assert line == [line[0]] + line[1..];
    } else {
      assert line + text == [line[0]] + text;
      assert line == [line[0]];
    }
  }

  /** Splitting is the inverse of joining proper lines. */
  lemma {:induction false} SplitOfConcat(lines: seq<string>)
    requires ProperLines(lines)
    ensures SplitLines(Concat(lines)) == lines
  {
    if lines != [] {
      assert lines == [lines[0]] + lines[1..];
      if |lines| == 1 && Unbroken(lines[0]) {
        assert Concat(lines[1..]) == "";
      } else {
        SplitOfConcat(lines[1..]);
      }
      SplitFirstLine(lines[0], Concat(lines[1..]));
    }
  }

  /** Where the run of characters satisfying `p` that starts at `i` ends. */
  function Span(p: char -> bool, s: string, i: nat): (n: nat)
    requires i <= |s|
    ensures i <= n <= |s|
    decreases |s| - i
  {
    if i < |s| && p(s[i]) then Span(p, s, i + 1) else i
  }

  lemma {:induction false} SpanFacts(p: char -> bool, s: string, i: nat)
    requires i <= |s|
    ensures var n := Span(p, s, i); (n < |s| ==> !p(s[n])) && forall x :: i <= x < n ==> p(s[x])
    decreases |s| - i
  {
    if i < |s| && p(s[i]) {
      SpanFacts(p, s, i + 1);
    }
  }

  lemma {:induction false} SpanIs(p: char -> bool, s: string, i: nat, n: nat)
    requires i <= n <= |s| && (n < |s| ==> !p(s[n])) && forall x :: i <= x < n ==> p(s[x])
    ensures Span(p, s, i) == n
    decreases n - i
  {
    if i < n {
      SpanIs(p, s, i + 1, n);
    }
  }

  function TrimEnd(p: char -> bool, s: string): string {
    if s != "" && p(s[|s| - 1]) then TrimEnd(p, s[..|s| - 1]) else s
  }

  /** `str.strip` with the characters satisfying `p`. */
  function Strip(p: char -> bool, s: string): string {
    TrimEnd(p, s[Span(p, s, 0)..])
  }

  lemma {:induction false} TrimEndIs(p: char -> bool, s: string, n: nat)
    requires n <= |s| && (n > 0 ==> !p(s[n - 1])) && forall x :: n <= x < |s| ==> p(s[x])
    ensures TrimEnd(p, s) == s[..n]
  {
    if n < |s| {
      TrimEndIs(p, s[..|s| - 1], n);
    }
  }

  lemma StripIs(p: char -> bool, s: string, i: nat, j: nat)
    requires i < j <= |s| && !p(s[i]) && !p(s[j - 1])
    requires forall x :: 0 <= x < i || j <= x < |s| ==> p(s[x])
    ensures Strip(p, s) == s[i..j]
  {
    SpanIs(p, s, 0, i);
    TrimEndIs(p, s[i..], j - i);
  }

  lemma StripAll(p: char -> bool, s: string)
    requires forall x :: 0 <= x < |s| ==> p(s[x])
    ensures Strip(p, s) == ""
  {
    SpanIs(p, s, 0, |s|);
    assert s[|s|..] == "";
  }

  lemma SliceOfSlice(s: string, a: nat, i: nat, j: nat, b: nat)
    requires a <= i <= j <= b <= |s|
    ensures s[a..b][i - a..j - a] == s[i..j]
  {
    assert forall x :: 0 <= x < j - i ==> s[a..b][i - a..j - a][x] == s[i..j][x];
  }
}
