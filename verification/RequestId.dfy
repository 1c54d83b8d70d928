/**
 Request correlation ids (`api/middleware.py`): a ULID is 48 bits of millisecond time above 80 random bits,
 written as 26 Crockford base-32 digits, so that ids sort as text the way they sort in time.

 The clock and the random bits are inputs.
 */
module RequestId {
  import opened Wrappers
  import opened TextLines

  const ALPHABET: string := "0123456789ABCDEFGHJKMNPQRSTVWXYZ"

  const ULID_LENGTH := 26
  const REQUEST_ID_MAX_LENGTH := 128

  /** 2 to the 48th, the span of the timestamp, and 2 to the 80th, the span of the random bits. */
  const TIMESTAMP_SPAN: nat := 0x1_0000_0000_0000
  const RANDOM_SPAN: nat := 0x1_0000_0000_0000_0000_0000

  /** How many values `n` base-32 digits can write. */
  function DigitSpan(n: nat): nat {
    if n == 0 then 1 else 32 * DigitSpan(n - 1)
  }

  /** The low `n` base-32 digits of `value`, most significant first. */
  function Digits(value: nat, n: nat): string {
    if n == 0 then "" else Digits(value / 32, n - 1) + [ALPHABET[value % 32]]
  }

  /** The digit a character stands for. */
  function DigitOf(c: char): Option<nat> {
    DigitFrom(c, 0)
  }

  function DigitFrom(c: char, i: nat): (d: Option<nat>)
    requires i <= 32
    ensures d.Some? ==> i <= d.value < 32 && ALPHABET[d.value] == c
    decreases 32 - i
  {
    if i == 32 then None else if ALPHABET[i] == c then Some(i) else DigitFrom(c, i + 1)
  }

  /** Reading base-32 text back: the value, or nothing if a character is not a digit. */
  function Decode(s: string): Option<nat> {
    if s == "" then Some(0)
    else
      match (Decode(s[..|s| - 1]), DigitOf(s[|s| - 1]))
      case (Some(high), Some(low)) => Some(high * 32 + low)
      case _ => None
  }

  /** Text order, by character code from the first difference on. */
  predicate Before(a: string, b: string) {
    b != "" && (a == "" || a[0] < b[0] || (a[0] == b[0] && Before(a[1..], b[1..])))
  }

  /** The value an id is minted from. */
  function UlidValue(timestampMs: nat, randomBits: nat): nat {
    (timestampMs % TIMESTAMP_SPAN) * RANDOM_SPAN + randomBits
  }

  method GenerateRequestId(timestampMs: nat, randomBits: nat) returns (id: string)
    requires randomBits < RANDOM_SPAN
    ensures id == Digits(UlidValue(timestampMs, randomBits), ULID_LENGTH)
  {
    var value := UlidValue(timestampMs, randomBits);
    ghost var minted := value;
    var digits := new char[ULID_LENGTH](_ => '0');
    var index := ULID_LENGTH - 1;
    while index >= 0
      invariant -1 <= index < ULID_LENGTH && value >= 0
      invariant Digits(minted, ULID_LENGTH) == Digits(value, index + 1) + digits[index + 1..]
    {
      var remainder := value % 32;
      value := value / 32;
      digits[index] := ALPHABET[remainder];
      assert digits[index..] == [digits[index]] + digits[index + 1..];
      index := index - 1;
    }
    id := digits[..];
  }

  // The alphabet.

  lemma AlphabetAscends(i: nat, j: nat)
    requires i < j < 32
    ensures ALPHABET[i] < ALPHABET[j]
  {
    if i + 1 < j {
      AlphabetAscends(i, j - 1);
    }
    AlphabetSteps(j - 1);
  }

  lemma AlphabetSteps(i: nat)
    requires i < 31
    ensures ALPHABET[i] < ALPHABET[i + 1]
  {
  }

  lemma AlphabetIsSafe(i: nat)
    requires i < 32
    ensures '0' <= ALPHABET[i] <= '9' || 'A' <= ALPHABET[i] <= 'Z'
  {
  }

  lemma {:induction false} DigitFromFinds(i: nat, d: nat)
    requires i <= d < 32
    ensures DigitFrom(ALPHABET[d], i) == Some(d)
    decreases d - i
  {
    if i < d {
      AlphabetAscends(i, d);
      DigitFromFinds(i + 1, d);
    }
  }

  // Encoding and order.

  lemma {:induction false} DigitsLength(value: nat, n: nat)
    ensures |Digits(value, n)| == n
  {
    if n > 0 {
      DigitsLength(value / 32, n - 1);
    }
  }

  /** Decoding gives back the low digits' value, all of it when it fits. */
  lemma {:induction false} DecodeDigits(value: nat, n: nat)
    requires value < DigitSpan(n)
    ensures Decode(Digits(value, n)) == Some(value)
  {
    if n > 0 {
      DecodeDigits(value / 32, n - 1);
      DigitFromFinds(0, value % 32);
    }
  }

  /** Comparing one character further. */
  lemma {:induction false} BeforeAppend(a: string, b: string, x: char, y: char)
    requires |a| == |b|
    ensures Before(a + [x], b + [y]) <==> Before(a, b) || (a == b && x < y)
  {
    if a == "" {
      assert a + [x] == [x] && b + [y] == [y];
    } else {
      assert (a + [x])[1..] == a[1..] + [x] && (b + [y])[1..] == b[1..] + [y];
      BeforeAppend(a[1..], b[1..], x, y);
      assert a == [a[0]] + a[1..] && b == [b[0]] + b[1..];
    }
  }

  lemma AlphabetOrder(i: nat, j: nat)
    requires i < 32 && j < 32
    ensures ALPHABET[i] < ALPHABET[j] <==> i < j
  {
    if i < j {
      AlphabetAscends(i, j);
    } else if j < i {
      AlphabetAscends(j, i);
    }
  }

  lemma DigitsAreUnique(v: nat, w: nat, n: nat)
    requires v < DigitSpan(n) && w < DigitSpan(n)
    ensures Digits(v, n) == Digits(w, n) <==> v == w
  {
    DecodeDigits(v, n);
    DecodeDigits(w, n);
  }

  /** The high part decides, and only between equal high parts the low one. */
  lemma HighPartDecides(t: nat, r: nat, u: nat, s: nat, span: nat)
    requires r < span && s < span
    ensures t * span + r < u * span + s <==> t < u || (t == u && r < s)
  {
    if t < u {
      assert (t + 1) * span <= u * span;
    } else if u < t {
      assert (u + 1) * span <= t * span;
    }
  }

  /** Text order on ids of one length is the numeric order of their values. */
  lemma {:induction false} OrderOfDigits(v: nat, w: nat, n: nat)
    requires v < DigitSpan(n) && w < DigitSpan(n)
    ensures Before(Digits(v, n), Digits(w, n)) <==> v < w
  {
    if n > 0 {
      var v', w', x, y := v / 32, w / 32, v % 32, w % 32;
      OrderOfDigits(v', w', n - 1);
      DigitsAreUnique(v', w', n - 1);
      DigitsLength(v', n - 1);
      DigitsLength(w', n - 1);
      AlphabetOrder(x, y);
      HighPartDecides(v', x, w', y, 32);
      BeforeAppend(Digits(v', n - 1), Digits(w', n - 1), ALPHABET[x], ALPHABET[y]);
    }
  }

  lemma {:induction false} SpanOfSum(m: nat, n: nat)
    ensures DigitSpan(m + n) == DigitSpan(m) * DigitSpan(n)
  {
    if m > 0 {
      SpanOfSum(m - 1, n);
      calc {
        DigitSpan(m + n);
        32 * (DigitSpan(m - 1) * DigitSpan(n));
        (32 * DigitSpan(m - 1)) * DigitSpan(n);
        DigitSpan(m) * DigitSpan(n);
      }
    }
  }

  lemma UlidSpan()
    ensures DigitSpan(ULID_LENGTH) == 4 * TIMESTAMP_SPAN * RANDOM_SPAN
  {
    assert DigitSpan(4) == 0x10_0000;
    SpanOfSum(4, 4);
    SpanOfSum(8, 8);
    assert DigitSpan(8) == 0x100_0000_0000 && DigitSpan(16) == RANDOM_SPAN;
    assert DigitSpan(2) == 0x400;
    SpanOfSum(8, 2);
    assert DigitSpan(10) == 4 * TIMESTAMP_SPAN;
    SpanOfSum(10, 16);
  }

  lemma UlidFits(timestampMs: nat, randomBits: nat)
    requires randomBits < RANDOM_SPAN
    ensures UlidValue(timestampMs, randomBits) < DigitSpan(ULID_LENGTH)
  {
    UlidSpan();
    var high := timestampMs % TIMESTAMP_SPAN;
    assert high * RANDOM_SPAN <= (TIMESTAMP_SPAN - 1) * RANDOM_SPAN;
  }

  /** The id minted from a time and random bits. */
  function Ulid(timestampMs: nat, randomBits: nat): string {
    Digits(UlidValue(timestampMs, randomBits), ULID_LENGTH)
  }

  /** A minted id is 26 characters and decodes back to the value it was minted from. */
  lemma MintedIdDecodes(timestampMs: nat, randomBits: nat)
    requires randomBits < RANDOM_SPAN
    ensures |Ulid(timestampMs, randomBits)| == ULID_LENGTH
    ensures Decode(Ulid(timestampMs, randomBits)) == Some(UlidValue(timestampMs, randomBits))
  {
    UlidFits(timestampMs, randomBits);
    DigitsLength(UlidValue(timestampMs, randomBits), ULID_LENGTH);
    DecodeDigits(UlidValue(timestampMs, randomBits), ULID_LENGTH);
  }

  lemma ValuesSortByTime(t: nat, r: nat, u: nat, s: nat)
    requires r < RANDOM_SPAN && s < RANDOM_SPAN
    ensures UlidValue(t, r) < UlidValue(u, s) <==>
            t % TIMESTAMP_SPAN < u % TIMESTAMP_SPAN || (t % TIMESTAMP_SPAN == u % TIMESTAMP_SPAN && r < s)
  {
    HighPartDecides(t % TIMESTAMP_SPAN, r, u % TIMESTAMP_SPAN, s, RANDOM_SPAN);
  }

  /** Ids sort as text by their 48-bit millisecond first, whatever the random bits, and then by these. */
  lemma MintedIdsSortByTime(t: nat, r: nat, u: nat, s: nat)
    requires r < RANDOM_SPAN && s < RANDOM_SPAN
    ensures Before(Ulid(t, r), Ulid(u, s)) <==>
            t % TIMESTAMP_SPAN < u % TIMESTAMP_SPAN || (t % TIMESTAMP_SPAN == u % TIMESTAMP_SPAN && r < s)
  {
    UlidFits(t, r);
    UlidFits(u, s);
    ValuesSortByTime(t, r, u, s);
    OrderOfDigits(UlidValue(t, r), UlidValue(u, s), ULID_LENGTH);
  }

  // Inbound ids.

  predicate IsIdChar(c: char) {
    'A' <= c <= 'Z' || 'a' <= c <= 'z' || '0' <= c <= '9' || c == '_' || c == '-'
  }

  predicate IsValidRequestId(candidate: string) {
    0 < |candidate| <= REQUEST_ID_MAX_LENGTH && forall i :: 0 <= i < |candidate| ==> IsIdChar(candidate[i])
  }

  /** `str.strip` on text decoded from Latin-1. */
  predicate IsLatinSpace(c: char) {
    '\t' <= c <= '\r' || '\U{1C}' <= c <= ' ' || c == '\U{85}' || c == '\U{A0}'
  }

  datatype HttpHeader = HttpHeader(name: string, value: string)

  const REQUEST_ID_HEADER := "x-request-id"

  /** The id to use: the first request-id header's, if that one is valid; no later header is looked at. */
  function Inbound(headers: seq<HttpHeader>): Option<string> {
    if headers == [] then None
    else if headers[0].name == REQUEST_ID_HEADER then
      if IsValidRequestId(Strip(IsLatinSpace, headers[0].value)) then Some(Strip(IsLatinSpace, headers[0].value))
        else None
    else Inbound(headers[1..])
  }

  /** The first of the headers that carries a request id. */
  ghost predicate FirstIdHeader(headers: seq<HttpHeader>, i: int) {
    && 0 <= i < |headers| && headers[i].name == "x-request-id"
    && forall j :: 0 <= j < i ==> headers[j].name != "x-request-id"
  }

  /** Only the first request-id header is looked at, wherever it stands: it decides, valid or not. */
  lemma {:induction false} FirstIdHeaderDecides(headers: seq<HttpHeader>, i: int)
    requires FirstIdHeader(headers, i)
    ensures Inbound(headers) ==
            var id := Strip(IsLatinSpace, headers[i].value); if IsValidRequestId(id) then Some(id) else None
    decreases i
  {
    if i > 0 {
      assert FirstIdHeader(headers[1..], i - 1);
      FirstIdHeaderDecides(headers[1..], i - 1);
    }
  }

  lemma {:induction false} NoIdHeader(headers: seq<HttpHeader>)
    requires forall j :: 0 <= j < |headers| ==> headers[j].name != "x-request-id"
    ensures Inbound(headers) == None
  {
    if headers != [] {
      NoIdHeader(headers[1..]);
    }
  }

  /** White space of Latin-1 around an id does not matter. */
  lemma PaddedIdIsTaken(id: string, before: string, after: string)
    requires IsValidRequestId(id)
    requires forall c :: c in before || c in after ==>
               c in {'\t', '\n', '\U{0B}', '\U{0C}', '\r', ' ', '\U{A0}'}
               || c in {'\U{1C}', '\U{1D}', '\U{1E}', '\U{1F}', '\U{85}'}
    ensures Inbound([HttpHeader("x-request-id", before + id + after)]) == Some(id)
  {
    var value := before + id + after;
    forall x | 0 <= x < |before| || |before| + |id| <= x < |value| ensures IsLatinSpace(value[x]) {
      assert value[x] == if x < |before| then before[x] else after[x - |before| - |id|];
      assert value[x] in before || value[x] in after;
    }
    assert value[|before|] == id[0] && value[|before| + |id| - 1] == id[|id| - 1];
    assert value[|before|..|before| + |id|] == id;
    StripIs(IsLatinSpace, value, |before|, |before| + |id|);
    assert FirstIdHeader([HttpHeader("x-request-id", value)], 0);
  }

  /** ULIDs and UUIDs are valid: letters of either case, digits, dashes and underscores, up to 128. */
  lemma CommonIdsAreValid(id: string)
    requires 1 <= |id| <= 128
    requires forall i :: 0 <= i < |id| ==>
               ('0' <= id[i] <= '9' || 'A' <= id[i] <= 'Z' || 'a' <= id[i] <= 'z' || id[i] == '-' || id[i] == '_')
    ensures IsValidRequestId(id)
  {
  }

  /** Nothing that could end a header or break out of a log line is in a valid id, and it is short. */
  lemma ValidIdIsInert(id: string)
    requires IsValidRequestId(id)
    ensures 1 <= |id| <= 128
    ensures forall c :: c in id ==>
            '-' <= c <= 'z' && c !in {'.', '/', ':', ';', '<', '=', '>', '?', '@', '[', '\\', ']', '^', '`'}
  {
  }

  /** Whatever a client sends, the id in use is a valid one. */
  method ResolveRequestId(headers: seq<HttpHeader>, timestampMs: nat, randomBits: nat) returns (id: string)
    requires randomBits < RANDOM_SPAN
    ensures id == if Inbound(headers).Some? then Inbound(headers).value else Ulid(timestampMs, randomBits)
    ensures IsValidRequestId(id)
  {
    var i := 0;
    assert headers[0..] == headers;
    while i < |headers|
      invariant 0 <= i <= |headers| && Inbound(headers) == Inbound(headers[i..])
    {
      assert headers[i..][1..] == headers[i + 1..];
      if headers[i].name == REQUEST_ID_HEADER {
        var candidate := Strip(IsLatinSpace, headers[i].value);
        if IsValidRequestId(candidate) {
          return candidate;
        }
        break;
      }
      i := i + 1;
    }
    id := GenerateRequestId(timestampMs, randomBits);
    MintedIdIsAccepted(timestampMs, randomBits);
  }

  lemma {:induction false} DigitsAreSafe(value: nat, n: nat)
    ensures forall i :: 0 <= i < |Digits(value, n)| ==> IsIdChar(Digits(value, n)[i])
  {
    if n > 0 {
      DigitsAreSafe(value / 32, n - 1);
      AlphabetIsSafe(value % 32);
    }
  }

  /** A minted id passes the inbound check, and sent back in a header it is taken up unchanged. */
  lemma MintedIdIsAccepted(timestampMs: nat, randomBits: nat)
    requires randomBits < RANDOM_SPAN
    ensures IsValidRequestId(Ulid(timestampMs, randomBits))
    ensures Inbound([HttpHeader(REQUEST_ID_HEADER, Ulid(timestampMs, randomBits))])
            == Some(Ulid(timestampMs, randomBits))
  {
    MintedIdDecodes(timestampMs, randomBits);
    DigitsAreSafe(UlidValue(timestampMs, randomBits), ULID_LENGTH);
    var id := Ulid(timestampMs, randomBits);
    StripIs(IsLatinSpace, id, 0, |id|);
  }
}
