/** URL path canonicalization (`pmiri/network.py`): percent-encoding
    normalization, sections 6.2.2.1 and 6.2.2.2 of RFC 3986, followed by dot
    segment removal, section 5.2.4 of RFC 3986.

    The two loops of the program are the methods `CanonicalizePercentEncoding`
    and `RemoveDotSegments`.  Each is proved against an independent reading: the
    percent pass against parsing the text into tokens and spelling the tokens
    back, the dot pass against the string-buffer algorithm of the RFC. */
module PathNormalization {
  import opened Ordering

  datatype Error = MalformedPercentEncoding | EncodedDelimiterForbidden

  // ----- percent-encoding: what a text means

  predicate Unreserved(c: char) {
    'A' <= c <= 'Z' || 'a' <= c <= 'z' || '0' <= c <= '9' || c in "-._~"
  }

  predicate Hex(c: char) { '0' <= c <= '9' || 'a' <= c <= 'f' || 'A' <= c <= 'F' }

  function HexValue(c: char): (n: nat)
    requires Hex(c)
    ensures n < 16
  {
    if c <= '9' then (c as int) - ('0' as int)
    else if c <= 'F' then (c as int) - ('A' as int) + 10
    else (c as int) - ('a' as int) + 10
  }

  /** Upper-case hexadecimal digit. */
  function HexDigit(n: nat): (c: char)
    requires n < 16
    ensures Hex(c) && HexValue(c) == n && !('a' <= c <= 'f')
  {
    if n < 10 then (n + '0' as int) as char else (n - 10 + 'A' as int) as char
  }

  function Upper(c: char): char
    requires Hex(c)
  {
    if 'a' <= c <= 'f' then ((c as int) - 32) as char else c
  }

  /** One unit of meaning: a character standing for itself, or an octet that only
      has an encoded spelling. */
  datatype Token = Plain(c: char) | Octet(n: nat)

  predicate LegalToken(t: Token) {
    match t
    case Plain(c) => c != '%'
    case Octet(n) => n < 256 && n != 0x2F && n != 0x5C && !Unreserved(n as char)
  }

  predicate Legal(ts: seq<Token>) { forall i :: 0 <= i < |ts| ==> LegalToken(ts[i]) }

  function Prepend(t: Token, r: Result<seq<Token>, Error>): Result<seq<Token>, Error> {
    match r
    case Ok(ts) => Ok([t] + ts)
    case Err(e) => Err(e)
  }

  function OctetAt(s: string): (n: nat)
    requires |s| > 2 && Hex(s[1]) && Hex(s[2])
    ensures n < 256
  {
    16 * HexValue(s[1]) + HexValue(s[2])
  }

  /** The meaning of a text; an unreserved octet means its character. */
  function Parse(s: string): Result<seq<Token>, Error> {
    if s == "" then Ok([])
    else if s[0] != '%' then Prepend(Plain(s[0]), Parse(s[1..]))
    else if |s| <= 2 || !Hex(s[1]) || !Hex(s[2]) then Err(MalformedPercentEncoding)
    else
      var n := OctetAt(s);
      if n == 0x2F || n == 0x5C then Err(EncodedDelimiterForbidden)
      else Prepend(if Unreserved(n as char) then Plain(n as char) else Octet(n), Parse(s[3..]))
  }

  function SpellToken(t: Token): string
    requires LegalToken(t)
  {
    match t
    case Plain(c) => [c]
    case Octet(n) => ['%', HexDigit(n / 16), HexDigit(n % 16)]
  }

  /** The one canonical spelling of a meaning. */
  function Spell(ts: seq<Token>): string
    requires Legal(ts)
  {
    if ts == [] then "" else SpellToken(ts[0]) + Spell(ts[1..])
  }

  lemma {:induction false} ParseLegal(s: string)
    ensures Parse(s).Ok? ==> Legal(Parse(s).value)
  {
    if s != "" {
      if s[0] != '%' { ParseLegal(s[1..]); }
      else if |s| > 2 { ParseLegal(s[3..]); }
    }
  }

  function Canonicalize(s: string): Result<string, Error> {
    ParseLegal(s);
    match Parse(s)
    case Ok(ts) => Ok(Spell(ts))
    case Err(e) => Err(e)
  }

  lemma {:induction false} SpellAppend(a: seq<Token>, b: seq<Token>)
    requires Legal(a) && Legal(b)
    ensures Legal(a + b) && Spell(a + b) == Spell(a) + Spell(b)
  {
    if a == [] {
      assert a + b == b;
    } else {
      var ab := a + b;
      assert ab[0] == a[0] && ab[1..] == a[1..] + b;
      assert forall i :: 0 <= i < |ab| ==> LegalToken(ab[i]);
      SpellAppend(a[1..], b);
    }
  }

  /** Spelling a meaning and reading it back returns the meaning. */
  lemma {:induction false} ParseSpell(ts: seq<Token>)
    requires Legal(ts)
    ensures Parse(Spell(ts)) == Ok(ts)
  {
    if ts != [] {
      ParseSpell(ts[1..]);
      var h, rest := SpellToken(ts[0]), Spell(ts[1..]);
      var s := h + rest;
      assert s[|h|..] == rest;
      assert ts == [ts[0]] + ts[1..];
      if ts[0].Octet? {
        var n := ts[0].n;
        assert s[0] == '%' && s[1] == HexDigit(n / 16) && s[2] == HexDigit(n % 16);
        assert OctetAt(s) == n;
      }
    }
  }

  /** The percent pass keeps the meaning, two accepted texts get one spelling
      exactly when they mean the same, and a second pass changes nothing. */
  lemma PercentPassIsCanonical(s: string, t: string)
    requires Canonicalize(s).Ok? && Canonicalize(t).Ok?
    ensures Parse(Canonicalize(s).value) == Parse(s)
    ensures Canonicalize(s) == Canonicalize(t) <==> Parse(s) == Parse(t)
    ensures Canonicalize(Canonicalize(s).value) == Canonicalize(s)
  {
    ParseLegal(s);
    ParseLegal(t);
    ParseSpell(Parse(s).value);
    ParseSpell(Parse(t).value);
  }

  lemma OctetDigits(high: nat, low: nat)
    requires high < 16 && low < 16
    ensures (16 * high + low) / 16 == high && (16 * high + low) % 16 == low
  {
  }

  lemma UpperIsCanonicalDigit(c: char)
    requires Hex(c)
    ensures Upper(c) == HexDigit(HexValue(c))
  {
  }

  function Resume(done: seq<Token>, r: Result<seq<Token>, Error>): Result<seq<Token>, Error> {
    match r
    case Ok(ts) => Ok(done + ts)
    case Err(e) => Err(e)
  }

  lemma PassStep(done: seq<Token>, token: Token, rest: Result<seq<Token>, Error>)
    requires Legal(done) && LegalToken(token)
    ensures Legal(done + [token]) && Spell(done + [token]) == Spell(done) + SpellToken(token)
    ensures Resume(done, Prepend(token, rest)) == Resume(done + [token], rest)
  {
    assert Spell([token]) == SpellToken(token) + Spell([]);
    SpellAppend(done, [token]);
    if rest.Ok? { assert done + ([token] + rest.value) == done + [token] + rest.value; }
  }

  /** The token at the head of a triplet and what the program writes for it. */
  function TripletToken(s: string): Token
    requires |s| > 2 && Hex(s[1]) && Hex(s[2])
  {
    var n := OctetAt(s);
    if Unreserved(n as char) then Plain(n as char) else Octet(n)
  }

  lemma TripletSpelling(s: string)
    requires |s| > 2 && s[0] == '%' && Hex(s[1]) && Hex(s[2])
    requires OctetAt(s) != 0x2F && OctetAt(s) != 0x5C
    ensures Parse(s) == Prepend(TripletToken(s), Parse(s[3..]))
    ensures LegalToken(TripletToken(s))
    ensures SpellToken(TripletToken(s)) ==
            if Unreserved(OctetAt(s) as char) then [OctetAt(s) as char] else ['%', Upper(s[1]), Upper(s[2])]
  {
    UpperIsCanonicalDigit(s[1]);
    UpperIsCanonicalDigit(s[2]);
    OctetDigits(HexValue(s[1]), HexValue(s[2]));
  }

  /** `_canonicalize_percent_encoding`. */
  method CanonicalizePercentEncoding(value: string) returns (r: Result<string, Error>)
    ensures r == Canonicalize(value)
  {
    var output := "";
    var index := 0;
    ghost var done: seq<Token> := [];
    assert value[0..] == value;
    assert Parse(value).Ok? ==> [] + Parse(value).value == Parse(value).value;
    while index < |value|
      invariant 0 <= index <= |value|
      invariant Legal(done) && output == Spell(done)
      invariant Parse(value) == Resume(done, Parse(value[index..]))
    {
      var character := value[index];
      if character != '%' {
        assert value[index..][1..] == value[index + 1..];
        PassStep(done, Plain(character), Parse(value[index + 1..]));
        done := done + [Plain(character)];
        output := output + [character];
        index := index + 1;
        continue;
      }
      if index + 2 >= |value| || !Hex(value[index + 1]) || !Hex(value[index + 2]) {
        return Err(MalformedPercentEncoding);
      }
      var byte := 16 * HexValue(value[index + 1]) + HexValue(value[index + 2]);
      assert byte == OctetAt(value[index..]);
      if byte in {0x2F, 0x5C} {
        return Err(EncodedDelimiterForbidden);
      }
      assert value[index..][3..] == value[index + 3..];
      TripletSpelling(value[index..]);
      PassStep(done, TripletToken(value[index..]), Parse(value[index + 3..]));
      done := done + [TripletToken(value[index..])];
      var decoded := byte as char;
      output := output +
        if Unreserved(decoded) then [decoded] else ['%', Upper(value[index + 1]), Upper(value[index + 2])];
      index := index + 3;
    }
    assert value[index..] == "" && done + [] == done;
    return Ok(output);
  }

  // ----- percent-canonical texts, position by position

  predicate TripletAt(s: string, i: nat)
    requires i < |s|
  {
    && i + 2 < |s| && Hex(s[i + 1]) && Hex(s[i + 2])
    && !('a' <= s[i + 1] <= 'f') && !('a' <= s[i + 2] <= 'f')
    && LegalToken(Octet(OctetAt(s[i..])))
  }

  /** Every '%' starts an upper-case triplet that has no plain spelling. */
  predicate PercentCanonical(s: string) {
    forall i: nat :: i < |s| && s[i] == '%' ==> TripletAt(s, i)
  }

  lemma PercentCanonicalSuffix(s: string, k: nat)
    requires PercentCanonical(s) && k <= |s|
    ensures PercentCanonical(s[k..])
  {
    forall i: nat | i < |s[k..]| && s[k..][i] == '%' ensures TripletAt(s[k..], i) {
      assert TripletAt(s, k + i);
      assert s[k..][i..] == s[k + i..];
    }
  }

  lemma PercentCanonicalConcat(a: string, b: string)
    requires PercentCanonical(a) && PercentCanonical(b)
    ensures PercentCanonical(a + b)
  {
    var s := a + b;
    forall i: nat | i < |s| && s[i] == '%' ensures TripletAt(s, i) {
      if i < |a| {
        assert TripletAt(a, i);
        assert s[i + 1] == a[i + 1] && s[i + 2] == a[i + 2];
        assert OctetAt(s[i..]) == OctetAt(a[i..]);
      } else {
        assert TripletAt(b, i - |a|);
        assert s[i..] == b[i - |a|..];
      }
    }
  }

  /** A "/" never falls inside a triplet, so cutting there keeps triplets whole. */
  lemma PercentCanonicalCut(s: string, k: nat)
    requires PercentCanonical(s) && k <= |s|
    requires k == |s| || s[k] == '/'
    ensures PercentCanonical(s[..k])
  {
    forall i: nat | i < k && s[..k][i] == '%' ensures TripletAt(s[..k], i) {
      assert TripletAt(s, i);
      assert OctetAt(s[..k][i..]) == OctetAt(s[i..]);
    }
  }

  lemma {:induction false} SpellIsPercentCanonical(ts: seq<Token>)
    requires Legal(ts)
    ensures PercentCanonical(Spell(ts))
  {
    if ts != [] {
      SpellIsPercentCanonical(ts[1..]);
      var h := SpellToken(ts[0]);
      if ts[0].Octet? {
        assert OctetAt(h) == ts[0].n;
        assert h[0..] == h;
        assert TripletAt(h, 0);
      }
      PercentCanonicalConcat(h, Spell(ts[1..]));
    }
  }

  /** The texts the percent pass returns unchanged are the percent-canonical ones. */
  lemma {:induction false} PercentFixpoint(s: string)
    ensures Canonicalize(s) == Ok(s) <==> PercentCanonical(s)
  {
    ParseLegal(s);
    if Canonicalize(s) == Ok(s) { SpellIsPercentCanonical(Parse(s).value); }
    if PercentCanonical(s) { PercentCanonicalUnchanged(s); }
  }

  lemma {:induction false} PercentCanonicalUnchanged(s: string)
    requires PercentCanonical(s)
    ensures Canonicalize(s) == Ok(s)
  {
    ParseLegal(s);
    if s != "" {
      if s[0] != '%' {
        PercentCanonicalSuffix(s, 1);
        PercentCanonicalUnchanged(s[1..]);
        assert s == [s[0]] + s[1..];
      } else {
        assert TripletAt(s, 0) && s[0..] == s;
        PercentCanonicalSuffix(s, 3);
        PercentCanonicalUnchanged(s[3..]);
        TripletSpelling(s);
        assert s == ['%', s[1], s[2]] + s[3..];
      }
    }
  }

  // ----- which texts are accepted, and what becomes of their octets

  /** The unreserved characters of section 2.3 of RFC 3986: the ranges with both ends
      in and both neighbours out, and four marks. */
  lemma UnreservedCharacters()
    ensures Unreserved('A') && Unreserved('Z') && !Unreserved('@') && !Unreserved('[')
    ensures Unreserved('a') && Unreserved('z') && !Unreserved('`') && !Unreserved('{')
    ensures Unreserved('0') && Unreserved('9') && !Unreserved('/') && !Unreserved(':')
    ensures Unreserved('-') && Unreserved('.') && Unreserved('_') && Unreserved('~')
    ensures forall c :: Unreserved(c) && !('A' <= c <= 'Z') && !('a' <= c <= 'z') && !('0' <= c <= '9') ==>
              c == '-' || c == '.' || c == '_' || c == '~'
    ensures forall c :: 'A' <= c <= 'Z' || 'a' <= c <= 'z' || '0' <= c <= '9' ==> Unreserved(c)
  {
  }

  lemma HexDigits(n: nat)
    requires n < 16
    ensures HexDigit(n) == "0123456789ABCDEF"[n]
    ensures Hex("0123456789abcdef"[n]) && HexValue("0123456789abcdef"[n]) == n
    ensures Hex("0123456789ABCDEF"[n]) && HexValue("0123456789ABCDEF"[n]) == n
  {
  }

  /** A '%' followed by two hexadecimal digits. */
  predicate Shaped(s: string, i: nat) { i + 2 < |s| && s[i] == '%' && Hex(s[i + 1]) && Hex(s[i + 2]) }

  /** A '%' that starts a triplet standing for neither "/" nor "\\". */
  predicate GoodPercent(s: string, i: nat) {
    Shaped(s, i) && 16 * HexValue(s[i + 1]) + HexValue(s[i + 2]) !in {0x2F, 0x5C}
  }

  predicate AllGood(s: string) { forall i: nat :: i < |s| && s[i] == '%' ==> GoodPercent(s, i) }

  lemma GoodSuffix(s: string, k: nat, i: nat)
    requires k <= |s| && i < |s[k..]|
    ensures s[k..][i] == s[k + i] && (GoodPercent(s[k..], i) <==> GoodPercent(s, k + i))
  {
  }

  lemma AllGoodSuffix(s: string, k: nat)
    requires k <= |s| && forall i: nat :: i < k && s[i] == '%' ==> GoodPercent(s, i)
    ensures AllGood(s) <==> AllGood(s[k..])
  {
    forall i: nat | i < |s[k..]| ensures s[k..][i] == s[k + i] && (GoodPercent(s[k..], i) <==> GoodPercent(s, k + i)) {
      GoodSuffix(s, k, i);
    }
    if AllGood(s[k..]) {
      forall i: nat | i < |s| && s[i] == '%' ensures GoodPercent(s, i) {
        if i >= k { assert s[k..][i - k] == s[i]; }
      }
    }
  }

  /** A text is accepted if and only if every '%' starts a good triplet. */
  lemma {:induction false} AcceptedExactly(s: string)
    ensures Canonicalize(s).Ok? <==> AllGood(s)
  {
    if s == "" {
    } else if s[0] != '%' {
      AcceptedExactly(s[1..]);
      AllGoodSuffix(s, 1);
    } else if GoodPercent(s, 0) {
      AcceptedExactly(s[3..]);
      AllGoodSuffix(s, 3);
    } else {
      assert s[0] == '%' && !AllGood(s);
    }
  }

  /** Otherwise the first '%' that does not decides which error is raised. */
  lemma {:induction false} FirstFaultDecides(s: string, i: nat)
    requires i < |s| && s[i] == '%' && !GoodPercent(s, i)
    requires forall k: nat :: k < i && s[k] == '%' ==> GoodPercent(s, k)
    ensures Canonicalize(s) == Err(if Shaped(s, i) then EncodedDelimiterForbidden else MalformedPercentEncoding)
  {
    var n := if s[0] != '%' then 1 else 3;
    if i > 0 {
      assert s[0] == '%' ==> GoodPercent(s, 0) && i >= 3;
      forall k: nat | k < i - n && s[n..][k] == '%' ensures GoodPercent(s[n..], k) {
        GoodSuffix(s, n, k);
        assert s[n + k] == '%';
      }
      GoodSuffix(s, n, i - n);
      FirstFaultDecides(s[n..], i - n);
    }
  }

  /** The octets a text stands for, triplets decoded. */
  function Octets(s: string): seq<int> {
    if s == "" then []
    else if Shaped(s, 0) then [16 * HexValue(s[1]) + HexValue(s[2])] + Octets(s[3..])
    else [s[0] as int] + Octets(s[1..])
  }

  function TokenOctets(ts: seq<Token>): seq<int> {
    if ts == [] then []
    else [match ts[0] case Plain(c) => c as int case Octet(n) => n] + TokenOctets(ts[1..])
  }

  lemma {:induction false} ParseKeepsOctets(s: string)
    requires Parse(s).Ok?
    ensures TokenOctets(Parse(s).value) == Octets(s)
  {
    if s != "" {
      var n := if s[0] != '%' then 1 else 3;
      ParseKeepsOctets(s[n..]);
      var ts := Parse(s).value;
      assert ts[1..] == Parse(s[n..]).value;
    }
  }

  /** The percent pass keeps every octet, and two accepted texts get the same spelling
      if they stand for the same octets and encode the same reserved ones. */
  lemma OctetsKept(s: string)
    requires Canonicalize(s).Ok?
    ensures Octets(Canonicalize(s).value) == Octets(s)
  {
    PercentPassIsCanonical(s, s);
    ParseKeepsOctets(s);
    ParseKeepsOctets(Canonicalize(s).value);
  }

  // ----- dot segments: the string-buffer algorithm of section 5.2.4 of RFC 3986

  predicate StartsWith(s: string, p: string): (b: bool)
    ensures b && p != "" ==> s != "" && s[0] == p[0]
  {
    p <= s
  }

  /** First position of "/" at or after `from`; the length when there is none. */
  function SlashFrom(s: string, from: nat): (k: nat)
    requires from <= |s|
    ensures from <= k <= |s|
    ensures k < |s| ==> s[k] == '/'
    ensures forall i :: from <= i < k ==> s[i] != '/'
    decreases |s| - from
  {
    if from == |s| || s[from] == '/' then from else SlashFrom(s, from + 1)
  }

  function SegmentEnd(s: string): (k: nat)
    requires s != ""
    ensures 0 < k <= |s|
  {
    SlashFrom(s, if s[0] == '/' then 1 else 0) as nat
  }

  /** Steps 2B and 2C: a complete "." or ".." segment after a slash. */
  predicate DotHead(s: string) {
    StartsWith(s, "/./") || s == "/." || StartsWith(s, "/../") || s == "/.."
  }

  /** The output buffer without its last segment and that segment's slash. */
  function DropLastSegment(out: string): string {
    if out == "" || out[|out| - 1] == '/' then out[..if out == "" then 0 else |out| - 1]
    else DropLastSegment(out[..|out| - 1])
  }

  datatype Buffers = Buffers(input: string, output: string)

  /** Steps 2A to 2E: one round on the two buffers; the input strictly shrinks. */
  function RfcRound(input: string, output: string): (r: Buffers)
    requires input != ""
    ensures |r.input| < |input|
  {
    if StartsWith(input, "../") then Buffers(input[3..], output)
    else if StartsWith(input, "./") then Buffers(input[2..], output)
    else if StartsWith(input, "/./") then Buffers(input[2..], output)
    else if input == "/." then Buffers("/", output)
    else if StartsWith(input, "/../") then Buffers(input[3..], DropLastSegment(output))
    else if input == "/.." then Buffers("/", DropLastSegment(output))
    else if input == "." || input == ".." then Buffers("", output)
    else Buffers(input[SegmentEnd(input)..], output + input[..SegmentEnd(input)])
  }

  function RfcLoop(input: string, output: string): string
    decreases |input|
  {
    if input == "" then output
    else
      var next := RfcRound(input, output);
      RfcLoop(next.input, next.output)
  }

  function Rooted(path: string): string { if StartsWith(path, "/") then path else "/" + path }

  /** What the dot pass computes for a path. */
  function RemoveDots(path: string): string { RfcLoop(Rooted(path), "") }

  // ----- the program's loop, with its output kept as a list of segments

  /** A segment the loop emits: a slash, no other slash, and not a dot segment. */
  predicate CleanSegment(s: string) {
    && StartsWith(s, "/")
    && (forall i :: 0 < i < |s| ==> s[i] != '/')
    && s != "/." && s != "/.."
  }

  predicate CleanSegments(ss: seq<string>) { forall i :: 0 <= i < |ss| ==> CleanSegment(ss[i]) }

  function Join(ss: seq<string>): string {
    if ss == [] then "" else Join(ss[..|ss| - 1]) + ss[|ss| - 1]
  }

  lemma {:induction false} DropCleanSegment(out: string, seg: string)
    requires StartsWith(seg, "/") && forall i :: 0 < i < |seg| ==> seg[i] != '/'
    ensures DropLastSegment(out + seg) == out
  {
    var s := out + seg;
    if |seg| == 1 {
      assert s[..|s| - 1] == out;
    } else {
      assert s[..|s| - 1] == out + seg[..|seg| - 1];
      DropCleanSegment(out, seg[..|seg| - 1]);
    }
  }

  /** `_remove_dot_segments`: the list of segments with `pop` computes what the
      RFC's string buffers do.  Termination is the strict shrinking of the input
      buffer, which stays empty or "/"-led; the output is never empty. */
  method RemoveDotSegments(path: string) returns (r: string)
    ensures r == RemoveDots(path)
    ensures StartsWith(r, "/")
  {
    var output := EmittedSegments(if StartsWith(path, "/") then path else "/" + path);
    JoinLeadsWithSlash(output);
    var normalized := Join(output);
    r := if StartsWith(normalized, "/") then normalized else "/";
  }

  /** The loop of `_remove_dot_segments` and the segments it leaves. */
  method EmittedSegments(start: string) returns (output: seq<string>)
    requires StartsWith(start, "/")
    ensures Join(output) == RfcLoop(start, "")
    ensures CleanSegments(output) && output != []
  {
    var inputBuffer := start;
    output := [];
    while inputBuffer != ""
      invariant SlashLed(inputBuffer)
      invariant inputBuffer == "" ==> output != []
      invariant CleanSegments(output)
      invariant RfcLoop(inputBuffer, Join(output)) == RfcLoop(start, "")
      decreases |inputBuffer|
    {
      if StartsWith(inputBuffer, "../") || StartsWith(inputBuffer, "./") || inputBuffer == "." || inputBuffer == ".." {
        assert false;  // the buffer is "/"-led, so these four branches never run
      } else if StartsWith(inputBuffer, "/./") {
        StayMove(inputBuffer, Join(output));
        inputBuffer := inputBuffer[2..];
      } else if inputBuffer == "/." {
        StayMove(inputBuffer, Join(output));
        inputBuffer := "/";
      } else if StartsWith(inputBuffer, "/../") || inputBuffer == "/.." {
        PopMove(inputBuffer, output);
        inputBuffer := if inputBuffer == "/.." then "/" else inputBuffer[3..];
        if output != [] {
          output := output[..|output| - 1];
        }
      } else {
        var separator := SlashFrom(inputBuffer, 1);
        PushMove(inputBuffer, output);
        output := output + [inputBuffer[..separator]];
        inputBuffer := inputBuffer[separator..];
      }
    }
  }

  predicate SlashLed(s: string) { s == "" || s[0] == '/' }

  lemma StayMove(input: string, output: string)
    requires StartsWith(input, "/./") || input == "/."
    ensures var next := if input == "/." then "/" else input[2..];
            SlashLed(next) && next != "" && RfcLoop(input, output) == RfcLoop(next, output)
  {
  }

  /** Popping the last segment is what the RFC does to its output buffer. */
  lemma PopMove(input: string, output: seq<string>)
    requires (StartsWith(input, "/../") || input == "/..") && CleanSegments(output)
    ensures var next := if input == "/.." then "/" else input[3..];
            var left := if output == [] then output else output[..|output| - 1];
            && SlashLed(next) && next != "" && CleanSegments(left)
            && RfcLoop(input, Join(output)) == RfcLoop(next, Join(left))
  {
    var next := if input == "/.." then "/" else input[3..];
    assert input[2] == '.' != "/./"[2];
    assert RfcRound(input, Join(output)) == Buffers(next, DropLastSegment(Join(output)));
    if output == [] {
      assert Join([]) == "" && DropLastSegment("") == "";
    } else {
      DropCleanSegment(Join(output[..|output| - 1]), output[|output| - 1]);
    }
  }

  /** Appending a segment to the list is appending it to the output buffer. */
  lemma PushMove(input: string, output: seq<string>)
    requires StartsWith(input, "/") && !DotHead(input) && CleanSegments(output)
    ensures var k := SlashFrom(input, 1);
            && SlashLed(input[k..]) && CleanSegments(output + [input[..k]])
            && RfcLoop(input, Join(output)) == RfcLoop(input[k..], Join(output + [input[..k]]))
  {
    DotHeadOfSegment(input);
    assert (output + [input[..SlashFrom(input, 1)]])[..|output|] == output;
  }

  lemma {:induction false} JoinLeadsWithSlash(ss: seq<string>)
    requires CleanSegments(ss)
    ensures ss != [] ==> StartsWith(Join(ss), "/")
  {
    if |ss| > 1 { JoinLeadsWithSlash(ss[..|ss| - 1]); }
    else if |ss| == 1 { assert Join(ss) == Join([]) + ss[0] == ss[0]; }
  }

  lemma DotHeadOfSegment(s: string)
    requires StartsWith(s, "/")
    ensures DotHead(s) || CleanSegment(s[..SlashFrom(s, 1)])
  {
    var k := SlashFrom(s, 1);
    assert s == s[..k] + s[k..];
    assert k < |s| ==> s[..k + 1] == s[..k] + "/";
  }

  lemma CleanSegmentNoDotHead(seg: string)
    requires CleanSegment(seg)
    ensures !DotHead(seg)
  {
    assert |seg| > 2 ==> seg[2] != '/';
    assert |seg| > 3 ==> seg[3] != '/';
  }

  // ----- the same by names on a stack

  /** The names between the slashes of a rooted path. */
  function Names(p: string): seq<string>
    requires SlashLed(p)
    decreases |p|
  {
    if p == "" then [] else [p[1..SlashFrom(p, 1)]] + Names(p[SlashFrom(p, 1)..])
  }

  /** "." stays, ".." goes up, and either at the end leaves an empty last name. */
  function Walk(names: seq<string>, stack: seq<string>): seq<string> {
    if names == [] then stack
    else
      var end := if |names| == 1 then [""] else [];
      if names[0] == "." then Walk(names[1..], stack + end)
      else if names[0] == ".." then Walk(names[1..], (if stack == [] then [] else Init(stack)) + end)
      else Walk(names[1..], stack + [names[0]])
  }

  function Written(names: seq<string>): string {
    if names == [] then "" else Written(Init(names)) + "/" + Last(names)
  }

  predicate PlainNames(names: seq<string>) { forall i :: 0 <= i < |names| ==> '/' !in names[i] }

  lemma WrittenSnoc(names: seq<string>, name: string)
    ensures Written(names + [name]) == Written(names) + "/" + name
  {
    assert Init(names + [name]) == names;
  }

  lemma DropName(names: seq<string>)
    requires PlainNames(names)
    ensures DropLastSegment(Written(names)) == Written(if names == [] then [] else Init(names))
  {
    if names == [] {
      assert DropLastSegment("") == "";
    } else {
      DropCleanSegment(Written(Init(names)), "/" + Last(names));
      assert Written(Init(names)) + "/" + Last(names) == Written(Init(names)) + ("/" + Last(names));
    }
  }

  lemma EndName(stack: seq<string>)
    ensures RfcLoop("/", Written(stack)) == Written(stack + [""])
  {
    SegmentMove("/", Written(stack));
    assert "/"[1..] == "" && "/"[..1] == "/";
    WrittenSnoc(stack, "");
    assert Written(stack) + "/" + "" == Written(stack) + "/";
  }

  lemma NamesOfDots(p: string)
    requires SlashLed(p) && p != ""
    ensures p == "/." ==> Names(p) == ["."]
    ensures p == "/.." ==> Names(p) == [".."]
    ensures StartsWith(p, "/./") ==> Names(p) == ["."] + Names(p[2..]) && p[2..] != "" && SlashLed(p[2..])
    ensures StartsWith(p, "/../") ==> Names(p) == [".."] + Names(p[3..]) && p[3..] != "" && SlashLed(p[3..])
    ensures !DotHead(p) ==> Names(p)[0] != "." && Names(p)[0] != ".."
  {
    var k := SlashFrom(p, 1);
    assert p == "/" + p[1..k] + p[k..];
    if StartsWith(p, "/./") { assert p[1] == "/./"[1] && p[2] == "/./"[2]; }
    if StartsWith(p, "/../") { assert p[1] == "/../"[1] && p[2] == "/../"[2] && p[3] == "/../"[3]; }
    if p[1..k] == "." { assert p[..k] == "/."; assert k < |p| ==> p[..3] == "/./"; }
    if p[1..k] == ".." { assert p[..k] == "/.."; assert k < |p| ==> p[..4] == "/../"; }
  }

  lemma {:induction false} LoopWalks(input: string, stack: seq<string>)
    requires SlashLed(input) && PlainNames(stack)
    ensures RfcLoop(input, Written(stack)) == Written(Walk(Names(input), stack))
    decreases |input|
  {
    if input == "/." || input == "/.." {
      DotsAtTheEnd(input, stack);
    } else if input != "" {
      var next, left := OneRound(input, stack);
      LoopWalks(next, left);
    }
  }

  lemma DotsAtTheEnd(input: string, stack: seq<string>)
    requires (input == "/." || input == "/..") && PlainNames(stack)
    ensures RfcLoop(input, Written(stack)) == Written(Walk(Names(input), stack))
  {
    NamesOfDots(input);
    if input == "/." {
      StayMove(input, Written(stack));
      EndName(stack);
      WalkOne(".", stack);
    } else {
      GoUp(input, stack);
      EndName(if stack == [] then [] else Init(stack));
      WalkOne("..", stack);
    }
  }

  lemma OneRound(input: string, stack: seq<string>) returns (next: string, left: seq<string>)
    requires SlashLed(input) && input != "" && input != "/." && input != "/.." && PlainNames(stack)
    ensures SlashLed(next) && |next| < |input| && PlainNames(left)
    ensures RfcLoop(input, Written(stack)) == RfcLoop(next, Written(left))
    ensures Walk(Names(input), stack) == Walk(Names(next), left)
  {
    NamesOfDots(input);
    if StartsWith(input, "/./") {
      StayMove(input, Written(stack));
      next, left := input[2..], stack;
      WalkSkip(".", Names(next), stack);
    } else if StartsWith(input, "/../") {
      GoUp(input, stack);
      next, left := input[3..], if stack == [] then [] else Init(stack);
      WalkSkip("..", Names(next), stack);
    } else {
      next, left := PushName(input, stack);
    }
  }

  lemma PushName(input: string, stack: seq<string>) returns (next: string, left: seq<string>)
    requires SlashLed(input) && input != "" && !DotHead(input) && PlainNames(stack)
    ensures SlashLed(next) && |next| < |input| && PlainNames(left)
    ensures RfcLoop(input, Written(stack)) == RfcLoop(next, Written(left))
    ensures Walk(Names(input), stack) == Walk(Names(next), left)
  {
    var k := SlashFrom(input, 1);
    next, left := input[k..], stack + [input[1..k]];
    SegmentMove(input, Written(stack));
    NameAppended(input, stack);
    WalkPush(input, stack);
  }

  lemma NameAppended(input: string, stack: seq<string>)
    requires SlashLed(input) && input != ""
    ensures Written(stack) + input[..SlashFrom(input, 1)] == Written(stack + [input[1..SlashFrom(input, 1)]])
  {
    var k := SlashFrom(input, 1);
    WrittenSnoc(stack, input[1..k]);
    assert input[..k] == "/" + input[1..k];
    assert Written(stack) + "/" + input[1..k] == Written(stack) + ("/" + input[1..k]);
  }

  lemma WalkPush(input: string, stack: seq<string>)
    requires SlashLed(input) && input != "" && !DotHead(input)
    ensures var k := SlashFrom(input, 1);
            Walk(Names(input), stack) == Walk(Names(input[k..]), stack + [input[1..k]])
  {
    NamesOfDots(input);
    var k := SlashFrom(input, 1);
    assert ([input[1..k]] + Names(input[k..]))[1..] == Names(input[k..]);
  }

  lemma GoUp(input: string, stack: seq<string>)
    requires (StartsWith(input, "/../") || input == "/..") && PlainNames(stack)
    ensures RfcLoop(input, Written(stack)) ==
            RfcLoop(if input == "/.." then "/" else input[3..], Written(if stack == [] then [] else Init(stack)))
  {
    var next := if input == "/.." then "/" else input[3..];
    assert input[2] == '.' != "/./"[2];
    assert RfcRound(input, Written(stack)) == Buffers(next, DropLastSegment(Written(stack)));
    DropName(stack);
  }

  lemma WalkOne(name: string, stack: seq<string>)
    requires name == "." || name == ".."
    ensures Walk([name], stack) == (if name == "." then stack else if stack == [] then [] else Init(stack)) + [""]
  {
    assert [name][1..] == [];
  }

  lemma WalkSkip(name: string, rest: seq<string>, stack: seq<string>)
    requires (name == "." || name == "..") && rest != []
    ensures Walk([name] + rest, stack) ==
            Walk(rest, if name == "." then stack else if stack == [] then [] else Init(stack))
  {
    assert ([name] + rest)[1..] == rest;
    assert stack + [] == stack;
    assert stack != [] ==> Init(stack) + [] == Init(stack);
  }

  /** The dot pass walks the names of the path as one walks directories. */
  lemma DotsAreWalked(path: string)
    ensures RemoveDots(path) == Written(Walk(Names(Rooted(path)), []))
  {
    LoopWalks(Rooted(path), []);
  }

  // ----- which paths are in normal form

  /** A rooted path none of whose segments is "." or "..". */
  predicate DotFree(p: string) {
    StartsWith(p, "/") && forall i: nat :: i < |p| ==> NoDotSegmentAt(p, i)
  }

  predicate NoDotSegmentAt(p: string, i: nat)
    requires i < |p|
  {
    p[i] == '/' ==> !DotHead(p[i..])
  }

  lemma DotFreeSuffix(p: string, k: nat)
    requires DotFree(p) && k < |p| && p[k] == '/'
    ensures DotFree(p[k..]) && !DotHead(p)
  {
    assert p[0..] == p && NoDotSegmentAt(p, 0);
    var q := p[k..];
    forall i: nat | i < |q| ensures NoDotSegmentAt(q, i) {
      assert q[i..] == p[k + i..] && NoDotSegmentAt(p, k + i);
    }
  }

  lemma DotFreeRest(p: string)
    requires DotFree(p)
    ensures !DotHead(p) && (p[SegmentEnd(p)..] == "" || DotFree(p[SegmentEnd(p)..]))
  {
    DotFreeSuffix(p, 0);
    if SegmentEnd(p) < |p| { DotFreeSuffix(p, SegmentEnd(p)); }
  }

  lemma SegmentMove(input: string, output: string)
    requires StartsWith(input, "/") && !DotHead(input)
    ensures RfcLoop(input, output) == RfcLoop(input[SegmentEnd(input)..], output + input[..SegmentEnd(input)])
  {
  }

  lemma {:induction false} DotFreeUnchanged(p: string, out: string)
    requires p == "" || DotFree(p)
    ensures RfcLoop(p, out) == out + p
  {
    if p != "" {
      var k := SegmentEnd(p);
      DotFreeRest(p);
      SegmentMove(p, out);
      DotFreeUnchanged(p[k..], out + p[..k]);
      Rejoin(out, p, k);
    } else {
      assert out + p == out;
    }
  }

  lemma Rejoin(out: string, p: string, k: nat)
    requires k <= |p|
    ensures out + p[..k] + p[k..] == out + p
  {
    assert p == p[..k] + p[k..];
  }

  lemma DotFreeAppend(a: string, seg: string)
    requires a == "" || DotFree(a)
    requires CleanSegment(seg)
    ensures DotFree(a + seg)
  {
    var s := a + seg;
    forall i: nat | i < |s| && s[i] == '/' ensures !DotHead(s[i..]) {
      if i < |a| {
        assert NoDotSegmentAt(a, i);
        assert s[i..] == a[i..] + seg;
        DotHeadPrefix(a[i..], seg);
      } else {
        assert i == |a| && s[i..] == seg;
        CleanSegmentNoDotHead(seg);
      }
    }
  }

  lemma DotHeadPrefix(a: string, seg: string)
    requires StartsWith(a, "/") && StartsWith(seg, "/") && !DotHead(a)
    ensures !DotHead(a + seg)
  {
    var s := a + seg;
    assert forall i :: 0 <= i < |a| ==> s[i] == a[i];
    assert s[|a|] == '/';
    if |a| >= 4 { assert s[..4] == a[..4] && s[..3] == a[..3]; }
  }

  lemma DropLastKeeps(out: string)
    ensures out == "" ==> DropLastSegment(out) == ""
    ensures DotFree(out) && DropLastSegment(out) != "" ==> DotFree(DropLastSegment(out))
    ensures PercentCanonical(out) ==> PercentCanonical(DropLastSegment(out))
  {
    var k := DropLastIndex(out);
    var r := out[..k];
    if DotFree(out) && r != "" {
      forall i: nat | i < |r| && r[i] == '/' ensures !DotHead(r[i..]) {
        assert NoDotSegmentAt(out, i);
        assert out[i..] == r[i..] + out[k..];
        if DotHead(r[i..]) { DotHeadExtends(r[i..], out[k..]); }
      }
    }
    if PercentCanonical(out) && k > 0 { PercentCanonicalCut(out, k); }
  }

  lemma DotHeadExtends(a: string, b: string)
    requires DotHead(a) && StartsWith(b, "/")
    ensures DotHead(a + b)
  {
    if a == "/." { assert (a + b)[..3] == "/./"; }
    else if a == "/.." { assert (a + b)[..4] == "/../"; }
    else if StartsWith(a, "/./") { assert (a + b)[..3] == a[..3]; }
    else { assert (a + b)[..4] == a[..4]; }
  }

  lemma {:induction false} DropLastIndex(out: string) returns (k: nat)
    ensures k <= |out| && DropLastSegment(out) == out[..k]
    ensures out != "" && out[0] == '/' ==> k < |out| && out[k] == '/'
    ensures k == 0 || (k < |out| && out[k] == '/')
  {
    if out == "" { k := 0; }
    else if out[|out| - 1] == '/' { k := |out| - 1; }
    else {
      k := DropLastIndex(out[..|out| - 1]);
      assert out[..|out| - 1][..k] == out[..k];
    }
  }

  ghost predicate GoodBuffers(input: string, output: string) {
    && (input == "" || StartsWith(input, "/"))
    && (output == "" || DotFree(output))
    && (input == "" ==> output != "")
  }

  lemma SegmentStep(input: string, output: string)
    requires GoodBuffers(input, output) && input != "" && !DotHead(input)
    ensures var k := SegmentEnd(input);
            && GoodBuffers(input[k..], output + input[..k])
            && (PercentCanonical(input) && PercentCanonical(output) ==> PercentCanonical(output + input[..k]))
  {
    var k := SegmentEnd(input);
    DotHeadOfSegment(input);
    DotFreeAppend(output, input[..k]);
    if PercentCanonical(input) && PercentCanonical(output) {
      PercentCanonicalCut(input, k);
      PercentCanonicalConcat(output, input[..k]);
    }
  }

  lemma {:induction false} RfcLoopResult(input: string, output: string)
    requires GoodBuffers(input, output)
    ensures DotFree(RfcLoop(input, output))
    ensures PercentCanonical(input) && PercentCanonical(output) ==> PercentCanonical(RfcLoop(input, output))
    decreases |input|
  {
    if input == "" {
    } else if DotHead(input) {
      DropLastKeeps(output);
      var next := if input == "/." || input == "/.." then "/"
                  else if StartsWith(input, "/./") then input[2..] else input[3..];
      assert PercentCanonical(input) ==> PercentCanonical(next) by {
        if |input| > 3 { PercentSuffixIfCanonical(input, 3); }
        if |input| > 2 { PercentSuffixIfCanonical(input, 2); }
      }
      var out := if StartsWith(input, "/../") || input == "/.." then DropLastSegment(output) else output;
      assert RfcLoop(input, output) == RfcLoop(next, out);
      RfcLoopResult(next, out);
    } else {
      var k := SegmentEnd(input);
      SegmentStep(input, output);
      PercentSuffixIfCanonical(input, k);
      SegmentMove(input, output);
      RfcLoopResult(input[k..], output + input[..k]);
    }
  }

  lemma PercentSuffixIfCanonical(s: string, k: nat)
    requires k <= |s|
    ensures PercentCanonical(s) ==> PercentCanonical(s[k..])
  {
    if PercentCanonical(s) { PercentCanonicalSuffix(s, k); }
  }

  /** The dot pass leaves exactly the rooted dot-free paths alone, and its result
      is always one of them. */
  lemma DotFixpoint(p: string)
    ensures DotFree(RemoveDots(p))
    ensures RemoveDots(p) == p <==> DotFree(p)
  {
    RfcLoopResult(Rooted(p), "");
    if DotFree(p) { DotFreeUnchanged(p, ""); }
  }

  // ----- the composition used by `normalize_url`

  function NormalizePath(path: string): Result<string, Error> {
    match Canonicalize(if path == "" then "/" else path)
    case Ok(q) => Ok(RemoveDots(q))
    case Err(e) => Err(e)
  }

  method Normalize(path: string) returns (r: Result<string, Error>)
    ensures r == NormalizePath(path)
  {
    var q := CanonicalizePercentEncoding(if path == "" then "/" else path);
    if q.Err? { return Err(q.error); }
    var p := RemoveDotSegments(q.value);
    return Ok(p);
  }

  /** Normalization is idempotent, pass by pass: whatever path is accepted, both
      passes accept its normal form and return it unchanged. */
  lemma NormalizationIdempotent(path: string)
    requires NormalizePath(path).Ok?
    ensures var r := NormalizePath(path).value;
            && Canonicalize(r) == Ok(r)
            && RemoveDots(r) == r
            && NormalizePath(r) == Ok(r)
            && DotFree(r)
  {
    var given := if path == "" then "/" else path;
    ParseLegal(given);
    var q := Canonicalize(given).value;
    SpellIsPercentCanonical(Parse(given).value);
    if q == "" || q[0] != '/' { PercentCanonicalConcat("/", q); }
    RfcLoopResult(Rooted(q), "");
    var r := RemoveDots(q);
    PercentFixpoint(r);
    DotFixpoint(r);
  }

  /** A path is its own normal form exactly when it is rooted, free of dot
      segments and percent-canonical. */
  lemma NormalForms(p: string)
    ensures NormalizePath(p) == Ok(p) <==> PercentCanonical(p) && DotFree(p)
  {
    if NormalizePath(p) == Ok(p) {
      NormalizationIdempotent(p);
      PercentFixpoint(p);
    }
    if PercentCanonical(p) && DotFree(p) {
      PercentFixpoint(p);
      DotFixpoint(p);
    }
  }
}
