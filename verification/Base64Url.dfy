/** URL-safe base64 as used by core/objects.go, core/util.go and nonce/nonce.go: Go's
    URLEncoding with and without padding (section 5 of RFC 4648). */
module Base64Url {
  import opened Prelude
  import opened Names
  import opened Acme

  type Sextet = v: int | 0 <= v < 64

  function Symbol(v: Sextet): (c: char) {
    if v < 26 then 'A' + v as char
    else if v < 52 then 'a' + (v - 26) as char
    else if v < 62 then '0' + (v - 52) as char
    else if v == 62 then '-' else '_'
  }

  function Digit(c: char): (d: Option<int>)
    ensures d.Some? ==> 0 <= d.value < 64
  {
    if 'A' <= c <= 'Z' then Some((c - 'A') as int)
    else if 'a' <= c <= 'z' then Some((c - 'a') as int + 26)
    else if '0' <= c <= '9' then Some((c - '0') as int + 52)
    else if c == '-' then Some(62)
    else if c == '_' then Some(63)
    else None
  }

  lemma DigitSymbol(v: Sextet)
    ensures Digit(Symbol(v)) == Some(v) && TokenChar(Symbol(v))
  {
  }

  /** Table 2 of RFC 4648, by character code; its symbols are the characters of tokens. */
  lemma Alphabet(v: Sextet, c: char)
    ensures Symbol(v) as int == if v < 26 then 65 + v else if v < 52 then 71 + v else if v < 62 then v - 4 else if v == 62 then 45 else 95
    ensures TokenChar(c) <==> Digit(c).Some?
    ensures TokenChar(c) ==> Symbol(Digit(c).value) == c
  {
  }

  /** One, two or three bytes as two, three or four sextets. */
  function Sextets(b: Bytes): (x: seq<Sextet>)
    requires 1 <= |b| <= 3
    ensures |x| == |b| + 1
  {
    if |b| == 1 then [b[0] / 4, b[0] % 4 * 16]
    else if |b| == 2 then [b[0] / 4, b[0] % 4 * 16 + b[1] / 16, b[1] % 16 * 4]
    else [b[0] / 4, b[0] % 4 * 16 + b[1] / 16, b[1] % 16 * 4 + b[2] / 64, b[2] % 64]
  }

  /** The bytes of two, three or four sextets; the bits left over are ignored, as Go does
      outside strict mode. */
  function Octets(x: seq<Sextet>): (b: Bytes)
    requires 2 <= |x| <= 4
    ensures |b| == |x| - 1
  {
    var x0: int, x1: int := x[0], x[1];
    var b0 := x0 * 4 + x1 / 16;
    if |x| == 2 then [b0]
    else
      var x2: int := x[2];
      var b1 := x1 % 16 * 16 + x2 / 4;
      if |x| == 3 then [b0, b1] else [b0, b1, x2 % 4 * 64 + x[3]]
  }

  function Symbols(x: seq<Sextet>): (s: string)
    ensures |s| == |x| && forall i | 0 <= i < |x| :: s[i] == Symbol(x[i])
  {
    seq(|x|, i requires 0 <= i < |x| => Symbol(x[i]))
  }

  function Digits(s: string): (x: Option<seq<Sextet>>)
    ensures x.Some? ==> |x.value| == |s|
  {
    if |s| == 0 then Some([])
    else
      var d, rest := Digit(s[0]), Digits(s[1..]);
      if d.None? || rest.None? then None else Some([d.value] + rest.value)
  }

  function Group(b: Bytes): (s: string)
    requires 1 <= |b| <= 3
    ensures |s| == |b| + 1
  {
    Symbols(Sextets(b))
  }

  function Ungroup(s: string): Option<Bytes>
    requires 2 <= |s| <= 4
  {
    var x := Digits(s);
    if x.None? then None else Some(Octets(x.value))
  }

  /** RawURLEncoding.EncodeToString. */
  function EncodeRaw(b: Bytes): string {
    if |b| == 0 then ""
    else if |b| <= 3 then Group(b)
    else Group(b[..3]) + EncodeRaw(b[3..])
  }

  /** URLEncoding.EncodeToString. */
  function EncodePadded(b: Bytes): string {
    if |b| == 0 then ""
    else if |b| == 1 then Group(b) + "=="
    else if |b| == 2 then Group(b) + "="
    else Group(b[..3]) + EncodePadded(b[3..])
  }

  function Append(a: Option<Bytes>, b: Option<Bytes>): Option<Bytes> {
    if a.None? || b.None? then None else Some(a.value + b.value)
  }

  function DecodeRawQuanta(s: string): Option<Bytes> {
    if |s| == 0 then Some([])
    else if |s| == 1 then None
    else if |s| <= 4 then Ungroup(s)
    else Append(Ungroup(s[..4]), DecodeRawQuanta(s[4..]))
  }

  function DecodePaddedQuanta(s: string): Option<Bytes> {
    if |s| == 0 then Some([])
    else if |s| < 4 then None
    else if s[3] == '=' then
      if |s| > 4 then None else if s[2] == '=' then Ungroup(s[..2]) else Ungroup(s[..3])
    else Append(Ungroup(s[..4]), DecodePaddedQuanta(s[4..]))
  }

  /** Both decoders drop line breaks first. */
  function StripNewlines(s: string): string {
    if |s| == 0 then ""
    else (if s[0] == '\r' || s[0] == '\n' then "" else [s[0]]) + StripNewlines(s[1..])
  }

  function DecodeRaw(s: string): Option<Bytes> {
    DecodeRawQuanta(StripNewlines(s))
  }

  function DecodePadded(s: string): Option<Bytes> {
    DecodePaddedQuanta(StripNewlines(s))
  }

  function Repeat(c: char, n: nat): (s: string)
    ensures |s| == n && forall i | 0 <= i < n :: s[i] == c
  {
    seq(n, i => c)
  }

  /** base64URLEncode. */
  function UrlEncode(b: Bytes): string {
    TrimRight(EncodePadded(b), '=')
  }

  /** base64URLDecode. */
  function UrlDecode(s: string): Option<Bytes> {
    var missing := (4 - |s| % 4) % 4;
    DecodePadded(s + Repeat('=', missing))
  }

  // ---------------------------------------------------------------- round trips

  /** Test vectors of section 10 of RFC 4648: the encodings of "f", "fo" and "foo". */
  lemma TestVectors()
    ensures EncodeRaw([102]) == "Zg" && EncodeRaw([102, 111]) == "Zm8" && EncodeRaw([102, 111, 111]) == "Zm9v"
  {
  }

  predicate AllSymbols(s: string) {
    forall i | 0 <= i < |s| :: TokenChar(s[i])
  }

  lemma OctetsSextets(b: Bytes)
    requires 1 <= |b| <= 3
    ensures Octets(Sextets(b)) == b
  {
    var x := Sextets(b);
    if |b| > 1 {
      BitFields(b[0], b[1]);
      assert x[1] / 16 == b[0] % 4;
    }
    if |b| > 2 {
      BitFields(b[1], b[2]);
    }
  }

  /** The bit fields of neighbouring bytes come apart again. */
  lemma BitFields(x: Byte, y: Byte)
    ensures (x % 4 * 16 + y / 16) / 16 == x % 4 && (x % 4 * 16 + y / 16) % 16 == y / 16
    ensures (x % 16 * 4 + y / 64) / 4 == x % 16 && (x % 16 * 4 + y / 64) % 4 == y / 64
  {
  }

  lemma {:induction false} DigitsSymbols(x: seq<Sextet>)
    ensures Digits(Symbols(x)) == Some(x) && AllSymbols(Symbols(x))
  {
    if |x| > 0 {
      DigitSymbol(x[0]);
      DigitsSymbols(x[1..]);
      assert Symbols(x)[1..] == Symbols(x[1..]);
      assert x == [x[0]] + x[1..];
    } else {
      assert Symbols(x) == "" && x == [];
    }
    forall i | 0 <= i < |x| ensures TokenChar(Symbols(x)[i]) {
      DigitSymbol(x[i]);
    }
  }

  lemma UngroupGroup(b: Bytes)
    requires 1 <= |b| <= 3
    ensures Ungroup(Group(b)) == Some(b) && AllSymbols(Group(b))
  {
    DigitsSymbols(Sextets(b));
    OctetsSextets(b);
  }

  lemma {:induction false} EncodedShape(b: Bytes)
    ensures |EncodeRaw(b)| == (4 * |b| + 2) / 3 && AllSymbols(EncodeRaw(b))
  {
    if 1 <= |b| <= 3 {
      UngroupGroup(b);
    } else if |b| > 3 {
      UngroupGroup(b[..3]);
      EncodedShape(b[3..]);
    }
  }

  lemma {:induction false} StripNothing(s: string)
    requires forall i | 0 <= i < |s| :: s[i] != '\r' && s[i] != '\n'
    ensures StripNewlines(s) == s
  {
    if |s| > 0 {
      StripNothing(s[1..]);
    }
  }

  lemma {:induction false} RawQuantaRoundTrip(b: Bytes)
    ensures DecodeRawQuanta(EncodeRaw(b)) == Some(b)
  {
    if 1 <= |b| <= 3 {
      UngroupGroup(b);
    } else if |b| > 3 {
      UngroupGroup(b[..3]);
      RawQuantaRoundTrip(b[3..]);
      EncodedShape(b[3..]);
      assert EncodeRaw(b)[..4] == Group(b[..3]) && EncodeRaw(b)[4..] == EncodeRaw(b[3..]);
      assert b == b[..3] + b[3..];
    }
  }

  lemma RawRoundTrip(b: Bytes)
    ensures DecodeRaw(EncodeRaw(b)) == Some(b)
  {
    EncodedShape(b);
    StripNothing(EncodeRaw(b));
    RawQuantaRoundTrip(b);
  }

  function Padding(n: nat): nat {
    (3 - n % 3) % 3
  }

  /** The padded form is the raw form plus padding. */
  lemma {:induction false} PaddedIsRaw(b: Bytes)
    ensures EncodePadded(b) == EncodeRaw(b) + Repeat('=', Padding(|b|))
  {
    if |b| > 3 {
      PaddedIsRaw(b[3..]);
      PaddedStep(b);
    } else if |b| == 3 {
      assert b[..3] == b && b[3..] == [];
    } else if |b| > 0 {
      assert Repeat('=', 1) == "=" && Repeat('=', 2) == "==";
    }
  }

  lemma PaddedStep(b: Bytes)
    requires |b| > 3 && EncodePadded(b[3..]) == EncodeRaw(b[3..]) + Repeat('=', Padding(|b| - 3))
    ensures EncodePadded(b) == EncodeRaw(b) + Repeat('=', Padding(|b|))
  {
    var p := Repeat('=', Padding(|b| - 3));
    PaddingPeriod(|b|);
    Concatenate(Group(b[..3]), EncodeRaw(b[3..]), p);
    calc {
      EncodePadded(b);
      Group(b[..3]) + (EncodeRaw(b[3..]) + p);
      (Group(b[..3]) + EncodeRaw(b[3..])) + p;
      EncodeRaw(b) + p;
    }
  }

  lemma PaddingPeriod(n: nat)
    requires n >= 3
    ensures Padding(n) == Padding(n - 3)
  {
  }

  lemma Concatenate(a: string, b: string, c: string)
    ensures a + (b + c) == (a + b) + c
  {
  }

  /** The padding is what fills the last quantum. */
  lemma PaddingFills(n: nat)
    ensures Padding(n) == (4 - (4 * n + 2) / 3 % 4) % 4
  {
    var q, r := n / 3, n % 3;
    PaddingFillsAt(n, q, r);
  }

  lemma ThirdIs(v: nat, q: nat)
    requires 3 * q <= v < 3 * q + 3
    ensures v / 3 == q
  {
  }

  lemma QuarterLeaves(v: nat, q: nat, r: nat)
    requires v == 4 * q + r && r < 4
    ensures v % 4 == r
  {
  }

  lemma PaddingFillsAt(n: nat, q: nat, r: nat)
    requires n == 3 * q + r && r < 3
    ensures Padding(n) == (4 - (4 * n + 2) / 3 % 4) % 4
  {
    var k := if r == 0 then 0 else r + 1;
    ThirdIs(4 * n + 2, 4 * q + k);
    QuarterLeaves(4 * q + k, q, k);
  }

  lemma {:induction false} TrimRepeat(s: string, c: char, n: nat)
    requires c !in s
    ensures TrimRight(s + Repeat(c, n), c) == s
  {
    if n == 0 {
      assert s + Repeat(c, n) == s;
    } else {
      TrimRepeat(s, c, n - 1);
      assert (s + Repeat(c, n))[..|s| + n - 1] == s + Repeat(c, n - 1);
    }
  }

  /** Trimming the padding gives the raw form. */
  lemma UrlEncodeIsRaw(b: Bytes)
    ensures UrlEncode(b) == EncodeRaw(b)
  {
    PaddedIsRaw(b);
    EncodedShape(b);
    TrimRepeat(EncodeRaw(b), '=', Padding(|b|));
  }

  lemma {:induction false} PaddedQuantaRoundTrip(b: Bytes)
    ensures DecodePaddedQuanta(EncodePadded(b)) == Some(b)
  {
    if |b| == 0 {
    } else if |b| < 3 {
      UngroupGroup(b);
      assert EncodePadded(b)[..|b| + 1] == Group(b);
    } else {
      UngroupGroup(b[..3]);
      PaddedQuantaRoundTrip(b[3..]);
      assert EncodePadded(b)[..4] == Group(b[..3]) && EncodePadded(b)[4..] == EncodePadded(b[3..]);
      assert TokenChar(EncodePadded(b)[3]);
      assert b == b[..3] + b[3..];
    }
  }

  /** base64URLDecode inverts base64URLEncode on every byte string. */
  lemma {:induction false} UrlRoundTrip(b: Bytes)
    ensures UrlDecode(UrlEncode(b)) == Some(b)
  {
    UrlEncodeIsRaw(b);
    RepaddedIsPadded(b);
    DecodeRepadded(UrlEncode(b), EncodePadded(b));
    PaddedRoundTrip(b);
  }

  lemma DecodeRepadded(s: string, padded: string)
    requires s + Repeat('=', (4 - |s| % 4) % 4) == padded
    ensures UrlDecode(s) == DecodePadded(padded)
  {
  }

  lemma PaddedRoundTrip(b: Bytes)
    ensures DecodePadded(EncodePadded(b)) == Some(b)
  {
    PaddedHasNoNewline(b);
    StripNothing(EncodePadded(b));
    PaddedQuantaRoundTrip(b);
  }

  lemma RepaddedIsPadded(b: Bytes)
    ensures EncodeRaw(b) + Repeat('=', (4 - |EncodeRaw(b)| % 4) % 4) == EncodePadded(b)
  {
    PaddedIsRaw(b);
    EncodedShape(b);
    PaddingFills(|b|);
  }

  lemma PaddedHasNoNewline(b: Bytes)
    ensures forall i | 0 <= i < |EncodePadded(b)| :: EncodePadded(b)[i] != '\r' && EncodePadded(b)[i] != '\n'
  {
  }

  /** RandomString, given the bytes the random source delivers. */
  function RandomString(random: Bytes): string {
    EncodeRaw(random)
  }

  /** Every token NewToken can produce looks like one, and no two draws share a token. */
  lemma NewTokenLooksLikeAToken(random: Bytes)
    requires |random| == 32
    ensures LooksLikeAToken(RandomString(random))
    ensures forall other: Bytes :: RandomString(other) == RandomString(random) ==> other == random
  {
    EncodedShape(random);
    RawRoundTrip(random);
    forall other: Bytes | RandomString(other) == RandomString(random) ensures other == random {
      RawRoundTrip(other);
    }
  }
}
