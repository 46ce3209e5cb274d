/** The text codecs: the simulated enclave encryption (UTF-8 and hex, workflow/ccc-settlement.ts)
    and the digests and bundle file names of the secrets commands (handler.go, bundle.go). */
module Codec {
  import opened Text
  import opened Hex
  import opened RollingHash

  // ---------------------------------------------------- UTF-16 and scalars

  type Scalar = x: int | 0 <= x < 0xD800 || 0xE000 <= x < 0x11_0000

  const REPLACEMENT: Scalar := 0xFFFD

  predicate IsHigh(u: CodeUnit) {
    0xD800 <= u < 0xDC00
  }

  predicate IsLow(u: CodeUnit) {
    0xDC00 <= u < 0xE000
  }

  /** The scalar values of a JavaScript string; a surrogate without its partner is replaced. */
  function Scalars(s: seq<CodeUnit>): seq<Scalar> {
    if s == [] then []
    else if |s| >= 2 && IsHigh(s[0]) && IsLow(s[1]) then
      [0x1_0000 + (s[0] - 0xD800) * 0x400 + (s[1] - 0xDC00)] + Scalars(s[2..])
    else [if IsHigh(s[0]) || IsLow(s[0]) then REPLACEMENT else s[0]] + Scalars(s[1..])
  }

  function Utf16(c: Scalar): seq<CodeUnit> {
    if c < 0x1_0000 then [c]
    else [0xD800 + (c - 0x1_0000) / 0x400, 0xDC00 + (c - 0x1_0000) % 0x400]
  }

  function Utf16All(cs: seq<Scalar>): seq<CodeUnit> {
    if cs == [] then [] else Utf16(cs[0]) + Utf16All(cs[1..])
  }

  /** No surrogate stands without its partner. */
  predicate WellFormed(s: seq<CodeUnit>) {
    s == []
    || (if |s| >= 2 && IsHigh(s[0]) && IsLow(s[1]) then WellFormed(s[2..])
        else !IsHigh(s[0]) && !IsLow(s[0]) && WellFormed(s[1..]))
  }

  lemma {:induction false} ScalarsLoseNothingExactly(s: seq<CodeUnit>)
    ensures Utf16All(Scalars(s)) == s <==> WellFormed(s)
    ensures |Utf16All(Scalars(s))| == |s|
  {
    if s != [] {
      var cs := Scalars(s);
      if |s| >= 2 && IsHigh(s[0]) && IsLow(s[1]) {
        ScalarsLoseNothingExactly(s[2..]);
        assert cs[1..] == Scalars(s[2..]);
        assert Utf16(cs[0]) == s[..2];
        assert s == s[..2] + s[2..];
        assert Utf16All(cs)[2..] == Utf16All(cs[1..]);
      } else {
        ScalarsLoseNothingExactly(s[1..]);
        assert cs[1..] == Scalars(s[1..]);
        assert Utf16All(cs) == Utf16(cs[0]) + Utf16All(cs[1..]);
        assert s == [s[0]] + s[1..];
        assert Utf16All(cs)[1..] == Utf16All(cs[1..]) && Utf16All(cs)[0] == cs[0];
      }
    }
  }

  // ------------------------------------------------------------------ UTF-8

  function Utf8(c: Scalar): seq<byte> {
    if c < 0x80 then [c]
    else if c < 0x800 then [0xC0 + c / 0x40, 0x80 + c % 0x40]
    else if c < 0x1_0000 then [0xE0 + c / 0x1000, 0x80 + c / 0x40 % 0x40, 0x80 + c % 0x40]
    else [0xF0 + c / 0x4_0000, 0x80 + c / 0x1000 % 0x40, 0x80 + c / 0x40 % 0x40, 0x80 + c % 0x40]
  }

  function Utf8All(cs: seq<Scalar>): seq<byte> {
    if cs == [] then [] else Utf8(cs[0]) + Utf8All(cs[1..])
  }

  predicate Continues(b: byte) {
    0x80 <= b < 0xC0
  }

  function Tail(b: byte): int {
    b - 0x80
  }

  /** The second byte that may follow a leading byte: overlong forms, surrogates and values above
      the last code point are excluded. */
  predicate SecondFits(lead: byte, b: byte) {
    && Continues(b)
    && (lead == 0xE0 ==> b >= 0xA0) && (lead == 0xED ==> b < 0xA0)
    && (lead == 0xF0 ==> b >= 0x90) && (lead == 0xF4 ==> b < 0x90)
  }

  /** The first scalar value of a byte string and the bytes it takes. Ill-formed input yields the
      replacement character for each maximal prefix of a sequence. */
  function DecodeFirst(b: seq<byte>): (r: (Scalar, nat))
    requires b != []
    ensures 1 <= r.1 <= |b|
  {
    var b0: int := b[0];
    if b0 < 0x80 then (b0, 1)
    else if b0 < 0xC2 || b0 > 0xF4 then (REPLACEMENT, 1)
    else if |b| < 2 || !SecondFits(b0, b[1]) then (REPLACEMENT, 1)
    else if b0 < 0xE0 then ((b0 - 0xC0) * 0x40 + Tail(b[1]), 2)
    else if |b| < 3 || !Continues(b[2]) then (REPLACEMENT, 2)
    else if b0 < 0xF0 then ((b0 - 0xE0) * 0x1000 + Tail(b[1]) * 0x40 + Tail(b[2]), 3)
    else if |b| < 4 || !Continues(b[3]) then (REPLACEMENT, 3)
    else ((b0 - 0xF0) * 0x4_0000 + Tail(b[1]) * 0x1000 + Tail(b[2]) * 0x40 + Tail(b[3]), 4)
  }

  function DecodeUtf8(b: seq<byte>): seq<Scalar> {
    if b == [] then []
    else
      var (c, n) := DecodeFirst(b);
      [c] + DecodeUtf8(b[n..])
  }

  lemma DecodeFirstOfEncoded(c: Scalar, rest: seq<byte>)
    ensures DecodeFirst(Utf8(c) + rest) == (c, |Utf8(c)|)
  {
    var b := Utf8(c) + rest;
    assert forall i | 0 <= i < |Utf8(c)| :: b[i] == Utf8(c)[i];
    if 0x800 <= c {
      ThreeDigits(c);
    }
  }

  /** The base-64 digits of a number. */
  lemma ThreeDigits(c: nat)
    ensures c == c / 0x1000 * 0x1000 + c / 0x40 % 0x40 * 0x40 + c % 0x40
    ensures c / 0x1000 == c / 0x4_0000 * 0x40 + c / 0x1000 % 0x40
  {
    assert c / 0x40 / 0x40 == c / 0x1000;
    assert c / 0x1000 / 0x40 == c / 0x4_0000;
  }

  lemma DecodeOfEncoded(c: Scalar, rest: seq<byte>)
    ensures DecodeUtf8(Utf8(c) + rest) == [c] + DecodeUtf8(rest)
  {
    DecodeFirstOfEncoded(c, rest);
    assert (Utf8(c) + rest)[|Utf8(c)|..] == rest;
  }

  lemma {:induction false} Utf8RoundTrip(cs: seq<Scalar>)
    ensures DecodeUtf8(Utf8All(cs)) == cs
  {
    if cs != [] {
      Utf8RoundTrip(cs[1..]);
      DecodeOfEncoded(cs[0], Utf8All(cs[1..]));
    }
  }

  // ------------------------------------------------------- enclave encryption

  function CccEncrypt(plaintext: seq<CodeUnit>): string {
    "0x" + Encode(Utf8All(Scalars(plaintext)))
  }

  /** String.replace with a string pattern: the first occurrence, wherever it stands. */
  function RemoveFirst(s: string, pattern: string): string {
    if pattern <= s then s[|pattern|..]
    else if s == [] then s
    else [s[0]] + RemoveFirst(s[1..], pattern)
  }

  function CccDecrypt(encrypted: string): seq<CodeUnit> {
    Utf16All(DecodeUtf8(DecodeLenient(RemoveFirst(encrypted, "0x"))))
  }

  /** Decryption undoes encryption exactly for the strings without lone surrogates. */
  lemma CccRoundTripExactly(plaintext: seq<CodeUnit>)
    ensures CccDecrypt(CccEncrypt(plaintext)) == plaintext <==> WellFormed(plaintext)
  {
    var bytes := Utf8All(Scalars(plaintext));
    assert CccEncrypt(plaintext)[2..] == Encode(bytes);
    DecodeLenientRoundTrip(bytes);
    Utf8RoundTrip(Scalars(plaintext));
    ScalarsLoseNothingExactly(plaintext);
  }

  /** The encrypted text is 0x and the lower-case hexadecimal digits of the UTF-8 bytes. */
  lemma EncryptedText(plaintext: seq<CodeUnit>)
    ensures var text, bytes := CccEncrypt(plaintext), Utf8All(Scalars(plaintext));
            && |text| == 2 + 2 * |bytes| && text[..2] == "0x"
            && Lower(text[2..]) == text[2..] && Decode(text[2..]) == Some(bytes)
  {
    var bytes := Utf8All(Scalars(plaintext));
    assert CccEncrypt(plaintext)[2..] == Encode(bytes);
    LowerOfEncode(bytes);
    DecodeRoundTrip(bytes);
  }

  /** A surrogate whose partner does not stand beside it. */
  predicate Lone(s: seq<CodeUnit>, i: nat)
    requires i < |s|
  {
    || (IsHigh(s[i]) && !(i + 1 < |s| && IsLow(s[i + 1])))
    || (IsLow(s[i]) && !(i > 0 && IsHigh(s[i - 1])))
  }

  lemma {:induction false} ScalarsReplaceLone(s: seq<CodeUnit>, i: nat)
    requires i < |s|
    ensures var r := Utf16All(Scalars(s));
            |r| == |s| && r[i] == if Lone(s, i) then REPLACEMENT else s[i]
  {
    ScalarsLoseNothingExactly(s);
    var cs := Scalars(s);
    var n := if |s| >= 2 && IsHigh(s[0]) && IsLow(s[1]) then 2 else 1;
    var rest := Utf16All(Scalars(s[n..]));
    assert cs[1..] == Scalars(s[n..]);
    assert Utf16All(cs) == Utf16(cs[0]) + rest;
    ScalarsLoseNothingExactly(s[n..]);
    if i >= n {
      ScalarsReplaceLone(s[n..], i - n);
      assert Utf16All(cs)[i] == rest[i - n];
      assert Lone(s[n..], i - n) <==> Lone(s, i);
    } else if n == 2 {
      assert Utf16(cs[0]) == s[..2];
    }
  }

  /** For every string, decryption of its encryption is the string with each lone surrogate replaced. */
  lemma CccRoundTrip(plaintext: seq<CodeUnit>)
    ensures var r := CccDecrypt(CccEncrypt(plaintext));
            && |r| == |plaintext|
            && forall i | 0 <= i < |r| :: r[i] == if Lone(plaintext, i) then 0xFFFD else plaintext[i]
  {
    var bytes := Utf8All(Scalars(plaintext));
    assert CccEncrypt(plaintext)[2..] == Encode(bytes);
    DecodeLenientRoundTrip(bytes);
    Utf8RoundTrip(Scalars(plaintext));
    ScalarsLoseNothingExactly(plaintext);
    forall i | 0 <= i < |plaintext|
      ensures Utf16All(Scalars(plaintext))[i] == if Lone(plaintext, i) then REPLACEMENT else plaintext[i]
    {
      ScalarsReplaceLone(plaintext, i);
    }
  }

  lemma {:induction false} NothingRemoved(s: string, pattern: string)
    requires forall p | 0 <= p <= |s| :: !(pattern <= s[p..])
    ensures RemoveFirst(s, pattern) == s
  {
    assert s[0..] == s;
    if s != [] {
      forall p | 0 <= p <= |s[1..]| ensures !(pattern <= s[1..][p..]) {
        assert s[1..][p..] == s[p + 1..];
      }
      NothingRemoved(s[1..], pattern);
    }
  }

  ghost predicate NotBefore(s: string, pattern: string, k: nat)
    requires k <= |s|
  {
    forall p | 0 <= p < k :: !(pattern <= s[p..])
  }

  lemma NotBeforeTail(s: string, pattern: string, k: nat)
    requires 1 <= k <= |s| && NotBefore(s, pattern, k)
    ensures !(pattern <= s) && NotBefore(s[1..], pattern, k - 1)
  {
    assert s[0..] == s;
    forall p | 0 <= p < k - 1 ensures !(pattern <= s[1..][p..]) {
      assert s[1..][p..] == s[p + 1..];
    }
  }

  /** The prefix is removed at its first occurrence, wherever that is, and once. */
  lemma {:induction false} FirstIsRemoved(pre: string, pattern: string, post: string)
    requires NotBefore(pre + (pattern + post), pattern, |pre|)
    ensures RemoveFirst(pre + (pattern + post), pattern) == pre + post
  {
    var s := pre + (pattern + post);
    if pre == "" {
      assert s == pattern + post && s[|pattern|..] == post;
    } else {
      NotBeforeTail(s, pattern, |pre|);
      assert s[1..] == pre[1..] + (pattern + post);
      FirstIsRemoved(pre[1..], pattern, post);
      assert [s[0]] + (pre[1..] + post) == pre + post;
    }
  }

  // -------------------------------------------------------- digests and bundles

  function TrimPrefix0x(h: string): string {
    if "0x" <= h then h[2..] else h
  }

  function HexToBytes32(h: string): Option<seq<byte>> {
    match Decode(TrimPrefix0x(h))
    case None => None
    case Some(b) => if |b| == 32 then Some(b) else None
  }

  predicate IsDigestText(h: string, digest: seq<byte>) {
    |digest| == 32 && (Lower(h) == Encode(digest) || ("0x" <= h && Lower(h[2..]) == Encode(digest)))
  }

  /** A text is read as a digest exactly when it is the digest's 64 hexadecimal digits in either
      case, by themselves or after 0x. */
  lemma HexToBytes32Exactly(h: string, digest: seq<byte>)
    ensures HexToBytes32(h) == Some(digest) <==> IsDigestText(h, digest)
  {
    DecodeExactly(TrimPrefix0x(h), digest);
    EncodeIsHex(digest);
    if "0x" <= h {
      assert Lower(h)[1] == 'x';
      assert !AllHex(Lower(h));
    }
  }

  lemma {:induction false} EncodeIsHex(bytes: seq<byte>)
    ensures AllHex(Encode(bytes))
  {
    if bytes != [] {
      EncodeIsHex(bytes[1..]);
    }
  }

  lemma DigestRoundTrip(digest: seq<byte>)
    requires |digest| == 32
    ensures HexToBytes32("0x" + Encode(digest)) == Some(digest)
  {
    var h := "0x" + Encode(digest);
    assert h[2..] == Encode(digest);
    DecodeRoundTrip(digest);
  }

  function BundleFilename(digest: seq<byte>): string {
    Encode(digest) + ".json"
  }

  /** A bundle file is named by the digits of its digest. */
  lemma BundleFilenameIs(digest: seq<byte>)
    requires |digest| == 32
    ensures var f := BundleFilename(digest);
            |f| == 69 && f[64..] == ".json" && Decode(f[..64]) == Some(digest) && Lower(f[..64]) == f[..64]
  {
    assert BundleFilename(digest)[..64] == Encode(digest);
    DecodeRoundTrip(digest);
    LowerOfEncode(digest);
  }

  /** Different digests get different bundle files. */
  lemma BundleFilenameInjective(d: seq<byte>, d': seq<byte>)
    requires BundleFilename(d) == BundleFilename(d')
    ensures d == d'
  {
    var f, f' := BundleFilename(d), BundleFilename(d');
    assert f[..|f| - 5] == Encode(d) && f'[..|f'| - 5] == Encode(d');
    DecodeRoundTrip(d);
    DecodeRoundTrip(d');
  }
}
