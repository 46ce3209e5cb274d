/** Hexadecimal text (base 16 of RFC 4648, section 8), written in lower case, and the two readers
    of it: the strict one of Go's encoding/hex and the lenient one of Node's Buffer. */
module Hex {
  import opened Text

  type byte = x: int | 0 <= x < 0x100

  function Digit(n: nat): (c: char)
    requires n < 16
    ensures IsHex(c) && DigitValue(c) == n
  {
    if n < 10 then '0' + n as char else 'a' + (n - 10) as char
  }

  predicate IsHex(c: char) {
    '0' <= c <= '9' || 'a' <= c <= 'f' || 'A' <= c <= 'F'
  }

  function DigitValue(c: char): (n: nat)
    requires IsHex(c)
    ensures n < 16
  {
    if c <= '9' then (c - '0') as nat
    else if c <= 'F' then (c - 'A') as nat + 10
    else (c - 'a') as nat + 10
  }

  function Encode(bytes: seq<byte>): (s: string)
    ensures |s| == 2 * |bytes|
    decreases bytes
  {
    if bytes == [] then "" else [Digit(bytes[0] / 16), Digit(bytes[0] % 16)] + Encode(bytes[1..])
  }

  /** encoding/hex: an odd length or any other character is an error. */
  function Decode(s: string): Option<seq<byte>> {
    if s == [] then Some([])
    else if |s| == 1 || !IsHex(s[0]) || !IsHex(s[1]) then None
    else
      match Decode(s[2..])
      case None => None
      case Some(rest) => Some([16 * DigitValue(s[0]) + DigitValue(s[1])] + rest)
  }

  /** Node: reads pairs until the first that is none, and drops the rest. */
  function DecodeLenient(s: string): seq<byte> {
    if |s| < 2 || !IsHex(s[0]) || !IsHex(s[1]) then []
    else [16 * DigitValue(s[0]) + DigitValue(s[1])] + DecodeLenient(s[2..])
  }

  /** The strict reader accepts exactly the texts that are the encoding of their value up to case. */
  lemma {:induction false} DecodeExactly(s: string, bytes: seq<byte>)
    ensures Decode(s) == Some(bytes) <==> Lower(s) == Encode(bytes)
    decreases |s|
  {
    if |s| >= 2 {
      if bytes != [] {
        DecodeExactly(s[2..], bytes[1..]);
        PairExactly(s[0], s[1], bytes[0]);
        assert Lower(s)[2..] == Lower(s[2..]);
        assert Encode(bytes)[2..] == Encode(bytes[1..]);
        assert Lower(s) == [LowerChar(s[0]), LowerChar(s[1])] + Lower(s)[2..];
        assert bytes == [bytes[0]] + bytes[1..];
        if Lower(s) == Encode(bytes) {
          assert LowerChar(s[0]) == Encode(bytes)[0] && LowerChar(s[1]) == Encode(bytes)[1];
        }
      }
    }
  }

  lemma PairExactly(a: char, b: char, v: byte)
    ensures (IsHex(a) && IsHex(b) && 16 * DigitValue(a) + DigitValue(b) == v)
       <==> (LowerChar(a) == Digit(v / 16) && LowerChar(b) == Digit(v % 16))
  {
    assert forall n | 0 <= n < 16 :: IsHex(Digit(n)) && DigitValue(Digit(n)) == n;
    LowerHex(a);
    LowerHex(b);
  }

  lemma LowerHex(c: char)
    ensures IsHex(LowerChar(c)) == IsHex(c)
    ensures IsHex(c) ==> LowerChar(c) == Digit(DigitValue(c))
  {
  }

  lemma {:induction false} LowerOfEncode(bytes: seq<byte>)
    ensures Lower(Encode(bytes)) == Encode(bytes)
  {
    if bytes != [] {
      LowerOfEncode(bytes[1..]);
      var s := Encode(bytes);
      assert s[2..] == Encode(bytes[1..]);
      assert Lower(s) == [LowerChar(s[0]), LowerChar(s[1])] + Lower(s[2..]);
    }
  }

  lemma DecodeRoundTrip(bytes: seq<byte>)
    ensures Decode(Encode(bytes)) == Some(bytes)
  {
    LowerOfEncode(bytes);
    DecodeExactly(Encode(bytes), bytes);
  }

  lemma {:induction false} DecodeLenientRoundTrip(bytes: seq<byte>)
    ensures DecodeLenient(Encode(bytes)) == bytes
  {
    if bytes != [] {
      DecodeLenientRoundTrip(bytes[1..]);
      assert Encode(bytes)[2..] == Encode(bytes[1..]);
    }
  }

  /** s starts with the digits of bytes, in either case, and no further pair of digits follows. */
  predicate ReadsAs(s: string, bytes: seq<byte>) {
    var n := 2 * |bytes|;
    && n <= |s| && Lower(s[..n]) == Encode(bytes)
    && (n + 2 <= |s| ==> !IsHex(s[n]) || !IsHex(s[n + 1]))
  }

  /** The lenient reader reads as many pairs of digits as there are at the start, and no more. */
  lemma {:induction false} DecodeLenientExactly(s: string)
    ensures ReadsAs(s, DecodeLenient(s))
  {
    if |s| >= 2 && IsHex(s[0]) && IsHex(s[1]) {
      DecodeLenientExactly(s[2..]);
      ReadsOneMore(s, DecodeLenient(s[2..]));
    } else {
      assert s[..0] == "";
    }
  }

  lemma ReadsOneMore(s: string, rest: seq<byte>)
    requires |s| >= 2 && IsHex(s[0]) && IsHex(s[1]) && ReadsAs(s[2..], rest)
    ensures ReadsAs(s, [16 * DigitValue(s[0]) + DigitValue(s[1])] + rest)
  {
    var v := 16 * DigitValue(s[0]) + DigitValue(s[1]);
    var bytes := [v] + rest;
    var n := 2 * |bytes|;
    PairExactly(s[0], s[1], v);
    assert bytes[1..] == rest;
    assert s[2..][..n - 2] == s[2..n];
    assert Lower(s[..n]) == [LowerChar(s[0]), LowerChar(s[1])] + Lower(s[2..n]);
    assert n + 2 <= |s| ==> s[2..][n - 2] == s[n] && s[2..][n - 1] == s[n + 1];
  }

  // ---------------------------------------------------------------- numbers

  /** A number in base 16 without leading zeros. */
  function HexNumeral(n: nat): (s: string)
    ensures s != [] && forall i | 0 <= i < |s| :: IsHex(s[i])
  {
    if n < 16 then [Digit(n)] else HexNumeral(n / 16) + [Digit(n % 16)]
  }

  predicate AllHex(s: string) {
    forall i | 0 <= i < |s| :: IsHex(s[i])
  }

  function HexNumber(s: string): nat
    requires AllHex(s)
  {
    if s == [] then 0 else 16 * HexNumber(s[..|s| - 1]) + DigitValue(s[|s| - 1])
  }

  function PadStart(s: string, width: nat): string
    decreases width - |s|
  {
    if |s| >= width then s else PadStart("0" + s, width)
  }

  lemma {:induction false} HexNumeralValue(n: nat)
    ensures HexNumber(HexNumeral(n)) == n
  {
    var s := HexNumeral(n);
    if n >= 16 {
      HexNumeralValue(n / 16);
      assert s[..|s| - 1] == HexNumeral(n / 16);
    } else {
      assert s[..|s| - 1] == [];
    }
  }

  lemma {:induction false} HexNumeralLength(n: nat, width: nat, bound: nat)
    requires n < bound && bound == Power16(width)
    ensures |HexNumeral(n)| <= if width == 0 then 1 else width
  {
    if n >= 16 {
      HexNumeralLength(n / 16, width - 1, Power16(width - 1));
    }
  }

  function Power16(k: nat): nat {
    if k == 0 then 1 else 16 * Power16(k - 1)
  }

  lemma {:induction false} LeadingZero(s: string)
    requires AllHex(s)
    ensures AllHex("0" + s) && HexNumber("0" + s) == HexNumber(s)
  {
    var t := "0" + s;
    if s == [] {
      assert t[..|t| - 1] == [];
    } else {
      LeadingZero(s[..|s| - 1]);
      assert t[..|t| - 1] == "0" + s[..|s| - 1];
    }
  }

  lemma {:induction false} PadStartFacts(s: string, width: nat)
    requires AllHex(s)
    ensures var p := PadStart(s, width);
            AllHex(p) && HexNumber(p) == HexNumber(s) && |p| == if |s| >= width then |s| else width
    decreases width - |s|
  {
    if |s| < width {
      LeadingZero(s);
      PadStartFacts("0" + s, width);
    }
  }
}
