/** What UTF-8 is (RFC 3629, section 3), and what its lenient reader makes of ill-formed bytes (the
    Unicode standard, section 3.9, substitution of maximal subparts). */
module Utf8Laws {
  import opened Text
  import opened Hex
  import opened RollingHash
  import opened Codec

  function Bits(b: byte, mark: int): int {
    b - mark
  }

  /** The number that a sequence spells: the bits of the lead byte after its length mark, and six of
      each continuation byte. */
  function Payload(b: seq<byte>): int
    requires 1 <= |b| <= 4
  {
    if |b| == 1 then b[0]
    else if |b| == 2 then Bits(b[0], 0xC0) * 0x40 + Tail(b[1])
    else if |b| == 3 then (Bits(b[0], 0xE0) * 0x40 + Tail(b[1])) * 0x40 + Tail(b[2])
    else ((Bits(b[0], 0xF0) * 0x40 + Tail(b[1])) * 0x40 + Tail(b[2])) * 0x40 + Tail(b[3])
  }

  /** The lead byte announces the length, and continuation bytes follow. */
  predicate HasForm(b: seq<byte>) {
    && 1 <= |b| <= 4
    && (if |b| == 1 then b[0] < 0x80
        else if |b| == 2 then 0xC0 <= b[0] < 0xE0
        else if |b| == 3 then 0xE0 <= b[0] < 0xF0
        else 0xF0 <= b[0] < 0xF8)
    && forall i | 1 <= i < |b| :: Continues(b[i])
  }

  /** The shortest length that has room for the number. */
  function Length(c: Scalar): nat {
    if c < 0x80 then 1 else if c < 0x800 then 2 else if c < 0x1_0000 then 3 else 4
  }

  lemma Utf8Spells(c: Scalar)
    ensures HasForm(Utf8(c)) && |Utf8(c)| == Length(c) && Payload(Utf8(c)) == c
  {
    if 0x800 <= c {
      ThreeDigits(c);
    }
  }

  lemma SameDigit(x: int, r: int, x': int, r': int)
    requires 0 <= r < 0x40 && 0 <= r' < 0x40 && x * 0x40 + r == x' * 0x40 + r'
    ensures x == x' && r == r'
  {
  }

  lemma SamePayload(b: seq<byte>, b': seq<byte>)
    requires HasForm(b) && HasForm(b') && |b| == |b'| && Payload(b) == Payload(b')
    ensures b == b'
  {
    var n := |b|;
    if n == 2 {
      SameDigit(Bits(b[0], 0xC0), Tail(b[1]), Bits(b'[0], 0xC0), Tail(b'[1]));
    } else if n == 3 {
      SameDigit(Bits(b[0], 0xE0) * 0x40 + Tail(b[1]), Tail(b[2]), Bits(b'[0], 0xE0) * 0x40 + Tail(b'[1]), Tail(b'[2]));
      SameDigit(Bits(b[0], 0xE0), Tail(b[1]), Bits(b'[0], 0xE0), Tail(b'[1]));
    } else if n == 4 {
      SameFour(b, b');
    }
    assert forall i | 0 <= i < n :: b[i] == b'[i];
  }

  lemma SameFour(b: seq<byte>, b': seq<byte>)
    requires HasForm(b) && HasForm(b') && |b| == 4 == |b'| && Payload(b) == Payload(b')
    ensures b[0] == b'[0] && b[1] == b'[1] && b[2] == b'[2] && b[3] == b'[3]
  {
    var x, x' := Bits(b[0], 0xF0) * 0x40 + Tail(b[1]), Bits(b'[0], 0xF0) * 0x40 + Tail(b'[1]);
    SameDigit(x * 0x40 + Tail(b[2]), Tail(b[3]), x' * 0x40 + Tail(b'[2]), Tail(b'[3]));
    SameDigit(x, Tail(b[2]), x', Tail(b'[2]));
    SameDigit(Bits(b[0], 0xF0), Tail(b[1]), Bits(b'[0], 0xF0), Tail(b'[1]));
  }

  /** A byte string encodes a scalar value exactly when it has the form of UTF-8, spells the number
      and is as short as possible. */
  lemma Utf8Exactly(c: Scalar, b: seq<byte>)
    ensures b == Utf8(c) <==> HasForm(b) && |b| == Length(c) && Payload(b) == c
  {
    Utf8Spells(c);
    if HasForm(b) && |b| == Length(c) && Payload(b) == c {
      SamePayload(b, Utf8(c));
    }
  }

  // ------------------------------------------------------------ ill-formed input

  /** The length that a lead byte announces, 0 for a byte that leads nothing. */
  function Announced(lead: byte): nat {
    if lead < 0x80 then 1
    else if lead < 0xC2 || lead > 0xF4 then 0
    else if lead < 0xE0 then 2
    else if lead < 0xF0 then 3
    else 4
  }

  lemma EncodingIsLegal(c: Scalar)
    ensures |Utf8(c)| == Announced(Utf8(c)[0])
    ensures |Utf8(c)| >= 2 ==> SecondFits(Utf8(c)[0], Utf8(c)[1])
    ensures forall i | 1 <= i < |Utf8(c)| :: Continues(Utf8(c)[i])
  {
    Utf8Spells(c);
  }

  /** Some scalar value's encoding starts with these bytes. */
  ghost predicate Begins(b: seq<byte>) {
    exists c: Scalar :: b <= Utf8(c)
  }

  lemma BeginsLegally(b: seq<byte>)
    requires b != [] && Begins(b)
    ensures |b| <= Announced(b[0])
    ensures |b| >= 2 ==> SecondFits(b[0], b[1])
    ensures forall i | 1 <= i < |b| :: Continues(b[i])
  {
    var c: Scalar :| b <= Utf8(c);
    EncodingIsLegal(c);
    assert forall i | 0 <= i < |b| :: b[i] == Utf8(c)[i];
  }

  lemma TwoOfThree(b0: byte, b1: byte)
    requires 0xE0 <= b0 < 0xF0 && SecondFits(b0, b1)
    ensures Begins([b0, b1])
  {
    var b: seq<byte> := [b0, b1, 0x80];
    var c := Payload(b);
    assert 0x800 <= c < 0x1_0000 && !(0xD800 <= c < 0xE000);
    Utf8Exactly(c, b);
    assert [b0, b1] <= Utf8(c);
  }

  lemma ThreeOfFour(b0: byte, b1: byte, b2: byte)
    requires 0xF0 <= b0 <= 0xF4 && SecondFits(b0, b1) && Continues(b2)
    ensures Begins([b0, b1, b2]) && Begins([b0, b1])
  {
    var b: seq<byte> := [b0, b1, b2, 0x80];
    var c := Payload(b);
    assert 0x1_0000 <= c < 0x11_0000;
    Utf8Exactly(c, b);
    assert [b0, b1, b2] <= Utf8(c) && [b0, b1] <= Utf8(c);
  }

  /** The reader's own reason to accept: the announced bytes are there and fit. */
  predicate Fits(b: seq<byte>)
    requires b != []
  {
    var n := Announced(b[0]);
    && 1 <= n <= |b|
    && (n >= 2 ==> SecondFits(b[0], b[1]))
    && (n >= 3 ==> Continues(b[2]))
    && (n >= 4 ==> Continues(b[3]))
  }

  lemma FittingIsWhole(b: seq<byte>)
    requires b != [] && Fits(b)
    ensures var (c, n) := DecodeFirst(b); n == Announced(b[0]) && Utf8(c) == b[..n]
  {
    var (c, n) := DecodeFirst(b);
    assert n == Announced(b[0]);
    assert HasForm(b[..n]);
    assert Payload(b[..n]) == c && n == Length(c);
    Utf8Exactly(c, b[..n]);
  }

  lemma MisfitIsReplaced(b: seq<byte>)
    requires b != [] && !Fits(b)
    ensures var (c, n) := DecodeFirst(b);
            && c == REPLACEMENT
            && (n == 1 || Begins(b[..n]))
            && (n < |b| ==> !Begins(b[..n + 1]))
  {
    var (_, n) := DecodeFirst(b);
    if n == 2 {
      assert b[..2] == [b[0], b[1]];
      if b[0] < 0xF0 {
        TwoOfThree(b[0], b[1]);
      } else {
        ThreeOfFour(b[0], b[1], 0x80);
      }
    } else if n == 3 {
      assert b[..3] == [b[0], b[1], b[2]];
      ThreeOfFour(b[0], b[1], b[2]);
    }
    if n < |b| && Begins(b[..n + 1]) {
      BeginsLegally(b[..n + 1]);
      assert false;
    }
  }

  lemma FitsExactly(b: seq<byte>)
    requires b != []
    ensures Fits(b) <==> exists c: Scalar :: Utf8(c) <= b
  {
    if Fits(b) {
      FittingIsWhole(b);
      assert Utf8(DecodeFirst(b).0) <= b;
    }
    if c: Scalar :| Utf8(c) <= b {
      EncodingIsLegal(c);
      assert forall i | 0 <= i < |Utf8(c)| :: b[i] == Utf8(c)[i];
    }
  }

  /** What the reader makes of any bytes: if they start with the encoding of a scalar value it returns
      that value; otherwise it returns the replacement character for the longest start that could have
      become an encoding, or for a single byte when there is none. */
  lemma ReaderExactly(b: seq<byte>)
    requires b != []
    ensures var (c, n) := DecodeFirst(b);
            if exists c': Scalar :: Utf8(c') <= b then Utf8(c) == b[..n]
            else && c == 0xFFFD
                 && (n == 1 || Begins(b[..n]))
                 && (n < |b| ==> !Begins(b[..n + 1]))
  {
    FitsExactly(b);
    if Fits(b) {
      FittingIsWhole(b);
    } else {
      MisfitIsReplaced(b);
    }
  }
}
