/** The 32-bit rolling hash over the serialized balance table (computeBalanceHash in
    workflow/ccc-settlement.ts). The serialized text is a sequence of UTF-16 code units. */
module RollingHash {
  import opened Hex

  type CodeUnit = x: int | 0 <= x < 0x1_0000

  const TWO32 := 0x1_0000_0000

  /** ToInt32 of ECMA-262, section 7.1.6, on integers. */
  function ToInt32(x: int): (r: int)
    ensures -0x8000_0000 <= r < 0x8000_0000
  {
    var m := x % TWO32;
    if m >= 0x8000_0000 then m - TWO32 else m
  }

  /** The base-31 polynomial of the code units. */
  function Polynomial(s: seq<CodeUnit>): nat {
    if s == [] then 0 else 31 * Polynomial(s[..|s| - 1]) + s[|s| - 1]
  }

  function Power31(k: nat): nat {
    if k == 0 then 1 else 31 * Power31(k - 1)
  }

  /** The first code unit counts the highest power of 31, the last one counts once. */
  lemma {:induction false} FirstUnitCountsMost(s: seq<CodeUnit>)
    requires s != []
    ensures Polynomial(s) == s[0] * Power31(|s| - 1) + Polynomial(s[1..])
  {
    var front, last := s[..|s| - 1], s[|s| - 1];
    if front == [] {
      assert s[1..] == [];
    } else {
      FirstUnitCountsMost(front);
      assert s[1..][..|s| - 2] == front[1..];
      Distribute(s[0], Power31(|s| - 2), Polynomial(front[1..]));
    }
  }

  lemma Distribute(unit: nat, power: nat, rest: nat)
    ensures 31 * (unit * power + rest) == unit * (31 * power) + 31 * rest
  {
  }

  lemma Wrapped(x: int) returns (k: int)
    ensures ToInt32(x) == x + k * TWO32
  {
    k := if x % TWO32 >= 0x8000_0000 then -(x / TWO32) - 1 else -(x / TWO32);
  }

  lemma ToInt32IsPeriodic(x: int, k: int)
    ensures ToInt32(x + k * TWO32) == ToInt32(x)
  {
    assert (x + k * TWO32) % TWO32 == x % TWO32;
  }

  /** One turn of the loop: shift, subtract, add, cut to 32 bits. */
  function Mix(hash: int, c: CodeUnit): int {
    ToInt32(ToInt32(hash * 32) - hash + c)
  }

  lemma MixFollowsPolynomial(p: int, c: CodeUnit)
    ensures Mix(ToInt32(p), c) == ToInt32(31 * p + c)
  {
    var h := ToInt32(p);
    var b := Wrapped(p);
    var a := Wrapped(h * 32);
    ToInt32IsPeriodic(31 * p + c, 31 * b + a);
    assert ToInt32(h * 32) - h + c == (31 * p + c) + (31 * b + a) * TWO32;
  }

  function Abs(x: int): nat {
    if x < 0 then -x else x
  }

  function Rendered(hash: int): string {
    "0x" + PadStart(HexNumeral(Abs(hash)), 64)
  }

  /** For every text the hash is the base-31 polynomial cut to a signed 32-bit number. */
  method ComputeBalanceHash(serialized: seq<CodeUnit>) returns (text: string)
    ensures text == Rendered(ToInt32(Polynomial(serialized)))
  {
    var hash := 0;
    for i := 0 to |serialized|
      invariant hash == ToInt32(Polynomial(serialized[..i]))
    {
      assert serialized[..i + 1][..i] == serialized[..i];
      MixFollowsPolynomial(Polynomial(serialized[..i]), serialized[i]);
      var unit := serialized[i];
      hash := ToInt32(hash * 32) - hash + unit;
      hash := ToInt32(hash);
    }
    assert serialized[..|serialized|] == serialized;
    text := Rendered(hash);
  }

  /** Every 32-bit hash, -2^31 included, is rendered as "0x" and 64 hexadecimal digits that denote
      its absolute value. */
  lemma RenderedFacts(hash: int)
    requires -0x8000_0000 <= hash < 0x8000_0000
    ensures var t := Rendered(hash);
            && |t| == 66 && t[..2] == "0x"
            && AllHex(t[2..]) && HexNumber(t[2..]) == Abs(hash)
  {
    var s := HexNumeral(Abs(hash));
    assert Power16(8) == TWO32 by {
      assert Power16(4) == 0x1_0000;
      assert Power16(6) == 0x100_0000;
    }
    HexNumeralLength(Abs(hash), 8, TWO32);
    HexNumeralValue(Abs(hash));
    PadStartFacts(s, 64);
    assert Rendered(hash)[2..] == PadStart(s, 64);
  }

  /** Two tables get the same text exactly when their hashes agree up to sign. */
  lemma RenderedCollides(a: int, b: int)
    requires -0x8000_0000 <= a < 0x8000_0000 && -0x8000_0000 <= b < 0x8000_0000
    ensures Rendered(a) == Rendered(b) <==> a == b || a == -b
  {
    RenderedFacts(a);
    RenderedFacts(b);
  }
}
