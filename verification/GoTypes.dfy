/** What the Go type expressions mean: which integers they hold, and which Solidity types share one. */
module GoTypes {
  import opened Text
  import opened StructTable
  import opened CanonicalTypes

  function Power2(k: nat): nat {
    if k == 0 then 1 else 2 * Power2(k - 1)
  }

  /** The integers that values of a Solidity type can be. */
  predicate SolidityHolds(t: AbiType, v: int)
    requires (t.IntTy? || t.UintTy?) && t.bits > 0
  {
    if t.IntTy? then 0 - Power2(t.bits - 1) <= v < Power2(t.bits - 1) else 0 <= v < Power2(t.bits)
  }

  const MACHINE_WIDTHS: set<nat> := {8, 16, 32, 64}

  /** The integers that values of a Go type can be: intN and uintN for the four machine widths
      (section Numeric types of the Go specification), and any integer for *big.Int. */
  ghost predicate GoHolds(goType: string, v: int) {
    || goType == "*big.Int"
    || (exists n | n in MACHINE_WIDTHS :: goType == "int" + Decimal(n) && 0 - Power2(n - 1) <= v < Power2(n - 1))
    || (exists n | n in MACHINE_WIDTHS :: goType == "uint" + Decimal(n) && 0 <= v < Power2(n))
  }

  lemma MachineNames(n: nat, m: nat)
    ensures "int" + Decimal(n) == "int" + Decimal(m) <==> n == m
    ensures "uint" + Decimal(n) == "uint" + Decimal(m) <==> n == m
    ensures "int" + Decimal(n) != "uint" + Decimal(m)
    ensures "int" + Decimal(n) != "*big.Int" && "uint" + Decimal(n) != "*big.Int"
  {
    var a, b := "int" + Decimal(n), "uint" + Decimal(n);
    var a', b' := "int" + Decimal(m), "uint" + Decimal(m);
    assert a[0] == 'i' && b[0] == 'u' && b'[0] == 'u';
    assert a[3..] == Decimal(n) && a'[3..] == Decimal(m) && b[4..] == Decimal(n) && b'[4..] == Decimal(m);
    if Decimal(n) == Decimal(m) {
      DecimalInjective(n, m);
    }
  }

  lemma IntHolds(n: nat, v: int)
    requires n in MACHINE_WIDTHS
    ensures GoHolds("int" + Decimal(n), v) <==> 0 - Power2(n - 1) <= v < Power2(n - 1)
  {
    forall m
      ensures "int" + Decimal(n) == "int" + Decimal(m) <==> n == m
      ensures "int" + Decimal(n) != "uint" + Decimal(m)
    {
      MachineNames(n, m);
    }
    MachineNames(n, n);
  }

  lemma UintHolds(n: nat, v: int)
    requires n in MACHINE_WIDTHS
    ensures GoHolds("uint" + Decimal(n), v) <==> 0 <= v < Power2(n)
  {
    forall m
      ensures "uint" + Decimal(n) == "uint" + Decimal(m) <==> n == m
      ensures "int" + Decimal(m) != "uint" + Decimal(n)
    {
      MachineNames(n, m);
      MachineNames(m, n);
    }
    MachineNames(n, n);
  }

  /** The Go type of an integer type holds all its values, and nothing else when it is not *big.Int;
      it is a machine integer whenever Go has one of that width. */
  lemma IntegersFit(t: AbiType, v: int)
    requires (t.IntTy? || t.UintTy?) && t.bits > 0
    ensures SolidityHolds(t, v) ==> GoHolds(GoBasicType(t), v)
    ensures GoBasicType(t) != "*big.Int" ==> (GoHolds(GoBasicType(t), v) <==> SolidityHolds(t, v))
    ensures GoBasicType(t) == "*big.Int" <==> t.bits !in MACHINE_WIDTHS
  {
    if t.bits in MACHINE_WIDTHS {
      IntHolds(t.bits, v);
      UintHolds(t.bits, v);
      MachineNames(t.bits, t.bits);
    }
  }

  // ------------------------------------------------------- which types share one

  predicate IsBig(t: AbiType) {
    (t.IntTy? || t.UintTy?) && t.bits !in MACHINE_WIDTHS
  }

  predicate Is24Bytes(t: AbiType) {
    t.FunctionTy? || t == FixedBytesTy(24)
  }

  /** A dimension, as it stands before the element. */
  function Dimension(size: string): string {
    "[" + size + "]"
  }

  /** The bracket after the size is the first closing one. */
  ghost predicate FirstBracketAt(s: string, k: nat) {
    k < |s| && s[k] == ']' && forall j | 0 <= j < k :: s[j] != ']'
  }

  lemma FirstDimension(d: string, rest: string, d': string, rest': string)
    requires AllDigits(d) && AllDigits(d')
    requires Dimension(d) + rest == Dimension(d') + rest'
    ensures d == d' && rest == rest'
  {
    var s, s' := Dimension(d) + rest, Dimension(d') + rest';
    assert FirstBracketAt(s, |d| + 1) && FirstBracketAt(s', |d'| + 1);
    assert s[1..|d| + 1] == d && s'[1..|d'| + 1] == d';
    assert s[|d| + 2..] == rest && s'[|d'| + 2..] == rest';
  }

  lemma BasicGoText(t: AbiType)
    requires IsBasic(t)
    ensures var s := GoBasicType(t);
            match t
            case AddressTy => s == "common.Address"
            case BoolTy => s == "bool"
            case StringTy => s == "string"
            case BytesTy => s == Dimension("") + "byte"
            case FunctionTy => s == Dimension(Decimal(24)) + "byte"
            case IntTy(bits) => s == if IsBig(t) then "*big.Int" else "int" + Decimal(bits)
            case UintTy(bits) => s == if IsBig(t) then "*big.Int" else "uint" + Decimal(bits)
            case FixedBytesTy(length) => s == Dimension(Decimal(length)) + "byte"
  {
    assert Decimal(24) == "24" by { assert Decimal(2) == "2"; }
  }

  function ByteDimension(t: AbiType): (d: string)
    requires t.BytesTy? || t.FunctionTy? || t.FixedBytesTy?
    ensures AllDigits(d)
  {
    match t
    case BytesTy => ""
    case FunctionTy => Decimal(24)
    case FixedBytesTy(length) => Decimal(length)
  }

  function Initial(t: AbiType): char
    requires IsBasic(t)
  {
    match t
    case AddressTy => 'c'
    case BoolTy => 'b'
    case StringTy => 's'
    case IntTy(_) => if IsBig(t) then '*' else 'i'
    case UintTy(_) => if IsBig(t) then '*' else 'u'
    case _ => '['
  }

  lemma InitialOf(t: AbiType)
    requires IsBasic(t)
    ensures GoBasicType(t) != "" && GoBasicType(t)[0] == Initial(t)
  {
    BasicGoText(t);
  }

  /** Two basic types get the same Go type exactly when they are equal, are both integers that need
      *big.Int, or are both 24 bytes long (the function type is). */
  lemma BasicGoExactly(t: AbiType, t': AbiType)
    requires IsBasic(t) && IsBasic(t')
    ensures GoBasicType(t) == GoBasicType(t')
       <==> t == t' || (IsBig(t) && IsBig(t')) || (Is24Bytes(t) && Is24Bytes(t'))
  {
    BasicGoText(t);
    BasicGoText(t');
    InitialOf(t);
    InitialOf(t');
    if GoBasicType(t) == GoBasicType(t') {
      assert Initial(t) == Initial(t');
      if Initial(t) == '[' {
        FirstDimension(ByteDimension(t), "byte", ByteDimension(t'), "byte");
        SameByteDimension(t, t');
      } else if Initial(t) == 'i' || Initial(t) == 'u' {
        MachineNames(t.bits, t'.bits);
      }
    }
  }

  lemma SameByteDimension(t: AbiType, t': AbiType)
    requires (t.BytesTy? || t.FunctionTy? || t.FixedBytesTy?) && (t'.BytesTy? || t'.FunctionTy? || t'.FixedBytesTy?)
    requires ByteDimension(t) == ByteDimension(t')
    ensures t == t' || (Is24Bytes(t) && Is24Bytes(t'))
  {
    if !t.BytesTy? && !t'.BytesTy? {
      var n, n' := if t.FunctionTy? then 24 else t.length, if t'.FunctionTy? then 24 else t'.length;
      DecimalInjective(n, n');
    }
  }

  /** The Go type of an array or slice determines its size, or that it has none, and the Go type of
      its elements. */
  lemma GoArrayExactly(t: AbiType, t': AbiType, table: Table)
    requires (t.ArrayTy? || t.SliceTy?) && (t'.ArrayTy? || t'.SliceTy?) && Found(t, table) && Found(t', table)
    ensures BindType(t, table) == BindType(t', table)
       <==> (t.ArrayTy? <==> t'.ArrayTy?) && (t.ArrayTy? && t'.ArrayTy? ==> t.size == t'.size)
            && BindType(t.elem, table) == BindType(t'.elem, table)
  {
    GoArrayText(t, table);
    GoArrayText(t', table);
    if BindType(t, table) == BindType(t', table) {
      FirstDimension(Size(t), BindType(t.elem, table), Size(t'), BindType(t'.elem, table));
      if t.ArrayTy? && t'.ArrayTy? {
        DecimalInjective(t.size, t'.size);
      }
    }
  }

  lemma GoArrayText(t: AbiType, table: Table)
    requires (t.ArrayTy? || t.SliceTy?) && Found(t, table)
    ensures BindType(t, table) == Dimension(Size(t)) + BindType(t.elem, table)
  {
  }
}
