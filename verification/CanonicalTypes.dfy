/** Canonical type expressions tell types apart: two types have the same expression exactly when they
    have the same shape, that is when they differ in the raw names of tuples and components only. */
module CanonicalTypes {
  import opened Text
  import opened StructTable

  /** Equality of types that ignores the raw names inside. */
  predicate SameShape(t: AbiType, t': AbiType)
    decreases t
  {
    match t
    case ArrayTy(size, elem) => t'.ArrayTy? && size == t'.size && SameShape(elem, t'.elem)
    case SliceTy(elem) => t'.SliceTy? && SameShape(elem, t'.elem)
    case TupleTy(_, components) =>
      && t'.TupleTy? && |components| == |t'.components|
      && forall i | 0 <= i < |components| :: SameShape(components[i].typ, t'.components[i].typ)
    case _ => t == t'
  }

  predicate IsBasic(t: AbiType) {
    !t.ArrayTy? && !t.SliceTy? && !t.TupleTy?
  }

  // ---------------------------------------------------------- basic expressions

  lemma PrefixInjective(p: string, a: string, b: string)
    requires p + a == p + b
    ensures a == b
  {
    assert (p + a)[|p|..] == a && (p + b)[|p|..] == b;
  }

  /** The first letters of a basic expression, and whether digits follow, tell the kind. */
  lemma BasicStart(t: AbiType)
    requires IsBasic(t)
    ensures |Canonical(t)| >= 4
    ensures var s := Canonical(t);
            match t
            case AddressTy => s[0] == 'a'
            case BoolTy => s[0] == 'b' && s[1] == 'o'
            case StringTy => s[0] == 's'
            case BytesTy => s[0] == 'b' && s[1] == 'y' && |s| == 5
            case FunctionTy => s[0] == 'f'
            case IntTy(bits) => s[0] == 'i' && s == "int" + Decimal(bits)
            case UintTy(bits) => s[0] == 'u' && s == "uint" + Decimal(bits)
            case FixedBytesTy(length) => s[0] == 'b' && s[1] == 'y' && |s| > 5 && s == "bytes" + Decimal(length)
  {
  }

  lemma BasicExactly(t: AbiType, t': AbiType)
    requires IsBasic(t) && IsBasic(t') && Canonical(t) == Canonical(t')
    ensures t == t'
  {
    BasicStart(t);
    BasicStart(t');
    match t
    case IntTy(bits) =>
      PrefixInjective("int", Decimal(bits), Decimal(t'.bits));
      DecimalInjective(bits, t'.bits);
    case UintTy(bits) =>
      PrefixInjective("uint", Decimal(bits), Decimal(t'.bits));
      DecimalInjective(bits, t'.bits);
    case FixedBytesTy(length) =>
      PrefixInjective("bytes", Decimal(length), Decimal(t'.length));
      DecimalInjective(length, t'.length);
    case _ =>
  }

  /** Letters and digits only. */
  predicate IsWord(s: string) {
    forall i | 0 <= i < |s| :: 'a' <= s[i] <= 'z' || IsDigit(s[i])
  }

  lemma BasicIsWord(t: AbiType)
    requires IsBasic(t)
    ensures IsWord(Canonical(t))
  {
    BasicStart(t);
  }

  // ------------------------------------------------------- parsing from the right

  /** What follows the element in an array or slice expression. */
  function Suffix(t: AbiType): string
    requires t.ArrayTy? || t.SliceTy?
  {
    "[" + Size(t) + "]"
  }

  function Size(t: AbiType): (s: string)
    requires t.ArrayTy? || t.SliceTy?
    ensures AllDigits(s)
  {
    if t.ArrayTy? then Decimal(t.size) else ""
  }

  /** The last character tells arrays and slices, tuples and basic types apart. */
  lemma LastChar(t: AbiType)
    ensures var s := Canonical(t);
            var last := s[|s| - 1];
            if IsBasic(t) then last != ']' && last != ')' else if t.TupleTy? then last == ')' else last == ']'
    ensures t.ArrayTy? || t.SliceTy? ==> Canonical(t) == Canonical(t.elem) + Suffix(t)
  {
    if IsBasic(t) {
      BasicIsWord(t);
    } else if !t.TupleTy? {
      ElementAndSize(t);
    }
  }

  lemma ElementAndSize(t: AbiType)
    requires t.ArrayTy? || t.SliceTy?
    ensures Canonical(t) == Canonical(t.elem) + Suffix(t)
  {
  }

  /** The bracket after the element is the last opening one. */
  ghost predicate LastBracketAt(s: string, k: nat) {
    k < |s| && s[k] == '[' && forall j | k < j < |s| :: s[j] != '['
  }

  /** The last opening bracket separates the element from the size. */
  lemma LastBracket(a: string, d: string, a': string, d': string)
    requires AllDigits(d) && AllDigits(d')
    requires a + ("[" + d + "]") == a' + ("[" + d' + "]")
    ensures a == a' && d == d'
  {
    var s, s' := a + ("[" + d + "]"), a' + ("[" + d' + "]");
    assert LastBracketAt(s, |a|) && LastBracketAt(s', |a'|);
    assert s[..|a|] == a && s'[..|a'|] == a';
    assert s[|a| + 1..|s| - 1] == d && s'[|a'| + 1..|s'| - 1] == d';
  }

  // --------------------------------------------------- commas between components

  /** Every comma stands inside parentheses. */
  ghost predicate NoTopComma(s: string) {
    forall k | 0 <= k < |s| && s[k] == ',' :: Depth(s[..k]) > 0
  }

  lemma SplitDepth(s: string, k: nat)
    requires k <= |s|
    ensures Depth(s) == Depth(s[..k]) + Depth(s[k..])
  {
    assert s == s[..k] + s[k..];
    DepthOfConcat(s[..k], s[k..]);
  }

  lemma {:induction false} CanonicalHasNoTopComma(t: AbiType)
    ensures NoTopComma(Canonical(t))
  {
    var s := Canonical(t);
    if IsBasic(t) {
      BasicIsWord(t);
    } else if t.TupleTy? {
      var list := CanonicalList(t.components);
      CanonicalListIsBalanced(t.components);
      forall k | 0 <= k < |s| && s[k] == ',' ensures Depth(s[..k]) > 0 {
        assert s[..k] == "(" + list[..k - 1];
        SplitDepth(list, k - 1);
        DepthOfConcat("(", list[..k - 1]);
        assert Depth("(") == 1;
      }
    } else {
      CanonicalHasNoTopComma(t.elem);
      LastChar(t);
      var elem := Canonical(t.elem);
      forall k | 0 <= k < |s| && s[k] == ',' ensures Depth(s[..k]) > 0 {
        assert k < |elem| && s[..k] == elem[..k] && elem[k] == ',';
      }
    }
  }

  /** A comma after balanced text cannot lie inside a component. */
  lemma FirstTopComma(a: string, rest: string, b: string, tail: string)
    requires NoTopComma(b) && Depth(a) == 0
    requires a + "," + rest == b + tail
    ensures |b| <= |a|
  {
    var s := a + "," + rest;
    assert s[|a|] == ',' && s[..|a|] == a;
    assert s[..|b|] == b;
    forall k | 0 <= k < |b| && s[k] == ',' ensures Depth(s[..k]) > 0 {
      assert b[k] == ',' && s[..k] == b[..k];
    }
  }

  lemma ListHead(components: seq<Component>)
    requires components != []
    ensures var first := Canonical(components[0].typ);
            && NoTopComma(first) && Depth(first) == 0
            && CanonicalList(components)
               == first + if |components| == 1 then "" else "," + CanonicalList(components[1..])
  {
    CanonicalHasNoTopComma(components[0].typ);
    CanonicalIsBalanced(components[0].typ);
  }

  /** The first components of equal lists are equal, and so are the rests. */
  lemma HeadsAgree(cs: seq<Component>, cs': seq<Component>)
    requires cs != [] && cs' != [] && CanonicalList(cs) == CanonicalList(cs')
    ensures Canonical(cs[0].typ) == Canonical(cs'[0].typ)
    ensures |cs| == 1 <==> |cs'| == 1
    ensures CanonicalList(cs[1..]) == CanonicalList(cs'[1..])
  {
    ListHead(cs);
    ListHead(cs');
    var a, b := Canonical(cs[0].typ), Canonical(cs'[0].typ);
    var s := CanonicalList(cs);
    if |cs| > 1 {
      assert s == a + "," + CanonicalList(cs[1..]) && s == b + s[|b|..];
      FirstTopComma(a, CanonicalList(cs[1..]), b, s[|b|..]);
    }
    if |cs'| > 1 {
      assert s == b + "," + CanonicalList(cs'[1..]) && s == a + s[|a|..];
      FirstTopComma(b, CanonicalList(cs'[1..]), a, s[|a|..]);
    }
    assert |a| == |b|;
    assert s[..|a|] == a && s[..|b|] == b;
    assert |cs| > 1 ==> s[|a|..] == "," + CanonicalList(cs[1..]);
    assert |cs'| > 1 ==> s[|b|..] == "," + CanonicalList(cs'[1..]);
    if |cs| > 1 {
      PrefixInjective(",", CanonicalList(cs[1..]), CanonicalList(cs'[1..]));
    }
  }

  lemma {:induction false} ListParses(cs: seq<Component>, cs': seq<Component>)
    requires CanonicalList(cs) == CanonicalList(cs')
    ensures |cs| == |cs'|
    ensures forall i | 0 <= i < |cs| :: Canonical(cs[i].typ) == Canonical(cs'[i].typ)
    decreases |cs|
  {
    if cs == [] || cs' == [] {
      assert cs != [] ==> CanonicalList(cs) != "" by { if cs != [] { ListHead(cs); } }
      assert cs' != [] ==> CanonicalList(cs') != "" by { if cs' != [] { ListHead(cs'); } }
    } else {
      HeadsAgree(cs, cs');
      ListParses(cs[1..], cs'[1..]);
      forall i | 0 <= i < |cs| ensures Canonical(cs[i].typ) == Canonical(cs'[i].typ) {
        if i > 0 {
          assert cs[i] == cs[1..][i - 1] && cs'[i] == cs'[1..][i - 1];
        }
      }
    }
  }

  // ------------------------------------------------------------------ the theorem

  lemma {:induction false} SameTextSameShape(t: AbiType, t': AbiType)
    requires Canonical(t) == Canonical(t')
    ensures SameShape(t, t')
    decreases t
  {
    LastChar(t);
    LastChar(t');
    if IsBasic(t) {
      BasicExactly(t, t');
    } else if t.TupleTy? {
      var list, list' := CanonicalList(t.components), CanonicalList(t'.components);
      assert Canonical(t)[1..|Canonical(t)| - 1] == list && Canonical(t')[1..|Canonical(t')| - 1] == list';
      ListParses(t.components, t'.components);
      forall i | 0 <= i < |t.components| ensures SameShape(t.components[i].typ, t'.components[i].typ) {
        SameTextSameShape(t.components[i].typ, t'.components[i].typ);
      }
    } else {
      LastBracket(Canonical(t.elem), Size(t), Canonical(t'.elem), Size(t'));
      if t.ArrayTy? && t'.ArrayTy? {
        DecimalInjective(t.size, t'.size);
      }
      SameTextSameShape(t.elem, t'.elem);
    }
  }

  lemma {:induction false} SameShapeSameText(t: AbiType, t': AbiType)
    requires SameShape(t, t')
    ensures Canonical(t) == Canonical(t')
    decreases t, 1
  {
    match t
    case ArrayTy(_, elem) => SameShapeSameText(elem, t'.elem);
    case SliceTy(elem) => SameShapeSameText(elem, t'.elem);
    case TupleTy(_, components) => SameShapesSameList(components, t'.components);
    case _ =>
  }

  lemma {:induction false} SameShapesSameList(cs: seq<Component>, cs': seq<Component>)
    requires |cs| == |cs'| && forall i | 0 <= i < |cs| :: SameShape(cs[i].typ, cs'[i].typ)
    ensures CanonicalList(cs) == CanonicalList(cs')
    decreases cs, 0
  {
    if cs != [] {
      SameShapeSameText(cs[0].typ, cs'[0].typ);
      SameShapesSameList(cs[1..], cs'[1..]);
    }
  }

  /** Types have the same canonical expression exactly when they have the same shape. */
  lemma CanonicalExactly(t: AbiType, t': AbiType)
    ensures Canonical(t) == Canonical(t') <==> SameShape(t, t')
  {
    if Canonical(t) == Canonical(t') {
      SameTextSameShape(t, t');
    }
    if SameShape(t, t') {
      SameShapeSameText(t, t');
    }
  }

  /** Tuples share an entry of the struct table exactly when they have the same raw name and the same
      shape; nothing in the raw name can make up for a difference in the type, or the other way. */
  lemma IdExactly(t: AbiType, t': AbiType)
    requires t.TupleTy? && t'.TupleTy?
    ensures Id(t) == Id(t') <==> t.rawName == t'.rawName && SameShape(t, t')
  {
    CanonicalExactly(t, t');
    if Id(t) == Id(t') {
      if |Canonical(t)| < |Canonical(t')| {
        IdentitiesDiffer(t, t');
      } else if |Canonical(t')| < |Canonical(t)| {
        IdentitiesDiffer(t', t);
      }
      assert Id(t)[..|t.rawName|] == t.rawName && Id(t')[..|t'.rawName|] == t'.rawName;
      PrefixInjective(t.rawName, Canonical(t), Canonical(t'));
    }
  }

  lemma TwoDigits(a: nat, b: nat)
    requires 0 < a < 10 && b < 10
    ensures Decimal(10 * a + b) == ['0' + a as char, '0' + b as char]
  {
    assert Decimal(a) == ['0' + a as char];
  }

  /** The elementary types as the ABI specification writes them (section Types of the contract ABI
      specification). */
  lemma SampleWords()
    ensures Canonical(AddressTy) == "address" && Canonical(BoolTy) == "bool" && Canonical(StringTy) == "string"
    ensures Canonical(BytesTy) == "bytes" && Canonical(FunctionTy) == "function"
    ensures Canonical(UintTy(8)) == "uint8" && Canonical(IntTy(64)) == "int64"
    ensures Canonical(FixedBytesTy(32)) == "bytes32"
  {
    TwoDigits(3, 2);
    TwoDigits(6, 4);
  }

  /** Arrays, slices and tuples in the same notation. */
  lemma SampleCompounds()
    ensures Canonical(ArrayTy(2, BoolTy)) == "bool[2]" && Canonical(SliceTy(BoolTy)) == "bool[]"
    ensures Canonical(TupleTy("T", [])) == "()"
    ensures Canonical(TupleTy("T", [Component("a", BoolTy), Component("b", StringTy)])) == "(bool,string)"
  {
    var components := [Component("a", BoolTy), Component("b", StringTy)];
    assert components[1..] == [Component("b", StringTy)];
    assert CanonicalList(components) == "bool,string";
  }
}
