/** The table of Go structs built from Solidity tuple types (abigen/bind.go): a memo, keyed by
    raw name and canonical type, filled by recursion over nested tuples and shared by every
    contract that is bound. */
module StructTable {
  import opened Text
  import opened Naming

  datatype AbiType =
    | AddressTy
    | BoolTy
    | StringTy
    | BytesTy
    | FunctionTy
    | IntTy(bits: nat)
    | UintTy(bits: nat)
    | FixedBytesTy(length: nat)
    | ArrayTy(size: nat, elem: AbiType)
    | SliceTy(elem: AbiType)
    | TupleTy(rawName: string, components: seq<Component>)

  datatype Component = Component(rawName: string, typ: AbiType)

  /** The canonical type expression; it mentions no names. */
  function Canonical(t: AbiType): (s: string)
    ensures s != []
    decreases t, 1
  {
    match t
    case AddressTy => "address"
    case BoolTy => "bool"
    case StringTy => "string"
    case BytesTy => "bytes"
    case FunctionTy => "function"
    case IntTy(bits) => "int" + Decimal(bits)
    case UintTy(bits) => "uint" + Decimal(bits)
    case FixedBytesTy(length) => "bytes" + Decimal(length)
    case ArrayTy(size, elem) => Canonical(elem) + "[" + Decimal(size) + "]"
    case SliceTy(elem) => Canonical(elem) + "[]"
    case TupleTy(_, components) => "(" + CanonicalList(components) + ")"
  }

  function CanonicalList(components: seq<Component>): string
    decreases components, 0
  {
    if components == [] then ""
    else if |components| == 1 then Canonical(components[0].typ)
    else Canonical(components[0].typ) + "," + CanonicalList(components[1..])
  }

  function Id(t: AbiType): string
    requires t.TupleTy?
  {
    t.rawName + Canonical(t)
  }

  datatype Field = Field(goType: string, name: string, solKind: AbiType)

  datatype Struct = Struct(name: string, fields: seq<Field>)

  type Table = map<string, Struct>

  function GoBasicType(t: AbiType): string {
    match t
    case AddressTy => "common.Address"
    case IntTy(bits) => if bits in {8, 16, 32, 64} then "int" + Decimal(bits) else "*big.Int"
    case UintTy(bits) => if bits in {8, 16, 32, 64} then "uint" + Decimal(bits) else "*big.Int"
    case FixedBytesTy(length) => "[" + Decimal(length) + "]byte"
    case BytesTy => "[]byte"
    case FunctionTy => "[24]byte"
    case _ => Canonical(t)
  }

  /** Every tuple that the Go type expression of t mentions is in the table. */
  predicate Found(t: AbiType, table: Table) {
    match t
    case TupleTy(_, _) => Id(t) in table
    case ArrayTy(_, elem) => Found(elem, table)
    case SliceTy(elem) => Found(elem, table)
    case _ => true
  }

  /** The Go type expression of t, read off the table. */
  function BindType(t: AbiType, table: Table): string
    requires Found(t, table)
  {
    match t
    case TupleTy(_, _) => table[Id(t)].name
    case ArrayTy(size, elem) => "[" + Decimal(size) + "]" + BindType(elem, table)
    case SliceTy(elem) => "[]" + BindType(elem, table)
    case _ => GoBasicType(t)
  }

  predicate HasStruct(t: AbiType) {
    match t
    case SliceTy(elem) => HasStruct(elem)
    case ArrayTy(_, elem) => HasStruct(elem)
    case TupleTy(_, _) => true
    case _ => false
  }

  /** The name of an unnamed tuple that is registered after n others. */
  function Numbered(n: nat): string {
    "Struct" + Decimal(n)
  }

  /** Registration of a type: its Go type expression and the new table. */
  function Register(nm: Naming, t: AbiType, table: Table): (string, Table)
    decreases t, 1
  {
    match t
    case TupleTy(rawName, components) =>
      if Id(t) in table then (table[Id(t)].name, table)
      else
        var (fields, table') := RegisterFields(nm, components, {}, table);
        var name := nm.camel(if rawName == "" then Numbered(|table'|) else rawName);
        (name, table'[Id(t) := Struct(name, fields)])
    case ArrayTy(size, elem) =>
      var (s, table') := Register(nm, elem, table);
      ("[" + Decimal(size) + "]" + s, table')
    case SliceTy(elem) =>
      var (s, table') := Register(nm, elem, table);
      ("[]" + s, table')
    case _ => (GoBasicType(t), table)
  }

  function RegisterFields(nm: Naming, components: seq<Component>, used: set<string>, table: Table): (seq<Field>, Table)
    decreases components, 0
  {
    if components == [] then ([], table)
    else
      var name := nm.resolve(nm.camel(components[0].rawName), used);
      var (goType, table') := Register(nm, components[0].typ, table);
      var (rest, table'') := RegisterFields(nm, components[1..], used + {name}, table');
      ([Field(goType, name, components[0].typ)] + rest, table'')
  }

  /** Registering the remaining components after the fields found so far gives the whole. */
  ghost predicate CompletesTo(nm: Naming, components: seq<Component>, used: set<string>, table: Table,
                              fields: seq<Field>, whole: (seq<Field>, Table))
  {
    var rest := RegisterFields(nm, components, used, table);
    (fields + rest.0, rest.1) == whole
  }

  lemma UnfoldFields(nm: Naming, components: seq<Component>, i: nat, used: set<string>, table: Table,
                     fields: seq<Field>, whole: (seq<Field>, Table))
    requires i < |components| && CompletesTo(nm, components[i..], used, table, fields, whole)
    ensures var name := nm.resolve(nm.camel(components[i].rawName), used);
            var (goType, table') := Register(nm, components[i].typ, table);
            CompletesTo(nm, components[i + 1..], used + {name}, table',
                        fields + [Field(goType, name, components[i].typ)], whole)
  {
    var name := nm.resolve(nm.camel(components[i].rawName), used);
    var (goType, table') := Register(nm, components[i].typ, table);
    var field := Field(goType, name, components[i].typ);
    var rest := RegisterFields(nm, components[i + 1..], used + {name}, table');
    assert components[i..][0] == components[i] && components[i..][1..] == components[i + 1..];
    assert fields + ([field] + rest.0) == (fields + [field]) + rest.0;
  }

  /** The shared table and the method that fills it in place. */
  class Binder {
    var structs: Table

    constructor ()
      ensures structs == map[]
    {
      structs := map[];
    }

    method BindStructType(nm: Naming, t: AbiType) returns (goType: string)
      modifies this
      ensures (goType, structs) == Register(nm, t, old(structs))
      decreases t
    {
      match t {
        case TupleTy(rawName, components) =>
          var id := Id(t);
          if id in structs {
            return structs[id].name;
          }
          var names: set<string> := {};
          var fields := [];
          ghost var whole := RegisterFields(nm, components, {}, structs);
          assert components[0..] == components && fields + whole.0 == whole.0;
          for i := 0 to |components|
            invariant CompletesTo(nm, components[i..], names, structs, fields, whole)
          {
            var name := nm.resolve(nm.camel(components[i].rawName), names);
            UnfoldFields(nm, components, i, names, structs, fields, whole);
            var fieldType := BindStructType(nm, components[i].typ);
            names := names + {name};
            fields := fields + [Field(fieldType, name, components[i].typ)];
          }
          assert components[|components|..] == [] && fields + [] == fields;
          var name := rawName;
          if name == "" {
            name := Numbered(|structs|);
          }
          name := nm.camel(name);
          structs := structs[id := Struct(name, fields)];
          goType := name;
        case ArrayTy(size, elem) =>
          var s := BindStructType(nm, elem);
          goType := "[" + Decimal(size) + "]" + s;
        case SliceTy(elem) =>
          var s := BindStructType(nm, elem);
          goType := "[]" + s;
        case _ =>
          goType := GoBasicType(t);
      }
    }
  }

  // -------------------------------------- a nested tuple has another identity

  ghost function Depth(s: string): int {
    if s == [] then 0
    else (if s[0] == '(' then 1 else if s[0] == ')' then -1 else 0) + Depth(s[1..])
  }

  lemma {:induction false} DepthOfConcat(a: string, b: string)
    ensures Depth(a + b) == Depth(a) + Depth(b)
  {
    if a == [] {
      assert a + b == b;
    } else {
      assert (a + b)[1..] == a[1..] + b;
      DepthOfConcat(a[1..], b);
    }
  }

  /** Parentheses match: they cancel out, and no suffix has an opening one to spare. */
  ghost predicate Balanced(s: string) {
    && Depth(s) == 0
    && forall k | 0 <= k <= |s| :: Depth(s[k..]) <= 0
  }

  lemma BalancedConcat(a: string, b: string)
    requires Balanced(a) && Balanced(b)
    ensures Balanced(a + b)
  {
    DepthOfConcat(a, b);
    forall k | 0 <= k <= |a + b| ensures Depth((a + b)[k..]) <= 0 {
      if k <= |a| {
        assert (a + b)[k..] == a[k..] + b;
        DepthOfConcat(a[k..], b);
      } else {
        assert (a + b)[k..] == b[k - |a|..];
      }
    }
  }

  predicate Plain(s: string) {
    forall i | 0 <= i < |s| :: s[i] != '(' && s[i] != ')'
  }

  lemma {:induction false} PlainDepth(s: string)
    requires Plain(s)
    ensures Depth(s) == 0
  {
    if s != [] {
      PlainDepth(s[1..]);
    }
  }

  lemma PlainIsBalanced(s: string)
    requires Plain(s)
    ensures Balanced(s)
  {
    forall k | 0 <= k <= |s| ensures Depth(s[k..]) == 0 {
      PlainDepth(s[k..]);
    }
    assert s[0..] == s;
  }

  /** Inside a parenthesised expression every proper suffix lacks the opening parenthesis. */
  lemma ParenthesisedSuffix(b: string, k: nat)
    requires Balanced(b) && 0 < k < |b| + 2
    ensures Depth(("(" + b + ")")[k..]) < 0
  {
    assert Depth(")") == -1;
    assert ("(" + b + ")")[k..] == b[k - 1..] + ")";
    DepthOfConcat(b[k - 1..], ")");
  }

  lemma ParenthesisedDepth(b: string)
    requires Balanced(b)
    ensures Depth("(" + b + ")") == 0
  {
    assert Depth(")") == -1 && Depth("(") == 1;
    DepthOfConcat("(" + b, ")");
    DepthOfConcat("(", b);
  }

  lemma ParenthesisedIsBalanced(b: string)
    requires Balanced(b)
    ensures Balanced("(" + b + ")")
  {
    var s := "(" + b + ")";
    ParenthesisedDepth(b);
    forall k | 0 <= k <= |s| ensures Depth(s[k..]) <= 0 {
      if k == 0 {
        assert s[k..] == s;
      } else if k < |s| {
        ParenthesisedSuffix(b, k);
      }
    }
  }

  lemma BasicIsPlain(t: AbiType)
    requires !t.ArrayTy? && !t.SliceTy? && !t.TupleTy?
    ensures Plain(Canonical(t))
  {
    match t
    case IntTy(bits) => assert Canonical(t) == "int" + Decimal(bits);
    case UintTy(bits) => assert Canonical(t) == "uint" + Decimal(bits);
    case FixedBytesTy(length) => assert Canonical(t) == "bytes" + Decimal(length);
    case _ =>
  }

  lemma SuffixIsBalanced(a: string, suffix: string)
    requires Balanced(a) && Plain(suffix)
    ensures Balanced(a + suffix)
  {
    PlainIsBalanced(suffix);
    BalancedConcat(a, suffix);
  }

  lemma ArrayIsBalanced(t: AbiType)
    requires (t.ArrayTy? || t.SliceTy?) && Balanced(Canonical(t.elem))
    ensures Balanced(Canonical(t))
  {
    var suffix := if t.SliceTy? then "[]" else "[" + Decimal(t.size) + "]";
    assert Canonical(t) == Canonical(t.elem) + suffix;
    SuffixIsBalanced(Canonical(t.elem), suffix);
  }

  lemma {:induction false} CanonicalIsBalanced(t: AbiType)
    ensures Balanced(Canonical(t))
    decreases t, 1
  {
    if t.ArrayTy? || t.SliceTy? {
      CanonicalIsBalanced(t.elem);
      ArrayIsBalanced(t);
    } else if t.TupleTy? {
      CanonicalListIsBalanced(t.components);
      ParenthesisedIsBalanced(CanonicalList(t.components));
    } else {
      BasicIsPlain(t);
      PlainIsBalanced(Canonical(t));
    }
  }

  lemma {:induction false} CanonicalListIsBalanced(components: seq<Component>)
    ensures Balanced(CanonicalList(components))
    decreases components, 0
  {
    if components != [] {
      CanonicalIsBalanced(components[0].typ);
      if |components| > 1 {
        CanonicalListIsBalanced(components[1..]);
        PlainIsBalanced(",");
        BalancedConcat(Canonical(components[0].typ), ",");
        BalancedConcat(Canonical(components[0].typ) + ",", CanonicalList(components[1..]));
      }
    }
  }

  /** A tuple never has the identity of a tuple with a longer type expression, whatever the raw
      names are. In particular a nested tuple never has the identity of the one around it. */
  lemma IdentitiesDiffer(inner: AbiType, outer: AbiType)
    requires inner.TupleTy? && outer.TupleTy?
    requires |Canonical(inner)| < |Canonical(outer)|
    ensures Id(inner) != Id(outer)
  {
    if Id(inner) == Id(outer) {
      var ci, co := Canonical(inner), Canonical(outer);
      var k := |co| - |ci|;
      assert Id(inner)[|inner.rawName|..] == ci;
      assert Id(outer)[|outer.rawName| + k..] == co[k..];
      assert |inner.rawName| == |outer.rawName| + k;
      CanonicalIsBalanced(inner);
      CanonicalListIsBalanced(outer.components);
      ParenthesisedSuffix(CanonicalList(outer.components), k);
      assert false;
    }
  }

  // ------------------------------------------------------ the table only grows

  ghost predicate Extends(table: Table, table': Table) {
    forall id | id in table :: id in table' && table'[id] == table[id]
  }

  /** id belongs to a tuple whose type expression is no longer than bound. */
  ghost predicate IdWithin(id: string, bound: nat) {
    exists t: AbiType :: t.TupleTy? && id == Id(t) && |Canonical(t)| <= bound
  }

  ghost predicate AddsWithin(table: Table, table': Table, bound: nat) {
    forall id | id in table' && id !in table :: IdWithin(id, bound)
  }

  lemma {:induction false} RegisterGrows(nm: Naming, t: AbiType, table: Table)
    ensures Extends(table, Register(nm, t, table).1)
    ensures AddsWithin(table, Register(nm, t, table).1, |Canonical(t)|)
    decreases t, 1
  {
    match t
    case TupleTy(_, components) =>
      if Id(t) !in table {
        RegisterFieldsGrow(nm, components, {}, table);
        FreshIdentity(nm, t, table);
      }
    case ArrayTy(_, elem) => RegisterGrows(nm, elem, table);
    case SliceTy(elem) => RegisterGrows(nm, elem, table);
    case _ =>
  }

  lemma {:induction false} RegisterFieldsGrow(nm: Naming, components: seq<Component>, used: set<string>, table: Table)
    ensures Extends(table, RegisterFields(nm, components, used, table).1)
    ensures AddsWithin(table, RegisterFields(nm, components, used, table).1, |CanonicalList(components)|)
    decreases components, 0
  {
    if components != [] {
      var name := nm.resolve(nm.camel(components[0].rawName), used);
      var table' := Register(nm, components[0].typ, table).1;
      RegisterGrows(nm, components[0].typ, table);
      RegisterFieldsGrow(nm, components[1..], used + {name}, table');
    }
  }

  /** While the fields of a new tuple are registered, the tuple itself is not. */
  lemma {:induction false} FreshIdentity(nm: Naming, t: AbiType, table: Table)
    requires t.TupleTy? && Id(t) !in table
    ensures Id(t) !in RegisterFields(nm, t.components, {}, table).1
    decreases t.components, 1
  {
    RegisterFieldsGrow(nm, t.components, {}, table);
    if Id(t) in RegisterFields(nm, t.components, {}, table).1 {
      var inner: AbiType :| inner.TupleTy? && Id(t) == Id(inner) && |Canonical(inner)| <= |CanonicalList(t.components)|;
      IdentitiesDiffer(inner, t);
    }
  }

  lemma {:induction false} BindTypeIsStable(t: AbiType, table: Table, table': Table)
    requires Extends(table, table') && Found(t, table)
    ensures Found(t, table') && BindType(t, table') == BindType(t, table)
  {
    match t
    case ArrayTy(_, elem) => BindTypeIsStable(elem, table, table');
    case SliceTy(elem) => BindTypeIsStable(elem, table, table');
    case _ =>
  }

  /** A registered type is found afterwards, under the very expression registration returned. */
  lemma {:induction false} RegisterFinds(nm: Naming, t: AbiType, table: Table)
    ensures var (goType, table') := Register(nm, t, table);
            Found(t, table') && BindType(t, table') == goType
  {
    match t
    case ArrayTy(_, elem) => RegisterFinds(nm, elem, table);
    case SliceTy(elem) => RegisterFinds(nm, elem, table);
    case _ =>
  }

  /** Registering a found type changes nothing. */
  lemma {:induction false} FoundIsRegistered(nm: Naming, t: AbiType, table: Table)
    requires Found(t, table)
    ensures Register(nm, t, table) == (BindType(t, table), table)
  {
    match t
    case ArrayTy(_, elem) => FoundIsRegistered(nm, elem, table);
    case SliceTy(elem) => FoundIsRegistered(nm, elem, table);
    case _ =>
  }

  /** The memo is sound: registration never changes an entry, and in every later table the type
      is found under the expression returned now, and registering it again is a no-op. */
  lemma RegistrationIsSound(nm: Naming, t: AbiType, table: Table, later: Table)
    requires Extends(Register(nm, t, table).1, later)
    ensures Extends(table, later)
    ensures Found(t, later) && BindType(t, later) == Register(nm, t, table).0
    ensures Register(nm, t, later) == (Register(nm, t, table).0, later)
  {
    RegisterGrows(nm, t, table);
    RegisterFinds(nm, t, table);
    BindTypeIsStable(t, Register(nm, t, table).1, later);
    FoundIsRegistered(nm, t, later);
  }

  // -------------------------------------------------------- what entries hold

  ghost predicate DistinctNames(fields: seq<Field>) {
    forall i, j | 0 <= i < j < |fields| :: fields[i].name != fields[j].name
  }

  /** Every field's tuples are registered, its Go type is what the table says, and the fields of
      a struct have different names. */
  ghost predicate FieldsHold(fields: seq<Field>, table: Table) {
    && DistinctNames(fields)
    && forall f | f in fields :: Found(f.solKind, table) && f.goType == BindType(f.solKind, table)
  }

  ghost predicate Closed(table: Table) {
    forall id | id in table :: FieldsHold(table[id].fields, table)
  }

  lemma FieldsHoldLater(fields: seq<Field>, table: Table, table': Table)
    requires FieldsHold(fields, table) && Extends(table, table')
    ensures FieldsHold(fields, table')
  {
    forall f | f in fields ensures Found(f.solKind, table') && f.goType == BindType(f.solKind, table') {
      BindTypeIsStable(f.solKind, table, table');
    }
  }

  lemma {:induction false} RegisterKeepsClosed(nm: Naming, t: AbiType, table: Table)
    requires nm.Valid() && Closed(table)
    ensures Closed(Register(nm, t, table).1)
    decreases t, 1
  {
    match t
    case TupleTy(rawName, components) =>
      if Id(t) !in table {
        var (fields, table') := RegisterFields(nm, components, {}, table);
        var (_, table'') := Register(nm, t, table);
        RegisterFieldsKeepClosed(nm, components, {}, table);
        FreshIdentity(nm, t, table);
        assert Extends(table', table'');
        forall id | id in table'' ensures FieldsHold(table''[id].fields, table'') {
          FieldsHoldLater(table''[id].fields, table', table'');
        }
      }
    case ArrayTy(_, elem) => RegisterKeepsClosed(nm, elem, table);
    case SliceTy(elem) => RegisterKeepsClosed(nm, elem, table);
    case _ =>
  }

  lemma {:induction false} RegisterFieldsKeepClosed(nm: Naming, components: seq<Component>, used: set<string>,
                                                    table: Table)
    requires nm.Valid() && Closed(table)
    ensures var (fields, table') := RegisterFields(nm, components, used, table);
            && Closed(table') && FieldsHold(fields, table')
            && (forall f | f in fields :: f.name !in used)
            && |fields| == |components|
            && (forall i | 0 <= i < |fields| :: fields[i].solKind == components[i].typ)
    decreases components, 0
  {
    if components != [] {
      var name := nm.resolve(nm.camel(components[0].rawName), used);
      var (goType, table') := Register(nm, components[0].typ, table);
      var (rest, table'') := RegisterFields(nm, components[1..], used + {name}, table');
      RegisterKeepsClosed(nm, components[0].typ, table);
      RegisterFieldsKeepClosed(nm, components[1..], used + {name}, table');
      RegisterFinds(nm, components[0].typ, table);
      RegisterFieldsGrow(nm, components[1..], used + {name}, table');
      BindTypeIsStable(components[0].typ, table', table'');
    }
  }

  function FieldNames(fields: seq<Field>): set<string> {
    set f | f in fields :: f.name
  }

  /** Fields are named one after the other, each apart from those before it. */
  lemma {:induction false} RegisterFieldsNames(nm: Naming, components: seq<Component>, used: set<string>, table: Table,
                                               i: nat)
    requires i < |components|
    ensures var fields := RegisterFields(nm, components, used, table).0;
            && |fields| == |components|
            && fields[i].name == nm.resolve(nm.camel(components[i].rawName), used + FieldNames(fields[..i]))
    decreases components
  {
    var name := nm.resolve(nm.camel(components[0].rawName), used);
    var (goType, table') := Register(nm, components[0].typ, table);
    var rest := RegisterFields(nm, components[1..], used + {name}, table').0;
    var fields := RegisterFields(nm, components, used, table).0;
    assert fields == [Field(goType, name, components[0].typ)] + rest;
    RegisterFieldsLength(nm, components[1..], used + {name}, table');
    if i == 0 {
      assert FieldNames(fields[..0]) == {} && used + {} == used;
    } else {
      RegisterFieldsNames(nm, components[1..], used + {name}, table', i - 1);
      assert fields[..i] == [fields[0]] + rest[..i - 1];
      assert used + FieldNames(fields[..i]) == (used + {name}) + FieldNames(rest[..i - 1]);
    }
  }

  lemma {:induction false} RegisterFieldsLength(nm: Naming, components: seq<Component>, used: set<string>, table: Table)
    ensures |RegisterFields(nm, components, used, table).0| == |components|
    decreases components
  {
    if components != [] {
      var name := nm.resolve(nm.camel(components[0].rawName), used);
      RegisterFieldsLength(nm, components[1..], used + {name}, Register(nm, components[0].typ, table).1);
    }
  }

  /** A new entry describes its tuple: one field for each component, of its type and in its order,
      under the component's camel-cased name kept apart from those before it; the entry has the raw
      name of the tuple or else the number of entries before it. */
  lemma NewEntryDescribesTuple(nm: Naming, t: AbiType, table: Table)
    requires nm.Valid() && Closed(table) && t.TupleTy? && Id(t) !in table
    ensures var table' := Register(nm, t, table).1;
            && Id(t) in table'
            && var entry := table'[Id(t)];
            && |entry.fields| == |t.components|
            && (forall i | 0 <= i < |entry.fields| :: entry.fields[i].solKind == t.components[i].typ)
            && (forall i | 0 <= i < |entry.fields| ::
                  entry.fields[i].name
                  == nm.resolve(nm.camel(t.components[i].rawName), FieldNames(entry.fields[..i])))
            && entry.name == nm.camel(if t.rawName == "" then Numbered(|table'| - 1) else t.rawName)
  {
    var inner := RegisterFields(nm, t.components, {}, table).1;
    RegisterFieldsKeepClosed(nm, t.components, {}, table);
    FreshIdentity(nm, t, table);
    assert |inner[Id(t) := Struct("", [])]| == |inner| + 1;
    NewFieldNames(nm, t.components, table);
  }

  lemma NewFieldNames(nm: Naming, components: seq<Component>, table: Table)
    ensures var fields := RegisterFields(nm, components, {}, table).0;
            && |fields| == |components|
            && forall i | 0 <= i < |fields| ::
                 fields[i].name == nm.resolve(nm.camel(components[i].rawName), FieldNames(fields[..i]))
  {
    var fields := RegisterFields(nm, components, {}, table).0;
    RegisterFieldsLength(nm, components, {}, table);
    forall i | 0 <= i < |fields|
      ensures fields[i].name == nm.resolve(nm.camel(components[i].rawName), FieldNames(fields[..i]))
    {
      RegisterFieldsNames(nm, components, {}, table, i);
      assert {} + FieldNames(fields[..i]) == FieldNames(fields[..i]);
    }
  }

  // ---------------------------------------------------- runs of registrations

  function RegisterAll(nm: Naming, types: seq<AbiType>, table: Table): Table
    decreases types
  {
    if types == [] then table else RegisterAll(nm, types[1..], Register(nm, types[0], table).1)
  }

  lemma {:induction false} RegisterAllConcat(nm: Naming, a: seq<AbiType>, b: seq<AbiType>, table: Table)
    ensures RegisterAll(nm, a + b, table) == RegisterAll(nm, b, RegisterAll(nm, a, table))
    decreases a
  {
    if a == [] {
      assert a + b == b;
    } else {
      assert (a + b)[0] == a[0] && (a + b)[1..] == a[1..] + b;
      RegisterAllConcat(nm, a[1..], b, Register(nm, a[0], table).1);
    }
  }

  /** Over any run of registrations the table stays closed, no entry changes, and every type of
      the run is found at the end. */
  lemma {:induction false} RunIsSound(nm: Naming, types: seq<AbiType>, table: Table)
    requires nm.Valid() && Closed(table)
    ensures var table' := RegisterAll(nm, types, table);
            && Closed(table') && Extends(table, table')
            && forall t | t in types :: Found(t, table')
    decreases types
  {
    if types != [] {
      var next := Register(nm, types[0], table).1;
      RegisterKeepsClosed(nm, types[0], table);
      RegisterGrows(nm, types[0], table);
      RunIsSound(nm, types[1..], next);
      RegistrationIsSound(nm, types[0], table, RegisterAll(nm, types[1..], next));
    }
  }

  predicate Unnamed(t: AbiType)
    decreases t, 1
  {
    match t
    case TupleTy(rawName, components) => rawName == "" && AllUnnamed(components)
    case ArrayTy(_, elem) => Unnamed(elem)
    case SliceTy(elem) => Unnamed(elem)
    case _ => true
  }

  predicate AllUnnamed(components: seq<Component>)
    decreases components, 0
  {
    components == [] || (Unnamed(components[0].typ) && AllUnnamed(components[1..]))
  }

  lemma NumberedIsInjective(m: nat, n: nat)
    requires Numbered(m) == Numbered(n)
    ensures m == n
  {
    assert Numbered(m)[6..] == Decimal(m) && Numbered(n)[6..] == Decimal(n);
    DecimalInjective(m, n);
  }

  ghost predicate KeepsNumbers(nm: Naming) {
    forall n :: nm.camel(Numbered(n)) == Numbered(n)
  }

  ghost predicate NameBelow(name: string, bound: nat) {
    exists n: nat :: n < bound && name == Numbered(n)
  }

  /** All names are numbers below the size of the table, and no two entries share one. */
  ghost predicate InjectiveNames(table: Table) {
    && (forall id | id in table :: NameBelow(table[id].name, |table|))
    && forall id, id' | id in table && id' in table && id != id' :: table[id].name != table[id'].name
  }

  lemma AddNumbered(table: Table, id: string, s: Struct)
    requires InjectiveNames(table) && id !in table && s.name == Numbered(|table|)
    ensures InjectiveNames(table[id := s])
  {
    var table' := table[id := s];
    assert |table'| == |table| + 1;
    assert NameBelow(s.name, |table'|);
    forall id' | id' in table ensures NameBelow(table'[id'].name, |table'|) && table'[id'].name != s.name {
      var n: nat :| n < |table| && table[id'].name == Numbered(n);
      if Numbered(n) == Numbered(|table|) {
        NumberedIsInjective(n, |table|);
      }
      assert n < |table'|;
    }
  }

  lemma {:induction false} RegisterKeepsInjective(nm: Naming, t: AbiType, table: Table)
    requires KeepsNumbers(nm) && Unnamed(t) && InjectiveNames(table)
    ensures InjectiveNames(Register(nm, t, table).1)
    decreases t, 1
  {
    match t
    case TupleTy(rawName, components) =>
      if Id(t) !in table {
        var (fields, table') := RegisterFields(nm, components, {}, table);
        RegisterFieldsKeepInjective(nm, components, {}, table);
        FreshIdentity(nm, t, table);
        AddNumbered(table', Id(t), Struct(Numbered(|table'|), fields));
        assert nm.camel(Numbered(|table'|)) == Numbered(|table'|);
      }
    case ArrayTy(_, elem) => RegisterKeepsInjective(nm, elem, table);
    case SliceTy(elem) => RegisterKeepsInjective(nm, elem, table);
    case _ =>
  }

  lemma {:induction false} RegisterFieldsKeepInjective(nm: Naming, components: seq<Component>, used: set<string>,
                                                       table: Table)
    requires KeepsNumbers(nm) && AllUnnamed(components) && InjectiveNames(table)
    ensures InjectiveNames(RegisterFields(nm, components, used, table).1)
    decreases components, 0
  {
    if components != [] {
      var name := nm.resolve(nm.camel(components[0].rawName), used);
      RegisterKeepsInjective(nm, components[0].typ, table);
      RegisterFieldsKeepInjective(nm, components[1..], used + {name}, Register(nm, components[0].typ, table).1);
    }
  }

  /** When no tuple has a name, different tuple identities get different struct names, over any
      run of registrations from the empty table. */
  lemma {:induction false} NumberedNamesAreInjective(nm: Naming, types: seq<AbiType>, table: Table)
    requires KeepsNumbers(nm) && InjectiveNames(table)
    requires forall t | t in types :: Unnamed(t)
    ensures InjectiveNames(RegisterAll(nm, types, table))
    decreases types
  {
    if types != [] {
      RegisterKeepsInjective(nm, types[0], table);
      NumberedNamesAreInjective(nm, types[1..], Register(nm, types[0], table).1);
    }
  }
}
