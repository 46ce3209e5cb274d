/** Stripping contract names off struct names (sanitizeStructNames in abigen/bindv2.go) and what it
    does to the struct table: the names change, the field types printed beside them do not. */
module Sanitizing {
  import opened Text
  import opened Naming
  import opened StructTable

  function TrimPrefix(s: string, prefix: string): string {
    if prefix <= s then s[|prefix|..] else s
  }

  function Sanitized(name: string, prefixes: seq<string>): string
    decreases prefixes
  {
    if prefixes == [] then name else Sanitized(TrimPrefix(name, prefixes[0]), prefixes[1..])
  }

  function SanitizedTable(structs: Table, prefixes: seq<string>): Table {
    map id | id in structs :: structs[id].(name := Sanitized(structs[id].name, prefixes))
  }

  lemma {:induction false} SanitizedFound(t: AbiType, table: Table, prefixes: seq<string>)
    requires Found(t, table)
    ensures Found(t, SanitizedTable(table, prefixes))
  {
    match t
    case ArrayTy(_, elem) => SanitizedFound(elem, table, prefixes);
    case SliceTy(elem) => SanitizedFound(elem, table, prefixes);
    case _ =>
  }

  /** No prefix takes anything off the name. */
  predicate Kept(name: string, prefixes: seq<string>) {
    forall p | p in prefixes :: p == "" || !(p <= name)
  }

  lemma {:induction false} SanitizedIsNoLonger(name: string, prefixes: seq<string>)
    ensures |Sanitized(name, prefixes)| <= |name|
    decreases prefixes
  {
    if prefixes != [] {
      SanitizedIsNoLonger(TrimPrefix(name, prefixes[0]), prefixes[1..]);
    }
  }

  /** Exactly the names that no prefix applies to come out as they went in. */
  lemma {:induction false} SanitizedKeepsExactly(name: string, prefixes: seq<string>)
    ensures Sanitized(name, prefixes) == name <==> Kept(name, prefixes)
    decreases prefixes
  {
    if prefixes != [] {
      var p := prefixes[0];
      var trimmed := TrimPrefix(name, p);
      SanitizedIsNoLonger(trimmed, prefixes[1..]);
      if p == "" || !(p <= name) {
        assert trimmed == name;
        SanitizedKeepsExactly(name, prefixes[1..]);
        if Kept(name, prefixes[1..]) {
          forall q | q in prefixes ensures q == "" || !(q <= name) {
            assert q == p || q in prefixes[1..];
          }
        } else {
          var q :| q in prefixes[1..] && q != "" && q <= name;
          assert q in prefixes;
        }
      } else {
        assert |trimmed| < |name| && p in prefixes;
      }
    }
  }

  /** The name of the tuple that a type reaches through arrays and slices, if it reaches one. */
  function ReachedName(t: AbiType, table: Table): Option<string>
    requires Found(t, table)
  {
    match t
    case TupleTy(_, _) => Some(table[Id(t)].name)
    case ArrayTy(_, elem) => ReachedName(elem, table)
    case SliceTy(elem) => ReachedName(elem, table)
    case _ => None
  }

  predicate ReachedNameKept(t: AbiType, table: Table, prefixes: seq<string>)
    requires Found(t, table)
  {
    var name := ReachedName(t, table);
    name.Some? ==> Kept(name.value, prefixes)
  }

  /** A type is printed as before exactly when the name it reaches is kept. */
  lemma {:induction false} BindTypeKeptExactly(t: AbiType, table: Table, prefixes: seq<string>)
    requires Found(t, table)
    ensures Found(t, SanitizedTable(table, prefixes))
    ensures BindType(t, SanitizedTable(table, prefixes)) == BindType(t, table) <==> ReachedNameKept(t, table, prefixes)
  {
    match t
    case TupleTy(_, _) => SanitizedKeepsExactly(table[Id(t)].name, prefixes);
    case ArrayTy(size, elem) =>
      BindTypeKeptExactly(elem, table, prefixes);
      SamePrefix("[" + Decimal(size) + "]", BindType(elem, SanitizedTable(table, prefixes)), BindType(elem, table));
    case SliceTy(elem) =>
      BindTypeKeptExactly(elem, table, prefixes);
      SamePrefix("[]", BindType(elem, SanitizedTable(table, prefixes)), BindType(elem, table));
    case _ =>
  }

  lemma SamePrefix(p: string, a: string, b: string)
    ensures p + a == p + b <==> a == b
  {
    assert (p + a)[|p|..] == a && (p + b)[|p|..] == b;
  }

  /** No prefix is a prefix of the name of a tuple that a field of the table reaches. */
  ghost predicate FieldNamesKept(table: Table, prefixes: seq<string>)
    requires Closed(table)
  {
    forall id, f | id in table && f in table[id].fields ::
      Found(f.solKind, table) && ReachedNameKept(f.solKind, table, prefixes)
  }

  /** Stripping keeps a closed table closed exactly when it leaves the name of every tuple alone
      that some field reaches: the stored field types are not updated. */
  lemma SanitizedClosedExactly(table: Table, prefixes: seq<string>)
    requires Closed(table)
    ensures Closed(SanitizedTable(table, prefixes)) <==> FieldNamesKept(table, prefixes)
  {
    var after := SanitizedTable(table, prefixes);
    forall id | id in table
      ensures FieldsHold(after[id].fields, after)
         <==> forall f | f in table[id].fields :: Found(f.solKind, table) && ReachedNameKept(f.solKind, table, prefixes)
    {
      FieldsKeptExactly(table[id].fields, table, prefixes);
    }
  }

  lemma FieldsKeptExactly(fields: seq<Field>, table: Table, prefixes: seq<string>)
    requires FieldsHold(fields, table)
    ensures FieldsHold(fields, SanitizedTable(table, prefixes))
       <==> forall f | f in fields :: Found(f.solKind, table) && ReachedNameKept(f.solKind, table, prefixes)
  {
    forall f | f in fields
      ensures Found(f.solKind, SanitizedTable(table, prefixes))
      ensures f.goType == BindType(f.solKind, SanitizedTable(table, prefixes))
         <==> ReachedNameKept(f.solKind, table, prefixes)
    {
      BindTypeKeptExactly(f.solKind, table, prefixes);
    }
  }

  lemma RegisterSingle(nm: Naming, t: AbiType, table: Table)
    requires t.TupleTy? && t.rawName != "" && |t.components| == 1 && Id(t) !in table
    ensures var c := t.components[0];
            var (goType, table') := Register(nm, c.typ, table);
            var field := Field(goType, nm.resolve(nm.camel(c.rawName), {}), c.typ);
            Register(nm, t, table).1 == table'[Id(t) := Struct(nm.camel(t.rawName), [field])]
  {
    var c := t.components[0];
    var (goType, table') := Register(nm, c.typ, table);
    var name := nm.resolve(nm.camel(c.rawName), {});
    var rest := RegisterFields(nm, t.components[1..], {} + {name}, table');
    assert rest == ([], table') && [Field(goType, name, c.typ)] + rest.0 == [Field(goType, name, c.typ)];
    assert RegisterFields(nm, t.components, {}, table).0 == [Field(goType, name, c.typ)] + rest.0;
  }

  /** Names are stripped one after the other, each off what the ones before left. */
  lemma {:induction false} SanitizedInTurn(name: string, a: seq<string>, b: seq<string>)
    ensures Sanitized(name, a + b) == Sanitized(Sanitized(name, a), b)
    decreases a
  {
    if a == [] {
      assert a + b == b;
    } else {
      assert (a + b)[0] == a[0] && (a + b)[1..] == a[1..] + b;
      SanitizedInTurn(TrimPrefix(name, a[0]), a[1..], b);
    }
  }

  /** Stripping takes exactly the contract name off. */
  lemma StripOne(prefix: string, name: string)
    ensures Sanitized(prefix + name, [prefix]) == name
  {
    assert (prefix + name)[|prefix|..] == name;
    assert Sanitized(name, [prefix][1..]) == name;
  }

  const CInner := TupleTy("CInner", [Component("x", BoolTy)])

  const COuter := TupleTy("COuter", [Component("inner", CInner)])

  lemma TableOfOuter(nm: Naming)
    ensures Id(CInner) != Id(COuter)
    ensures var innerField := Field("bool", nm.resolve(nm.camel("x"), {}), BoolTy);
            var outerField := Field(nm.camel("CInner"), nm.resolve(nm.camel("inner"), {}), CInner);
            Register(nm, COuter, map[]).1 == map[Id(CInner) := Struct(nm.camel("CInner"), [innerField]),
                                                 Id(COuter) := Struct(nm.camel("COuter"), [outerField])]
  {
    RegisterSingle(nm, CInner, map[]);
    RegisterSingle(nm, COuter, map[]);
    assert Canonical(COuter) == "(" + Canonical(CInner) + ")";
    IdentitiesDiffer(CInner, COuter);
  }

  /** An input that breaks it: contract C with a struct COuter that holds a struct CInner. The
      printed table declares Outer and Inner, while the field of Outer is still typed CInner. */
  lemma StaleFieldType(nm: Naming)
    requires nm.camel("CInner") == "CInner" && nm.camel("COuter") == "COuter"
    ensures var table := SanitizedTable(Register(nm, COuter, map[]).1, ["C"]);
            && table.Keys == {Id(CInner), Id(COuter)}
            && table[Id(CInner)].name == "Inner" && table[Id(COuter)].name == "Outer"
            && |table[Id(COuter)].fields| == 1 && table[Id(COuter)].fields[0].goType == "CInner"
            && !Closed(table)
  {
    TableOfOuter(nm);
    StripOne("C", "Inner");
    StripOne("C", "Outer");
    assert "C" + "Inner" == "CInner" && "C" + "Outer" == "COuter";
    var table := SanitizedTable(Register(nm, COuter, map[]).1, ["C"]);
    var f := table[Id(COuter)].fields[0];
    assert f in table[Id(COuter)].fields && f.solKind == CInner;
    assert BindType(CInner, table) == "Inner" != f.goType;
  }
}
