/** What the struct table says in terms of the types it was built from: every entry stands for a
    tuple that occurs in them, and which tuple names the printed fields mention. */
module StructNames {
  import opened Text
  import opened Naming
  import opened StructTable
  import opened CanonicalTypes
  import opened Sanitizing

  /** The tuple u occurs in t, at any depth. */
  ghost predicate Occurs(u: AbiType, t: AbiType) {
    match t
    case TupleTy(_, components) => u == t || exists i | 0 <= i < |components| :: Occurs(u, components[i].typ)
    case ArrayTy(_, elem) => Occurs(u, elem)
    case SliceTy(elem) => Occurs(u, elem)
    case _ => false
  }

  lemma {:induction false} OccursIsTuple(u: AbiType, t: AbiType)
    requires Occurs(u, t)
    ensures u.TupleTy?
  {
    match t
    case TupleTy(_, components) =>
      if u != t {
        var i :| 0 <= i < |components| && Occurs(u, components[i].typ);
        OccursIsTuple(u, components[i].typ);
      }
    case ArrayTy(_, elem) => OccursIsTuple(u, elem);
    case SliceTy(elem) => OccursIsTuple(u, elem);
  }

  /** All tuples of t are among these. */
  ghost predicate Covers(uses: iset<AbiType>, t: AbiType) {
    forall u | Occurs(u, t) :: u in uses
  }

  /** The entry stands for the tuple p. */
  ghost predicate Describes(nm: Naming, p: AbiType, id: string, entry: Struct) {
    && p.TupleTy? && Id(p) == id
    && (p.rawName != "" ==> entry.name == nm.camel(p.rawName))
    && |entry.fields| == |p.components|
    && forall i | 0 <= i < |entry.fields| :: entry.fields[i].solKind == p.components[i].typ
  }

  ghost predicate Described(nm: Naming, uses: iset<AbiType>, table: Table) {
    forall id | id in table :: exists p :: p in uses && Describes(nm, p, id, table[id])
  }

  lemma {:induction false} RegisterKeepsDescribed(nm: Naming, uses: iset<AbiType>, t: AbiType, table: Table)
    requires nm.Valid() && Closed(table) && Described(nm, uses, table) && Covers(uses, t)
    ensures Described(nm, uses, Register(nm, t, table).1)
    decreases t, 1
  {
    match t
    case TupleTy(_, components) =>
      if Id(t) !in table {
        forall i | 0 <= i < |components| ensures Covers(uses, components[i].typ) {
          forall u | Occurs(u, components[i].typ) ensures u in uses {
            assert Occurs(u, t);
          }
        }
        RegisterFieldsKeepDescribed(nm, uses, components, {}, table);
        NewEntryDescribesTuple(nm, t, table);
        assert t in uses && Describes(nm, t, Id(t), Register(nm, t, table).1[Id(t)]);
      }
    case ArrayTy(_, elem) =>
      assert forall u | Occurs(u, elem) :: Occurs(u, t);
      RegisterKeepsDescribed(nm, uses, elem, table);
    case SliceTy(elem) =>
      assert forall u | Occurs(u, elem) :: Occurs(u, t);
      RegisterKeepsDescribed(nm, uses, elem, table);
    case _ =>
  }

  lemma {:induction false} RegisterFieldsKeepDescribed(nm: Naming, uses: iset<AbiType>, components: seq<Component>,
                                                       used: set<string>, table: Table)
    requires nm.Valid() && Closed(table) && Described(nm, uses, table)
    requires forall i | 0 <= i < |components| :: Covers(uses, components[i].typ)
    ensures Described(nm, uses, RegisterFields(nm, components, used, table).1)
    decreases components, 0
  {
    if components != [] {
      var name := nm.resolve(nm.camel(components[0].rawName), used);
      RegisterKeepsClosed(nm, components[0].typ, table);
      RegisterKeepsDescribed(nm, uses, components[0].typ, table);
      RegisterFieldsKeepDescribed(nm, uses, components[1..], used + {name}, Register(nm, components[0].typ, table).1);
    }
  }

  /** The tuples of a list of types. */
  ghost function TuplesOf(types: iset<AbiType>): iset<AbiType> {
    iset t, u | t in types && Occurs(u, t) :: u
  }

  lemma {:induction false} RunKeepsDescribed(nm: Naming, uses: iset<AbiType>, types: seq<AbiType>, table: Table)
    requires nm.Valid() && Closed(table) && Described(nm, uses, table)
    requires forall t | t in types :: Covers(uses, t)
    ensures Described(nm, uses, RegisterAll(nm, types, table))
    decreases types
  {
    if types != [] {
      RegisterKeepsClosed(nm, types[0], table);
      RegisterKeepsDescribed(nm, uses, types[0], table);
      RunKeepsDescribed(nm, uses, types[1..], Register(nm, types[0], table).1);
    }
  }

  // ---------------------------------------------------- the names that fields mention

  /** The tuple that t reaches through arrays and slices, if it reaches one. */
  function Reached(t: AbiType): (r: Option<AbiType>)
    ensures r.Some? ==> r.value.TupleTy?
  {
    match t
    case TupleTy(_, _) => Some(t)
    case ArrayTy(_, elem) => Reached(elem)
    case SliceTy(elem) => Reached(elem)
    case _ => None
  }

  /** The tuple u is the type of a component of p, or the element of one. */
  ghost predicate Holds(p: AbiType, u: AbiType) {
    p.TupleTy? && exists i | 0 <= i < |p.components| :: Reached(p.components[i].typ) == Some(u)
  }

  /** No prefix is a prefix of the name of a tuple that another one holds. */
  ghost predicate NestedNamesKept(nm: Naming, uses: iset<AbiType>, prefixes: seq<string>) {
    forall p, u | p in uses && Holds(p, u) :: Kept(nm.camel(u.rawName), prefixes)
  }

  ghost predicate AllNamed(uses: iset<AbiType>) {
    forall u | u in uses :: u.TupleTy? && u.rawName != ""
  }

  /** Tuples of the same raw name and canonical type are the same throughout. */
  ghost predicate Unambiguous(uses: iset<AbiType>) {
    forall p, p' | p in uses && p' in uses && p.TupleTy? && p'.TupleTy? && Id(p) == Id(p') :: p == p'
  }

  lemma {:induction false} ReachedNameIs(nm: Naming, uses: iset<AbiType>, t: AbiType, table: Table)
    requires Described(nm, uses, table) && AllNamed(uses) && Found(t, table)
    ensures ReachedName(t, table)
         == match Reached(t) case Some(u) => Some(nm.camel(u.rawName)) case None => None
  {
    match t
    case TupleTy(_, _) =>
      var p :| p in uses && Describes(nm, p, Id(t), table[Id(t)]);
      IdExactly(p, t);
    case ArrayTy(_, elem) => ReachedNameIs(nm, uses, elem, table);
    case SliceTy(elem) => ReachedNameIs(nm, uses, elem, table);
    case _ =>
  }

  lemma NestedNamesSuffice(nm: Naming, uses: iset<AbiType>, table: Table, prefixes: seq<string>)
    requires Closed(table) && Described(nm, uses, table) && AllNamed(uses)
    requires NestedNamesKept(nm, uses, prefixes)
    ensures FieldNamesKept(table, prefixes)
  {
    forall id, f | id in table && f in table[id].fields
      ensures Found(f.solKind, table) && ReachedNameKept(f.solKind, table, prefixes)
    {
      var p :| p in uses && Describes(nm, p, id, table[id]);
      var i :| 0 <= i < |table[id].fields| && table[id].fields[i] == f;
      ReachedNameIs(nm, uses, f.solKind, table);
      var u := Reached(p.components[i].typ);
      if u.Some? {
        assert Holds(p, u.value);
      }
    }
  }

  /** In a closed table that stands for unambiguous tuples, nothing inside a registered type is
      missing. */
  lemma {:induction false} AllPresent(nm: Naming, uses: iset<AbiType>, table: Table, t: AbiType, p: AbiType)
    requires Closed(table) && Described(nm, uses, table) && Unambiguous(uses)
    requires Covers(uses, t) && Found(t, table) && Occurs(p, t)
    ensures p.TupleTy? && Id(p) in table && Describes(nm, p, Id(p), table[Id(p)])
    decreases t
  {
    match t
    case TupleTy(_, components) =>
      var q :| q in uses && Describes(nm, q, Id(t), table[Id(t)]);
      assert Occurs(t, t) && q == t;
      if p != t {
        var i :| 0 <= i < |components| && Occurs(p, components[i].typ);
        assert forall u | Occurs(u, components[i].typ) :: Occurs(u, t);
        assert table[Id(t)].fields[i] in table[Id(t)].fields;
        AllPresent(nm, uses, table, components[i].typ, p);
      }
    case ArrayTy(_, elem) =>
      assert forall u | Occurs(u, elem) :: Occurs(u, t);
      AllPresent(nm, uses, table, elem, p);
    case SliceTy(elem) =>
      assert forall u | Occurs(u, elem) :: Occurs(u, t);
      AllPresent(nm, uses, table, elem, p);
  }

  /** Over any run of registrations of named types: no contract name is a prefix of the name of a
      tuple that another tuple of these types holds, exactly when none is a prefix of a name that
      the fields of the table mention. The one direction needs that tuples of the same raw name and
      canonical type are the same, since only the first of them is registered. */
  lemma NestedNamesExactly(nm: Naming, types: seq<AbiType>, uses: iset<AbiType>, prefixes: seq<string>)
    requires nm.Valid() && uses == TuplesOf(iset t | t in types) && AllNamed(uses)
    ensures var table := RegisterAll(nm, types, map[]);
            && Closed(table)
            && (NestedNamesKept(nm, uses, prefixes) ==> FieldNamesKept(table, prefixes))
            && (Unambiguous(uses) ==> (FieldNamesKept(table, prefixes) <==> NestedNamesKept(nm, uses, prefixes)))
  {
    var table := RegisterAll(nm, types, map[]);
    RunIsSound(nm, types, map[]);
    RunKeepsDescribed(nm, uses, types, map[]);
    if NestedNamesKept(nm, uses, prefixes) {
      NestedNamesSuffice(nm, uses, table, prefixes);
    }
    if Unambiguous(uses) && FieldNamesKept(table, prefixes) {
      forall p, u | p in uses && Holds(p, u) ensures Kept(nm.camel(u.rawName), prefixes) {
        var t :| t in types && Occurs(p, t);
        AllPresent(nm, uses, table, t, p);
        var i :| 0 <= i < |p.components| && Reached(p.components[i].typ) == Some(u);
        var f := table[Id(p)].fields[i];
        assert f in table[Id(p)].fields;
        ReachedNameIs(nm, uses, f.solKind, table);
      }
    }
  }

  // -------------------------------------------------------- one entry for one shape

  /** The entry is right for the tuple t: a field for each component, whose type has the shape of the
      component's and is printed as the table has it. */
  ghost predicate Represents(entry: Struct, t: AbiType, table: Table)
    requires t.TupleTy?
  {
    && |entry.fields| == |t.components|
    && forall i | 0 <= i < |entry.fields| ::
         var f := entry.fields[i];
         && SameShape(f.solKind, t.components[i].typ)
         && Found(f.solKind, table) && f.goType == BindType(f.solKind, table)
  }

  /** Over any run of registrations every tuple that a registered type reaches has an entry that is
      right for it, and two of them share one only if they have the same raw name and the same shape. */
  lemma RunRepresents(nm: Naming, types: seq<AbiType>)
    requires nm.Valid()
    ensures var table := RegisterAll(nm, types, map[]);
            && (forall t | t in types && Reached(t).Some? ::
                  var u := Reached(t).value; Id(u) in table && Represents(table[Id(u)], u, table))
            && forall t, t' | t in types && t' in types && Reached(t).Some? && Reached(t').Some? ::
                 var u, u' := Reached(t).value, Reached(t').value;
                 Id(u) == Id(u') <==> u.rawName == u'.rawName && SameShape(u, u')
  {
    var table := RegisterAll(nm, types, map[]);
    var uses := TuplesOf(iset t | t in types);
    RunIsSound(nm, types, map[]);
    RunKeepsDescribed(nm, uses, types, map[]);
    forall t | t in types && Reached(t).Some?
      ensures var u := Reached(t).value; Id(u) in table && Represents(table[Id(u)], u, table)
    {
      ReachedIsFound(t, table);
      EntryRepresents(nm, uses, Reached(t).value, table);
    }
    forall t, t' | t in types && t' in types && Reached(t).Some? && Reached(t').Some?
      ensures var u, u' := Reached(t).value, Reached(t').value;
              Id(u) == Id(u') <==> u.rawName == u'.rawName && SameShape(u, u')
    {
      IdExactly(Reached(t).value, Reached(t').value);
    }
  }

  lemma {:induction false} ReachedIsFound(t: AbiType, table: Table)
    requires Found(t, table) && Reached(t).Some?
    ensures Id(Reached(t).value) in table
  {
    match t
    case ArrayTy(_, elem) => ReachedIsFound(elem, table);
    case SliceTy(elem) => ReachedIsFound(elem, table);
    case _ =>
  }

  lemma EntryRepresents(nm: Naming, uses: iset<AbiType>, u: AbiType, table: Table)
    requires Closed(table) && Described(nm, uses, table) && u.TupleTy? && Id(u) in table
    ensures Represents(table[Id(u)], u, table)
  {
    var entry := table[Id(u)];
    var p :| p in uses && Describes(nm, p, Id(u), entry);
    IdExactly(p, u);
    forall i | 0 <= i < |entry.fields|
      ensures var f := entry.fields[i];
              && SameShape(f.solKind, u.components[i].typ)
              && Found(f.solKind, table) && f.goType == BindType(f.solKind, table)
    {
      assert entry.fields[i] in entry.fields;
    }
  }

  // ------------------------------------------------------------- why unambiguous

  function Member(name: string): AbiType {
    TupleTy(name, [Component("x", BoolTy)])
  }

  /** A struct S with one member of a tuple type of this name. */
  function StructS(name: string): AbiType {
    TupleTy("S", [Component("m", Member(name))])
  }

  lemma SameIds(name: string, name': string)
    ensures Id(StructS(name)) == Id(StructS(name'))
  {
    assert Canonical(Member(name)) == Canonical(Member(name'));
    assert Canonical(StructS(name)) == "(" + Canonical(Member(name)) + ")";
    assert Canonical(StructS(name')) == "(" + Canonical(Member(name')) + ")";
  }

  lemma TuplesOfS(name: string, u: AbiType)
    ensures Occurs(u, StructS(name)) <==> u == StructS(name) || u == Member(name)
    ensures Holds(StructS(name), u) <==> u == Member(name)
    ensures !Holds(Member(name), u)
  {
    assert StructS(name).components[0].typ == Member(name);
    assert Member(name).components[0].typ == BoolTy;
    assert Occurs(u, Member(name)) <==> u == Member(name);
    var components := StructS(name).components;
    assert Occurs(u, StructS(name)) <==> u == StructS(name) || Occurs(u, components[0].typ);
    assert Reached(StructS(name).components[0].typ) == Some(Member(name));
  }

  lemma OnlyFirst(nm: Naming, first: AbiType, second: AbiType)
    requires first.TupleTy? && second.TupleTy? && Id(first) == Id(second)
    ensures RegisterAll(nm, [first, second], map[]) == RegisterAll(nm, [first], map[])
  {
    var table := Register(nm, first, map[]).1;
    RegisterFinds(nm, first, map[]);
    assert [first, second][1..] == [second] && [second][1..] == [] && [first][1..] == [];
    assert RegisterAll(nm, [second], table) == RegisterAll(nm, [], Register(nm, second, table).1);
  }

  lemma MemberIsKept(nm: Naming, name: string, prefixes: seq<string>)
    requires nm.Valid() && name != "" && Kept(nm.camel(name), prefixes)
    ensures Closed(RegisterAll(nm, [StructS(name)], map[]))
    ensures FieldNamesKept(RegisterAll(nm, [StructS(name)], map[]), prefixes)
  {
    var uses := iset{StructS(name), Member(name)};
    forall u ensures Occurs(u, StructS(name)) ==> u in uses {
      TuplesOfS(name, u);
    }
    forall p, u | p in uses && Holds(p, u) ensures Kept(nm.camel(u.rawName), prefixes) {
      TuplesOfS(name, u);
    }
    RunIsSound(nm, [StructS(name)], map[]);
    RunKeepsDescribed(nm, uses, [StructS(name)], map[]);
    NestedNamesSuffice(nm, uses, RegisterAll(nm, [StructS(name)], map[]), prefixes);
  }

  /** Of two structs S whose members A and CB have the same shape only the first is registered, so
      the contract name C does no harm although it is a prefix of CB. */
  lemma ShadowedTuple(nm: Naming)
    requires nm.Valid() && nm.camel("A") == "A" && nm.camel("CB") == "CB"
    ensures var types := [StructS("A"), StructS("CB")];
            && !NestedNamesKept(nm, TuplesOf(iset t | t in types), ["C"])
            && Closed(RegisterAll(nm, types, map[]))
            && FieldNamesKept(RegisterAll(nm, types, map[]), ["C"])
  {
    var types := [StructS("A"), StructS("CB")];
    SameIds("A", "CB");
    OnlyFirst(nm, types[0], types[1]);
    assert "C"[0] == 'C' && "A"[0] == 'A' && !("C" <= "A");
    MemberIsKept(nm, "A", ["C"]);
    TuplesOfS("CB", StructS("CB"));
    TuplesOfS("CB", Member("CB"));
    assert types[1] in types && StructS("CB") in TuplesOf(iset t | t in types);
    assert "C" in ["C"] && "C" <= nm.camel(Member("CB").rawName);
  }
}
