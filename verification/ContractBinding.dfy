/** Binding the methods, events and errors of contracts (abigen/bindv2.go). BindV2 walks Go maps,
    whose order is arbitrary, in the sorted order of their keys. */
module ContractBinding {
  import opened Sorting
  import opened Text
  import opened Naming
  import opened StructTable
  import opened NormalizeArgs
  import opened Sanitizing
  import opened StructNames

  datatype Symbol = Symbol(name: string, inputs: seq<Argument>, outputs: seq<Argument>, anonymous: bool)

  datatype Bound = Bound(
    original: Symbol,
    name: string,
    inputs: seq<Argument>,
    outputs: seq<Argument>,
    structured: bool)

  /** The identifiers taken so far and the symbols bound so far, by their original name. */
  datatype Scope = Scope(identifiers: set<string>, bound: map<string, Bound>)

  datatype Config = Config(nm: Naming, aliases: map<string, string>)

  function Alias(aliases: map<string, string>, name: string): string {
    if name in aliases then aliases[name] else name
  }

  /** The identifier of a symbol; a clash is reported with the clashing identifier. */
  function RegisterIdentifier(cfg: Config, identifiers: set<string>, original: string): (r: Result<string, string>)
    ensures r.Ok? ==> r.value !in identifiers
    ensures r.Err? ==> r.error in identifiers
  {
    var cased := cfg.nm.camel(Alias(cfg.aliases, original));
    var normalized := if cased != "" && IsDigit(cased[0]) then cfg.nm.resolve("E" + cased, identifiers) else cased;
    if normalized in identifiers then Err(normalized) else Ok(normalized)
  }

  function RegisterArgs(nm: Naming, args: seq<Argument>, table: Table): Table
    decreases args
  {
    if args == [] then table
    else RegisterArgs(nm, args[1..], if HasStruct(args[0].typ) then Register(nm, args[0].typ, table).1 else table)
  }

  /** One step of binding: the scope and the shared struct table after it, or the clash. */
  function BindSymbol(cfg: Config, scope: Scope, structs: Table, s: Symbol): Result<(Scope, Table), string> {
    if s.anonymous then Ok((scope, structs))
    else
      match RegisterIdentifier(cfg, scope.identifiers, s.name)
      case Err(clash) => Err(clash)
      case Ok(name) =>
        var inputs := Normalized(cfg.nm.camel, s.inputs);
        var outputs := Normalized(cfg.nm.camel, s.outputs);
        var structs' := RegisterArgs(cfg.nm, outputs, RegisterArgs(cfg.nm, inputs, structs));
        Ok((Scope(scope.identifiers + {name}, scope.bound[s.name := Bound(s, name, inputs, outputs, |outputs| > 1)]),
            structs'))
  }

  function BindKeys(cfg: Config, items: map<string, Symbol>, keys: seq<string>, scope: Scope, structs: Table)
    : Result<(Scope, Table), string>
    requires forall k | k in keys :: k in items
    decreases keys
  {
    if keys == [] then Ok((scope, structs))
    else
      match BindSymbol(cfg, scope, structs, items[keys[0]])
      case Err(clash) => Err(clash)
      case Ok((scope', structs')) => BindKeys(cfg, items, keys[1..], scope', structs')
  }

  /** Byte-wise order of Go strings. */
  predicate LexLeq(a: string, b: string) {
    a == [] || (b != [] && (a[0] < b[0] || (a[0] == b[0] && LexLeq(a[1..], b[1..]))))
  }

  /** An order in which ranging over the map may deliver its keys. */
  ghost predicate Enumerates(keys: seq<string>, items: map<string, Symbol>) {
    multiset(keys) == multiset(items.Keys)
  }

  lemma SortedKeysAreKeys(keys: seq<string>, items: map<string, Symbol>)
    requires Enumerates(keys, items)
    ensures forall k | k in Sort(LexLeq, keys) :: k in items
  {
    SortPermutes(LexLeq, keys);
    forall k | k in Sort(LexLeq, keys) ensures k in items {
      assert k in multiset(Sort(LexLeq, keys));
      assert k in multiset(items.Keys);
    }
  }

  /** Binding all symbols of a map, given the order in which its keys were delivered. */
  ghost function BindMap(cfg: Config, items: map<string, Symbol>, order: seq<string>, scope: Scope, structs: Table)
    : Result<(Scope, Table), string>
    requires Enumerates(order, items)
  {
    SortedKeysAreKeys(order, items);
    BindKeys(cfg, items, Sort(LexLeq, order), scope, structs)
  }

  // ------------------------------------------------------ order independence

  lemma {:induction false} LexTotal(a: string, b: string)
    ensures LexLeq(a, b) || LexLeq(b, a)
    decreases a
  {
    if a != [] && b != [] && a[0] == b[0] {
      LexTotal(a[1..], b[1..]);
    }
  }

  lemma {:induction false} LexTransitive(a: string, b: string, c: string)
    requires LexLeq(a, b) && LexLeq(b, c)
    ensures LexLeq(a, c)
    decreases a
  {
    if a != [] && a[0] == b[0] == c[0] {
      LexTransitive(a[1..], b[1..], c[1..]);
    }
  }

  lemma {:induction false} LexAntisymmetric(a: string, b: string)
    requires LexLeq(a, b) && LexLeq(b, a)
    ensures a == b
    decreases a
  {
    if a != [] {
      LexAntisymmetric(a[1..], b[1..]);
      assert a == [a[0]] + a[1..] && b == [b[0]] + b[1..];
    }
  }

  /** The order of strings: a prefix comes first, otherwise the first difference decides. */
  lemma {:induction false} LexLeqExactly(a: string, b: string)
    ensures LexLeq(a, b) <==> a <= b || exists k | 0 <= k < |a| && k < |b| :: a[..k] == b[..k] && a[k] < b[k]
    decreases a
  {
    if a != [] && b != [] {
      LexLeqExactly(a[1..], b[1..]);
      FirstDifference(a, b);
    }
  }

  lemma FirstDifference(a: string, b: string)
    requires a != [] && b != []
    ensures var differ := exists k | 0 <= k < |a| && k < |b| :: a[..k] == b[..k] && a[k] < b[k];
            var later := exists k | 0 <= k < |a[1..]| && k < |b[1..]| ::
                           a[1..][..k] == b[1..][..k] && a[1..][k] < b[1..][k];
            differ <==> a[0] < b[0] || (a[0] == b[0] && later)
  {
    if a[0] < b[0] {
      assert a[..0] == b[..0];
    }
    if k :| 0 <= k < |a[1..]| && k < |b[1..]| && a[1..][..k] == b[1..][..k] && a[1..][k] < b[1..][k] {
      if a[0] == b[0] {
        assert a[..k + 1] == [a[0]] + a[1..][..k] && b[..k + 1] == [b[0]] + b[1..][..k];
        assert a[k + 1] < b[k + 1];
      }
    }
    if k :| 0 <= k < |a| && k < |b| && a[..k] == b[..k] && a[k] < b[k] {
      if k > 0 {
        assert a[0] == a[..k][0] && b[0] == b[..k][0];
        assert a[1..][..k - 1] == a[..k][1..] && b[1..][..k - 1] == b[..k][1..];
        assert a[1..][k - 1] < b[1..][k - 1];
      }
    }
  }

  lemma LexIsOrder()
    ensures TotalPreorder(LexLeq) && Antisymmetric(LexLeq)
  {
    forall a: string, b: string ensures LexLeq(a, b) || LexLeq(b, a) {
      LexTotal(a, b);
    }
    forall a: string, b: string, c: string | LexLeq(a, b) && LexLeq(b, c) ensures LexLeq(a, c) {
      LexTransitive(a, b, c);
    }
    forall a: string, b: string | LexLeq(a, b) && LexLeq(b, a) ensures a == b {
      LexAntisymmetric(a, b);
    }
  }

  lemma SortedKeysIgnoreOrder(keys: seq<string>, keys': seq<string>)
    requires multiset(keys) == multiset(keys')
    ensures Sort(LexLeq, keys) == Sort(LexLeq, keys')
  {
    LexIsOrder();
    SortPermutes(LexLeq, keys);
    SortPermutes(LexLeq, keys');
    SortIsSorted(LexLeq, keys);
    SortIsSorted(LexLeq, keys');
    SortedIsUnique(LexLeq, Sort(LexLeq, keys), Sort(LexLeq, keys'));
  }

  datatype Contract = Contract(
    constructorInputs: seq<Argument>,
    methods: map<string, Symbol>,
    events: map<string, Symbol>,
    errors: map<string, Symbol>)

  datatype BoundContract = BoundContract(calls: Scope, events: Scope, errors: Scope)

  /** The orders in which ranging over the three maps of one contract delivered the keys. */
  datatype Orders = Orders(methods: seq<string>, events: seq<string>, errors: seq<string>)

  ghost predicate EnumeratesAll(o: Orders, c: Contract) {
    Enumerates(o.methods, c.methods) && Enumerates(o.events, c.events) && Enumerates(o.errors, c.errors)
  }

  const EMPTY := Scope({}, map[])

  ghost function BindContract(cfg: Config, c: Contract, o: Orders, structs: Table)
    : Result<(BoundContract, Table), string>
    requires EnumeratesAll(o, c)
  {
    match BindMap(cfg, c.methods, o.methods, EMPTY, RegisterArgs(cfg.nm, c.constructorInputs, structs))
    case Err(clash) => Err(clash)
    case Ok((calls, structs1)) =>
      match BindMap(cfg, c.events, o.events, EMPTY, structs1)
      case Err(clash) => Err(clash)
      case Ok((events, structs2)) =>
        match BindMap(cfg, c.errors, o.errors, EMPTY, structs2)
        case Err(clash) => Err(clash)
        case Ok((errors, structs3)) => Ok((BoundContract(calls, events, errors), structs3))
  }

  ghost function BindAll(cfg: Config, cs: seq<Contract>, os: seq<Orders>, structs: Table)
    : Result<(seq<BoundContract>, Table), string>
    requires |os| == |cs| && forall i | 0 <= i < |cs| :: EnumeratesAll(os[i], cs[i])
    decreases |cs|
  {
    if cs == [] then Ok(([], structs))
    else
      match BindContract(cfg, cs[0], os[0], structs)
      case Err(clash) => Err(clash)
      case Ok((bound, structs1)) =>
        assert forall i | 0 <= i < |cs[1..]| :: EnumeratesAll(os[1..][i], cs[1..][i]);
        match BindAll(cfg, cs[1..], os[1..], structs1)
        case Err(clash) => Err(clash)
        case Ok((rest, structs2)) => Ok(([bound] + rest, structs2))
  }

  lemma {:induction false} ContractIgnoresMapOrder(cfg: Config, c: Contract, o: Orders, o': Orders, structs: Table)
    requires EnumeratesAll(o, c) && EnumeratesAll(o', c)
    ensures BindContract(cfg, c, o, structs) == BindContract(cfg, c, o', structs)
  {
    SortedKeysIgnoreOrder(o.methods, o'.methods);
    SortedKeysIgnoreOrder(o.events, o'.events);
    SortedKeysIgnoreOrder(o.errors, o'.errors);
  }

  /** Names, struct table and the reported clash are the same whatever order the maps of the
      contracts are walked in. */
  lemma {:induction false} BindingIgnoresMapOrder(cfg: Config, cs: seq<Contract>, os: seq<Orders>, os': seq<Orders>,
                                                  structs: Table)
    requires |os| == |cs| == |os'|
    requires forall i | 0 <= i < |cs| :: EnumeratesAll(os[i], cs[i]) && EnumeratesAll(os'[i], cs[i])
    ensures BindAll(cfg, cs, os, structs) == BindAll(cfg, cs, os', structs)
    decreases |cs|
  {
    if cs != [] {
      ContractIgnoresMapOrder(cfg, cs[0], os[0], os'[0], structs);
      var r := BindContract(cfg, cs[0], os[0], structs);
      if r.Ok? {
        BindingIgnoresMapOrder(cfg, cs[1..], os[1..], os'[1..], r.value.1);
      }
    }
  }

  // ----------------------------------------------------------- injectivity

  /** The identifiers are the names given out, and no two symbols share one. */
  ghost predicate Injective(scope: Scope) {
    && (forall k | k in scope.bound :: scope.bound[k].name in scope.identifiers)
    && forall k, k' | k in scope.bound && k' in scope.bound && k != k' :: scope.bound[k].name != scope.bound[k'].name
  }

  lemma BindSymbolKeepsInjective(cfg: Config, scope: Scope, structs: Table, s: Symbol)
    requires Injective(scope) && BindSymbol(cfg, scope, structs, s).Ok?
    ensures var scope' := BindSymbol(cfg, scope, structs, s).value.0;
            && Injective(scope')
            && scope'.bound.Keys == scope.bound.Keys + if s.anonymous then {} else {s.name}
  {
  }

  lemma {:induction false} BoundNamesAreInjective(cfg: Config, items: map<string, Symbol>, keys: seq<string>,
                                                  scope: Scope, structs: Table)
    requires forall k | k in keys :: k in items
    requires Injective(scope)
    ensures var r := BindKeys(cfg, items, keys, scope, structs);
            r.Ok? ==> Injective(r.value.0) && r.value.0.bound.Keys == scope.bound.Keys + NamesOf(items, keys)
    decreases keys
  {
    if keys != [] {
      var r := BindSymbol(cfg, scope, structs, items[keys[0]]);
      if r.Ok? {
        BindSymbolKeepsInjective(cfg, scope, structs, items[keys[0]]);
        BoundNamesAreInjective(cfg, items, keys[1..], r.value.0, r.value.1);
      }
    }
  }

  /** The names of the symbols under these keys that are not anonymous. */
  ghost function NamesOf(items: map<string, Symbol>, keys: seq<string>): set<string>
    requires forall k | k in keys :: k in items
    decreases keys
  {
    if keys == [] then {}
    else (if items[keys[0]].anonymous then {} else {items[keys[0]].name}) + NamesOf(items, keys[1..])
  }

  lemma {:induction false} NamesOfAll(items: map<string, Symbol>, keys: seq<string>)
    requires forall k | k in keys :: k in items
    ensures NamesOf(items, keys) == set k | k in keys && !items[k].anonymous :: items[k].name
    decreases keys
  {
    if keys != [] {
      NamesOfAll(items, keys[1..]);
      assert keys == [keys[0]] + keys[1..];
    }
  }

  /** When a contract binds, the identifiers of its methods, of its events and of its errors are
      injective, and exactly the symbols that are not anonymous are bound. */
  lemma ContractNamesAreInjective(cfg: Config, c: Contract, o: Orders, structs: Table)
    requires EnumeratesAll(o, c)
    requires BindContract(cfg, c, o, structs).Ok?
    ensures var b := BindContract(cfg, c, o, structs).value.0;
            && Injective(b.calls) && Injective(b.events) && Injective(b.errors)
            && b.calls.bound.Keys == BoundKeys(c.methods)
            && b.events.bound.Keys == BoundKeys(c.events)
            && b.errors.bound.Keys == BoundKeys(c.errors)
  {
    var b := BindContract(cfg, c, o, structs).value.0;
    var structs0 := RegisterArgs(cfg.nm, c.constructorInputs, structs);
    var structs1 := BindMap(cfg, c.methods, o.methods, EMPTY, structs0).value.1;
    var structs2 := BindMap(cfg, c.events, o.events, EMPTY, structs1).value.1;
    MapNamesAreInjective(cfg, c.methods, o.methods, structs0);
    MapNamesAreInjective(cfg, c.events, o.events, structs1);
    MapNamesAreInjective(cfg, c.errors, o.errors, structs2);
  }

  ghost function BoundKeys(items: map<string, Symbol>): set<string> {
    set k | k in items && !items[k].anonymous :: items[k].name
  }

  lemma MapNamesAreInjective(cfg: Config, items: map<string, Symbol>, order: seq<string>, structs: Table)
    requires Enumerates(order, items)
    ensures var r := BindMap(cfg, items, order, EMPTY, structs);
            r.Ok? ==> Injective(r.value.0) && r.value.0.bound.Keys == BoundKeys(items)
  {
    var keys := Sort(LexLeq, order);
    SortedKeysAreKeys(order, items);
    SortPermutes(LexLeq, order);
    BoundNamesAreInjective(cfg, items, keys, EMPTY, structs);
    NamesOfAll(items, keys);
    forall k | k in items ensures k in keys {
      assert k in multiset(items.Keys) && k in multiset(keys);
    }
  }

  // ------------------------------------------------------- what is bound to what

  /** The arguments with their types and indexed flags in order, under distinct names. */
  ghost predicate SameArguments(args: seq<Argument>, bound: seq<Argument>) {
    && |bound| == |args|
    && (forall i | 0 <= i < |args| ::
          bound[i].typ == args[i].typ && bound[i].indexed == args[i].indexed && bound[i].name != "")
    && forall i, j | 0 <= i < j < |bound| :: bound[i].name != bound[j].name
  }

  /** The identifier is the camel-cased name or alias; one that would start with a digit gets an E in
      front and is kept apart from identifiers given out before. */
  ghost predicate Identifies(cfg: Config, identifiers: set<string>, name: string, original: string) {
    var cased := cfg.nm.camel(if original in cfg.aliases then cfg.aliases[original] else original);
    && name in identifiers
    && if cased != "" && '0' <= cased[0] <= '9'
       then exists taken :: taken <= identifiers && name == cfg.nm.resolve("E" + cased, taken) && name !in taken
       else name == cased
  }

  ghost predicate Describes(cfg: Config, identifiers: set<string>, b: Bound, s: Symbol) {
    && b.original == s && !s.anonymous
    && Identifies(cfg, identifiers, b.name, s.name)
    && SameArguments(s.inputs, b.inputs) && SameArguments(s.outputs, b.outputs)
    && (b.structured <==> |s.outputs| >= 2)
  }

  /** Everything bound stands under the name of a symbol of the map and describes it. */
  ghost predicate ScopeDescribes(cfg: Config, items: map<string, Symbol>, scope: Scope) {
    forall n | n in scope.bound ::
      exists k | k in items :: items[k].name == n && Describes(cfg, scope.identifiers, scope.bound[n], items[k])
  }

  lemma NormalizedDescribes(camel: string -> string, args: seq<Argument>)
    ensures SameArguments(args, Normalized(camel, args))
  {
    NormalizedFacts(camel, args);
  }

  lemma DescribesLater(cfg: Config, identifiers: set<string>, identifiers': set<string>, b: Bound, s: Symbol)
    requires Describes(cfg, identifiers, b, s) && identifiers <= identifiers'
    ensures Describes(cfg, identifiers', b, s)
  {
  }

  lemma BindSymbolDescribes(cfg: Config, scope: Scope, structs: Table, s: Symbol)
    requires !s.anonymous && BindSymbol(cfg, scope, structs, s).Ok?
    ensures var scope' := BindSymbol(cfg, scope, structs, s).value.0;
            && scope.identifiers <= scope'.identifiers
            && scope'.bound.Keys == scope.bound.Keys + {s.name}
            && (forall n | n in scope.bound && n != s.name :: scope'.bound[n] == scope.bound[n])
            && Describes(cfg, scope'.identifiers, scope'.bound[s.name], s)
  {
    NormalizedDescribes(cfg.nm.camel, s.inputs);
    NormalizedDescribes(cfg.nm.camel, s.outputs);
    var name := RegisterIdentifier(cfg, scope.identifiers, s.name).value;
    assert scope.identifiers <= scope.identifiers + {name} && name !in scope.identifiers;
    assert Identifies(cfg, scope.identifiers + {name}, name, s.name);
  }

  lemma BindSymbolKeepsDescribes(cfg: Config, items: map<string, Symbol>, key: string, scope: Scope, structs: Table)
    requires key in items && ScopeDescribes(cfg, items, scope) && BindSymbol(cfg, scope, structs, items[key]).Ok?
    ensures ScopeDescribes(cfg, items, BindSymbol(cfg, scope, structs, items[key]).value.0)
  {
    var s := items[key];
    var scope' := BindSymbol(cfg, scope, structs, s).value.0;
    if !s.anonymous {
      BindSymbolDescribes(cfg, scope, structs, s);
      forall n | n in scope'.bound
        ensures exists k | k in items ::
                  items[k].name == n && Describes(cfg, scope'.identifiers, scope'.bound[n], items[k])
      {
        if n != s.name {
          var k :| k in items && items[k].name == n && Describes(cfg, scope.identifiers, scope.bound[n], items[k]);
          DescribesLater(cfg, scope.identifiers, scope'.identifiers, scope.bound[n], items[k]);
        }
      }
    }
  }

  lemma {:induction false} BindKeysDescribe(cfg: Config, items: map<string, Symbol>, keys: seq<string>, scope: Scope,
                                            structs: Table)
    requires forall k | k in keys :: k in items
    requires ScopeDescribes(cfg, items, scope) && BindKeys(cfg, items, keys, scope, structs).Ok?
    ensures ScopeDescribes(cfg, items, BindKeys(cfg, items, keys, scope, structs).value.0)
    decreases keys
  {
    if keys != [] {
      BindSymbolKeepsDescribes(cfg, items, keys[0], scope, structs);
      var (scope', structs') := BindSymbol(cfg, scope, structs, items[keys[0]]).value;
      BindKeysDescribe(cfg, items, keys[1..], scope', structs');
    }
  }

  lemma BindMapDescribes(cfg: Config, items: map<string, Symbol>, order: seq<string>, structs: Table)
    requires Enumerates(order, items) && BindMap(cfg, items, order, EMPTY, structs).Ok?
    ensures var scope := BindMap(cfg, items, order, EMPTY, structs).value.0;
            ScopeDescribes(cfg, items, scope) && scope.bound.Keys == BoundKeys(items)
  {
    SortedKeysAreKeys(order, items);
    BindKeysDescribe(cfg, items, Sort(LexLeq, order), EMPTY, structs);
    MapNamesAreInjective(cfg, items, order, structs);
  }

  /** What a contract binds, for every order of its maps: its entries are exactly the names of the
      symbols that are not anonymous, and each entry keeps such a symbol as the original, with its own
      identifier, inputs and outputs, and is structured exactly when there are several outputs. */
  lemma ContractDescribes(cfg: Config, c: Contract, o: Orders, structs: Table)
    requires EnumeratesAll(o, c) && BindContract(cfg, c, o, structs).Ok?
    ensures var b := BindContract(cfg, c, o, structs).value.0;
            && ScopeDescribes(cfg, c.methods, b.calls) && b.calls.bound.Keys == BoundKeys(c.methods)
            && ScopeDescribes(cfg, c.events, b.events) && b.events.bound.Keys == BoundKeys(c.events)
            && ScopeDescribes(cfg, c.errors, b.errors) && b.errors.bound.Keys == BoundKeys(c.errors)
  {
    var structs0 := RegisterArgs(cfg.nm, c.constructorInputs, structs);
    var structs1 := BindMap(cfg, c.methods, o.methods, EMPTY, structs0).value.1;
    var structs2 := BindMap(cfg, c.events, o.events, EMPTY, structs1).value.1;
    BindMapDescribes(cfg, c.methods, o.methods, structs0);
    BindMapDescribes(cfg, c.events, o.events, structs1);
    BindMapDescribes(cfg, c.errors, o.errors, structs2);
  }

  /** The ABI parser keys its maps by the names of the symbols. */
  ghost predicate KeyedByName(items: map<string, Symbol>) {
    forall k | k in items :: items[k].name == k
  }

  /** With maps keyed by name every symbol that is not anonymous finds itself bound. */
  lemma EverySymbolIsBound(cfg: Config, items: map<string, Symbol>, scope: Scope, k: string)
    requires KeyedByName(items) && ScopeDescribes(cfg, items, scope) && scope.bound.Keys == BoundKeys(items)
    requires k in items && !items[k].anonymous
    ensures k in scope.bound && Describes(cfg, scope.identifiers, scope.bound[k], items[k])
  {
    assert items[k].name in BoundKeys(items);
    var k' :| k' in items && items[k'].name == k && Describes(cfg, scope.identifiers, scope.bound[k], items[k']);
  }

  /** A symbol clashes exactly when it is not anonymous, its identifier is taken and does not start with
      a digit; what is reported is a taken identifier. */
  lemma ClashIsReal(cfg: Config, scope: Scope, structs: Table, s: Symbol)
    ensures var r := BindSymbol(cfg, scope, structs, s);
            var cased := cfg.nm.camel(if s.name in cfg.aliases then cfg.aliases[s.name] else s.name);
            && (r.Err? ==> !s.anonymous && r.error in scope.identifiers)
            && (cfg.nm.Valid() ==>
                  (r.Err? <==> !s.anonymous && cased in scope.identifiers
                               && !(cased != "" && '0' <= cased[0] <= '9')))
  {
  }

  // -------------------------------------------------- every type is in the table

  ghost predicate ArgsFound(args: seq<Argument>, table: Table) {
    forall a | a in args :: Found(a.typ, table)
  }

  /** The template can look up the type of every argument of every bound symbol. */
  ghost predicate ScopeFound(scope: Scope, table: Table) {
    forall k | k in scope.bound :: ArgsFound(scope.bound[k].inputs, table) && ArgsFound(scope.bound[k].outputs, table)
  }

  ghost predicate ContractFound(b: BoundContract, table: Table) {
    ScopeFound(b.calls, table) && ScopeFound(b.events, table) && ScopeFound(b.errors, table)
  }

  lemma ArgsFoundLater(args: seq<Argument>, table: Table, table': Table)
    requires ArgsFound(args, table) && Extends(table, table')
    ensures ArgsFound(args, table')
  {
    forall a | a in args ensures Found(a.typ, table') {
      BindTypeIsStable(a.typ, table, table');
    }
  }

  lemma ScopeFoundLater(scope: Scope, table: Table, table': Table)
    requires ScopeFound(scope, table) && Extends(table, table')
    ensures ScopeFound(scope, table')
  {
    forall k | k in scope.bound
      ensures ArgsFound(scope.bound[k].inputs, table') && ArgsFound(scope.bound[k].outputs, table')
    {
      ArgsFoundLater(scope.bound[k].inputs, table, table');
      ArgsFoundLater(scope.bound[k].outputs, table, table');
    }
  }

  lemma {:induction false} PlainIsFound(t: AbiType, table: Table)
    requires !HasStruct(t)
    ensures Found(t, table)
  {
    match t
    case ArrayTy(_, elem) => PlainIsFound(elem, table);
    case SliceTy(elem) => PlainIsFound(elem, table);
    case _ =>
  }

  lemma {:induction false} RegisterArgsFinds(nm: Naming, args: seq<Argument>, table: Table)
    ensures Extends(table, RegisterArgs(nm, args, table))
    ensures ArgsFound(args, RegisterArgs(nm, args, table))
    decreases args
  {
    if args != [] {
      var t := args[0].typ;
      var next := if HasStruct(t) then Register(nm, t, table).1 else table;
      if HasStruct(t) {
        RegisterGrows(nm, t, table);
        RegisterFinds(nm, t, table);
      } else {
        PlainIsFound(t, table);
      }
      RegisterArgsFinds(nm, args[1..], next);
      BindTypeIsStable(t, next, RegisterArgs(nm, args[1..], next));
    }
  }

  lemma BindSymbolFinds(cfg: Config, scope: Scope, structs: Table, s: Symbol)
    requires ScopeFound(scope, structs) && BindSymbol(cfg, scope, structs, s).Ok?
    ensures var (scope', structs') := BindSymbol(cfg, scope, structs, s).value;
            Extends(structs, structs') && ScopeFound(scope', structs')
  {
    if !s.anonymous {
      var inputs, outputs := Normalized(cfg.nm.camel, s.inputs), Normalized(cfg.nm.camel, s.outputs);
      var middle := RegisterArgs(cfg.nm, inputs, structs);
      var structs' := RegisterArgs(cfg.nm, outputs, middle);
      RegisterArgsFinds(cfg.nm, inputs, structs);
      RegisterArgsFinds(cfg.nm, outputs, middle);
      ArgsFoundLater(inputs, middle, structs');
      ScopeFoundLater(scope, structs, structs');
    }
  }

  lemma {:induction false} BindKeysFinds(cfg: Config, items: map<string, Symbol>, keys: seq<string>, scope: Scope,
                                         structs: Table)
    requires forall k | k in keys :: k in items
    requires ScopeFound(scope, structs) && BindKeys(cfg, items, keys, scope, structs).Ok?
    ensures var (scope', structs') := BindKeys(cfg, items, keys, scope, structs).value;
            Extends(structs, structs') && ScopeFound(scope', structs')
    decreases keys
  {
    if keys != [] {
      BindSymbolFinds(cfg, scope, structs, items[keys[0]]);
      var (scope', structs') := BindSymbol(cfg, scope, structs, items[keys[0]]).value;
      BindKeysFinds(cfg, items, keys[1..], scope', structs');
    }
  }

  lemma BindMapFinds(cfg: Config, items: map<string, Symbol>, order: seq<string>, structs: Table)
    requires Enumerates(order, items) && BindMap(cfg, items, order, EMPTY, structs).Ok?
    ensures var (scope, structs') := BindMap(cfg, items, order, EMPTY, structs).value;
            Extends(structs, structs') && ScopeFound(scope, structs')
  {
    SortedKeysAreKeys(order, items);
    BindKeysFinds(cfg, items, Sort(LexLeq, order), EMPTY, structs);
  }

  lemma BindContractFinds(cfg: Config, c: Contract, o: Orders, structs: Table)
    requires EnumeratesAll(o, c) && BindContract(cfg, c, o, structs).Ok?
    ensures var (b, structs') := BindContract(cfg, c, o, structs).value;
            && Extends(structs, structs') && ContractFound(b, structs') && ArgsFound(c.constructorInputs, structs')
  {
    var (b, structs') := BindContract(cfg, c, o, structs).value;
    var structs0 := RegisterArgs(cfg.nm, c.constructorInputs, structs);
    var structs1 := BindMap(cfg, c.methods, o.methods, EMPTY, structs0).value.1;
    var structs2 := BindMap(cfg, c.events, o.events, EMPTY, structs1).value.1;
    RegisterArgsFinds(cfg.nm, c.constructorInputs, structs);
    BindMapFinds(cfg, c.methods, o.methods, structs0);
    BindMapFinds(cfg, c.events, o.events, structs1);
    BindMapFinds(cfg, c.errors, o.errors, structs2);
    ScopeFoundLater(b.calls, structs1, structs');
    ScopeFoundLater(b.events, structs2, structs');
    ArgsFoundLater(c.constructorInputs, structs0, structs');
  }

  lemma {:induction false} BindAllFinds(cfg: Config, cs: seq<Contract>, os: seq<Orders>, structs: Table)
    requires |os| == |cs| && forall i | 0 <= i < |cs| :: EnumeratesAll(os[i], cs[i])
    requires BindAll(cfg, cs, os, structs).Ok?
    ensures var (bs, structs') := BindAll(cfg, cs, os, structs).value;
            && Extends(structs, structs')
            && |bs| == |cs|
            && forall i | 0 <= i < |cs| ::
                 ContractFound(bs[i], structs') && ArgsFound(cs[i].constructorInputs, structs')
    decreases |cs|
  {
    if cs != [] {
      var (b, structs1) := BindContract(cfg, cs[0], os[0], structs).value;
      var (bs, structs') := BindAll(cfg, cs, os, structs).value;
      BindContractFinds(cfg, cs[0], os[0], structs);
      BindAllFinds(cfg, cs[1..], os[1..], structs1);
      ContractFoundLater(b, structs1, structs');
      ArgsFoundLater(cs[0].constructorInputs, structs1, structs');
    }
  }

  lemma ContractFoundLater(b: BoundContract, table: Table, table': Table)
    requires ContractFound(b, table) && Extends(table, table')
    ensures ContractFound(b, table')
  {
    ScopeFoundLater(b.calls, table, table');
    ScopeFoundLater(b.events, table, table');
    ScopeFoundLater(b.errors, table, table');
  }

  /** When all contracts bind, the template's look-ups by type never miss: the final table has an
      entry for every tuple of the constructors and of every method, event and error, with or
      without contract names stripped off. What the entries say of their fields is another matter,
      see FinalTableClosedExactly. */
  lemma TemplateTypesAreFound(cfg: Config, cs: seq<Contract>, os: seq<Orders>, structs: Table, prefixes: seq<string>)
    requires |os| == |cs| && forall i | 0 <= i < |cs| :: EnumeratesAll(os[i], cs[i])
    requires BindAll(cfg, cs, os, structs).Ok?
    ensures var (bs, structs') := BindAll(cfg, cs, os, structs).value;
            && |bs| == |cs|
            && forall i | 0 <= i < |cs| ::
                 && ContractFound(bs[i], SanitizedTable(structs', prefixes))
                 && ArgsFound(cs[i].constructorInputs, SanitizedTable(structs', prefixes))
  {
    var (bs, structs') := BindAll(cfg, cs, os, structs).value;
    BindAllFinds(cfg, cs, os, structs);
    forall i | 0 <= i < |cs|
      ensures ContractFound(bs[i], SanitizedTable(structs', prefixes))
      ensures ArgsFound(cs[i].constructorInputs, SanitizedTable(structs', prefixes))
    {
      SanitizedContractFound(bs[i], structs', prefixes);
      SanitizedArgsFound(cs[i].constructorInputs, structs', prefixes);
    }
  }

  lemma SanitizedArgsFound(args: seq<Argument>, table: Table, prefixes: seq<string>)
    requires ArgsFound(args, table)
    ensures ArgsFound(args, SanitizedTable(table, prefixes))
  {
    forall a | a in args ensures Found(a.typ, SanitizedTable(table, prefixes)) {
      SanitizedFound(a.typ, table, prefixes);
    }
  }

  lemma SanitizedScopeFound(scope: Scope, table: Table, prefixes: seq<string>)
    requires ScopeFound(scope, table)
    ensures ScopeFound(scope, SanitizedTable(table, prefixes))
  {
    forall k | k in scope.bound
      ensures ArgsFound(scope.bound[k].inputs, SanitizedTable(table, prefixes))
      ensures ArgsFound(scope.bound[k].outputs, SanitizedTable(table, prefixes))
    {
      SanitizedArgsFound(scope.bound[k].inputs, table, prefixes);
      SanitizedArgsFound(scope.bound[k].outputs, table, prefixes);
    }
  }

  lemma SanitizedContractFound(b: BoundContract, table: Table, prefixes: seq<string>)
    requires ContractFound(b, table)
    ensures ContractFound(b, SanitizedTable(table, prefixes))
  {
    SanitizedScopeFound(b.calls, table, prefixes);
    SanitizedScopeFound(b.events, table, prefixes);
    SanitizedScopeFound(b.errors, table, prefixes);
  }

  // ------------------------------------------------------ the table that is printed

  function ArgTypes(args: seq<Argument>): seq<AbiType> {
    seq(|args|, i requires 0 <= i < |args| => args[i].typ)
  }

  function SymbolTypes(s: Symbol): seq<AbiType> {
    if s.anonymous then [] else ArgTypes(s.inputs) + ArgTypes(s.outputs)
  }

  function TypesOfKeys(items: map<string, Symbol>, keys: seq<string>): seq<AbiType>
    requires forall k | k in keys :: k in items
    decreases keys
  {
    if keys == [] then [] else SymbolTypes(items[keys[0]]) + TypesOfKeys(items, keys[1..])
  }

  ghost function TypesOfMap(items: map<string, Symbol>, order: seq<string>): seq<AbiType>
    requires Enumerates(order, items)
  {
    SortedKeysAreKeys(order, items);
    TypesOfKeys(items, Sort(LexLeq, order))
  }

  ghost function TypesOfContract(c: Contract, o: Orders): seq<AbiType>
    requires EnumeratesAll(o, c)
  {
    ArgTypes(c.constructorInputs) + TypesOfMap(c.methods, o.methods) + TypesOfMap(c.events, o.events)
    + TypesOfMap(c.errors, o.errors)
  }

  ghost function TypesOfAll(cs: seq<Contract>, os: seq<Orders>): seq<AbiType>
    requires |os| == |cs| && forall i | 0 <= i < |cs| :: EnumeratesAll(os[i], cs[i])
    decreases |cs|
  {
    if cs == [] then [] else TypesOfContract(cs[0], os[0]) + TypesOfAll(cs[1..], os[1..])
  }

  lemma {:induction false} RegisterArgsIsRun(nm: Naming, args: seq<Argument>, table: Table)
    ensures RegisterArgs(nm, args, table) == RegisterAll(nm, ArgTypes(args), table)
    decreases args
  {
    if args != [] {
      assert ArgTypes(args)[1..] == ArgTypes(args[1..]);
      if HasStruct(args[0].typ) {
        RegisterArgsIsRun(nm, args[1..], Register(nm, args[0].typ, table).1);
      } else {
        PlainIsFound(args[0].typ, table);
        FoundIsRegistered(nm, args[0].typ, table);
        RegisterArgsIsRun(nm, args[1..], table);
      }
    }
  }

  lemma BindSymbolIsRun(cfg: Config, scope: Scope, structs: Table, s: Symbol)
    requires BindSymbol(cfg, scope, structs, s).Ok?
    ensures BindSymbol(cfg, scope, structs, s).value.1 == RegisterAll(cfg.nm, SymbolTypes(s), structs)
  {
    if !s.anonymous {
      var inputs, outputs := Normalized(cfg.nm.camel, s.inputs), Normalized(cfg.nm.camel, s.outputs);
      RegisterArgsIsRun(cfg.nm, inputs, structs);
      RegisterArgsIsRun(cfg.nm, outputs, RegisterArgs(cfg.nm, inputs, structs));
      assert ArgTypes(inputs) == ArgTypes(s.inputs) && ArgTypes(outputs) == ArgTypes(s.outputs);
      RegisterAllConcat(cfg.nm, ArgTypes(inputs), ArgTypes(outputs), structs);
    }
  }

  lemma {:induction false} BindKeysIsRun(cfg: Config, items: map<string, Symbol>, keys: seq<string>, scope: Scope,
                                         structs: Table)
    requires forall k | k in keys :: k in items
    requires BindKeys(cfg, items, keys, scope, structs).Ok?
    ensures BindKeys(cfg, items, keys, scope, structs).value.1
         == RegisterAll(cfg.nm, TypesOfKeys(items, keys), structs)
    decreases keys
  {
    if keys != [] {
      var s := items[keys[0]];
      var (scope', structs') := BindSymbol(cfg, scope, structs, s).value;
      BindSymbolIsRun(cfg, scope, structs, s);
      BindKeysIsRun(cfg, items, keys[1..], scope', structs');
      RegisterAllConcat(cfg.nm, SymbolTypes(s), TypesOfKeys(items, keys[1..]), structs);
    }
  }

  lemma BindMapIsRun(cfg: Config, items: map<string, Symbol>, order: seq<string>, structs: Table)
    requires Enumerates(order, items) && BindMap(cfg, items, order, EMPTY, structs).Ok?
    ensures BindMap(cfg, items, order, EMPTY, structs).value.1
         == RegisterAll(cfg.nm, TypesOfMap(items, order), structs)
  {
    SortedKeysAreKeys(order, items);
    BindKeysIsRun(cfg, items, Sort(LexLeq, order), EMPTY, structs);
  }

  lemma BindContractIsRun(cfg: Config, c: Contract, o: Orders, structs: Table)
    requires EnumeratesAll(o, c) && BindContract(cfg, c, o, structs).Ok?
    ensures BindContract(cfg, c, o, structs).value.1 == RegisterAll(cfg.nm, TypesOfContract(c, o), structs)
  {
    var args, calls := ArgTypes(c.constructorInputs), TypesOfMap(c.methods, o.methods);
    var events, errors := TypesOfMap(c.events, o.events), TypesOfMap(c.errors, o.errors);
    var structs0 := RegisterArgs(cfg.nm, c.constructorInputs, structs);
    var structs1 := BindMap(cfg, c.methods, o.methods, EMPTY, structs0).value.1;
    var structs2 := BindMap(cfg, c.events, o.events, EMPTY, structs1).value.1;
    RegisterArgsIsRun(cfg.nm, c.constructorInputs, structs);
    BindMapIsRun(cfg, c.methods, o.methods, structs0);
    BindMapIsRun(cfg, c.events, o.events, structs1);
    BindMapIsRun(cfg, c.errors, o.errors, structs2);
    RegisterAllConcat(cfg.nm, args, calls, structs);
    RegisterAllConcat(cfg.nm, args + calls, events, structs);
    RegisterAllConcat(cfg.nm, args + calls + events, errors, structs);
  }

  /** Binding contracts fills the struct table as one run of registrations of their types does. */
  lemma {:induction false} BindAllIsRun(cfg: Config, cs: seq<Contract>, os: seq<Orders>, structs: Table)
    requires |os| == |cs| && forall i | 0 <= i < |cs| :: EnumeratesAll(os[i], cs[i])
    requires BindAll(cfg, cs, os, structs).Ok?
    ensures BindAll(cfg, cs, os, structs).value.1 == RegisterAll(cfg.nm, TypesOfAll(cs, os), structs)
    decreases |cs|
  {
    if cs != [] {
      BindContractIsRun(cfg, cs[0], os[0], structs);
      BindAllIsRun(cfg, cs[1..], os[1..], BindContract(cfg, cs[0], os[0], structs).value.1);
      RegisterAllConcat(cfg.nm, TypesOfContract(cs[0], os[0]), TypesOfAll(cs[1..], os[1..]), structs);
    }
  }

  /** The type of an argument of some symbol that is not anonymous. */
  ghost predicate InMap(items: map<string, Symbol>, t: AbiType) {
    exists k | k in items :: t in SymbolTypes(items[k])
  }

  ghost predicate InContract(c: Contract, t: AbiType) {
    t in ArgTypes(c.constructorInputs) || InMap(c.methods, t) || InMap(c.events, t) || InMap(c.errors, t)
  }

  /** The types of all arguments of the contracts. */
  ghost function ArgumentTypes(cs: seq<Contract>): iset<AbiType> {
    iset c, t | c in cs && InContract(c, t) :: t
  }

  lemma {:induction false} TypesOfKeysAre(items: map<string, Symbol>, keys: seq<string>, t: AbiType)
    requires forall k | k in keys :: k in items
    ensures t in TypesOfKeys(items, keys) <==> exists k | k in keys :: t in SymbolTypes(items[k])
    decreases keys
  {
    if keys != [] {
      TypesOfKeysAre(items, keys[1..], t);
      assert forall k | k in keys :: k == keys[0] || k in keys[1..];
    }
  }

  lemma TypesOfMapAre(items: map<string, Symbol>, order: seq<string>, t: AbiType)
    requires Enumerates(order, items)
    ensures t in TypesOfMap(items, order) <==> InMap(items, t)
  {
    var keys := Sort(LexLeq, order);
    SortedKeysAreKeys(order, items);
    SortPermutes(LexLeq, order);
    forall k | k in items ensures k in keys {
      assert k in multiset(items.Keys) && k in multiset(keys);
    }
    TypesOfKeysAre(items, keys, t);
  }

  lemma TypesOfContractAre(c: Contract, o: Orders, t: AbiType)
    requires EnumeratesAll(o, c)
    ensures t in TypesOfContract(c, o) <==> InContract(c, t)
  {
    TypesOfMapAre(c.methods, o.methods, t);
    TypesOfMapAre(c.events, o.events, t);
    TypesOfMapAre(c.errors, o.errors, t);
  }

  lemma OneMoreContract(cs: seq<Contract>, t: AbiType)
    requires cs != []
    ensures t in ArgumentTypes(cs) <==> InContract(cs[0], t) || t in ArgumentTypes(cs[1..])
  {
    assert forall c | c in cs :: c == cs[0] || c in cs[1..];
  }

  lemma {:induction false} TypesOfAllAre(cs: seq<Contract>, os: seq<Orders>, t: AbiType)
    requires |os| == |cs| && forall i | 0 <= i < |cs| :: EnumeratesAll(os[i], cs[i])
    ensures t in TypesOfAll(cs, os) <==> t in ArgumentTypes(cs)
    decreases |cs|
  {
    if cs != [] {
      TypesOfContractAre(cs[0], os[0], t);
      OneMoreContract(cs, t);
      TypesOfAllAre(cs[1..], os[1..], t);
    }
  }

  /** The struct table that is printed after binding and stripping is closed (every field's type is
      the name under which its tuple is declared) exactly when no contract name is a prefix of the
      name of a tuple that some field reaches. */
  lemma FinalTableClosedExactly(cfg: Config, cs: seq<Contract>, os: seq<Orders>, prefixes: seq<string>)
    requires |os| == |cs| && forall i | 0 <= i < |cs| :: EnumeratesAll(os[i], cs[i])
    requires cfg.nm.Valid() && BindAll(cfg, cs, os, map[]).Ok?
    ensures var structs := BindAll(cfg, cs, os, map[]).value.1;
            Closed(structs) && (Closed(SanitizedTable(structs, prefixes)) <==> FieldNamesKept(structs, prefixes))
  {
    BindAllIsRun(cfg, cs, os, map[]);
    RunIsSound(cfg.nm, TypesOfAll(cs, os), map[]);
    SanitizedClosedExactly(BindAll(cfg, cs, os, map[]).value.1, prefixes);
  }

  /** The same condition on the contracts alone, when all their tuples are named: the printed table is
      closed if no contract name is a prefix of the camel-cased name of a tuple inside another one;
      and only if, as long as tuples of the same name and canonical type are the same. */
  lemma PrintedTableClosedExactly(cfg: Config, cs: seq<Contract>, os: seq<Orders>, prefixes: seq<string>)
    requires |os| == |cs| && forall i | 0 <= i < |cs| :: EnumeratesAll(os[i], cs[i])
    requires cfg.nm.Valid() && BindAll(cfg, cs, os, map[]).Ok?
    requires AllNamed(TuplesOf(ArgumentTypes(cs)))
    ensures var printed := SanitizedTable(BindAll(cfg, cs, os, map[]).value.1, prefixes);
            var tuples := TuplesOf(ArgumentTypes(cs));
            && (NestedNamesKept(cfg.nm, tuples, prefixes) ==> Closed(printed))
            && (Unambiguous(tuples) ==> (Closed(printed) <==> NestedNamesKept(cfg.nm, tuples, prefixes)))
  {
    var types := TypesOfAll(cs, os);
    forall t ensures t in types <==> t in ArgumentTypes(cs) {
      TypesOfAllAre(cs, os, t);
    }
    assert ArgumentTypes(cs) == iset t | t in types;
    BindAllIsRun(cfg, cs, os, map[]);
    FinalTableClosedExactly(cfg, cs, os, prefixes);
    NestedNamesExactly(cfg.nm, types, TuplesOf(ArgumentTypes(cs)), prefixes);
  }
}
