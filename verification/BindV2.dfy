/** The imperative form of binding (abigen/bindv2.go): contract binders that fill their scopes and
    the shared struct table in place, and BindV2, which binds all contracts and strips their names. */
module BindV2 {
  import opened Sorting
  import opened Text
  import opened Naming
  import opened StructTable
  import opened NormalizeArgs
  import opened Sanitizing
  import opened ContractBinding

  datatype Kind = Call | Event | Error

  /** The binder of one contract: the scopes it fills and the struct table it shares. */
  class ContractBinder {
    const cfg: Config
    const binder: Binder
    var calls: Scope
    var events: Scope
    var errors: Scope

    constructor (cfg: Config, binder: Binder)
      ensures this.cfg == cfg && this.binder == binder
      ensures calls == EMPTY && events == EMPTY && errors == EMPTY
    {
      this.cfg := cfg;
      this.binder := binder;
      calls, events, errors := EMPTY, EMPTY, EMPTY;
    }

    function ScopeOf(kind: Kind): Scope
      reads this
    {
      match kind
      case Call => calls
      case Event => events
      case Error => errors
    }

    /** Takes the identifier and adds the symbol to the scope of its kind. */
    method Add(kind: Kind, key: string, bound: Bound)
      modifies this
      ensures var scope := old(ScopeOf(kind));
              ScopeOf(kind) == Scope(scope.identifiers + {bound.name}, scope.bound[key := bound])
      ensures forall k | k != kind :: ScopeOf(k) == old(ScopeOf(k))
    {
      var scope := ScopeOf(kind);
      var scope' := Scope(scope.identifiers + {bound.name}, scope.bound[key := bound]);
      match kind {
        case Call => calls := scope';
        case Event => events := scope';
        case Error => errors := scope';
      }
    }

    method BindArgs(args: seq<Argument>)
      modifies binder
      ensures binder.structs == RegisterArgs(cfg.nm, args, old(binder.structs))
    {
      for i := 0 to |args|
        invariant RegisterArgs(cfg.nm, args[i..], binder.structs) == RegisterArgs(cfg.nm, args, old(binder.structs))
      {
        assert args[i..][0] == args[i] && args[i..][1..] == args[i + 1..];
        if HasStruct(args[i].typ) {
          var _ := binder.BindStructType(cfg.nm, args[i].typ);
        }
      }
      assert args[|args|..] == [];
    }

    /** Binds one symbol; a clash leaves everything unchanged. */
    method BindIn(kind: Kind, original: Symbol) returns (clash: Option<string>)
      modifies this, binder
      ensures match BindSymbol(cfg, old(ScopeOf(kind)), old(binder.structs), original)
              case Ok((scope', structs')) => clash == None && ScopeOf(kind) == scope' && binder.structs == structs'
              case Err(name) =>
                clash == Some(name) && ScopeOf(kind) == old(ScopeOf(kind)) && binder.structs == old(binder.structs)
      ensures forall k | k != kind :: ScopeOf(k) == old(ScopeOf(k))
    {
      if original.anonymous {
        return None;
      }
      var registered := RegisterIdentifier(cfg, ScopeOf(kind).identifiers, original.name);
      if registered.Err? {
        return Some(registered.error);
      }
      var name := registered.value;
      var inputs := Normalized(cfg.nm.camel, original.inputs);
      BindArgs(inputs);
      var outputs := Normalized(cfg.nm.camel, original.outputs);
      BindArgs(outputs);
      Add(kind, original.name, Bound(original, name, inputs, outputs, |outputs| > 1));
      clash := None;
    }

    /** Collects the keys of a map in whatever order they come, sorts them and binds the symbols
        one by one until a clash. The outcome is that of every possible order. */
    method BindSorted(kind: Kind, items: map<string, Symbol>) returns (clash: Option<string>)
      modifies this, binder
      ensures forall order | Enumerates(order, items) ::
                match BindMap(cfg, items, order, old(ScopeOf(kind)), old(binder.structs))
                case Ok((scope', structs')) => clash == None && ScopeOf(kind) == scope' && binder.structs == structs'
                case Err(name) => clash == Some(name)
      ensures forall k | k != kind :: ScopeOf(k) == old(ScopeOf(k))
    {
      var keys := CollectKeys(items);
      forall order | Enumerates(order, items) ensures Sort(LexLeq, order) == Sort(LexLeq, keys) {
        SortedKeysIgnoreOrder(order, keys);
      }
      SortedKeysAreKeys(keys, items);
      keys := Sort(LexLeq, keys);
      ghost var whole := BindKeys(cfg, items, keys, ScopeOf(kind), binder.structs);
      for i := 0 to |keys|
        invariant forall k | k in keys[i..] :: k in items
        invariant BindKeys(cfg, items, keys[i..], ScopeOf(kind), binder.structs) == whole
        invariant forall k | k != kind :: ScopeOf(k) == old(ScopeOf(k))
      {
        assert keys[i..][0] == keys[i] && keys[i..][1..] == keys[i + 1..];
        var step := BindIn(kind, items[keys[i]]);
        if step.Some? {
          return step;
        }
      }
      clash := None;
    }

    /** Binds the whole contract with a new binder, whatever order its maps are walked in. */
    method Bind(c: Contract) returns (clash: Option<string>)
      requires calls == EMPTY && events == EMPTY && errors == EMPTY
      modifies this, binder
      ensures forall o | EnumeratesAll(o, c) ::
                match BindContract(cfg, c, o, old(binder.structs))
                case Ok((bound, structs')) =>
                  clash == None && BoundContract(calls, events, errors) == bound && binder.structs == structs'
                case Err(name) => clash == Some(name)
    {
      BindArgs(c.constructorInputs);
      clash := BindSorted(Call, c.methods);
      assert ScopeOf(Event) == EMPTY && ScopeOf(Error) == EMPTY;
      if clash.None? {
        ghost var calls1 := ScopeOf(Call);
        clash := BindSorted(Event, c.events);
        assert ScopeOf(Error) == EMPTY && ScopeOf(Call) == calls1;
        if clash.None? {
          ghost var events1 := ScopeOf(Event);
          clash := BindSorted(Error, c.errors);
          assert ScopeOf(Call) == calls1 && ScopeOf(Event) == events1;
        }
      }
    }
  }

  method CollectKeys(items: map<string, Symbol>) returns (keys: seq<string>)
    ensures Enumerates(keys, items)
  {
    keys := [];
    var remaining := items.Keys;
    while remaining != {}
      invariant remaining <= items.Keys
      invariant multiset(keys) + multiset(remaining) == multiset(items.Keys)
      decreases remaining
    {
      var key :| key in remaining;
      keys := keys + [key];
      remaining := remaining - {key};
    }
  }

  // ------------------------------------------------------------- all contracts

  lemma SomeOrders(cs: seq<Contract>) returns (os: seq<Orders>)
    ensures |os| == |cs| && forall i | 0 <= i < |cs| :: EnumeratesAll(os[i], cs[i])
  {
    os := [];
    while |os| < |cs|
      invariant |os| <= |cs| && forall i | 0 <= i < |os| :: EnumeratesAll(os[i], cs[i])
    {
      var c := cs[|os|];
      var methods := KeysInSomeOrder(c.methods.Keys);
      var events := KeysInSomeOrder(c.events.Keys);
      var errors := KeysInSomeOrder(c.errors.Keys);
      os := os + [Orders(methods, events, errors)];
    }
  }

  lemma {:induction false} KeysInSomeOrder(keys: set<string>) returns (order: seq<string>)
    ensures multiset(order) == multiset(keys)
  {
    order := [];
    if keys != {} {
      var key :| key in keys;
      order := KeysInSomeOrder(keys - {key});
      order := order + [key];
    }
  }

  /** What comes of binding the remaining contracts, after these were bound. */
  ghost function Prepend(bs: seq<BoundContract>, r: Result<(seq<BoundContract>, Table), string>)
    : Result<(seq<BoundContract>, Table), string>
  {
    match r
    case Err(clash) => Err(clash)
    case Ok((rest, structs)) => Ok((bs + rest, structs))
  }

  lemma PrependBound(cfg: Config, cs: seq<Contract>, os: seq<Orders>, i: nat, structs: Table, bs: seq<BoundContract>)
    requires |os| == |cs| && (forall k | 0 <= k < |cs| :: EnumeratesAll(os[k], cs[k])) && i < |cs|
    ensures Prepend(bs, BindAll(cfg, cs[i..], os[i..], structs))
         == match BindContract(cfg, cs[i], os[i], structs)
            case Err(clash) => Err(clash)
            case Ok((b, structs')) => Prepend(bs + [b], BindAll(cfg, cs[i + 1..], os[i + 1..], structs'))
  {
    assert cs[i..][1..] == cs[i + 1..] && os[i..][1..] == os[i + 1..];
    var r := BindContract(cfg, cs[i], os[i], structs);
    if r.Ok? {
      var rest := BindAll(cfg, cs[i + 1..], os[i + 1..], r.value.1);
      if rest.Ok? {
        assert bs + ([r.value.0] + rest.value.0) == (bs + [r.value.0]) + rest.value.0;
      }
    }
  }

  /** One turn of the loop over the contracts: a new binder on the shared table. */
  method BindNext(cfg: Config, binder: Binder, c: Contract) returns (r: Result<BoundContract, string>)
    modifies binder
    ensures forall o | EnumeratesAll(o, c) ::
              match BindContract(cfg, c, o, old(binder.structs))
              case Ok((bound, structs')) => r == Ok(bound) && binder.structs == structs'
              case Err(clash) => r == Err(clash)
  {
    var cb := new ContractBinder(cfg, binder);
    var clash := cb.Bind(c);
    r := if clash.Some? then Err(clash.value) else Ok(BoundContract(cb.calls, cb.events, cb.errors));
  }

  method BindInTurn(cfg: Config, cs: seq<Contract>, ghost os: seq<Orders>)
    returns (r: Result<(seq<BoundContract>, Table), string>)
    requires |os| == |cs| && forall i | 0 <= i < |cs| :: EnumeratesAll(os[i], cs[i])
    ensures r == BindAll(cfg, cs, os, map[])
  {
    ghost var whole := BindAll(cfg, cs, os, map[]);
    var binder := new Binder();
    var bound: seq<BoundContract> := [];
    assert cs[0..] == cs && os[0..] == os;
    assert whole.Ok? ==> bound + whole.value.0 == whole.value.0;
    for i := 0 to |cs|
      invariant Prepend(bound, BindAll(cfg, cs[i..], os[i..], binder.structs)) == whole
    {
      PrependBound(cfg, cs, os, i, binder.structs, bound);
      var next := BindNext(cfg, binder, cs[i]);
      if next.Err? {
        return Err(next.error);
      }
      bound := bound + [next.value];
    }
    assert bound + [] == bound;
    r := Ok((bound, binder.structs));
  }

  /** The loop over the contracts. The outcome is that of every order in which their maps may be
      walked. */
  method BindContracts(cfg: Config, cs: seq<Contract>) returns (r: Result<(seq<BoundContract>, Table), string>)
    ensures forall os: seq<Orders> | |os| == |cs| && forall i | 0 <= i < |cs| :: EnumeratesAll(os[i], cs[i]) ::
              r == BindAll(cfg, cs, os, map[])
  {
    ghost var os := SomeOrders(cs);
    r := BindInTurn(cfg, cs, os);
    forall os': seq<Orders> | |os'| == |cs| && forall i | 0 <= i < |cs| :: EnumeratesAll(os'[i], cs[i])
      ensures BindAll(cfg, cs, os', map[]) == r
    {
      BindingIgnoresMapOrder(cfg, cs, os, os', map[]);
    }
  }

  // ------------------------------------------------------------- sanitizing

  /** Strips the sorted contract names off every struct name, walking the structs in any order. */
  method SanitizeStructNames(structs: Table, contractNames: seq<string>) returns (r: Table)
    ensures forall order | multiset(order) == multiset(contractNames) ::
              r == SanitizedTable(structs, Sort(LexLeq, order))
  {
    var contracts := Sort(LexLeq, contractNames);
    r := structs;
    var remaining := structs.Keys;
    while remaining != {}
      invariant remaining <= structs.Keys == r.Keys
      invariant forall id | id in structs ::
                  r[id] == if id in remaining then structs[id] else SanitizedTable(structs, contracts)[id]
      decreases remaining
    {
      var id :| id in remaining;
      var name := r[id].name;
      for i := 0 to |contracts|
        invariant Sanitized(name, contracts[i..]) == Sanitized(structs[id].name, contracts)
      {
        assert contracts[i..][0] == contracts[i] && contracts[i..][1..] == contracts[i + 1..];
        name := TrimPrefix(name, contracts[i]);
      }
      assert contracts[|contracts|..] == [];
      r := r[id := r[id].(name := name)];
      remaining := remaining - {id};
    }
    assert r == SanitizedTable(structs, contracts);
    forall order | multiset(order) == multiset(contractNames) ensures Sort(LexLeq, order) == contracts {
      SortedKeysIgnoreOrder(order, contractNames);
    }
  }

  /** Everything that goes to the template: the bound contracts and the sanitized struct table, or
      the first clash. The names of the contracts come out of a map, each once, in any order. */
  method BindAndSanitize(cfg: Config, cs: seq<Contract>, contractNames: seq<string>)
    returns (r: Result<(seq<BoundContract>, Table), string>)
    ensures forall os: seq<Orders>, names | && |os| == |cs| && multiset(names) == multiset(contractNames)
                                            && forall i | 0 <= i < |cs| :: EnumeratesAll(os[i], cs[i]) ::
              match BindAll(cfg, cs, os, map[])
              case Ok((bound, structs)) => r == Ok((bound, SanitizedTable(structs, Sort(LexLeq, names))))
              case Err(clash) => r == Err(clash)
  {
    r := BindContracts(cfg, cs);
    if r.Ok? {
      var table := SanitizeStructNames(r.value.1, contractNames);
      r := Ok((r.value.0, table));
    }
  }
}
