/** The chain tables of the workflow simulator (simulate.go, capabilities.go): clients for the
    supported and the experimental chains, their forwarders, and the EVM chains built from both. */
module ChainTables {
  import opened Text
  import opened TriggerId

  type Selector = nat

  /** Twenty bytes, one char for each. */
  type Address = string

  /** The forwarders of the supported chains, in the order of SupportedEVM. The selectors beside
      them are constants of another package. */
  const FORWARDERS: seq<string> := [
    "0x15fC6ae953E024d975e77382eEeC56A9101f9F88",
    "0xa3d1ad4ac559a6575a114998affb2fb2ec97a7d9",
    "0x82300bd7c3958625581cc2f77bc6464dcecdf3e5",
    "0x5e342a8438b4f5d39e72875fcee6f76b39cce548",
    "0x2e7371a5d032489e4f60216d8d898a4c10805963",
    "0xdc21e279934ff6721cadfdd112dafb3261f09a2c",
    "0x3675a5eb2286a3f87e8278fc66edf458a2e3bb74",
    "0xf458d621885e29a5003ea9bbba5280d54e19b1ce",
    "0xa238e42cb8782808dbb2f37e19859244ec4779b0",
    "0x6f3239bbb26e98961e1115aba83f8a282e5508c8",
    "0xd41263567ddfead91504199b8c6c87371e83ca5d",
    "0xd770499057619c9a76205fd4168161cf94abc532",
    "0xa2888380dff3704a8ab6d1cd1a8f69c15fea5ee3",
    "0x9119a1501550ed94a3f2794038ed9258337afa18",
    "0xcF4629d8DC7a5fa17F4D77233F5b953225669821",
    "0x6E9EE680ef59ef64Aa8C7371279c27E496b5eDc1",
    "0x6E9EE680ef59ef64Aa8C7371279c27E496b5eDc1",
    "0x6E9EE680ef59ef64Aa8C7371279c27E496b5eDc1",
    "0x6E9EE680ef59ef64Aa8C7371279c27E496b5eDc1",
    "0x6E9EE680ef59ef64Aa8C7371279c27E496b5eDc1",
    "0x6E9EE680ef59ef64Aa8C7371279c27E496b5eDc1",
    "0x6E9EE680ef59ef64Aa8C7371279c27E496b5eDc1",
    "0x6E9EE680ef59ef64Aa8C7371279c27E496b5eDc1",
    "0xB27fA1c28288c50542527F64BCda22C9FbAc24CB",
    "0x6E9EE680ef59ef64Aa8C7371279c27E496b5eDc1",
    "0x6E9EE680ef59ef64Aa8C7371279c27E496b5eDc1"
  ]

  datatype ChainConfig = ChainConfig(selector: Selector, forwarder: string)

  datatype ExperimentalChain = ExperimentalChain(selector: Selector, rpcUrl: string, forwarder: string)

  /** A connected client, known by the URL it was dialled with. */
  datatype Client = Client(url: string)

  /** Addresses are what HexToAddress makes of a text; any function will do here. Dialling a URL
      either works or not, and usable gives the client of a supported chain when its name, its RPC
      setting and the dialling are all in order. */
  datatype Environment = Environment(
    toAddress: string -> Address,
    dials: string -> bool,
    usable: Selector -> Option<Client>)

  /** White space as strings.TrimSpace knows it. */
  predicate IsSpace(c: char) {
    c in {'\t', '\n', '\U{0B}', '\U{0C}', '\r', ' ', '\U{85}', '\U{A0}', '\U{1680}', '\U{2028}', '\U{2029}',
          '\U{202F}', '\U{205F}', '\U{3000}'}
    || '\U{2000}' <= c <= '\U{200A}'
  }

  predicate Blank(s: string) {
    forall i | 0 <= i < |s| :: IsSpace(s[i])
  }

  datatype ResolveError = NoSelector | NoRpcUrl(selector: Selector) | NoForwarder(selector: Selector)
                        | DialFailed(selector: Selector) | NoClients | BadKey

  datatype Tables = Tables(clients: map<Selector, Client>, experimental: map<Selector, Address>)

  /** The first forwarder of the selector in the table of supported chains, or "". */
  function SupportedForwarder(supported: seq<ChainConfig>, selector: Selector): string {
    if supported == [] then ""
    else if supported[0].selector == selector then supported[0].forwarder
    else SupportedForwarder(supported[1..], selector)
  }

  function SupportedClients(env: Environment, supported: seq<ChainConfig>): map<Selector, Client> {
    if supported == [] then map[]
    else
      var last := supported[|supported| - 1].selector;
      var before := SupportedClients(env, supported[..|supported| - 1]);
      if env.usable(last).Some? then before[last := env.usable(last).value] else before
  }

  /** One experimental chain: rejected, a restatement of the supported forwarder, an override of
      the forwarder, or a new client. */
  function AddExperimental(env: Environment, supported: seq<ChainConfig>, t: Tables, ec: ExperimentalChain)
    : Result<Tables, ResolveError>
  {
    if ec.selector == 0 then Err(NoSelector)
    else if Blank(ec.rpcUrl) then Err(NoRpcUrl(ec.selector))
    else if Blank(ec.forwarder) then Err(NoForwarder(ec.selector))
    else
      var address := env.toAddress(ec.forwarder);
      if ec.selector in t.clients then
        var known := SupportedForwarder(supported, ec.selector);
        if known != "" && env.toAddress(known) == address then Ok(t)
        else Ok(t.(experimental := t.experimental[ec.selector := address]))
      else if !env.dials(ec.rpcUrl) then Err(DialFailed(ec.selector))
      else Ok(Tables(t.clients[ec.selector := Client(ec.rpcUrl)], t.experimental[ec.selector := address]))
  }

  function AddAll(env: Environment, supported: seq<ChainConfig>, ecs: seq<ExperimentalChain>)
    : Result<Tables, ResolveError>
  {
    if ecs == [] then Ok(Tables(SupportedClients(env, supported), map[]))
    else
      match AddAll(env, supported, ecs[..|ecs| - 1])
      case Err(e) => Err(e)
      case Ok(t) => AddExperimental(env, supported, t, ecs[|ecs| - 1])
  }

  function Resolve(env: Environment, supported: seq<ChainConfig>, ecs: seq<ExperimentalChain>, keyOk: bool)
    : Result<Tables, ResolveError>
  {
    match AddAll(env, supported, ecs)
    case Err(e) => Err(e)
    case Ok(t) => if t.clients == map[] then Err(NoClients) else if !keyOk then Err(BadKey) else Ok(t)
  }

  lemma {:induction false} AddAllFailsEarly(env: Environment, supported: seq<ChainConfig>,
                                                     ecs: seq<ExperimentalChain>, k: nat)
    requires k <= |ecs| && AddAll(env, supported, ecs[..k]).Err?
    ensures AddAll(env, supported, ecs) == AddAll(env, supported, ecs[..k])
  {
    if k == |ecs| {
      assert ecs[..k] == ecs;
    } else {
      var front := ecs[..|ecs| - 1];
      assert front[..k] == ecs[..k];
      AddAllFailsEarly(env, supported, front, k);
    }
  }

  method ResolveInputs(env: Environment, supported: seq<ChainConfig>, ecs: seq<ExperimentalChain>, keyOk: bool)
    returns (r: Result<Tables, ResolveError>)
    ensures r == Resolve(env, supported, ecs, keyOk)
  {
    var clients: map<Selector, Client> := map[];
    for i := 0 to |supported|
      invariant clients == SupportedClients(env, supported[..i])
    {
      assert supported[..i + 1][..i] == supported[..i];
      var client := env.usable(supported[i].selector);
      if client.Some? {
        clients := clients[supported[i].selector := client.value];
      }
    }
    assert supported[..|supported|] == supported;
    var experimental: map<Selector, Address> := map[];
    for i := 0 to |ecs|
      invariant AddAll(env, supported, ecs[..i]) == Ok(Tables(clients, experimental))
    {
      var ec := ecs[i];
      assert ecs[..i + 1][..i] == ecs[..i];
      var step := AddExperimental(env, supported, Tables(clients, experimental), ec);
      if step.Err? {
        AddAllFailsEarly(env, supported, ecs, i + 1);
        return Err(step.error);
      }
      clients, experimental := step.value.clients, step.value.experimental;
    }
    assert ecs[..|ecs|] == ecs;
    if |clients| == 0 {
      assert clients == map[];
      return Err(NoClients);
    }
    if !keyOk {
      return Err(BadKey);
    }
    r := Ok(Tables(clients, experimental));
  }

  // ------------------------------------------------------------- forwarders

  function SupportedForwarders(env: Environment, supported: seq<ChainConfig>, clients: map<Selector, Client>)
    : map<Selector, Address>
  {
    if supported == [] then map[]
    else
      var last := supported[|supported| - 1];
      var before := SupportedForwarders(env, supported[..|supported| - 1], clients);
      if last.selector in clients && !Blank(last.forwarder) then before[last.selector := env.toAddress(last.forwarder)]
      else before
  }

  /** The map that run builds: forwarders of supported chains with a client, overridden by the
      experimental ones. */
  function Forwarders(env: Environment, supported: seq<ChainConfig>, t: Tables): map<Selector, Address> {
    SupportedForwarders(env, supported, t.clients) + t.experimental
  }

  datatype EvmChain = EvmChain(client: Client, forwarder: Address)

  function EvmChains(clients: map<Selector, Client>, forwarders: map<Selector, Address>): map<Selector, EvmChain> {
    map s | s in clients && s in forwarders :: EvmChain(clients[s], forwarders[s])
  }

  /** NewManualTriggerCapabilities: walks the clients in any order; registers(s) says whether the
      registry accepts the chain. */
  method BuildEvmChains(clients: map<Selector, Client>, forwarders: map<Selector, Address>, registers: Selector -> bool)
    returns (r: Option<map<Selector, EvmChain>>)
    ensures r.Some? <==> forall s | s in clients && s in forwarders :: registers(s)
    ensures r.Some? ==> r.value == EvmChains(clients, forwarders)
  {
    var chains: map<Selector, EvmChain> := map[];
    var remaining := clients.Keys;
    while remaining != {}
      invariant remaining <= clients.Keys
      invariant chains ==
                map s | s in clients && s in forwarders && s !in remaining :: EvmChain(clients[s], forwarders[s])
      invariant forall s | s in chains :: registers(s)
      decreases remaining
    {
      var s :| s in remaining;
      remaining := remaining - {s};
      if s in forwarders {
        if !registers(s) {
          return None;
        }
        chains := chains[s := EvmChain(clients[s], forwarders[s])];
      }
    }
    r := Some(chains);
  }

  // --------------------------------------------------------------- properties

  /** The address the supported table has for the selector, if any. */
  ghost function SupportedAddress(env: Environment, supported: seq<ChainConfig>, s: Selector): Option<Address> {
    var f := SupportedForwarder(supported, s);
    if f == "" then None else Some(env.toAddress(f))
  }

  /** The last experimental entry of the selector that does not just restate the supported
      forwarder. */
  ghost function LastOverride(env: Environment, supported: seq<ChainConfig>, ecs: seq<ExperimentalChain>, s: Selector)
    : Option<Address>
  {
    if ecs == [] then None
    else
      var last := ecs[|ecs| - 1];
      var address := env.toAddress(last.forwarder);
      if last.selector == s && Some(address) != SupportedAddress(env, supported, s) then Some(address)
      else LastOverride(env, supported, ecs[..|ecs| - 1], s)
  }

  ghost predicate ProperTable(supported: seq<ChainConfig>) {
    && (forall c | c in supported :: !Blank(c.forwarder))
    && forall i, j | 0 <= i < j < |supported| :: supported[i].selector != supported[j].selector
  }

  /** What the tables hold for every selector after any number of entries. */
  ghost predicate Settled(env: Environment, supported: seq<ChainConfig>,
                                         ecs: seq<ExperimentalChain>, t: Tables)
  {
    forall s: Selector ::
      var last := LastOverride(env, supported, ecs, s);
      && (last.Some? ==> s in t.experimental && t.experimental[s] == last.value)
      && (last.None? && s in t.experimental ==> Some(t.experimental[s]) == SupportedAddress(env, supported, s))
      && (s in t.experimental ==> s in t.clients)
      && (s in t.clients && s !in t.experimental ==> SupportedAddress(env, supported, s).Some?)
  }

  lemma {:induction false} SupportedClientIsListed(env: Environment, supported: seq<ChainConfig>, s: Selector)
    requires s in SupportedClients(env, supported)
    ensures exists c | c in supported :: c.selector == s
  {
    var last := |supported| - 1;
    if supported[last].selector != s {
      SupportedClientIsListed(env, supported[..last], s);
    } else {
      assert supported[last] in supported;
    }
  }

  lemma {:induction false} ListedHasForwarder(supported: seq<ChainConfig>, s: Selector)
    requires forall c | c in supported :: !Blank(c.forwarder)
    requires exists c | c in supported :: c.selector == s
    ensures SupportedForwarder(supported, s) != ""
  {
    if supported[0].selector != s {
      ListedHasForwarder(supported[1..], s);
    } else {
      assert !Blank(supported[0].forwarder);
    }
  }

  lemma SupportedSettles(env: Environment, supported: seq<ChainConfig>)
    requires ProperTable(supported)
    ensures Settled(env, supported, [], AddAll(env, supported, []).value)
  {
    forall s | s in SupportedClients(env, supported) ensures SupportedAddress(env, supported, s).Some? {
      SupportedClientIsListed(env, supported, s);
      ListedHasForwarder(supported, s);
    }
  }

  lemma {:induction false} AddAllSettles(env: Environment, supported: seq<ChainConfig>, ecs: seq<ExperimentalChain>)
    requires ProperTable(supported) && AddAll(env, supported, ecs).Ok?
    ensures Settled(env, supported, ecs, AddAll(env, supported, ecs).value)
  {
    if ecs == [] {
      SupportedSettles(env, supported);
    } else {
      var front, last := ecs[..|ecs| - 1], ecs[|ecs| - 1];
      AddAllSettles(env, supported, front);
      OneMoreSettles(env, supported, front, AddAll(env, supported, front).value, last);
      assert ecs == front + [last];
    }
  }

  lemma OneMoreSettles(env: Environment, supported: seq<ChainConfig>, ecs: seq<ExperimentalChain>,
                                t: Tables, ec: ExperimentalChain)
    requires Settled(env, supported, ecs, t) && AddExperimental(env, supported, t, ec).Ok?
    ensures Settled(env, supported, ecs + [ec], AddExperimental(env, supported, t, ec).value)
  {
    assert (ecs + [ec])[..|ecs|] == ecs;
    var t' := AddExperimental(env, supported, t, ec).value;
    forall s: Selector
      ensures var last := LastOverride(env, supported, ecs + [ec], s);
              && (last.Some? ==> s in t'.experimental && t'.experimental[s] == last.value)
              && (last.None? && s in t'.experimental ==>
                     Some(t'.experimental[s]) == SupportedAddress(env, supported, s))
              && (s in t'.experimental ==> s in t'.clients)
              && (s in t'.clients && s !in t'.experimental ==> SupportedAddress(env, supported, s).Some?)
    {
      assert var before := LastOverride(env, supported, ecs, s); before.Some? ==> s in t.experimental;
    }
  }

  // ------------------------------------------------------------------- clients

  predicate Listed(supported: seq<ChainConfig>, s: Selector) {
    exists c | c in supported :: c.selector == s
  }

  /** A supported chain has a client exactly when it is listed and can be used. */
  lemma {:induction false} SupportedClientsExactly(env: Environment, supported: seq<ChainConfig>, s: Selector)
    ensures var clients := SupportedClients(env, supported);
            && (s in clients <==> Listed(supported, s) && env.usable(s).Some?)
            && (s in clients ==> env.usable(s) == Some(clients[s]))
  {
    if supported != [] {
      var front, last := supported[..|supported| - 1], supported[|supported| - 1];
      SupportedClientsExactly(env, front, s);
      assert supported == front + [last];
    }
  }

  /** The URL of the first experimental entry of the selector. */
  ghost function FirstUrl(ecs: seq<ExperimentalChain>, s: Selector): Option<string> {
    if ecs == [] then None
    else if ecs[0].selector == s then Some(ecs[0].rpcUrl)
    else FirstUrl(ecs[1..], s)
  }

  lemma {:induction false} FirstUrlAtEnd(ecs: seq<ExperimentalChain>, ec: ExperimentalChain, s: Selector)
    ensures FirstUrl(ecs + [ec], s)
         == if FirstUrl(ecs, s).Some? then FirstUrl(ecs, s) else if ec.selector == s then Some(ec.rpcUrl) else None
  {
    if ecs != [] {
      assert (ecs + [ec])[1..] == ecs[1..] + [ec];
      FirstUrlAtEnd(ecs[1..], ec, s);
    } else {
      assert ecs + [ec] == [ec];
    }
  }

  /** The client a selector ends with: that of the supported chain if it can be used, and otherwise the
      one dialled for the first experimental entry of the selector. */
  ghost function EffectiveClient(env: Environment, supported: seq<ChainConfig>, ecs: seq<ExperimentalChain>,
                                 s: Selector): Option<Client>
  {
    if Listed(supported, s) && env.usable(s).Some? then env.usable(s)
    else
      match FirstUrl(ecs, s)
      case Some(url) => Some(Client(url))
      case None => None
  }

  ghost function Lookup(clients: map<Selector, Client>, s: Selector): Option<Client> {
    if s in clients then Some(clients[s]) else None
  }

  lemma {:induction false} AddAllClients(env: Environment, supported: seq<ChainConfig>, ecs: seq<ExperimentalChain>,
                                         s: Selector)
    requires AddAll(env, supported, ecs).Ok?
    ensures Lookup(AddAll(env, supported, ecs).value.clients, s) == EffectiveClient(env, supported, ecs, s)
  {
    if ecs == [] {
      SupportedClientsExactly(env, supported, s);
    } else {
      var front, last := ecs[..|ecs| - 1], ecs[|ecs| - 1];
      AddAllClients(env, supported, front, s);
      FirstUrlAtEnd(front, last, s);
      assert ecs == front + [last];
    }
  }

  /** What an entry needs to be accepted after the entries before it. */
  ghost predicate Acceptable(env: Environment, supported: seq<ChainConfig>, before: seq<ExperimentalChain>,
                             ec: ExperimentalChain)
  {
    && ec.selector != 0 && !Blank(ec.rpcUrl) && !Blank(ec.forwarder)
    && (EffectiveClient(env, supported, before, ec.selector).Some? || env.dials(ec.rpcUrl))
  }

  lemma {:induction false} AddAllExactly(env: Environment, supported: seq<ChainConfig>, ecs: seq<ExperimentalChain>)
    ensures AddAll(env, supported, ecs).Ok?
       <==> forall i | 0 <= i < |ecs| :: Acceptable(env, supported, ecs[..i], ecs[i])
  {
    if ecs != [] {
      var front, last := ecs[..|ecs| - 1], ecs[|ecs| - 1];
      AddAllExactly(env, supported, front);
      assert forall i | 0 <= i < |front| :: front[..i] == ecs[..i] && front[i] == ecs[i];
      if AddAll(env, supported, front).Ok? {
        AddAllClients(env, supported, front, last.selector);
        assert AddAll(env, supported, ecs).Ok? <==> Acceptable(env, supported, front, last);
      }
    }
  }

  lemma SomeClientExactly(env: Environment, supported: seq<ChainConfig>, ecs: seq<ExperimentalChain>)
    requires AddAll(env, supported, ecs).Ok?
    ensures AddAll(env, supported, ecs).value.clients == map[]
       <==> forall s :: EffectiveClient(env, supported, ecs, s).None?
  {
    var clients := AddAll(env, supported, ecs).value.clients;
    forall s ensures s in clients <==> EffectiveClient(env, supported, ecs, s).Some? {
      AddAllClients(env, supported, ecs, s);
    }
    if clients != map[] {
      var s :| s in clients;
      assert EffectiveClient(env, supported, ecs, s).Some?;
    }
  }

  /** Resolution succeeds exactly when every entry is acceptable after those before it, some selector
      has a client and the key is in order; the clients are then the effective ones. */
  lemma ResolveExactly(env: Environment, supported: seq<ChainConfig>, ecs: seq<ExperimentalChain>, keyOk: bool)
    ensures var r := Resolve(env, supported, ecs, keyOk);
            && (r.Ok? <==>
                  && keyOk
                  && (forall i | 0 <= i < |ecs| :: Acceptable(env, supported, ecs[..i], ecs[i]))
                  && exists s :: EffectiveClient(env, supported, ecs, s).Some?)
            && (r.Ok? ==> forall s :: Lookup(r.value.clients, s) == EffectiveClient(env, supported, ecs, s))
  {
    AddAllExactly(env, supported, ecs);
    if AddAll(env, supported, ecs).Ok? {
      SomeClientExactly(env, supported, ecs);
      forall s ensures Lookup(AddAll(env, supported, ecs).value.clients, s) == EffectiveClient(env, supported, ecs, s) {
        AddAllClients(env, supported, ecs, s);
      }
    }
  }

  /** What is reported for an entry, in the order of the tests. */
  ghost predicate Explains(env: Environment, e: ResolveError, ec: ExperimentalChain) {
    match e
    case NoSelector => ec.selector == 0
    case NoRpcUrl(s) => s == ec.selector != 0 && Blank(ec.rpcUrl)
    case NoForwarder(s) => s == ec.selector != 0 && !Blank(ec.rpcUrl) && Blank(ec.forwarder)
    case DialFailed(s) =>
      s == ec.selector != 0 && !Blank(ec.rpcUrl) && !Blank(ec.forwarder) && !env.dials(ec.rpcUrl)
    case _ => false
  }

  /** A failing list of entries is reported at its first entry that is not acceptable. */
  lemma {:induction false} FirstBadEntry(env: Environment, supported: seq<ChainConfig>, ecs: seq<ExperimentalChain>)
    returns (k: nat)
    requires AddAll(env, supported, ecs).Err?
    ensures k < |ecs| && Explains(env, AddAll(env, supported, ecs).error, ecs[k])
    ensures !Acceptable(env, supported, ecs[..k], ecs[k])
    ensures forall i | 0 <= i < k :: Acceptable(env, supported, ecs[..i], ecs[i])
  {
    var front, last := ecs[..|ecs| - 1], ecs[|ecs| - 1];
    assert forall i | 0 <= i < |front| :: front[..i] == ecs[..i] && front[i] == ecs[i];
    if AddAll(env, supported, front).Err? {
      k := FirstBadEntry(env, supported, front);
    } else {
      k := |front|;
      AddAllExactly(env, supported, front);
      AddAllClients(env, supported, front, last.selector);
    }
  }

  lemma {:induction false} SupportedForwarderOf(env: Environment, supported: seq<ChainConfig>,
                                                clients: map<Selector, Client>, s: Selector)
    requires ProperTable(supported)
    ensures var f := SupportedForwarders(env, supported, clients);
            (s in f <==> s in clients && SupportedForwarder(supported, s) != "")
            && (s in f ==> f[s] == env.toAddress(SupportedForwarder(supported, s)))
  {
    if supported != [] {
      SupportedForwarderOf(env, supported[..|supported| - 1], clients, s);
      LookupInProper(supported, s);
    }
  }

  lemma LookupInProper(supported: seq<ChainConfig>, s: Selector)
    requires ProperTable(supported) && supported != []
    ensures var last := supported[|supported| - 1];
            && !Blank(last.forwarder) && last.forwarder != ""
            && SupportedForwarder(supported, s)
               == if last.selector == s then last.forwarder else SupportedForwarder(supported[..|supported| - 1], s)
  {
    var front, last := supported[..|supported| - 1], supported[|supported| - 1];
    assert last in supported;
    assert supported == front + [last];
    LookupAtEnd(front, last, s);
    if last.selector == s && SupportedForwarder(front, s) != "" {
      SupportedLookup(front, s);
    }
  }

  lemma {:induction false} SupportedLookup(supported: seq<ChainConfig>, s: Selector)
    requires SupportedForwarder(supported, s) != ""
    ensures exists i | 0 <= i < |supported| :: supported[i].selector == s
  {
    if supported[0].selector != s {
      SupportedLookup(supported[1..], s);
    }
  }

  lemma {:induction false} LookupAtEnd(supported: seq<ChainConfig>, last: ChainConfig, s: Selector)
    requires last.forwarder != "" && forall c | c in supported :: c.forwarder != ""
    ensures SupportedForwarder(supported + [last], s)
         == if SupportedForwarder(supported, s) != "" then SupportedForwarder(supported, s)
            else if last.selector == s then last.forwarder else ""
  {
    if supported != [] {
      assert (supported + [last])[1..] == supported[1..] + [last];
      LookupAtEnd(supported[1..], last, s);
    }
  }

  /** For every RPC setting and every list of experimental chains: when resolution succeeds, the
      chain table has exactly the client selectors, each with its effective client, and the forwarder
      of each is the last experimental one that differs from the supported one, or else the supported
      one. */
  lemma ChainTableIsComplete(env: Environment, supported: seq<ChainConfig>, ecs: seq<ExperimentalChain>, keyOk: bool)
    requires ProperTable(supported) && Resolve(env, supported, ecs, keyOk).Ok?
    ensures var t := Resolve(env, supported, ecs, keyOk).value;
            var chains := EvmChains(t.clients, Forwarders(env, supported, t));
            && chains.Keys == t.clients.Keys
            && forall s | s in chains ::
                 && Some(chains[s].client) == EffectiveClient(env, supported, ecs, s)
                 && Some(chains[s].forwarder) == (var o := LastOverride(env, supported, ecs, s);
                                                  if o.Some? then o else SupportedAddress(env, supported, s))
  {
    var t := Resolve(env, supported, ecs, keyOk).value;
    AddAllSettles(env, supported, ecs);
    forall s | s in t.clients
      ensures s in Forwarders(env, supported, t)
      ensures Some(Forwarders(env, supported, t)[s]) == (var o := LastOverride(env, supported, ecs, s);
                                                         if o.Some? then o else SupportedAddress(env, supported, s))
    {
      SupportedForwarderOf(env, supported, t.clients, s);
      assert s in t.experimental || SupportedAddress(env, supported, s).Some?;
    }
    forall s | s in t.clients ensures Some(t.clients[s]) == EffectiveClient(env, supported, ecs, s) {
      AddAllClients(env, supported, ecs, s);
    }
  }

  /** An entry that restates the supported forwarder does not undo an earlier override: the last
      entry of a selector decides exactly when it differs from the supported forwarder or nothing
      overrode it before. */
  lemma LastEntryDecidesExactly(env: Environment, supported: seq<ChainConfig>, ecs: seq<ExperimentalChain>,
                                         ec: ExperimentalChain, keyOk: bool)
    requires ProperTable(supported) && Resolve(env, supported, ecs + [ec], keyOk).Ok?
    ensures var t := Resolve(env, supported, ecs + [ec], keyOk).value;
            var chains := EvmChains(t.clients, Forwarders(env, supported, t));
            var address := env.toAddress(ec.forwarder);
            && ec.selector in chains
            && (chains[ec.selector].forwarder == address
                <==> Some(address) != SupportedAddress(env, supported, ec.selector)
                     || LastOverride(env, supported, ecs, ec.selector).None?)
  {
    var t := Resolve(env, supported, ecs + [ec], keyOk).value;
    ChainTableIsComplete(env, supported, ecs + [ec], keyOk);
    assert (ecs + [ec])[..|ecs|] == ecs;
    assert (ecs + [ec])[|ecs|] == ec;
    OverrideDiffers(env, supported, ecs, ec.selector);
    assert ec.selector in t.clients;
  }

  lemma {:induction false} OverrideDiffers(env: Environment, supported: seq<ChainConfig>,
                                                    ecs: seq<ExperimentalChain>, s: Selector)
    ensures LastOverride(env, supported, ecs, s).Some? ==>
              LastOverride(env, supported, ecs, s) != SupportedAddress(env, supported, s)
  {
    if ecs != [] {
      OverrideDiffers(env, supported, ecs[..|ecs| - 1], s);
    }
  }

  // ------------------------------------------------------------ firing a trigger

  datatype Firing =
    | NoSelectorInId
    | NoRpc(selector: Selector)
    | NoLog
    | NoChain(selector: Selector)
    | Fires(selector: Selector)

  /** The EVM branch that runs before the simulation starts, with or without a user at the
      terminal; logOk says that the log of the trigger could be fetched. */
  function FireEvmTrigger(id: string, clients: map<Selector, Client>, chains: map<Selector, EvmChain>, logOk: bool)
    : Firing
  {
    match ParseChainSelector(id)
    case None => NoSelectorInId
    case Some(s) =>
      if s !in clients then NoRpc(s)
      else if !logOk then NoLog
      else if s !in chains then NoChain(s)
      else Fires(s)
  }

  /** After a successful resolution the branch "no EVM chain initialized" cannot be reached; a
      trigger fires exactly when its id names the selector of a client and its log is there. */
  lemma ChainIsAlwaysInitialized(env: Environment, supported: seq<ChainConfig>, ecs: seq<ExperimentalChain>,
                                          keyOk: bool, id: string, logOk: bool)
    requires ProperTable(supported) && Resolve(env, supported, ecs, keyOk).Ok?
    ensures var t := Resolve(env, supported, ecs, keyOk).value;
            var f := FireEvmTrigger(id, t.clients, EvmChains(t.clients, Forwarders(env, supported, t)), logOk);
            && !f.NoChain?
            && (f == NoSelectorInId <==> ParseChainSelector(id).None?)
            && forall s | ParseChainSelector(id) == Some(s) ::
                 && (f == NoRpc(s) <==> s !in t.clients)
                 && (f == NoLog <==> s in t.clients && !logOk)
                 && (f == Fires(s) <==> s in t.clients && logOk)
  {
    ChainTableIsComplete(env, supported, ecs, keyOk);
  }

  /** The table of supported chains, given the selectors of the other package. */
  function SupportedEVM(selectors: seq<Selector>): seq<ChainConfig>
    requires |selectors| == |FORWARDERS|
  {
    seq(|FORWARDERS|, i requires 0 <= i < |FORWARDERS| => ChainConfig(selectors[i], FORWARDERS[i]))
  }

  lemma SupportedIsProper(selectors: seq<Selector>)
    requires |selectors| == |FORWARDERS|
    requires forall i, j | 0 <= i < j < |selectors| :: selectors[i] != selectors[j]
    ensures ProperTable(SupportedEVM(selectors))
  {
    forall i | 0 <= i < |FORWARDERS| ensures FORWARDERS[i] != [] && FORWARDERS[i][0] == '0' {
    }
    forall c | c in SupportedEVM(selectors) ensures !Blank(c.forwarder) {
      var i :| 0 <= i < |FORWARDERS| && SupportedEVM(selectors)[i] == c;
      assert !IsSpace(FORWARDERS[i][0]);
    }
  }

  /** With the simulator's own table, whatever the settings and the experimental chains: every
      connected client has its EVM chain, and a trigger fires exactly when its id names the
      selector of a client and its log is there. */
  lemma SupportedChainsAreInitialized(env: Environment, selectors: seq<Selector>, ecs: seq<ExperimentalChain>,
                                      keyOk: bool, id: string, logOk: bool)
    requires |selectors| == |FORWARDERS|
    requires forall i, j | 0 <= i < j < |selectors| :: selectors[i] != selectors[j]
    requires Resolve(env, SupportedEVM(selectors), ecs, keyOk).Ok?
    ensures var supported := SupportedEVM(selectors);
            var t := Resolve(env, supported, ecs, keyOk).value;
            var chains := EvmChains(t.clients, Forwarders(env, supported, t));
            var f := FireEvmTrigger(id, t.clients, chains, logOk);
            && chains.Keys == t.clients.Keys && !f.NoChain?
            && (f.Fires? <==> logOk && ParseChainSelector(id).Some? && ParseChainSelector(id).value in t.clients)
            && (f.Fires? ==> f.selector == ParseChainSelector(id).value)
  {
    var supported := SupportedEVM(selectors);
    SupportedIsProper(selectors);
    ChainTableIsComplete(env, supported, ecs, keyOk);
    ChainIsAlwaysInitialized(env, supported, ecs, keyOk, id, logOk);
  }
}
