/** Which makers the settlement engine names: how the order of the maker list decides between makers
    that are equally liquid. */
module SettlementTies {
  import opened Sorting
  import opened Settlement

  /** The addresses of the makers with this balance, in the order of the list. */
  function AddressesAt(makers: seq<MarketMakerBalance>, v: real): seq<string> {
    if makers == [] then []
    else if makers[0].availableWBTC == v then [makers[0].address] + AddressesAt(makers[1..], v)
    else AddressesAt(makers[1..], v)
  }

  function Addresses(makers: seq<MarketMakerBalance>): seq<string> {
    if makers == [] then [] else [makers[0].address] + Addresses(makers[1..])
  }

  lemma {:induction false} AddressesOfTies(makers: seq<MarketMakerBalance>, x: MarketMakerBalance)
    ensures AddressesAt(makers, x.availableWBTC) == Addresses(Ties(MoreLiquid, x, makers))
  {
    if makers != [] {
      AddressesOfTies(makers[1..], x);
      var ties := Ties(MoreLiquid, x, makers[1..]);
      assert ([makers[0]] + ties)[1..] == ties;
    }
  }

  lemma {:induction false} AddressesWithLiquidity(makers: seq<MarketMakerBalance>, v: real)
    ensures AddressesAt(WithLiquidity(makers), v) == if v > 0.0 then AddressesAt(makers, v) else []
  {
    if makers != [] {
      AddressesWithLiquidity(makers[1..], v);
      var rest := WithLiquidity(makers[1..]);
      assert ([makers[0]] + rest)[1..] == rest && [] + rest == rest;
    }
  }

  /** Sorting is stable: within a balance the makers stay in the order of the list. */
  lemma AddressesSorted(makers: seq<MarketMakerBalance>, v: real)
    ensures AddressesAt(SortedMakers(makers), v) == if v > 0.0 then AddressesAt(makers, v) else []
  {
    var x := MarketMakerBalance("", v, 0);
    SortIsStable(MoreLiquid, x, WithLiquidity(makers));
    AddressesOfTies(SortedMakers(makers), x);
    AddressesOfTies(WithLiquidity(makers), x);
    AddressesWithLiquidity(makers, v);
  }

  /** The same addresses with the same balances in the same places. */
  ghost predicate Agree(s: seq<MarketMakerBalance>, s': seq<MarketMakerBalance>) {
    && |s| == |s'|
    && forall i | 0 <= i < |s| :: s[i].address == s'[i].address && s[i].availableWBTC == s'[i].availableWBTC
  }

  lemma {:induction false} AgreeingFills(s: seq<MarketMakerBalance>, s': seq<MarketMakerBalance>, remaining: real,
                                         bps: real, random: nat -> real, i: nat)
    requires Agree(s, s')
    ensures FillsFrom(s, remaining, bps, random, i) == FillsFrom(s', remaining, bps, random, i)
    decreases s
  {
    if s != [] && remaining > 0.0 {
      AgreeingFills(s[1..], s'[1..], remaining - Min(s[0].availableWBTC, remaining), bps, random, i + 1);
    }
  }

  lemma {:induction false} AgreeingAddresses(s: seq<MarketMakerBalance>, s': seq<MarketMakerBalance>, v: real)
    requires Agree(s, s')
    ensures AddressesAt(s, v) == AddressesAt(s', v)
  {
    if s != [] {
      AgreeingAddresses(s[1..], s'[1..], v);
    }
  }

  lemma {:induction false} LevelIsHeld(s: seq<MarketMakerBalance>, v: real)
    requires AddressesAt(s, v) != []
    ensures exists i | 0 <= i < |s| :: s[i].availableWBTC == v
  {
    if s[0].availableWBTC != v {
      LevelIsHeld(s[1..], v);
      var i :| 0 <= i < |s[1..]| && s[1..][i].availableWBTC == v;
      assert s[i + 1].availableWBTC == v;
    }
  }

  lemma TopLevel(s: seq<MarketMakerBalance>, s': seq<MarketMakerBalance>)
    requires Sorted(MoreLiquid, s) && s' != []
    requires AddressesAt(s, s'[0].availableWBTC) != []
    ensures s != [] && s[0].availableWBTC >= s'[0].availableWBTC
  {
    LevelIsHeld(s, s'[0].availableWBTC);
    var i :| 0 <= i < |s| && s[i].availableWBTC == s'[0].availableWBTC;
    assert i > 0 ==> MoreLiquid(s[0], s[i]);
  }

  /** Two sorted lists agree when every balance lists the same addresses in them. */
  lemma {:induction false} SortedAgree(s: seq<MarketMakerBalance>, s': seq<MarketMakerBalance>)
    requires Sorted(MoreLiquid, s) && Sorted(MoreLiquid, s')
    requires forall v :: AddressesAt(s, v) == AddressesAt(s', v)
    ensures Agree(s, s')
  {
    if s != [] || s' != [] {
      if s != [] {
        assert AddressesAt(s', s[0].availableWBTC) == AddressesAt(s, s[0].availableWBTC) != [];
        TopLevel(s', s);
      }
      if s' != [] {
        assert AddressesAt(s, s'[0].availableWBTC) == AddressesAt(s', s'[0].availableWBTC) != [];
        TopLevel(s, s');
      }
      forall v ensures AddressesAt(s[1..], v) == AddressesAt(s'[1..], v) {
        TailAddresses(s, s', v);
      }
      assert AddressesAt(s, s[0].availableWBTC)[0] == AddressesAt(s', s[0].availableWBTC)[0];
      SortedAgree(s[1..], s'[1..]);
    }
  }

  lemma TailAddresses(s: seq<MarketMakerBalance>, s': seq<MarketMakerBalance>, v: real)
    requires s != [] && s' != [] && s[0].availableWBTC == s'[0].availableWBTC
    requires AddressesAt(s, v) == AddressesAt(s', v)
    ensures AddressesAt(s[1..], v) == AddressesAt(s'[1..], v)
  {
    if s[0].availableWBTC == v {
      assert AddressesAt(s, v)[1..] == AddressesAt(s[1..], v);
      assert AddressesAt(s', v)[1..] == AddressesAt(s'[1..], v);
    }
  }

  ghost predicate AllPositive(s: seq<MarketMakerBalance>) {
    forall m | m in s :: m.availableWBTC > 0.0
  }

  /** A deficit that nobody can exceed empties every maker in turn. */
  lemma {:induction false} FillsOfEverything(s: seq<MarketMakerBalance>, d: real, bps: real, random: nat -> real,
                                             i: nat)
    requires AllPositive(s) && d >= Liquidity(s)
    ensures var fills := FillsFrom(s, d, bps, random, i);
            && |fills| == |s|
            && forall k | 0 <= k < |s| ::
                 fills[k].makerAddress == s[k].address && fills[k].amount == s[k].availableWBTC
    decreases s
  {
    if s != [] {
      assert s[0] in s && AllPositive(s[1..]);
      FillsOfEverything(s[1..], d - s[0].availableWBTC, bps, random, i + 1);
    }
  }

  ghost predicate SameFills(table: BalanceTable, table': BalanceTable) {
    forall deficit, bps, random :: Fills(deficit, table, bps, random) == Fills(deficit, table', bps, random)
  }

  /** Every positive balance lists the same addresses in both tables. */
  ghost predicate SameTies(table: BalanceTable, table': BalanceTable) {
    forall v | v > 0.0 :: AddressesAt(table.marketMakers, v) == AddressesAt(table'.marketMakers, v)
  }

  /** Two tables settle every deficit by the very same fills, addresses, amounts and prices, exactly
      when the makers of each positive balance stand in the same order in both; where they stand
      among makers of other balances does not matter. */
  lemma FillsDependOnTiesExactly(table: BalanceTable, table': BalanceTable)
    ensures SameFills(table, table') <==> SameTies(table, table')
  {
    if SameTies(table, table') {
      SameTiesAgree(table, table');
      forall deficit, bps, random
        ensures Fills(deficit, table, bps, random) == Fills(deficit, table', bps, random)
      {
        AgreeingFills(SortedMakers(table.marketMakers), SortedMakers(table'.marketMakers), deficit, bps, random, 0);
      }
    }
    if SameFills(table, table') {
      SameFillsAgree(table, table');
      forall v | v > 0.0 ensures AddressesAt(table.marketMakers, v) == AddressesAt(table'.marketMakers, v) {
        AddressesSorted(table.marketMakers, v);
        AddressesSorted(table'.marketMakers, v);
        AgreeingAddresses(SortedMakers(table.marketMakers), SortedMakers(table'.marketMakers), v);
      }
    }
  }

  lemma SameTiesAgree(table: BalanceTable, table': BalanceTable)
    requires SameTies(table, table')
    ensures Agree(SortedMakers(table.marketMakers), SortedMakers(table'.marketMakers))
  {
    var s, s' := SortedMakers(table.marketMakers), SortedMakers(table'.marketMakers);
    forall v ensures AddressesAt(s, v) == AddressesAt(s', v) {
      AddressesSorted(table.marketMakers, v);
      AddressesSorted(table'.marketMakers, v);
    }
    SortedMakersFacts(table.marketMakers);
    SortedMakersFacts(table'.marketMakers);
    SortedAgree(s, s');
  }

  lemma SameFillsAgree(table: BalanceTable, table': BalanceTable)
    requires SameFills(table, table')
    ensures Agree(SortedMakers(table.marketMakers), SortedMakers(table'.marketMakers))
  {
    var s, s' := SortedMakers(table.marketMakers), SortedMakers(table'.marketMakers);
    var d := Liquidity(s) + Liquidity(s');
    SortedMakersFacts(table.marketMakers);
    SortedMakersFacts(table'.marketMakers);
    var random: nat -> real := _ => 0.0;
    FillsOfEverything(s, d, 0.0, random, 0);
    FillsOfEverything(s', d, 0.0, random, 0);
    assert Fills(d, table, 0.0, random) == Fills(d, table', 0.0, random);
  }
}
