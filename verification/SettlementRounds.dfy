/** Rounds of settlement: match, then apply the fills to the balance table. What every run of
    rounds keeps, what it credits in all, and exactly when it overdraws a maker. */
module SettlementRounds {
  import opened Sorting
  import opened Settlement

  // ------------------------------------------------------------ applying fills

  /** The position of the first maker with this address, or |makers| when there is none. */
  function FindMaker(makers: seq<MarketMakerBalance>, address: string): (k: nat)
    ensures k <= |makers|
    ensures k < |makers| ==> makers[k].address == address
    ensures forall j | 0 <= j < k :: makers[j].address != address
  {
    if makers == [] || makers[0].address == address then 0 else 1 + FindMaker(makers[1..], address)
  }

  function ApplyFill(table: BalanceTable, fill: Fill): BalanceTable {
    var makers := table.marketMakers;
    var k := FindMaker(makers, fill.makerAddress);
    table.(
    marketMakers := if k < |makers|
    then makers[k := makers[k].(availableWBTC := makers[k].availableWBTC - fill.amount)]
    else makers,
    reserveBalance := table.reserveBalance + fill.amount,
    totalCommitted := table.totalCommitted - fill.amount)
  }

  function ApplyAll(table: BalanceTable, fills: seq<Fill>): BalanceTable
    decreases fills
  {
    if fills == [] then table else ApplyAll(ApplyFill(table, fills[0]), fills[1..])
  }

  function Applied(table: BalanceTable, fills: seq<Fill>): BalanceTable {
    var updated := ApplyAll(table, fills);
    updated.(version := updated.version + 1)
  }

  lemma NextFill(table: BalanceTable, fills: seq<Fill>, i: nat)
    requires i < |fills|
    ensures ApplyAll(table, fills[i..]) == ApplyAll(ApplyFill(table, fills[i]), fills[i + 1..])
  {
    assert fills[i..][1..] == fills[i + 1..];
  }

  /** The body of the loop over the fills. */
  method SettleFill(table: BalanceTable, fill: Fill) returns (updated: BalanceTable)
    ensures updated == ApplyFill(table, fill)
  {
    updated := table;
    var k := FindMaker(updated.marketMakers, fill.makerAddress);
    if k < |updated.marketMakers| {
      var maker := updated.marketMakers[k];
      updated := updated.(marketMakers :=
        updated.marketMakers[k := maker.(availableWBTC := maker.availableWBTC - fill.amount)]);
    }
    updated := updated.(reserveBalance := updated.reserveBalance + fill.amount);
    updated := updated.(totalCommitted := updated.totalCommitted - fill.amount);
  }

  method ApplyFills(balanceTable: BalanceTable, fills: seq<Fill>) returns (updated: BalanceTable)
    ensures updated == Applied(balanceTable, fills)
  {
    updated := balanceTable;
    for i := 0 to |fills|
      invariant ApplyAll(updated, fills[i..]) == ApplyAll(balanceTable, fills)
    {
      NextFill(updated, fills, i);
      updated := SettleFill(updated, fills[i]);
    }
    assert fills[|fills|..] == [];
    updated := updated.(version := updated.version + 1);
  }

  /** Same makers in the same places; only balances may differ. */
  ghost predicate SameMakers(m: seq<MarketMakerBalance>, m': seq<MarketMakerBalance>) {
    && |m| == |m'|
    && forall i | 0 <= i < |m| :: m[i].address == m'[i].address && m[i].committedAt == m'[i].committedAt
  }

  lemma {:induction false} FindIsStable(m: seq<MarketMakerBalance>, m': seq<MarketMakerBalance>, address: string)
    requires SameMakers(m, m')
    ensures FindMaker(m, address) == FindMaker(m', address)
  {
    if m != [] && m[0].address != address {
      FindIsStable(m[1..], m'[1..], address);
    }
  }

  /** What the fills pay out of this address. */
  ghost function Paid(fills: seq<Fill>, address: string): real {
    if fills == [] then 0.0
    else (if fills[0].makerAddress == address then fills[0].amount else 0.0) + Paid(fills[1..], address)
  }

  ghost predicate IsFirst(makers: seq<MarketMakerBalance>, i: nat)
    requires i < |makers|
  {
    FindMaker(makers, makers[i].address) == i
  }

  ghost function BalanceLeft(makers: seq<MarketMakerBalance>, fills: seq<Fill>, i: nat): real
    requires i < |makers|
  {
    makers[i].availableWBTC - if IsFirst(makers, i) then Paid(fills, makers[i].address) else 0.0
  }

  /** Fills debit the first maker of each address and nobody else. */
  lemma {:induction false} BalancesAfter(table: BalanceTable, fills: seq<Fill>)
    ensures SameMakers(table.marketMakers, ApplyAll(table, fills).marketMakers)
    ensures forall i | 0 <= i < |table.marketMakers| ::
              ApplyAll(table, fills).marketMakers[i].availableWBTC == BalanceLeft(table.marketMakers, fills, i)
    decreases fills
  {
    if fills != [] {
      var next := ApplyFill(table, fills[0]);
      var makers := table.marketMakers;
      BalancesAfter(next, fills[1..]);
      assert SameMakers(makers, next.marketMakers);
      forall i | 0 <= i < |makers|
        ensures ApplyAll(table, fills).marketMakers[i].availableWBTC == BalanceLeft(makers, fills, i)
      {
        FindIsStable(makers, next.marketMakers, makers[i].address);
        assert IsFirst(makers, i) == IsFirst(next.marketMakers, i);
      }
    }
  }

  lemma {:induction false} MoneyAfter(table: BalanceTable, fills: seq<Fill>)
    ensures ApplyAll(table, fills).reserveBalance == table.reserveBalance + TotalFilled(fills)
    ensures ApplyAll(table, fills).totalCommitted == table.totalCommitted - TotalFilled(fills)
    ensures ApplyAll(table, fills).version == table.version
    decreases fills
  {
    if fills != [] {
      MoneyAfter(ApplyFill(table, fills[0]), fills[1..]);
    }
  }

  // --------------------------------------------------------------- one round

  ghost function Holdings(makers: seq<MarketMakerBalance>): real {
    if makers == [] then 0.0 else makers[0].availableWBTC + Holdings(makers[1..])
  }

  lemma {:induction false} HoldingsUpdate(makers: seq<MarketMakerBalance>, k: nat, m: MarketMakerBalance)
    requires k < |makers|
    ensures Holdings(makers[k := m]) == Holdings(makers) - makers[k].availableWBTC + m.availableWBTC
  {
    if k == 0 {
      assert makers[k := m][1..] == makers[1..];
    } else {
      HoldingsUpdate(makers[1..], k - 1, m);
      assert makers[k := m][1..] == makers[1..][k - 1 := m];
    }
  }

  ghost predicate Known(makers: seq<MarketMakerBalance>, fills: seq<Fill>) {
    forall f | f in fills :: FindMaker(makers, f.makerAddress) < |makers|
  }

  /** Fills of known makers move money and create none, even when addresses repeat. */
  lemma {:induction false} HoldingsAfter(table: BalanceTable, fills: seq<Fill>)
    requires Known(table.marketMakers, fills)
    ensures Holdings(ApplyAll(table, fills).marketMakers) == Holdings(table.marketMakers) - TotalFilled(fills)
    decreases fills
  {
    if fills != [] {
      var makers := table.marketMakers;
      var next := ApplyFill(table, fills[0]);
      var k := FindMaker(makers, fills[0].makerAddress);
      assert fills[0] in fills;
      HoldingsUpdate(makers, k, next.marketMakers[k]);
      forall f | f in fills[1..] ensures FindMaker(next.marketMakers, f.makerAddress) < |next.marketMakers| {
        FindIsStable(makers, next.marketMakers, f.makerAddress);
      }
      HoldingsAfter(next, fills[1..]);
    }
  }

  lemma {:induction false} FillsNameMakers(s: seq<MarketMakerBalance>, d: real, bps: real, random: nat -> real, i: nat)
    ensures forall f | f in FillsFrom(s, d, bps, random, i) :: exists m :: m in s && m.address == f.makerAddress
  {
    if s != [] && d > 0.0 {
      FillsNameMakers(s[1..], d - Min(s[0].availableWBTC, d), bps, random, i + 1);
    }
  }

  lemma MatchedFillsAreKnown(deficit: real, table: BalanceTable, bps: real, random: nat -> real)
    ensures Known(table.marketMakers, Fills(deficit, table, bps, random))
  {
    var makers := table.marketMakers;
    SortedMakersFacts(makers);
    FillsNameMakers(SortedMakers(makers), deficit, bps, random, 0);
    forall f | f in Fills(deficit, table, bps, random)
      ensures FindMaker(makers, f.makerAddress) < |makers|
    {
      var m :| m in SortedMakers(makers) && m.address == f.makerAddress;
      var j :| 0 <= j < |makers| && makers[j] == m;
    }
  }

  // ------------------------------------------------------------ overdrafts

  /** What the makers at this address could supply. */
  ghost function AddressTotal(makers: seq<MarketMakerBalance>, address: string): (r: real)
    ensures r >= 0.0
  {
    if makers == [] then 0.0
    else (if makers[0].address == address then Pos(makers[0].availableWBTC) else 0.0)
         + AddressTotal(makers[1..], address)
  }

  lemma {:induction false} AddressTotalOfInsert(m: MarketMakerBalance, s: seq<MarketMakerBalance>, a: string)
    ensures AddressTotal(Insert(MoreLiquid, m, s), a) == AddressTotal([m] + s, a)
  {
    assert ([m] + s)[1..] == s;
    if s != [] && !MoreLiquid(m, s[0]) {
      AddressTotalOfInsert(m, s[1..], a);
      assert ([m] + s[1..])[1..] == s[1..];
      assert ([s[0]] + Insert(MoreLiquid, m, s[1..]))[1..] == Insert(MoreLiquid, m, s[1..]);
    }
  }

  lemma {:induction false} AddressTotalOfSort(s: seq<MarketMakerBalance>, a: string)
    ensures AddressTotal(Sort(MoreLiquid, s), a) == AddressTotal(s, a)
  {
    if s != [] {
      AddressTotalOfSort(s[1..], a);
      AddressTotalOfInsert(s[0], Sort(MoreLiquid, s[1..]), a);
      assert ([s[0]] + Sort(MoreLiquid, s[1..]))[1..] == Sort(MoreLiquid, s[1..]);
    }
  }

  lemma {:induction false} AddressTotalOfFilter(makers: seq<MarketMakerBalance>, a: string)
    ensures AddressTotal(WithLiquidity(makers), a) == AddressTotal(makers, a)
  {
    if makers != [] {
      AddressTotalOfFilter(makers[1..], a);
      if makers[0].availableWBTC > 0.0 {
        assert WithLiquidity(makers)[1..] == WithLiquidity(makers[1..]);
      } else {
        assert WithLiquidity(makers) == WithLiquidity(makers[1..]);
      }
    }
  }

  lemma {:induction false} PaidFromSorted(s: seq<MarketMakerBalance>, d: real, bps: real, random: nat -> real, i: nat,
                                          a: string)
    requires forall m | m in s :: m.availableWBTC > 0.0
    ensures 0.0 <= Paid(FillsFrom(s, d, bps, random, i), a) <= AddressTotal(s, a)
    ensures d >= Liquidity(s) ==> Paid(FillsFrom(s, d, bps, random, i), a) == AddressTotal(s, a)
  {
    if s != [] && d > 0.0 {
      var amount := Min(s[0].availableWBTC, d);
      PaidFromSorted(s[1..], d - amount, bps, random, i + 1, a);
      assert FillsFrom(s, d, bps, random, i)[1..] == FillsFrom(s[1..], d - amount, bps, random, i + 1);
    } else if s != [] {
      assert Liquidity(s) >= s[0].availableWBTC > 0.0;
    }
  }

  /** A matched round never asks an address for more than its makers hold, and asks for all of
      it when the deficit covers the whole liquidity. */
  lemma PaidByAddress(deficit: real, table: BalanceTable, bps: real, random: nat -> real, a: string)
    ensures 0.0 <= Paid(Fills(deficit, table, bps, random), a) <= AddressTotal(table.marketMakers, a)
    ensures deficit >= Liquidity(table.marketMakers) ==>
              Paid(Fills(deficit, table, bps, random), a) == AddressTotal(table.marketMakers, a)
  {
    SortedMakersFacts(table.marketMakers);
    PaidFromSorted(SortedMakers(table.marketMakers), deficit, bps, random, 0, a);
    AddressTotalOfSort(WithLiquidity(table.marketMakers), a);
    AddressTotalOfFilter(table.marketMakers, a);
  }

  /** Every maker with liquidity is the one that a look-up by its address finds. Distinct
      addresses are a special case. */
  ghost predicate Addressable(makers: seq<MarketMakerBalance>) {
    forall i | 0 <= i < |makers| && makers[i].availableWBTC > 0.0 :: IsFirst(makers, i)
  }

  lemma DistinctIsAddressable(makers: seq<MarketMakerBalance>)
    requires forall i, j | 0 <= i < j < |makers| :: makers[i].address != makers[j].address
    ensures Addressable(makers)
  {
    forall i | 0 <= i < |makers| ensures IsFirst(makers, i) {
      var k := FindMaker(makers, makers[i].address);
      assert k <= i;
    }
  }

  lemma {:induction false} AddressTotalSingle(makers: seq<MarketMakerBalance>, a: string, i: nat)
    requires i < |makers| && makers[i].address == a
    requires forall j | 0 <= j < |makers| && j != i && makers[j].address == a :: makers[j].availableWBTC <= 0.0
    ensures AddressTotal(makers, a) == Pos(makers[i].availableWBTC)
  {
    if i > 0 {
      AddressTotalSingle(makers[1..], a, i - 1);
    } else {
      AddressTotalNone(makers[1..], a);
    }
  }

  lemma {:induction false} AddressTotalNone(makers: seq<MarketMakerBalance>, a: string)
    requires forall j | 0 <= j < |makers| && makers[j].address == a :: makers[j].availableWBTC <= 0.0
    ensures AddressTotal(makers, a) == 0.0
  {
    if makers != [] {
      AddressTotalNone(makers[1..], a);
    }
  }

  lemma {:induction false} AddressTotalHolds(makers: seq<MarketMakerBalance>, a: string, i: nat)
    requires i < |makers| && makers[i].address == a
    ensures AddressTotal(makers, a) >= Pos(makers[i].availableWBTC)
  {
    if i > 0 {
      AddressTotalHolds(makers[1..], a, i - 1);
    }
  }

  lemma {:induction false} AddressTotalHoldsTwo(makers: seq<MarketMakerBalance>, a: string, i: nat, j: nat)
    requires i < j < |makers| && makers[i].address == a == makers[j].address
    ensures AddressTotal(makers, a) >= Pos(makers[i].availableWBTC) + Pos(makers[j].availableWBTC)
  {
    if i > 0 {
      AddressTotalHoldsTwo(makers[1..], a, i - 1, j - 1);
    } else {
      AddressTotalHolds(makers[1..], a, j - 1);
    }
  }

  /** A round may lower a positive balance, though not below zero, and leaves the others alone. */
  ghost predicate NoOverdraft(m: seq<MarketMakerBalance>, m': seq<MarketMakerBalance>) {
    && SameMakers(m, m')
    && forall i | 0 <= i < |m| ::
         if m[i].availableWBTC > 0.0 then 0.0 <= m'[i].availableWBTC <= m[i].availableWBTC
         else m'[i].availableWBTC == m[i].availableWBTC
  }

  datatype Request = Request(deficit: real, maxSlippageBps: real, random: nat -> real)

  function Round(table: BalanceTable, request: Request): BalanceTable {
    Applied(table, Fills(request.deficit, table, request.maxSlippageBps, request.random))
  }

  lemma RoundKeepsBalances(table: BalanceTable, request: Request)
    requires Addressable(table.marketMakers)
    ensures NoOverdraft(table.marketMakers, Round(table, request).marketMakers)
    ensures Addressable(Round(table, request).marketMakers)
  {
    var makers := table.marketMakers;
    var fills := Fills(request.deficit, table, request.maxSlippageBps, request.random);
    var makers' := Round(table, request).marketMakers;
    BalancesAfter(table, fills);
    forall i | 0 <= i < |makers|
      ensures if makers[i].availableWBTC > 0.0 then 0.0 <= makers'[i].availableWBTC <= makers[i].availableWBTC
              else makers'[i].availableWBTC == makers[i].availableWBTC
    {
      if IsFirst(makers, i) {
        var a := makers[i].address;
        PaidByAddress(request.deficit, table, request.maxSlippageBps, request.random, a);
        forall j | 0 <= j < |makers| && j != i && makers[j].address == a ensures makers[j].availableWBTC <= 0.0 {
          assert !IsFirst(makers, j);
        }
        AddressTotalSingle(makers, a, i);
      }
    }
    forall i | 0 <= i < |makers'| && makers'[i].availableWBTC > 0.0 ensures IsFirst(makers', i) {
      assert makers[i].availableWBTC > 0.0;
      FindIsStable(makers, makers', makers[i].address);
    }
  }

  /** Exactly which tables are safe from overdrafts: with no negative balance to begin with, every
      deficit leaves every balance non-negative if and only if each maker with liquidity is the
      first entry with its address. Two funded entries under one address overdraw the first. */
  lemma OverdraftExactly(table: BalanceTable, bps: real, random: nat -> real)
    requires forall m | m in table.marketMakers :: m.availableWBTC >= 0.0
    ensures Addressable(table.marketMakers)
       <==> forall d: real, m | m in Round(table, Request(d, bps, random)).marketMakers :: m.availableWBTC >= 0.0
  {
    var makers := table.marketMakers;
    if Addressable(makers) {
      forall d: real, m | m in Round(table, Request(d, bps, random)).marketMakers ensures m.availableWBTC >= 0.0 {
        RoundKeepsBalances(table, Request(d, bps, random));
        var i :| 0 <= i < |makers| && Round(table, Request(d, bps, random)).marketMakers[i] == m;
        assert makers[i] in makers;
      }
    } else {
      var j :| 0 <= j < |makers| && makers[j].availableWBTC > 0.0 && !IsFirst(makers, j);
      var a := makers[j].address;
      var i := FindMaker(makers, a);
      assert i < j && makers[i].address == a && makers[i] in makers;
      var d := Liquidity(makers);
      PaidByAddress(d, table, bps, random, a);
      AddressTotalHoldsTwo(makers, a, i, j);
      BalancesAfter(table, Fills(d, table, bps, random));
      var makers' := Round(table, Request(d, bps, random)).marketMakers;
      assert makers'[i].availableWBTC < 0.0 && makers'[i] in makers';
    }
  }

  lemma {:induction false} DebitsLowerLiquidity(m: seq<MarketMakerBalance>, m': seq<MarketMakerBalance>)
    requires NoOverdraft(m, m')
    ensures Liquidity(m) - Liquidity(m') == Holdings(m) - Holdings(m')
  {
    if m != [] {
      DebitsLowerLiquidity(m[1..], m'[1..]);
    }
  }

  // ------------------------------------------------------------------- runs

  function Run(table: BalanceTable, requests: seq<Request>): BalanceTable
    decreases requests
  {
    if requests == [] then table else Run(Round(table, requests[0]), requests[1..])
  }

  /** The deficits of a run; a deficit of zero or less asks for nothing. */
  function Demand(requests: seq<Request>): (r: real)
    ensures r >= 0.0
  {
    if requests == [] then 0.0 else Pos(requests[0].deficit) + Demand(requests[1..])
  }

  /** Conservation over any run, for any table, repeated addresses included. */
  lemma {:induction false} RunConserves(table: BalanceTable, requests: seq<Request>)
    ensures var after := Run(table, requests);
            && Holdings(after.marketMakers) + after.reserveBalance
            == Holdings(table.marketMakers) + table.reserveBalance
            && after.totalCommitted - Holdings(after.marketMakers)
            == table.totalCommitted - Holdings(table.marketMakers)
            && after.version == table.version + |requests|
    decreases requests
  {
    if requests != [] {
      var r := requests[0];
      var fills := Fills(r.deficit, table, r.maxSlippageBps, r.random);
      MatchedFillsAreKnown(r.deficit, table, r.maxSlippageBps, r.random);
      HoldingsAfter(table, fills);
      MoneyAfter(table, fills);
      RunConserves(Round(table, r), requests[1..]);
    }
  }

  /** Over any run no maker is overdrawn, and the reserve is credited with the whole demand as
      far as the initial liquidity goes. */
  lemma {:induction false} RunCredits(table: BalanceTable, requests: seq<Request>)
    requires Addressable(table.marketMakers)
    ensures var after := Run(table, requests);
            && NoOverdraft(table.marketMakers, after.marketMakers)
            && after.reserveBalance == table.reserveBalance + Min(Demand(requests), Liquidity(table.marketMakers))
    decreases requests
  {
    if requests != [] {
      var r := requests[0];
      var next := Round(table, r);
      var fills := Fills(r.deficit, table, r.maxSlippageBps, r.random);
      RoundKeepsBalances(table, r);
      MatchedFillsAreKnown(r.deficit, table, r.maxSlippageBps, r.random);
      HoldingsAfter(table, fills);
      MoneyAfter(table, fills);
      FillsTotal(r.deficit, table, r.maxSlippageBps, r.random);
      DebitsLowerLiquidity(table.marketMakers, next.marketMakers);
      RunCredits(next, requests[1..]);
    }
  }

  /** Splitting a demand into other deficits changes no total. */
  lemma SplittingChangesNothing(table: BalanceTable, requests: seq<Request>, requests': seq<Request>)
    requires Addressable(table.marketMakers)
    requires Demand(requests) == Demand(requests')
    ensures var after, after' := Run(table, requests), Run(table, requests');
            && after.reserveBalance == after'.reserveBalance
            && after.totalCommitted == after'.totalCommitted
            && Holdings(after.marketMakers) == Holdings(after'.marketMakers)
  {
    RunCredits(table, requests);
    RunCredits(table, requests');
    RunConserves(table, requests);
    RunConserves(table, requests');
  }

  // --------------------------------------------------------------- verdict

  /** A quotient of IEEE 754 numbers, as far as the engine needs it: 0/0 is not a number. */
  datatype Ratio = NaN | Number(value: real)

  function FillRatio(filled: real, deficit: real): Ratio
    requires deficit == 0.0 ==> filled == 0.0
  {
    if deficit == 0.0 then NaN else Number(filled / deficit)
  }

  predicate RecoverySucceeded(ratio: Ratio, minFillRatio: real) {
    ratio.Number? && ratio.value >= minFillRatio
  }

  /** The verdict on a request. */
  predicate Verdict(table: BalanceTable, request: Request, minFillRatio: real) {
    var filled := TotalFilled(Fills(request.deficit, table, request.maxSlippageBps, request.random));
    assert request.deficit == 0.0 ==> filled == 0.0 by {
      FillsTotal(request.deficit, table, request.maxSlippageBps, request.random);
    }
    RecoverySucceeded(FillRatio(filled, request.deficit), minFillRatio)
  }

  /** The verdict compares the attainable amount with the required share of the deficit. That
      reading is right for every positive deficit; for others it is right only for a negative
      deficit with the threshold strictly between 0 and 1 (both sides then say no). A zero
      deficit always fails. */
  lemma VerdictExactly(table: BalanceTable, request: Request, minFillRatio: real)
    ensures var d := request.deficit;
            (Verdict(table, request, minFillRatio)
            == (Min(d, Liquidity(table.marketMakers)) >= minFillRatio * d))
            <==> (d > 0.0 || (d < 0.0 && 0.0 < minFillRatio < 1.0))
  {
    var filled := TotalFilled(Fills(request.deficit, table, request.maxSlippageBps, request.random));
    FillsTotal(request.deficit, table, request.maxSlippageBps, request.random);
    RatioExactly(filled, request.deficit, Liquidity(table.marketMakers), minFillRatio);
  }

  lemma RatioExactly(filled: real, d: real, liquidity: real, r: real)
    requires liquidity >= 0.0 && filled == Pos(Min(d, liquidity))
    ensures (RecoverySucceeded(FillRatio(filled, d), r) == (Min(d, liquidity) >= r * d))
       <==> (d > 0.0 || (d < 0.0 && 0.0 < r < 1.0))
  {
    if d > 0.0 {
      DivisionBound(filled, d, r);
    } else if d < 0.0 {
      assert 0.0 / d == 0.0;
      NegativeShare(d, r);
    }
  }

  lemma DivisionBound(x: real, d: real, r: real)
    requires d > 0.0
    ensures x / d >= r <==> x >= r * d
  {
    var q := x / d;
    assert q * d == x;
    assert x - r * d == (q - r) * d;
  }

  lemma NegativeShare(d: real, r: real)
    requires d < 0.0
    ensures d >= r * d <==> r >= 1.0
  {
    assert d - r * d == (1.0 - r) * d;
  }
}
