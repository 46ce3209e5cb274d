/** The confidential settlement engine (workflow/ccc-settlement.ts): a greedy matcher that
    fills a deficit from the market makers' balances, largest first, and the update that debits
    the makers and credits the reserve. Amounts are exact reals. */
module Settlement {
  import opened Sorting

  datatype MarketMakerBalance = MarketMakerBalance(address: string, availableWBTC: real, committedAt: int)

  datatype BalanceTable = BalanceTable(
    marketMakers: seq<MarketMakerBalance>,
    reserveBalance: real,
    totalCommitted: real,
    version: int)

  datatype Fill = Fill(makerAddress: string, amount: real, price: real)

  // ---------------------------------------------------------------- matching

  predicate MoreLiquid(a: MarketMakerBalance, b: MarketMakerBalance) {
    a.availableWBTC >= b.availableWBTC
  }

  function WithLiquidity(makers: seq<MarketMakerBalance>): seq<MarketMakerBalance> {
    if makers == [] then []
    else (if makers[0].availableWBTC > 0.0 then [makers[0]] else []) + WithLiquidity(makers[1..])
  }

  function SortedMakers(makers: seq<MarketMakerBalance>): seq<MarketMakerBalance> {
    Sort(MoreLiquid, WithLiquidity(makers))
  }

  function Min(a: real, b: real): real {
    if a <= b then a else b
  }

  function Pos(x: real): real {
    if x > 0.0 then x else 0.0
  }

  lemma ProductIsNotNegative(x: real, y: real)
    requires x >= 0.0 && y >= 0.0
    ensures x * y >= 0.0
  {
  }

  lemma WithinBand(draw: real, band: real)
    ensures -1.0 <= draw <= 1.0 && band >= 0.0 ==> -band <= draw * band <= band
  {
    if -1.0 <= draw <= 1.0 && band >= 0.0 {
      ProductIsNotNegative(draw + 1.0, band);
      ProductIsNotNegative(1.0 - draw, band);
      assert (draw + 1.0) * band == draw * band + band;
      assert (1.0 - draw) * band == band - draw * band;
    }
  }

  function Moved(draw: real, band: real): (price: real)
    ensures -1.0 <= draw <= 1.0 && band >= 0.0 ==> 1.0 - band <= price <= 1.0 + band
  {
    WithinBand(draw, band);
    1.0 + draw * band
  }

  /** The quoted price: TWAP (1.0) moved by a draw r from [0, 1) within the slippage band. */
  function Quote(r: real, maxSlippageBps: real): (price: real)
    ensures 0.0 <= r < 1.0 && maxSlippageBps >= 0.0 ==>
              1.0 - maxSlippageBps / 10000.0 <= price <= 1.0 + maxSlippageBps / 10000.0
  {
    Moved((r - 0.5) * 2.0, maxSlippageBps / 10000.0)
  }

  /** The fills taken from makers that are already sorted; random(i) is the i-th random draw. */
  function FillsFrom(sorted: seq<MarketMakerBalance>, remaining: real, bps: real, random: nat -> real, i: nat)
    : seq<Fill>
    decreases sorted
  {
    if sorted == [] || remaining <= 0.0 then []
    else
      var amount := Min(sorted[0].availableWBTC, remaining);
      [Fill(sorted[0].address, amount, Quote(random(i), bps))]
      + FillsFrom(sorted[1..], remaining - amount, bps, random, i + 1)
  }

  function Fills(deficit: real, table: BalanceTable, bps: real, random: nat -> real): seq<Fill> {
    FillsFrom(SortedMakers(table.marketMakers), deficit, bps, random, 0)
  }

  /** Taking the next maker moves one fill from the fills to come to the fills taken. */
  lemma TakeOne(sorted: seq<MarketMakerBalance>, remaining: real, bps: real, random: nat -> real, i: nat,
                fills: seq<Fill>)
    requires i < |sorted| && remaining > 0.0
    ensures var amount := Min(sorted[i].availableWBTC, remaining);
            var fill := Fill(sorted[i].address, amount, Quote(random(i), bps));
            fills + FillsFrom(sorted[i..], remaining, bps, random, i)
            == (fills + [fill]) + FillsFrom(sorted[i + 1..], remaining - amount, bps, random, i + 1)
  {
    var amount := Min(sorted[i].availableWBTC, remaining);
    var fill := Fill(sorted[i].address, amount, Quote(random(i), bps));
    var later := FillsFrom(sorted[i + 1..], remaining - amount, bps, random, i + 1);
    assert sorted[i..][1..] == sorted[i + 1..];
    assert fills + ([fill] + later) == (fills + [fill]) + later;
  }

  method MatchOrders(deficitAmount: real, balanceTable: BalanceTable, maxSlippageBps: real, random: nat -> real)
    returns (fills: seq<Fill>)
    ensures fills == Fills(deficitAmount, balanceTable, maxSlippageBps, random)
  {
    fills := [];
    var remaining := deficitAmount;
    var sortedMakers := SortedMakers(balanceTable.marketMakers);
    var i := 0;
    while i < |sortedMakers|
      invariant 0 <= i <= |sortedMakers|
      invariant fills + FillsFrom(sortedMakers[i..], remaining, maxSlippageBps, random, i)
             == FillsFrom(sortedMakers, deficitAmount, maxSlippageBps, random, 0)
    {
      if remaining <= 0.0 {
        break;
      }
      var maker := sortedMakers[i];
      var fillAmount := Min(maker.availableWBTC, remaining);
      var fill := Fill(maker.address, fillAmount, Quote(random(i), maxSlippageBps));
      TakeOne(sortedMakers, remaining, maxSlippageBps, random, i, fills);
      fills := fills + [fill];
      remaining := remaining - fillAmount;
      i := i + 1;
    }
  }

  function TotalFilled(fills: seq<Fill>): real {
    if fills == [] then 0.0 else fills[0].amount + TotalFilled(fills[1..])
  }

  function Amounts(fills: seq<Fill>): seq<real> {
    seq(|fills|, i requires 0 <= i < |fills| => fills[i].amount)
  }

  /** Everything the makers could supply. */
  function Liquidity(makers: seq<MarketMakerBalance>): (r: real)
    ensures r >= 0.0
  {
    if makers == [] then 0.0 else Pos(makers[0].availableWBTC) + Liquidity(makers[1..])
  }

  /** What the makers hold above the level t. */
  ghost function Excess(makers: seq<MarketMakerBalance>, t: real): (r: real)
    ensures r >= 0.0
  {
    if makers == [] then 0.0 else Pos(makers[0].availableWBTC - t) + Excess(makers[1..], t)
  }

  lemma {:induction false} ExcessOfInsert(m: MarketMakerBalance, s: seq<MarketMakerBalance>, t: real)
    ensures Excess(Insert(MoreLiquid, m, s), t) == Pos(m.availableWBTC - t) + Excess(s, t)
  {
    assert ([m] + s)[1..] == s;
    if s != [] && !MoreLiquid(m, s[0]) {
      ExcessOfInsert(m, s[1..], t);
      assert ([s[0]] + Insert(MoreLiquid, m, s[1..]))[1..] == Insert(MoreLiquid, m, s[1..]);
    }
  }

  lemma {:induction false} ExcessOfSort(s: seq<MarketMakerBalance>, t: real)
    ensures Excess(Sort(MoreLiquid, s), t) == Excess(s, t)
  {
    if s != [] {
      ExcessOfSort(s[1..], t);
      ExcessOfInsert(s[0], Sort(MoreLiquid, s[1..]), t);
    }
  }

  /** Filtering and sorting the makers moves no liquidity above any level. */
  lemma {:induction false} ExcessOfSortedMakers(makers: seq<MarketMakerBalance>, t: real)
    requires t >= 0.0
    ensures Excess(SortedMakers(makers), t) == Excess(makers, t)
  {
    ExcessOfSort(WithLiquidity(makers), t);
    ExcessOfFilter(makers, t);
  }

  lemma {:induction false} ExcessOfFilter(makers: seq<MarketMakerBalance>, t: real)
    requires t >= 0.0
    ensures Excess(WithLiquidity(makers), t) == Excess(makers, t)
  {
    if makers != [] {
      ExcessOfFilter(makers[1..], t);
      if makers[0].availableWBTC > 0.0 {
        assert WithLiquidity(makers)[1..] == WithLiquidity(makers[1..]);
      } else {
        assert WithLiquidity(makers) == WithLiquidity(makers[1..]);
      }
    }
  }

  lemma {:induction false} LiquidityIsExcess(makers: seq<MarketMakerBalance>)
    ensures Liquidity(makers) == Excess(makers, 0.0)
  {
    if makers != [] {
      LiquidityIsExcess(makers[1..]);
    }
  }

  lemma {:induction false} FilterIsPositive(makers: seq<MarketMakerBalance>)
    ensures forall m | m in WithLiquidity(makers) :: m in makers && m.availableWBTC > 0.0
  {
    if makers != [] {
      FilterIsPositive(makers[1..]);
    }
  }

  lemma SortedMakersFacts(makers: seq<MarketMakerBalance>)
    ensures Sorted(MoreLiquid, SortedMakers(makers))
    ensures forall m | m in SortedMakers(makers) :: m in makers && m.availableWBTC > 0.0
    ensures Liquidity(SortedMakers(makers)) == Liquidity(makers)
  {
    SortIsSorted(MoreLiquid, WithLiquidity(makers));
    SortPermutes(MoreLiquid, WithLiquidity(makers));
    FilterIsPositive(makers);
    forall m | m in SortedMakers(makers) ensures m in WithLiquidity(makers) {
      assert m in multiset(SortedMakers(makers));
    }
    LiquidityIsExcess(makers);
    LiquidityIsExcess(SortedMakers(makers));
    ExcessOfSortedMakers(makers, 0.0);
  }

  lemma {:induction false} FillsFromTotal(s: seq<MarketMakerBalance>, d: real, bps: real, random: nat -> real, i: nat)
    requires forall m | m in s :: m.availableWBTC > 0.0
    ensures TotalFilled(FillsFrom(s, d, bps, random, i)) == Pos(Min(d, Liquidity(s)))
  {
    if s != [] && d > 0.0 {
      var amount := Min(s[0].availableWBTC, d);
      FillsFromTotal(s[1..], d - amount, bps, random, i + 1);
      assert FillsFrom(s, d, bps, random, i)[1..] == FillsFrom(s[1..], d - amount, bps, random, i + 1);
    }
  }

  /** The matcher fills as much of the deficit as the makers can supply. */
  lemma FillsTotal(deficit: real, table: BalanceTable, bps: real, random: nat -> real)
    ensures TotalFilled(Fills(deficit, table, bps, random)) == Pos(Min(deficit, Liquidity(table.marketMakers)))
  {
    SortedMakersFacts(table.marketMakers);
    FillsFromTotal(SortedMakers(table.marketMakers), deficit, bps, random, 0);
  }

  // ------------------------------------------------------------- optimality

  /** What the makers at the positions in chosen could supply together. */
  ghost function SupplyOf(makers: seq<MarketMakerBalance>, chosen: set<nat>): real {
    if makers == [] then 0.0
    else
      var last := |makers| - 1;
      SupplyOf(makers[..last], chosen - {last}) + if last in chosen then Pos(makers[last].availableWBTC) else 0.0
  }

  ghost function Times(k: nat, t: real): real {
    if k == 0 then 0.0 else t + Times(k - 1, t)
  }

  lemma {:induction false} TimesMonotone(j: nat, k: nat, t: real)
    requires j <= k && t >= 0.0
    ensures Times(j, t) <= Times(k, t)
  {
    if j < k {
      TimesMonotone(j, k - 1, t);
    }
  }

  lemma {:induction false} ExcessOfLast(makers: seq<MarketMakerBalance>, t: real)
    requires makers != []
    ensures Excess(makers, t) == Excess(makers[..|makers| - 1], t) + Pos(makers[|makers| - 1].availableWBTC - t)
  {
    if |makers| > 1 {
      ExcessOfLast(makers[1..], t);
      assert makers[..|makers| - 1][1..] == makers[1..][..|makers| - 2];
    }
  }

  /** No choice of makers supplies more than t for each of them plus everything held above t. */
  lemma {:induction false} SupplyBound(makers: seq<MarketMakerBalance>, chosen: set<nat>, t: real)
    requires t >= 0.0
    requires forall k | k in chosen :: k < |makers|
    ensures SupplyOf(makers, chosen) <= Times(|chosen|, t) + Excess(makers, t)
  {
    if makers == [] {
      assert chosen == {};
    } else {
      var last := |makers| - 1;
      SupplyBound(makers[..last], chosen - {last}, t);
      ExcessOfLast(makers, t);
    }
  }

  lemma {:induction false} ExcessBelow(s: seq<MarketMakerBalance>, t: real)
    requires forall m | m in s :: m.availableWBTC <= t
    ensures Excess(s, t) == 0.0
  {
    if s != [] {
      ExcessBelow(s[1..], t);
    }
  }

  /** The maker that ended up last among the fills: what stands above its balance is exactly the
      rest of the filled makers, and without it the fills fall short of the total. */
  lemma {:induction false} LastFill(s: seq<MarketMakerBalance>, d: real, bps: real, random: nat -> real, i: nat)
    requires Sorted(MoreLiquid, s) && forall m | m in s :: m.availableWBTC > 0.0
    requires s != [] && d > 0.0
    ensures var n := |FillsFrom(s, d, bps, random, i)|;
            && 1 <= n <= |s|
            && var t := s[n - 1].availableWBTC;
               Excess(s, t) + Times(n - 1, t) < Pos(Min(d, Liquidity(s)))
  {
    var amount := Min(s[0].availableWBTC, d);
    var n := |FillsFrom(s, d, bps, random, i)|;
    if s[1..] != [] && d - amount > 0.0 {
      LastFill(s[1..], d - amount, bps, random, i + 1);
      var t := s[n - 1].availableWBTC;
      assert s[1..][n - 2] == s[n - 1];
      assert MoreLiquid(s[0], s[n - 1]);
    } else {
      forall m | m in s ensures m.availableWBTC <= s[0].availableWBTC {
        var k :| 0 <= k < |s| && s[k] == m;
        assert k > 0 ==> MoreLiquid(s[0], s[k]);
      }
      ExcessBelow(s, s[0].availableWBTC);
    }
  }

  lemma ShortChoice(makers: seq<MarketMakerBalance>, chosen: set<nat>, k: nat, t: real, total: real)
    requires forall k | k in chosen :: k < |makers|
    requires |chosen| <= k && t >= 0.0
    requires Excess(makers, t) + Times(k, t) < total
    ensures SupplyOf(makers, chosen) < total
  {
    SupplyBound(makers, chosen, t);
    TimesMonotone(|chosen|, k, t);
  }

  /** Greedy is optimal: no choice of makers that can supply the filled total is smaller than
      the number of fills. */
  lemma FewestCounterparties(deficit: real, table: BalanceTable, bps: real, random: nat -> real, chosen: set<nat>)
    requires forall k | k in chosen :: k < |table.marketMakers|
    requires SupplyOf(table.marketMakers, chosen) >= TotalFilled(Fills(deficit, table, bps, random))
    ensures |Fills(deficit, table, bps, random)| <= |chosen|
  {
    var fills := Fills(deficit, table, bps, random);
    if fills != [] && |chosen| < |fills| {
      var t := FillThreshold(deficit, table, bps, random);
      ShortChoice(table.marketMakers, chosen, |fills| - 1, t, TotalFilled(fills));
    }
  }

  /** A level above which all makers together hold so little that one maker less than the fills
      cannot supply the total. */
  lemma FillThreshold(deficit: real, table: BalanceTable, bps: real, random: nat -> real) returns (t: real)
    requires Fills(deficit, table, bps, random) != []
    ensures var fills := Fills(deficit, table, bps, random);
            t >= 0.0 && Excess(table.marketMakers, t) + Times(|fills| - 1, t) < TotalFilled(fills)
  {
    SortedMakersFacts(table.marketMakers);
    FillsTotal(deficit, table, bps, random);
    t := LevelOfLastFill(SortedMakers(table.marketMakers), deficit, bps, random);
    ExcessOfSortedMakers(table.marketMakers, t);
  }

  lemma LevelOfLastFill(s: seq<MarketMakerBalance>, d: real, bps: real, random: nat -> real) returns (t: real)
    requires Sorted(MoreLiquid, s) && forall m | m in s :: m.availableWBTC > 0.0
    requires FillsFrom(s, d, bps, random, 0) != []
    ensures var n := |FillsFrom(s, d, bps, random, 0)|;
            t >= 0.0 && Excess(s, t) + Times(n - 1, t) < Pos(Min(d, Liquidity(s)))
  {
    LastFill(s, d, bps, random, 0);
    var n := |FillsFrom(s, d, bps, random, 0)|;
    t := s[n - 1].availableWBTC;
    assert s[n - 1] in s;
  }

  // -------------------------------------------------- order of the maker list

  ghost function Balances(makers: seq<MarketMakerBalance>): seq<real> {
    if makers == [] then [] else [makers[0].availableWBTC] + Balances(makers[1..])
  }

  lemma {:induction false} BalancesAt(makers: seq<MarketMakerBalance>)
    ensures |Balances(makers)| == |makers|
    ensures forall i | 0 <= i < |makers| :: Balances(makers)[i] == makers[i].availableWBTC
  {
    if makers != [] {
      BalancesAt(makers[1..]);
    }
  }

  lemma {:induction false} BalancesSplit(a: seq<MarketMakerBalance>, b: seq<MarketMakerBalance>)
    ensures Balances(a + b) == Balances(a) + Balances(b)
  {
    BalancesAt(a);
    BalancesAt(b);
    BalancesAt(a + b);
  }

  lemma RemoveAt(q: seq<MarketMakerBalance>, k: nat) returns (rest: seq<MarketMakerBalance>)
    requires k < |q|
    ensures |rest| == |q| - 1
    ensures multiset(q) == multiset(rest) + multiset{q[k]}
    ensures multiset(Balances(q)) == multiset(Balances(rest)) + multiset{q[k].availableWBTC}
  {
    rest := q[..k] + q[k + 1..];
    assert q == (q[..k] + [q[k]]) + q[k + 1..];
    BalancesSplit(q[..k] + [q[k]], q[k + 1..]);
    BalancesSplit(q[..k], [q[k]]);
    BalancesSplit(q[..k], q[k + 1..]);
    assert Balances([q[k]]) == [q[k].availableWBTC];
  }

  /** Two permutations without one maker that is in both. */
  lemma RemoveFromBoth(p: seq<MarketMakerBalance>, q: seq<MarketMakerBalance>)
    returns (p': seq<MarketMakerBalance>, q': seq<MarketMakerBalance>)
    requires multiset(p) == multiset(q) && p != []
    ensures |p'| < |p| && multiset(p') == multiset(q')
    ensures multiset(Balances(p')) == multiset(Balances(q')) ==> multiset(Balances(p)) == multiset(Balances(q))
  {
    assert p[0] in multiset(q);
    var k :| 0 <= k < |q| && q[k] == p[0];
    p' := RemoveAt(p, 0);
    q' := RemoveAt(q, k);
    assert multiset(p') == multiset(p) - multiset{p[0]};
    assert multiset(q') == multiset(q) - multiset{p[0]};
  }

  lemma {:induction false} BalancesOfPermutation(p: seq<MarketMakerBalance>, q: seq<MarketMakerBalance>)
    requires multiset(p) == multiset(q)
    ensures multiset(Balances(p)) == multiset(Balances(q))
    decreases |p|
  {
    if p == [] {
      SameSize(p, q);
    } else {
      var p', q' := RemoveFromBoth(p, q);
      BalancesOfPermutation(p', q');
    }
  }

  predicate AtLeast(x: real, y: real) {
    x >= y
  }

  lemma {:induction false} BalancesOfInsert(m: MarketMakerBalance, s: seq<MarketMakerBalance>)
    ensures Balances(Insert(MoreLiquid, m, s)) == Insert(AtLeast, m.availableWBTC, Balances(s))
  {
    assert ([m] + s)[1..] == s;
    if s != [] {
      assert Balances(s)[1..] == Balances(s[1..]);
      if !MoreLiquid(m, s[0]) {
        BalancesOfInsert(m, s[1..]);
        assert ([s[0]] + Insert(MoreLiquid, m, s[1..]))[1..] == Insert(MoreLiquid, m, s[1..]);
      }
    }
  }

  lemma {:induction false} BalancesOfSort(s: seq<MarketMakerBalance>)
    ensures Balances(Sort(MoreLiquid, s)) == Sort(AtLeast, Balances(s))
  {
    if s != [] {
      BalancesOfSort(s[1..]);
      BalancesOfInsert(s[0], Sort(MoreLiquid, s[1..]));
      assert Balances(s)[1..] == Balances(s[1..]);
    }
  }

  lemma {:induction false} FilterCounts(makers: seq<MarketMakerBalance>, v: real)
    ensures multiset(Balances(WithLiquidity(makers)))[v]
         == if v > 0.0 then multiset(Balances(makers))[v] else 0
  {
    if makers != [] {
      FilterCounts(makers[1..], v);
      var b := makers[0].availableWBTC;
      var rest := Balances(WithLiquidity(makers[1..]));
      assert multiset(Balances(makers)) == multiset{b} + multiset(Balances(makers[1..]));
      if b > 0.0 {
        assert WithLiquidity(makers)[1..] == WithLiquidity(makers[1..]);
        assert multiset(Balances(WithLiquidity(makers))) == multiset{b} + multiset(rest);
      } else {
        assert WithLiquidity(makers) == WithLiquidity(makers[1..]);
      }
    }
  }

  lemma SortedBalancesIgnoreOrder(p: seq<MarketMakerBalance>, q: seq<MarketMakerBalance>)
    requires multiset(p) == multiset(q)
    ensures Balances(SortedMakers(p)) == Balances(SortedMakers(q))
  {
    var bp, bq := Balances(WithLiquidity(p)), Balances(WithLiquidity(q));
    BalancesOfPermutation(p, q);
    forall v: real ensures multiset(bp)[v] == multiset(bq)[v] {
      FilterCounts(p, v);
      FilterCounts(q, v);
    }
    assert multiset(bp) == multiset(bq);
    BalancesOfSort(WithLiquidity(p));
    BalancesOfSort(WithLiquidity(q));
    SortPermutes(AtLeast, bp);
    SortPermutes(AtLeast, bq);
    SortIsSorted(AtLeast, bp);
    SortIsSorted(AtLeast, bq);
    SortedIsUnique(AtLeast, Sort(AtLeast, bp), Sort(AtLeast, bq));
  }

  lemma {:induction false} AmountsFollowBalances(s: seq<MarketMakerBalance>, s': seq<MarketMakerBalance>,
                                                 d: real, bps: real, random: nat -> real, random': nat -> real, i: nat)
    requires Balances(s) == Balances(s')
    ensures Amounts(FillsFrom(s, d, bps, random, i)) == Amounts(FillsFrom(s', d, bps, random', i))
    decreases |s|
  {
    BalancesAt(s);
    BalancesAt(s');
    if s != [] && d > 0.0 {
      var amount := Min(s[0].availableWBTC, d);
      assert s'[0].availableWBTC == Balances(s')[0] == Balances(s)[0];
      assert Balances(s[1..]) == Balances(s)[1..] == Balances(s')[1..] == Balances(s'[1..]);
      AmountsFollowBalances(s[1..], s'[1..], d - amount, bps, random, random', i + 1);
      AmountsOfCons(FillsFrom(s, d, bps, random, i));
      AmountsOfCons(FillsFrom(s', d, bps, random', i));
    }
  }

  lemma AmountsOfCons(fills: seq<Fill>)
    requires fills != []
    ensures Amounts(fills) == [fills[0].amount] + Amounts(fills[1..])
  {
  }

  /** The sequence of fill amounts does not depend on how the maker list is ordered, nor on the
      random draws. */
  lemma AmountsIgnoreMakerOrder(deficit: real, table: BalanceTable, table': BalanceTable, bps: real,
                                random: nat -> real, random': nat -> real)
    requires multiset(table.marketMakers) == multiset(table'.marketMakers)
    ensures Amounts(Fills(deficit, table, bps, random)) == Amounts(Fills(deficit, table', bps, random'))
  {
    SortedBalancesIgnoreOrder(table.marketMakers, table'.marketMakers);
    AmountsFollowBalances(SortedMakers(table.marketMakers), SortedMakers(table'.marketMakers),
                          deficit, bps, random, random', 0);
  }

  // ------------------------------------------------------- what the fills are

  /** Prices are spread evenly over the band: the draw 0 gives its lower end, and the price rises in
      proportion to the draw, by twice the slippage over all draws. */
  lemma QuoteIsEven(r: real, maxSlippageBps: real)
    ensures Quote(0.0, maxSlippageBps) == 1.0 - maxSlippageBps / 10000.0
    ensures Quote(r, maxSlippageBps) == Quote(0.0, maxSlippageBps) + r * (2.0 * (maxSlippageBps / 10000.0))
  {
    MovedIsEven(r, maxSlippageBps / 10000.0);
    MovedIsEven(0.0, maxSlippageBps / 10000.0);
  }

  lemma MovedIsEven(r: real, band: real)
    ensures Moved((r - 0.5) * 2.0, band) == (1.0 - band) + r * (2.0 * band)
  {
    assert ((r - 0.5) * 2.0) * band == r * (2.0 * band) - band;
  }

  /** Every price from the lower end of the band up to its upper end is quoted for some draw. */
  lemma EveryPriceIsQuoted(price: real, maxSlippageBps: real) returns (r: real)
    requires maxSlippageBps > 0.0
    requires 1.0 - maxSlippageBps / 10000.0 <= price < 1.0 + maxSlippageBps / 10000.0
    ensures 0.0 <= r < 1.0 && Quote(r, maxSlippageBps) == price
  {
    var width := 2.0 * (maxSlippageBps / 10000.0);
    var above := price - (1.0 - maxSlippageBps / 10000.0);
    r := ShareOf(above, width);
    QuoteIsEven(r, maxSlippageBps);
  }

  lemma ShareOf(part: real, whole: real) returns (r: real)
    requires 0.0 <= part < whole
    ensures 0.0 <= r < 1.0 && r * whole == part
  {
    r := part / whole;
  }

  /** The k-th fill takes from the k-th most liquid maker, at the price of the k-th draw: all it has,
      unless the fill is the last one. */
  lemma {:induction false} FillAt(s: seq<MarketMakerBalance>, d: real, bps: real, random: nat -> real, i: nat, k: nat)
    requires forall m | m in s :: m.availableWBTC > 0.0
    requires k < |FillsFrom(s, d, bps, random, i)|
    ensures var fills := FillsFrom(s, d, bps, random, i);
            && k < |s|
            && fills[k].makerAddress == s[k].address
            && fills[k].price == Quote(random(i + k), bps)
            && 0.0 < fills[k].amount <= s[k].availableWBTC
            && (k < |fills| - 1 ==> fills[k].amount == s[k].availableWBTC)
  {
    var amount := Min(s[0].availableWBTC, d);
    var rest := FillsFrom(s[1..], d - amount, bps, random, i + 1);
    var fills := FillsFrom(s, d, bps, random, i);
    assert fills == [Fill(s[0].address, amount, Quote(random(i), bps))] + rest;
    assert s[0] in s;
    if k > 0 {
      FillAt(s[1..], d - amount, bps, random, i + 1, k - 1);
      assert fills[k] == rest[k - 1] && s[1..][k - 1] == s[k];
    }
  }

  /** The fills of a round, one by one. */
  lemma FillsDescribed(deficit: real, table: BalanceTable, bps: real, random: nat -> real, k: nat)
    requires k < |Fills(deficit, table, bps, random)|
    ensures var fills, s := Fills(deficit, table, bps, random), SortedMakers(table.marketMakers);
            && Sorted(MoreLiquid, s) && multiset(s) == multiset(WithLiquidity(table.marketMakers))
            && k < |s|
            && fills[k].makerAddress == s[k].address
            && fills[k].price == Quote(random(k), bps)
            && 0.0 < fills[k].amount <= s[k].availableWBTC
            && (k < |fills| - 1 ==> fills[k].amount == s[k].availableWBTC)
  {
    SortedMakersFacts(table.marketMakers);
    SortPermutes(MoreLiquid, WithLiquidity(table.marketMakers));
    FillAt(SortedMakers(table.marketMakers), deficit, bps, random, 0, k);
  }

  /** Who takes part: exactly the makers with a positive balance. */
  lemma {:induction false} WithLiquidityExactly(makers: seq<MarketMakerBalance>, m: MarketMakerBalance)
    ensures multiset(WithLiquidity(makers))[m] == if m.availableWBTC > 0.0 then multiset(makers)[m] else 0
  {
    if makers != [] {
      WithLiquidityExactly(makers[1..], m);
      assert makers == [makers[0]] + makers[1..];
    }
  }
}
