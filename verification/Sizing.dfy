/** The two optimisers of `dex.rs`: sandwich sizing and two-leg arbitrage. */
module Sizing {
  import opened Arithmetic
  import opened Ideal
  import opened NearOptimum
  import opened Options
  import opened Pools
  import opened Pricing
  import Routes
  import opened Sandwich
  import opened SandwichRounding
  import opened TernarySearch

  method OptimalSandwichIn(pool: V2Pool, tokenIn: Address, victimAmountIn: nat, victimMinOut: nat, maxIn: nat)
    returns (sizing: Option<SandwichSizing>)
    ensures pool.ReservesFor(tokenIn).None? || victimAmountIn == 0 ==> sizing.None?
    ensures pool.ReservesFor(tokenIn).Some? ==>
      var (rIn, rOut) := pool.ReservesFor(tokenIn).value;
      var target := SandwichTarget(rIn, rOut, pool.feeBps, victimAmountIn, victimMinOut);
      && (rIn == 0 || rOut == 0 ==> sizing.None?)
      && (rIn > 0 && rOut > 0 && victimAmountIn > 0 ==>
            exists best: nat :: SearchEndsAt(target.Curve(), 0, Min(maxIn, rIn), best) && best <= Min(maxIn, rIn)
              && (sizing.None? <==> target.ProfitOf(best) == 0)
              && (sizing.Some? ==> sizing.value.amountIn == best))
      && (sizing.Some? ==> sizing.value.amountIn <= Min(maxIn, rIn) && SizingIsSound(target, sizing.value))
      && (rIn > 0 && rOut > 0 && victimAmountIn > 0 ==>
            NearlyOptimal(target.Curve(), RoundingCost(target), Min(maxIn, rIn), Earned(sizing))
            && (WorthFinding(target.Curve(), RoundingCost(target), Min(maxIn, rIn)) ==> sizing.Some?))
      && (NoOverpayment(target) || FirstUnitBreaksLimit(target) || StrictVictimIsSafe(target, Min(maxIn, rIn)) ==>
            sizing.None?)
  {
    hide V2AmountOut, SizingIsSound, SearchEndsAt, RoundingCost, NearlyOptimal, WorthFinding;
    hide NoOverpayment, FirstUnitBreaksLimit, StrictVictimIsSafe, SandwichTarget.ProfitOf;
    sizing := None;
    if pool.ReservesFor(tokenIn).None? {
      return;
    }
    var (rIn, rOut) := pool.ReservesFor(tokenIn).value;
    if rIn == 0 || rOut == 0 || victimAmountIn == 0 {
      return;
    }
    var fee := pool.feeBps;
    var hi := Min(maxIn, rIn);
    var target := SandwichTarget(rIn, rOut, fee, victimAmountIn, victimMinOut);
    var bestX, bestProfit, passes, scanned := TernarySearchMax(0, hi, target.Curve());
    SandwichIsNearlyOptimal(target, hi, bestX);
    if WorthFinding(target.Curve(), RoundingCost(target), hi) {
      FindsWhatIsWorthFinding(target.Curve(), RoundingCost(target), hi, bestProfit);
    }
    RefusedWhereSafe(target, hi, bestX);
    NothingSpentNothingEarned(target);
    if bestProfit == 0 || bestX == 0 {
      return;
    }
    PositiveProfit(target, bestX);
    var frontOut := V2AmountOut(bestX, rIn, rOut, fee);
    var rIn2, rOut2 := rIn + bestX, rOut - frontOut;
    var victimOut := V2AmountOut(victimAmountIn, rIn2, rOut2, fee);
    var rIn3, rOut3 := rIn2 + victimAmountIn, rOut2 - victimOut;
    var backOut := V2AmountOut(frontOut, rOut3, rIn3, fee);
    sizing := Some(SandwichSizing(bestX, frontOut, backOut, bestProfit, victimOut));
  }

  lemma NothingSpentNothingEarned(t: SandwichTarget)
    ensures t.ProfitOf(0) == 0
  {}

  function Earned(s: Option<SandwichSizing>): nat {
    if s.None? then 0 else s.value.grossProfit
  }

  // ---------------------------------------------------------------------
  // Two-leg arbitrage
  // ---------------------------------------------------------------------

  /** The two pools of a cycle, each seen in the direction it is traded. */
  datatype Cycle = Cycle(arIn: nat, arOut: nat, aFee: FeeBps, brIn: nat, brOut: nat, bFee: FeeBps) {

    function ProfitOf(x: nat): nat {
      var mid := V2AmountOut(x, arIn, arOut, aFee);
      if mid == 0 then 0
      else MonusNat(V2AmountOut(mid, brIn, brOut, bFee), x)
    }

    function Curve(): nat -> nat {
      x => ProfitOf(x)
    }

    /** One unit, and the marginal price of a unit of the middle token after the second fee. */
    function RoundingCost(): real
      requires brIn > 0
    {
      1.0 + Kept(bFee) * brOut as real / brIn as real
    }

    function Hops(): Routes.Route {
      [Some(Routes.Hop(arIn, arOut, aFee)), Some(Routes.Hop(brIn, brOut, bFee))]
    }

    /** The marginal price after both fees is worth more than one unit. */
    predicate PriceGap() {
      arOut * brOut * ((10_000 - aFee) * (10_000 - bFee)) > arIn * brIn * 100_000_000
    }
  }

  /** The cycle the two snapshots form around `tokenIn`, if they form one at all. */
  function CycleOf(a: V2Pool, b: V2Pool, tokenIn: Address): Option<Cycle> {
    var tokenMid :- a.OtherToken(tokenIn);
    var home :- b.OtherToken(tokenMid);
    if home != tokenIn then None
    else
      var (arIn, arOut) :- a.ReservesFor(tokenIn);
      var (brIn, brOut) :- b.ReservesFor(tokenMid);
      if arIn == 0 || arOut == 0 || brIn == 0 || brOut == 0 then None
      else Some(Cycle(arIn, arOut, a.feeBps, brIn, brOut, b.feeBps))
  }

  /** The two pools trade the same two tokens, in either order. */
  predicate SameTokens(a: V2Pool, b: V2Pool) {
    (a.token0 == b.token0 && a.token1 == b.token1) || (a.token0 == b.token1 && a.token1 == b.token0)
  }

  /** Exactly which snapshots form a cycle around a token, and what it is: out of that
      token on the first pool, and back into it on the second. */
  lemma CycleOfIs(a: V2Pool, b: V2Pool, tokenIn: Address)
    requires a.token0 != a.token1 && b.token0 != b.token1
    ensures CycleOf(a, b, tokenIn).Some? <==>
              SameTokens(a, b) && (tokenIn == a.token0 || tokenIn == a.token1)
              && a.reserve0 > 0 && a.reserve1 > 0 && b.reserve0 > 0 && b.reserve1 > 0
    ensures CycleOf(a, b, tokenIn).Some? ==>
              var c := CycleOf(a, b, tokenIn).value;
              && c.aFee == a.feeBps && c.bFee == b.feeBps
              && (tokenIn == a.token0 ==> c.arIn == a.reserve0 && c.arOut == a.reserve1)
              && (tokenIn == a.token1 ==> c.arIn == a.reserve1 && c.arOut == a.reserve0)
              && (tokenIn == b.token0 ==> c.brOut == b.reserve0 && c.brIn == b.reserve1)
              && (tokenIn == b.token1 ==> c.brOut == b.reserve1 && c.brIn == b.reserve0)
  {}

  /** The same pool with its two tokens listed the other way round. */
  function Relabelled(p: V2Pool): V2Pool {
    V2Pool(p.token1, p.token0, p.reserve1, p.reserve0, p.feeBps)
  }

  /** How the two tokens of either pool are listed makes no difference. */
  lemma RelabellingIsInvisible(a: V2Pool, b: V2Pool, tokenIn: Address)
    requires a.token0 != a.token1 && b.token0 != b.token1
    ensures CycleOf(Relabelled(a), b, tokenIn) == CycleOf(a, b, tokenIn) == CycleOf(a, Relabelled(b), tokenIn)
    ensures forall x: nat :: TwoQuotes(Relabelled(a), b, tokenIn, x) == TwoQuotes(a, b, tokenIn, x)
    ensures forall x: nat :: TwoQuotes(a, Relabelled(b), tokenIn, x) == TwoQuotes(a, b, tokenIn, x)
  {
    hide V2AmountOut;
  }

  method OptimalTwoLegArb(a: V2Pool, b: V2Pool, tokenIn: Address, maxIn: nat) returns (r: Option<(nat, nat)>)
    ensures CycleOf(a, b, tokenIn).None? ==> r.None?
    ensures CycleOf(a, b, tokenIn).Some? ==>
      var c := CycleOf(a, b, tokenIn).value;
      var hi := Min(maxIn, c.arIn);
      && (exists best: nat :: SearchEndsAt(c.Curve(), 0, hi, best)
            && r == if c.ProfitOf(best) == 0 then None else Some((best, c.ProfitOf(best))))
      && (r.Some? ==> var (x, p) := r.value;
            0 < x <= hi && p > 0 && c.PriceGap()
            && TwoQuotes(a, b, tokenIn, x) == Some(x + p))
      && c.brIn > 0 && NearlyOptimal(c.Curve(), c.RoundingCost(), hi, if r.Some? then r.value.1 else 0)
      && (WorthFinding(c.Curve(), c.RoundingCost(), hi) ==> r.Some?)
      && NothingMuchBetter(a, b, tokenIn, hi, c.RoundingCost(), if r.Some? then r.value.1 else 0)
  {
    hide *;
    if CycleOf(a, b, tokenIn).None? {
      return None;
    }
    var c := CycleOf(a, b, tokenIn).value;
    var hi := Min(maxIn, c.arIn);
    var x, p, passes, scanned := TernarySearchMax(0, hi, c.Curve());
    SearchedSize(a, b, tokenIn, hi, x, p);
    if p == 0 || x == 0 {
      r := None;
    } else {
      r := Some((x, p));
    }
  }

  /** What the size the search ends at is good for. */
  lemma SearchedSize(a: V2Pool, b: V2Pool, tokenIn: Address, hi: nat, x: nat, p: nat)
    requires CycleOf(a, b, tokenIn).Some?
    requires var c := CycleOf(a, b, tokenIn).value; SearchEndsAt(c.Curve(), 0, hi, x) && p == c.Curve()(x)
    ensures var c := CycleOf(a, b, tokenIn).value;
            && p == c.ProfitOf(x) && (x == 0 ==> p == 0)
            && (p > 0 ==> c.PriceGap() && TwoQuotes(a, b, tokenIn, x) == Some(x + p))
            && c.brIn > 0 && NearlyOptimal(c.Curve(), c.RoundingCost(), hi, p)
            && (WorthFinding(c.Curve(), c.RoundingCost(), hi) ==> p > 0)
            && NothingMuchBetter(a, b, tokenIn, hi, c.RoundingCost(), p)
  {
    hide V2AmountOut, Cycle.PriceGap, Cycle.RoundingCost, TwoQuotes;
    hide SearchEndsAt, NearlyOptimal, WorthFinding, NothingMuchBetter;
    var c := CycleOf(a, b, tokenIn).value;
    NoInputNoProfit(c);
    CycleIsNearlyOptimal(c, hi, x);
    if WorthFinding(c.Curve(), c.RoundingCost(), hi) {
      FindsWhatIsWorthFinding(c.Curve(), c.RoundingCost(), hi, p);
    }
    ReplaysBoundedBy(a, b, tokenIn, hi, p);
    CycleReplays(a, b, tokenIn, x);
    if p > 0 {
      ProfitNeedsPriceGap(c, x);
    }
  }

  /** A cycle is a route of two hops. */
  lemma CycleIsRoute(c: Cycle)
    requires c.arIn > 0 && c.brIn > 0
    ensures Routes.Live(c.Hops()) && Routes.Slack(c.Hops()) == c.RoundingCost()
    ensures forall x: nat :: c.ProfitOf(x) == Routes.ProfitOf(c.Hops(), x)
  {
    var second := c.Hops()[1..];
    assert second == [c.Hops()[1]] && second[1..] == [];
    forall x: nat ensures c.ProfitOf(x) == Routes.ProfitOf(c.Hops(), x) {
      var mid := V2AmountOut(x, c.arIn, c.arOut, c.aFee);
      hide V2AmountOut;
      assert Routes.Output(c.Hops(), x) == if mid == 0 then Some(0) else Routes.Output(second, mid);
      var back := V2AmountOut(mid, c.brIn, c.brOut, c.bFee);
      assert Routes.Output(second, mid) == if back == 0 then Some(0) else Routes.Output([], back);
    }
    SlackOfOne(second);
    MarginalOfOne(second, c.brIn, c.brOut, c.bFee);
  }

  /** The price gap of the cycle is that of its two hops. */
  lemma SamePriceGap(c: Cycle)
    ensures c.PriceGap() <==> Routes.PriceGap(c.Hops())
  {
    var hops := c.Hops();
    var second := hops[1..];
    assert second == [hops[1]] && second[1..] == [];
    hide *;
    RatesUnfold(hops, c.arIn, c.arOut, 10_000 - c.aFee, second, c.brIn, c.brOut, 10_000 - c.bFee);
    GapIs(c, hops);
  }

  lemma GapIs(c: Cycle, hops: Routes.Route)
    requires hops == c.Hops()
    requires Routes.InRates(hops) == c.arIn * c.brIn * 100_000_000
    requires Routes.OutRates(hops) == c.arOut * c.brOut * ((10_000 - c.aFee) * (10_000 - c.bFee))
    ensures c.PriceGap() <==> Routes.PriceGap(hops)
  {
    hide Routes.InRates, Routes.OutRates;
  }

  lemma RatesUnfold(hops: Routes.Route, aIn: nat, aOut: nat, ga: nat,
                    second: Routes.Route, bIn: nat, bOut: nat, gb: nat)
    requires |hops| == 2 && hops[0].Some? && hops[1].Some?
    requires second == hops[1..] && |second| == 1 && second[1..] == []
    requires second[0] == hops[1]
    requires hops[0].value.rIn == aIn && hops[0].value.rOut == aOut && 10_000 - hops[0].value.fee == ga
    requires hops[1].value.rIn == bIn && hops[1].value.rOut == bOut && 10_000 - hops[1].value.fee == gb
    ensures Routes.InRates(hops) == aIn * bIn * 100_000_000
    ensures Routes.OutRates(hops) == aOut * bOut * (ga * gb)
  {
    assert Routes.InRates(second) == bIn * 10_000 && Routes.OutRates(second) == gb * bOut;
    var i, o := Routes.InRates(second), Routes.OutRates(second);
    assert Routes.InRates(hops) == aIn * 10_000 * i && Routes.OutRates(hops) == ga * aOut * o;
    hide *;
    assert aIn * 10_000 * (bIn * 10_000) == aIn * bIn * 100_000_000;
    assert ga * aOut * (gb * bOut) == aOut * bOut * (ga * gb);
  }

  lemma SlackOfOne(route: Routes.Route)
    requires Routes.Live(route) && |route| == 1
    ensures Routes.Slack(route) == 1.0
  {}

  lemma MarginalOfOne(route: Routes.Route, rIn: nat, rOut: nat, fee: FeeBps)
    requires rIn > 0 && Routes.Live(route) && route == [Some(Routes.Hop(rIn, rOut, fee))]
    ensures Routes.Unrounded(route).Marginal() == Kept(fee) * rOut as real / rIn as real
  {
    assert route[1..] == [];
    assert Routes.Unrounded([]) == Price(1.0, 1.0, 0.0);
    var p := Routes.Unrounded(route);
    assert p == UnroundedQuote(rIn, rOut, fee).Then(Price(1.0, 1.0, 0.0));
    assert p.gain == Kept(fee) * rOut as real && p.base == rIn as real;
  }

  lemma CycleIsNearlyOptimal(c: Cycle, hi: nat, best: nat)
    requires c.arIn > 0 && c.brIn > 0 && SearchEndsAt(c.Curve(), 0, hi, best)
    ensures NearlyOptimal(c.Curve(), c.RoundingCost(), hi, c.ProfitOf(best))
  {
    CycleIsRoute(c);
    Routes.GainIdealizes(c.Hops(), c.Curve(), hi);
    SearchIsNearlyOptimal(Routes.Gain(c.Hops()), c.Curve(), c.RoundingCost(), hi, best);
    hide NearlyOptimal, Cycle.RoundingCost, Cycle.ProfitOf;
    assert c.Curve()(best) == c.ProfitOf(best);
  }

  lemma NoInputNoProfit(c: Cycle)
    ensures c.ProfitOf(0) == 0
  {}

  /** What the two snapshots quote one after the other. */
  function TwoQuotes(a: V2Pool, b: V2Pool, tokenIn: Address, x: nat): Option<nat> {
    var tokenMid :- a.OtherToken(tokenIn);
    var (_, mid) :- a.WithSwap(tokenIn, x);
    var (_, back) :- b.WithSwap(tokenMid, mid);
    Some(back)
  }

  lemma CycleReplays(a: V2Pool, b: V2Pool, tokenIn: Address, x: nat)
    requires CycleOf(a, b, tokenIn).Some?
    ensures TwoQuotes(a, b, tokenIn, x).Some?
    ensures CycleOf(a, b, tokenIn).value.ProfitOf(x) == MonusNat(TwoQuotes(a, b, tokenIn, x).value, x)
  {
    hide V2AmountOut;
    NothingQuotedForNothing(CycleOf(a, b, tokenIn).value);
  }

  lemma NothingQuotedForNothing(c: Cycle)
    ensures V2AmountOut(0, c.brIn, c.brOut, c.bFee) == 0
  {}

  /** No size that the cap and the reserve allow returns more over the two snapshots
      than itself, what was earned, and the rounding of the search. */
  ghost predicate NothingMuchBetter(a: V2Pool, b: V2Pool, tokenIn: Address, hi: nat, e: real, earned: nat) {
    forall k: nat, x: nat :: k < 256 && hi <= Reach(k) && x <= hi ==>
      TwoQuotes(a, b, tokenIn, x).Some?
      && TwoQuotes(a, b, tokenIn, x).value as real <= x as real + earned as real + Loss(e, k) + e
  }

  lemma ReplaysBoundedBy(a: V2Pool, b: V2Pool, tokenIn: Address, hi: nat, earned: nat)
    requires CycleOf(a, b, tokenIn).Some?
    requires var c := CycleOf(a, b, tokenIn).value;
             c.brIn > 0 && NearlyOptimal(c.Curve(), c.RoundingCost(), hi, earned)
    ensures NothingMuchBetter(a, b, tokenIn, hi, CycleOf(a, b, tokenIn).value.RoundingCost(), earned)
  {
    var c := CycleOf(a, b, tokenIn).value;
    var e := c.RoundingCost();
    forall k: nat, x: nat | k < 256 && hi <= Reach(k) && x <= hi
      ensures TwoQuotes(a, b, tokenIn, x).Some?
              && TwoQuotes(a, b, tokenIn, x).value as real <= x as real + earned as real + Loss(e, k) + e
    {
      CycleReplays(a, b, tokenIn, x);
      assert c.Curve()(x) == c.ProfitOf(x);
      hide TwoQuotes, CycleOf, Cycle.ProfitOf, Cycle.RoundingCost, Loss, Reach;
    }
  }

  /** No size at all is profitable unless the two marginal prices, after both
      fees, multiply to more than one. */
  lemma ProfitNeedsPriceGap(c: Cycle, x: nat)
    requires c.arIn > 0 && c.arOut > 0 && c.brIn > 0 && c.brOut > 0
    requires c.ProfitOf(x) > 0
    ensures c.PriceGap()
  {
    var mid := V2AmountOut(x, c.arIn, c.arOut, c.aFee);
    var back := V2AmountOut(mid, c.brIn, c.brOut, c.bFee);
    QuoteBelowMarginalPrice(x, c.arIn, c.arOut, c.aFee);
    QuoteBelowMarginalPrice(mid, c.brIn, c.brOut, c.bFee);
    CrossRates(x, mid, back, c.arIn, c.arOut, 10_000 - c.aFee, c.brIn, c.brOut, 10_000 - c.bFee);
  }

  lemma CrossRates(x: nat, mid: nat, back: nat, aIn: nat, aOut: nat, ga: nat, bIn: nat, bOut: nat, gb: nat)
    requires back > x && aIn > 0
    requires aIn * (10_000 * mid) < x * ga * aOut
    requires bIn * (10_000 * back) < mid * gb * bOut
    ensures aOut * bOut * (ga * gb) > aIn * bIn * 100_000_000
  {
    var p: nat, q: nat, u: nat, v: nat := gb * bOut, ga * aOut, bIn * 10_000, aIn * 10_000;
    assert mid * gb * bOut == mid * p && x * ga * aOut == x * q by {
      Associate(mid, gb, bOut);
      Associate(x, ga, aOut);
    }
    assert x * u < mid * p by {
      MulLe(x, back, u);
      assert bIn * (10_000 * back) == back * u;
    }
    assert v * mid < x * q by {
      assert aIn * (10_000 * mid) == v * mid;
    }
    RatesMultiply(x, mid, u, v, p, q);
    assert u * v == aIn * bIn * 100_000_000;
    assert q * p == aOut * bOut * (ga * gb);
  }

  lemma RatesMultiply(x: nat, mid: nat, u: nat, v: nat, p: nat, q: nat)
    requires v > 0 && x * u < mid * p && v * mid < x * q
    ensures u * v < q * p
  {}

  // ---------------------------------------------------------------------
  // What the floors do to a small curve
  // ---------------------------------------------------------------------

  /** A profit curve need not have a single peak. */
  lemma TwoPeaks()
    ensures var c := Cycle(3, 5, 30, 2, 9, 30); c.ProfitOf(1) == 1 && c.ProfitOf(2) == 0 && c.ProfitOf(3) == 1
  {
    assert V2AmountOut(1, 3, 5, 30) == 1 && V2AmountOut(2, 3, 5, 30) == 1 && V2AmountOut(3, 3, 5, 30) == 2;
    assert V2AmountOut(1, 2, 9, 30) == 2 && V2AmountOut(2, 2, 9, 30) == 4;
  }

  /** And the search can miss a profit no larger than its rounding: on these two pools
      size 5 earns a unit, and the optimiser declines. */
  lemma ProfitableCycleDeclined(maxIn: nat)
    requires maxIn >= 8
    ensures var a, b := V2Pool(0, 1, 8, 3, 30), V2Pool(0, 1, 19, 2, 30);
            CycleOf(a, b, 0).Some?
            && var c := CycleOf(a, b, 0).value;
            && c == Cycle(8, 3, 30, 2, 19, 30) && Min(maxIn, c.arIn) == 8
            && c.ProfitOf(5) == 1 && forall best: nat :: SearchEndsAt(c.Curve(), 0, 8, best) ==> c.ProfitOf(best) == 0
  {
    var c := Cycle(8, 3, 30, 2, 19, 30);
    MissedProfit();
    hide Cycle.ProfitOf;
    forall best: nat | SearchEndsAt(c.Curve(), 0, 8, best) ensures c.ProfitOf(best) == 0 {
      SearchOfNinePoints(c.Curve(), best);
    }
  }

  lemma MissedProfit()
    ensures var c := Cycle(8, 3, 30, 2, 19, 30);
            && c.ProfitOf(0) == 0 && c.ProfitOf(1) == 0 && c.ProfitOf(2) == 0 && c.ProfitOf(3) == 0
            && c.ProfitOf(4) == 0 && c.ProfitOf(5) == 1 && c.ProfitOf(6) == 0
  {
    NothingBoughtBelowFive();
    OneBoughtFromFive();
    hide V2AmountOut;
  }

  lemma OneBoughtFromFive()
    ensures V2AmountOut(5, 8, 3, 30) == 1 && V2AmountOut(6, 8, 3, 30) == 1 && V2AmountOut(1, 2, 19, 30) == 6
  {}

  /** The same cycle as a route: the graph's optimiser declines it too. */
  lemma ProfitableRouteDeclined(best: nat)
    requires SearchEndsAt(Routes.Curve(Cycle(8, 3, 30, 2, 19, 30).Hops()), 0, 8, best)
    ensures var hops := Cycle(8, 3, 30, 2, 19, 30).Hops();
            Routes.ProfitOf(hops, best) == 0 && Routes.ProfitOf(hops, 5) == 1
  {
    var c := Cycle(8, 3, 30, 2, 19, 30);
    MissedProfit();
    CycleIsRoute(c);
    var f, hops := Routes.Curve(c.Hops()), c.Hops();
    assert forall x: nat :: f(x) == Routes.ProfitOf(hops, x) == c.ProfitOf(x);
    hide *;
    SearchOfNinePoints(f, best);
  }

  lemma NothingBoughtBelowFive()
    ensures V2AmountOut(0, 8, 3, 30) == 0 && V2AmountOut(1, 8, 3, 30) == 0 && V2AmountOut(2, 8, 3, 30) == 0
    ensures V2AmountOut(3, 8, 3, 30) == 0 && V2AmountOut(4, 8, 3, 30) == 0
  {}

  lemma SearchOfNinePoints(f: nat -> nat, best: nat)
    requires SearchEndsAt(f, 0, 8, best)
    ensures f(0) == 0 && f(1) == 0 && f(2) == 0 && f(3) == 0 && f(4) == 0 && f(6) == 0 ==> f(best) == 0
  {
    if f(0) == 0 && f(1) == 0 && f(2) == 0 && f(3) == 0 && f(4) == 0 && f(6) == 0 {
      var n :| EndsAfter(f, 0, 8, n, best);
      assert After(f, 0, 8, 0) == (0, 8);
      assert After(f, 0, 8, 1) == (0, 6);
      assert After(f, 0, 8, 2) == (0, 4);
      assert After(f, 0, 8, 3) == (0, 3);
      assert After(f, 0, 8, 4) == (0, 2);
      assert !Wide(After(f, 0, 8, 4));
      assert n == 4;
    }
  }

  /** So with a sandwich: size 3, the whole reserve, earns a unit that is not found. */
  lemma ProfitableSandwichDeclined()
    ensures var t := SandwichTarget(3, 5, 30, 4, 0);
            t.ProfitOf(3) == 1 && forall best: nat :: SearchEndsAt(t.Curve(), 0, 3, best) ==> t.ProfitOf(best) == 0
  {
    var t := SandwichTarget(3, 5, 30, 4, 0);
    SmallSandwich();
    forall best: nat | SearchEndsAt(t.Curve(), 0, 3, best) ensures t.ProfitOf(best) == 0 {
      hide SandwichTarget.ProfitOf;
      SearchOfFourPoints(t.Curve(), best);
    }
  }

  lemma SmallSandwich()
    ensures var t := SandwichTarget(3, 5, 30, 4, 0);
            t.ProfitOf(0) == 0 && t.ProfitOf(1) == 0 && t.ProfitOf(2) == 0 && t.ProfitOf(3) == 1
  {
    SmallFronts();
    hide V2AmountOut;
  }

  lemma SmallFronts()
    ensures V2AmountOut(1, 3, 5, 30) == 1 && V2AmountOut(2, 3, 5, 30) == 1 && V2AmountOut(3, 3, 5, 30) == 2
    ensures V2AmountOut(4, 4, 4, 30) == 1 && V2AmountOut(4, 5, 4, 30) == 1 && V2AmountOut(4, 6, 3, 30) == 1
    ensures V2AmountOut(1, 3, 8, 30) == 1 && V2AmountOut(1, 3, 9, 30) == 2 && V2AmountOut(2, 2, 10, 30) == 4
  {}

  lemma SearchOfFourPoints(f: nat -> nat, best: nat)
    requires SearchEndsAt(f, 0, 3, best)
    ensures f(0) == 0 && f(1) == 0 && f(2) == 0 ==> f(best) == 0
  {
    if f(0) == 0 && f(1) == 0 && f(2) == 0 {
      var n :| EndsAfter(f, 0, 3, n, best);
      assert After(f, 0, 3, 0) == (0, 3);
      assert After(f, 0, 3, 1) == (0, 2);
      assert !Wide(After(f, 0, 3, 1));
      assert n == 1;
    }
  }
}
