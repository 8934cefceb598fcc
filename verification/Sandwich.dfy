/** A sandwich on a V2 pool: its profit curve and what a sizing of it is worth. */
module Sandwich {
  import opened Arithmetic
  import opened Options
  import opened Pools
  import opened Pricing
  import opened TernarySearch

  datatype SandwichSizing = SandwichSizing(
    amountIn: nat, frontOut: nat, backOut: nat, grossProfit: nat, victimOut: nat)

  /** What the pool and the victim fix before the front-run is sized. */
  datatype SandwichTarget = SandwichTarget(rIn: nat, rOut: nat, fee: FeeBps, victimIn: nat, victimMinOut: nat) {

    /** Profit of spending `x` in front of the victim; zero when a leg fails. */
    function ProfitOf(x: nat): nat {
      if x == 0 then 0
      else
        var out1 := V2AmountOut(x, rIn, rOut, fee);
        if out1 == 0 || out1 >= rOut then 0
        else
          var (rIn2, rOut2) := (rIn + x, rOut - out1);
          var victimOut := V2AmountOut(victimIn, rIn2, rOut2, fee);
          if victimOut == 0 || victimOut >= rOut2 then 0
          else if victimMinOut != 0 && victimOut < victimMinOut then 0
          else
            var (rIn3, rOut3) := (rIn2 + victimIn, rOut2 - victimOut);
            MonusNat(V2AmountOut(out1, rOut3, rIn3, fee), x)
    }

    function Curve(): nat -> nat {
      x => ProfitOf(x)
    }
  }

  /** What a returned sizing promises, in terms of the reserves. */
  ghost predicate SizingIsSound(t: SandwichTarget, s: SandwichSizing) {
    && 0 < s.amountIn
    && 0 < s.frontOut < t.rOut && 0 < s.victimOut < t.rOut - s.frontOut
    && s.frontOut == V2AmountOut(s.amountIn, t.rIn, t.rOut, t.fee)
    && s.victimOut == V2AmountOut(t.victimIn, t.rIn + s.amountIn, t.rOut - s.frontOut, t.fee)
    && s.backOut == V2AmountOut(s.frontOut, t.rOut - s.frontOut - s.victimOut, t.rIn + s.amountIn + t.victimIn, t.fee)
    && s.grossProfit > 0 && s.backOut == s.amountIn + s.grossProfit
    && t.victimMinOut <= s.victimOut <= V2AmountOut(t.victimIn, t.rIn, t.rOut, t.fee)
    && s.grossProfit < t.victimIn
    && (t.rIn + t.victimIn - s.grossProfit) * (t.rOut - s.victimOut) >= t.rIn * t.rOut
  }

  /** Wherever the curve is positive, the three legs make a sound sizing. */
  lemma PositiveProfit(t: SandwichTarget, x: nat)
    requires t.rIn > 0 && t.rOut > 0
    ensures t.ProfitOf(x) > 0 ==>
      var out1 := V2AmountOut(x, t.rIn, t.rOut, t.fee);
      out1 < t.rOut
      && var victimOut := V2AmountOut(t.victimIn, t.rIn + x, t.rOut - out1, t.fee);
      victimOut < t.rOut - out1
      && var back := V2AmountOut(out1, t.rOut - out1 - victimOut, t.rIn + x + t.victimIn, t.fee);
      SizingIsSound(t, SandwichSizing(x, out1, back, t.ProfitOf(x), victimOut))
  {
    hide V2AmountOut;
    if t.ProfitOf(x) > 0 {
      var out1 := V2AmountOut(x, t.rIn, t.rOut, t.fee);
      var rIn2: nat, rOut2: nat := t.rIn + x, t.rOut - out1;
      var victimOut := V2AmountOut(t.victimIn, rIn2, rOut2, t.fee);
      var rIn3: nat, rOut3: nat := rIn2 + t.victimIn, rOut2 - victimOut;
      V2Monotone(t.victimIn, t.rIn, t.rOut, t.victimIn, rIn2, rOut2, t.fee);
      V2SwapKeepsProduct(x, t.rIn, t.rOut, t.fee);
      V2SwapKeepsProduct(t.victimIn, rIn2, rOut2, t.fee);
      V2SwapKeepsProduct(out1, rOut3, rIn3, t.fee);
      VictimPaysForTheProfit(t.rIn, t.rOut, t.victimIn, t.ProfitOf(x), victimOut, rOut3 + out1);
    }
  }

  /** The pool ends with all of the profit missing and the victim's output gone. */
  lemma VictimPaysForTheProfit(rIn: nat, rOut: nat, v: nat, p: nat, victimOut: nat, left: nat)
    requires rIn > 0 && 0 < victimOut && left + victimOut == rOut && left > 0
    requires left * (rIn + v - p) >= rIn * rOut
    ensures p < v && (rIn + v - p) * (rOut - victimOut) >= rIn * rOut
  {
    var kept := rIn + v - p;
    if kept <= rIn {
      MulLeLeft(left, kept, rIn);
      MulLtLeft(rIn, left, rOut);
    }
  }

  /** A sound sizing replays leg by leg on the pool snapshot: front-run, victim
      and back-run are three `with_swap` steps with exactly these outputs, and
      the pool they leave behind has lost the gross profit and the victim's output. */
  lemma SizingReplays(pool: V2Pool, tokenIn: Address, t: SandwichTarget, s: SandwichSizing)
    requires pool.token0 != pool.token1 && pool.ReservesFor(tokenIn) == Some((t.rIn, t.rOut)) && t.fee == pool.feeBps
    ensures SizingIsSound(t, s) ==>
      var tokenOut := pool.OtherToken(tokenIn).value;
      var front := pool.WithSwap(tokenIn, s.amountIn).value;
      var victim := front.0.WithSwap(tokenIn, t.victimIn).value;
      var back := victim.0.WithSwap(tokenOut, s.frontOut).value;
      && front.1 == s.frontOut && victim.1 == s.victimOut && back.1 == s.backOut
      && back.1 - s.amountIn == s.grossProfit
      && back.0.ReservesFor(tokenIn) == Some((t.rIn + t.victimIn - s.grossProfit, t.rOut - s.victimOut))
      && s.victimOut <= pool.AmountOut(tokenIn, t.victimIn).value
  {
    if SizingIsSound(t, s) {
      V2SwapKeepsProduct(s.frontOut, t.rOut - s.frontOut - s.victimOut, t.rIn + s.amountIn + t.victimIn, t.fee);
      hide V2AmountOut, V2Pool.WithSwap, V2Pool.ReservesFor, V2Pool.OtherToken;
      SwapStep(pool, tokenIn, s.amountIn);
      var front := pool.WithSwap(tokenIn, s.amountIn).value.0;
      SwapStep(front, tokenIn, t.victimIn);
      var victim := front.WithSwap(tokenIn, t.victimIn).value.0;
      SwapStep(victim, pool.OtherToken(tokenIn).value, s.frontOut);
      SwapStep(pool, tokenIn, t.victimIn);
    }
  }

  /** One `with_swap` between two different tokens, seen from both sides. */
  lemma SwapStep(p: V2Pool, tokenIn: Address, x: nat)
    requires p.token0 != p.token1 && p.ReservesFor(tokenIn).Some?
    ensures p.OtherToken(tokenIn).Some? && p.WithSwap(tokenIn, x).Some?
    ensures var (rIn, rOut) := p.ReservesFor(tokenIn).value;
            var tokenOut := p.OtherToken(tokenIn).value;
            var (q, out) := p.WithSwap(tokenIn, x).value;
            && out == V2AmountOut(x, rIn, rOut, p.feeBps) && p.AmountOut(tokenIn, x) == Some(out)
            && q.token0 == p.token0 && q.token1 == p.token1 && q.feeBps == p.feeBps
            && q.ReservesFor(tokenIn) == Some((rIn + x, MonusNat(rOut, out)))
            && q.ReservesFor(tokenOut) == Some((MonusNat(rOut, out), rIn + x))
            && q.OtherToken(tokenIn) == Some(tokenOut) && q.OtherToken(tokenOut) == Some(tokenIn)
  {
    hide V2AmountOut;
  }

  /** The profit of any size is what three `with_swap` steps return beyond it, if the
      front leg buys something and the victim gets something within its limit, and
      nothing otherwise. */
  lemma ProfitIsReplayed(pool: V2Pool, tokenIn: Address, t: SandwichTarget, x: nat)
    requires pool.token0 != pool.token1 && pool.ReservesFor(tokenIn) == Some((t.rIn, t.rOut)) && t.fee == pool.feeBps
    ensures pool.WithSwap(tokenIn, x).Some? && pool.OtherToken(tokenIn).Some?
    ensures var front := pool.WithSwap(tokenIn, x).value;
            front.0.WithSwap(tokenIn, t.victimIn).Some?
            && var victim := front.0.WithSwap(tokenIn, t.victimIn).value;
            victim.0.WithSwap(pool.OtherToken(tokenIn).value, front.1).Some?
            && var back := victim.0.WithSwap(pool.OtherToken(tokenIn).value, front.1).value;
            t.ProfitOf(x) ==
              if 0 < x < back.1 && 0 < front.1 && 0 < victim.1 && t.victimMinOut <= victim.1 then back.1 - x else 0
  {
    SwapStep(pool, tokenIn, x);
    var front := pool.WithSwap(tokenIn, x).value;
    SwapStep(front.0, tokenIn, t.victimIn);
    var victim := front.0.WithSwap(tokenIn, t.victimIn).value;
    SwapStep(victim.0, pool.OtherToken(tokenIn).value, front.1);
    V2SwapKeepsProduct(x, t.rIn, t.rOut, t.fee);
    V2SwapKeepsProduct(t.victimIn, t.rIn + x, t.rOut - front.1, t.fee);
    hide V2AmountOut, V2Pool.WithSwap, V2Pool.ReservesFor, V2Pool.OtherToken, V2Pool.AmountOut;
  }

  /** A victim whose limit is its unsandwiched output is never made worse off. */
  lemma StrictVictimLosesNothing(t: SandwichTarget, s: SandwichSizing)
    requires t.victimMinOut == V2AmountOut(t.victimIn, t.rIn, t.rOut, t.fee)
    ensures SizingIsSound(t, s) ==> s.victimOut == V2AmountOut(t.victimIn, t.rIn, t.rOut, t.fee)
  {}

  /** But it can still be sandwiched: where one unit of output is coarse, the
      victim's own rounding pays for the trade. */
  lemma StrictVictimCanBeSandwiched()
    ensures V2AmountOut(12, 20, 10, 30) == 3
    ensures var t := SandwichTarget(20, 10, 30, 12, 3);
            forall best: nat :: SearchEndsAt(t.Curve(), 0, 4, best) ==> best == 3 && t.ProfitOf(best) == 1
  {
    CoarsePool();
    hide V2AmountOut;
    var t := SandwichTarget(20, 10, 30, 12, 3);
    forall best: nat | SearchEndsAt(t.Curve(), 0, 4, best) ensures best == 3 && t.ProfitOf(best) == 1 {
      SearchOfFivePoints(t.Curve(), best);
    }
  }

  lemma SearchOfFivePoints(f: nat -> nat, best: nat)
    requires SearchEndsAt(f, 0, 4, best)
    ensures f(1) == 0 && f(2) == 0 && f(3) == 1 && f(4) == 0 ==> best == 3
  {
    if f(1) == 0 && f(2) == 0 && f(3) == 1 && f(4) == 0 {
      var n :| EndsAfter(f, 0, 4, n, best);
      assert After(f, 0, 4, 0) == (0, 4);
      assert After(f, 0, 4, 1) == (2, 4);
      assert !Wide(After(f, 0, 4, 1));
      assert n == 1;
    }
  }

  lemma CoarsePool()
    ensures V2AmountOut(12, 20, 10, 30) == 3
    ensures var t := SandwichTarget(20, 10, 30, 12, 3);
            t.ProfitOf(1) == 0 && t.ProfitOf(2) == 0 && t.ProfitOf(3) == 1 && t.ProfitOf(4) == 0
  {
    assert V2AmountOut(1, 20, 10, 30) == 0 && V2AmountOut(2, 20, 10, 30) == 0;
    assert V2AmountOut(3, 20, 10, 30) == 1 && V2AmountOut(4, 20, 10, 30) == 1;
    assert V2AmountOut(12, 23, 9, 30) == 3 && V2AmountOut(12, 24, 9, 30) == 2;
    assert V2AmountOut(1, 6, 35, 30) == 4;
  }

  // ---------------------------------------------------------------------
  // When nothing can be taken from a victim
  // ---------------------------------------------------------------------

  /** Even at its limit the victim overpays by less than one unit. */
  predicate NoOverpayment(t: SandwichTarget) {
    (t.rIn + t.victimIn - 1) * (t.rOut - t.victimMinOut) < t.rIn * t.rOut
  }

  lemma NoOverpaymentNoProfit(t: SandwichTarget, x: nat)
    requires t.rIn > 0 && t.rOut > 0 && NoOverpayment(t)
    ensures t.ProfitOf(x) == 0
  {
    PositiveProfit(t, x);
    hide V2AmountOut, SandwichTarget.ProfitOf;
    if t.ProfitOf(x) > 0 {
      var out1 := V2AmountOut(x, t.rIn, t.rOut, t.fee);
      var out2 := V2AmountOut(t.victimIn, t.rIn + x, t.rOut - out1, t.fee);
      var p: nat := t.ProfitOf(x);
      MulLe(t.rIn + t.victimIn - p, t.rIn + t.victimIn - 1, t.rOut - out2);
      MulLeLeft(t.rIn + t.victimIn - 1, t.rOut - out2, t.rOut - t.victimMinOut);
    }
  }

  /** Behind the smallest front leg that can buy anything the victim misses its limit. */
  predicate FirstUnitBreaksLimit(t: SandwichTarget) {
    t.rOut > 1 && t.fee < 10_000
    && t.victimMinOut > V2AmountOut(t.victimIn, t.rIn + V2AmountIn(1, t.rIn, t.rOut, t.fee) - 1, t.rOut - 1, t.fee)
  }

  lemma FirstUnitNoProfit(t: SandwichTarget, x: nat)
    requires t.rIn > 0 && t.rOut > 0 && FirstUnitBreaksLimit(t)
    ensures t.ProfitOf(x) == 0
  {
    hide V2AmountOut, V2AmountIn;
    var i := V2AmountIn(1, t.rIn, t.rOut, t.fee);
    var out1 := V2AmountOut(x, t.rIn, t.rOut, t.fee);
    V2AmountInIsTight(1, t.rIn, t.rOut, t.fee, x);
    V2AmountInBrackets(1, t.rIn, t.rOut, t.fee);
    V2SwapKeepsProduct(x, t.rIn, t.rOut, t.fee);
    if out1 > 0 {
      V2Monotone(t.victimIn, t.rIn + i - 1, t.rOut - 1, t.victimIn, t.rIn + x, t.rOut - out1, t.fee);
    }
  }

  // ---------------------------------------------------------------------
  // Only the cheapest way to buy each amount matters
  // ---------------------------------------------------------------------

  /** Paying more for the same front output only lowers the profit. */
  lemma CheaperFrontEarnsMore(t: SandwichTarget, x: nat, y: nat)
    requires t.rIn > 0 && t.rOut > 0 && 0 < x <= y
    requires V2AmountOut(x, t.rIn, t.rOut, t.fee) == V2AmountOut(y, t.rIn, t.rOut, t.fee)
    ensures t.ProfitOf(x) >= t.ProfitOf(y)
  {
    hide V2AmountOut;
    var o := V2AmountOut(x, t.rIn, t.rOut, t.fee);
    if t.ProfitOf(y) > 0 {
      var left: nat := t.rOut - o;
      V2Monotone(t.victimIn, t.rIn + x, left, t.victimIn, t.rIn + y, left, t.fee);
      V2SwapKeepsProduct(t.victimIn, t.rIn + x, left, t.fee);
      var wx, wy := V2AmountOut(t.victimIn, t.rIn + x, left, t.fee), V2AmountOut(t.victimIn, t.rIn + y, left, t.fee);
      V2Monotone(o, left - wx, t.rIn + y + t.victimIn, o, left - wy, t.rIn + y + t.victimIn, t.fee);
      ShallowerByD(o, left - wx, t.rIn + y + t.victimIn, t.fee, y - x);
    }
  }

  /** Taking `d` units off the output side costs a quote at most `d`. */
  lemma ShallowerByD(x: nat, rIn: nat, rOut: nat, fee: FeeBps, d: nat)
    requires d <= rOut && rIn > 0
    ensures V2AmountOut(x, rIn, rOut, fee) <= V2AmountOut(x, rIn, rOut - d, fee) + d
  {
    hide V2AmountOut;
    var o := V2AmountOut(x, rIn, rOut, fee);
    if o > d {
      V2QuoteIsLargestAccepted(x, rIn, rOut, fee, o);
      MulLeLeft(rIn * 10_000, rOut - d, rOut);
      V2QuoteIsLargestAccepted(x, rIn, rOut - d, fee, o - d);
    }
  }

  /** Some size up to `hi` that is one of the two candidates for buying `k` units earns something. */
  ghost predicate TrialPays(t: SandwichTarget, hi: nat, k: nat) {
    0 < k < t.rOut
    && var i := V2AmountIn(k, t.rIn, t.rOut, t.fee);
    (i <= hi && t.ProfitOf(i) > 0) || (0 < i <= hi + 1 && t.ProfitOf(i - 1) > 0)
  }

  /** Whatever a size earns, a trial of its front output earns too. */
  lemma TrialsAreEnough(t: SandwichTarget, hi: nat, x: nat)
    requires t.rIn > 0 && t.rOut > 0 && t.fee < 10_000 && x <= hi && t.ProfitOf(x) > 0
    ensures TrialPays(t, hi, V2AmountOut(x, t.rIn, t.rOut, t.fee))
  {
    hide V2AmountOut, V2AmountIn;
    var k := V2AmountOut(x, t.rIn, t.rOut, t.fee);
    PositiveProfit(t, x);
    var i := V2AmountIn(k, t.rIn, t.rOut, t.fee);
    V2AmountInIsTight(k, t.rIn, t.rOut, t.fee, x);
    V2AmountInBrackets(k, t.rIn, t.rOut, t.fee);
    if x >= i {
      V2AmountInIsTight(k, t.rIn, t.rOut, t.fee, i);
      V2Monotone(x, t.rIn, t.rOut, i, t.rIn, t.rOut, t.fee);
      CheaperFrontEarnsMore(t, i, x);
    }
  }

  // ---------------------------------------------------------------------
  // A victim without slippage
  // ---------------------------------------------------------------------

  /** The front leg in front of a victim that demands its unsandwiched output buys
      less than `1 + rIn / (victimIn * (1 - fee))` units. */
  lemma StrictVictimLeavesDust(t: SandwichTarget, x: nat)
    requires t.rIn > 0 && t.rOut > 0 && t.victimMinOut >= V2AmountOut(t.victimIn, t.rIn, t.rOut, t.fee)
    requires t.ProfitOf(x) > 0
    ensures WithinDust(t, V2AmountOut(x, t.rIn, t.rOut, t.fee))
  {
    hide *;
    var k, u := V2AmountOut(x, t.rIn, t.rOut, t.fee), V2AmountOut(t.victimIn, t.rIn, t.rOut, t.fee);
    VictimServed(t, x);
    var vg: nat, w := t.victimIn * (10_000 - t.fee), V2AmountOut(t.victimIn, t.rIn + x, t.rOut - k, t.fee);
    V2SwapKeepsProduct(t.victimIn, t.rIn, t.rOut, t.fee);
    QuotedPrice(t.victimIn, t.rIn + x, t.rOut - k, t.fee, w, vg);
    QuotedPrice(t.victimIn, t.rIn, t.rOut, t.fee, u + 1, vg);
    RoundingPaysFor(vg, t.rIn, x, t.rOut, k, u, w);
    DustIs(t, k, vg);
  }

  /** Behind a profitable front leg the victim gets something within its limit. */
  lemma VictimServed(t: SandwichTarget, x: nat)
    requires t.ProfitOf(x) > 0
    ensures var k := V2AmountOut(x, t.rIn, t.rOut, t.fee);
            0 < k < t.rOut && t.victimMinOut <= V2AmountOut(t.victimIn, t.rIn + x, t.rOut - k, t.fee) < t.rOut - k
  {
    hide V2AmountOut;
  }

  lemma DustIs(t: SandwichTarget, k: nat, vg: nat)
    requires vg == t.victimIn * (10_000 - t.fee) && (k - 1) * vg < t.rIn * 10_000
    ensures WithinDust(t, k)
  {}

  /** A quote as the largest output whose price the net input covers. */
  lemma QuotedPrice(x: nat, rIn: nat, rOut: nat, fee: FeeBps, o: nat, xg: nat)
    requires rIn > 0 && xg == x * (10_000 - fee)
    ensures o <= V2AmountOut(x, rIn, rOut, fee) <==> o <= rOut && xg * (rOut - o) >= rIn * (10_000 * o)
  {
    V2QuoteIsLargestAccepted(x, rIn, rOut, fee, o);
    KCheckAsPrice(x, o, rIn, rOut, fee);
    hide V2AmountOut, KCheck;
  }

  /** What the limit allows at the new price, less what it just missed at the old one. */
  lemma RoundingPaysFor(vg: nat, rIn: nat, x: nat, rOut: nat, k: nat, u: nat, w: nat)
    requires u <= w && k + w <= rOut
    requires vg * (rOut - k - w) >= (rIn + x) * (10_000 * w)
    requires vg * (rOut - (u + 1)) < rIn * (10_000 * (u + 1))
    ensures (k - 1) * vg < rIn * 10_000
  {
    MulLeLeft(vg, rOut - k - w, rOut - k - u);
    MulLe(rIn, rIn + x, 10_000 * w);
    MulLeLeft(rIn, 10_000 * u, 10_000 * w);
    assert vg * (rOut - (u + 1)) - vg * (rOut - k - u) == (k - 1) * vg;
  }

  predicate WithinDust(t: SandwichTarget, k: nat) {
    (k - 1) * (t.victimIn * (10_000 - t.fee)) < t.rIn * 10_000
  }

  /** The victim demands its unsandwiched output, and no trial that buys dust pays. */
  ghost predicate StrictVictimIsSafe(t: SandwichTarget, hi: nat) {
    t.fee < 10_000 && t.victimMinOut >= V2AmountOut(t.victimIn, t.rIn, t.rOut, t.fee)
    && forall k: nat :: WithinDust(t, k) ==> !TrialPays(t, hi, k)
  }

  /** So such a victim is safe at every size exactly if the few trials that buy
      dust all fail; if its input after fee covers the reserve, that is one unit. */
  lemma StrictVictimIsSafeIff(t: SandwichTarget, hi: nat)
    requires t.rIn > 0 && t.rOut > 0 && t.fee < 10_000
    requires t.victimMinOut >= V2AmountOut(t.victimIn, t.rIn, t.rOut, t.fee)
    ensures (forall x: nat :: x <= hi ==> t.ProfitOf(x) == 0) <==> StrictVictimIsSafe(t, hi)
  {
    hide V2AmountOut, V2AmountIn, SandwichTarget.ProfitOf, WithinDust;
    forall x: nat | x <= hi && t.ProfitOf(x) > 0
      ensures var k := V2AmountOut(x, t.rIn, t.rOut, t.fee); WithinDust(t, k) && TrialPays(t, hi, k)
    {
      TrialsAreEnough(t, hi, x);
      StrictVictimLeavesDust(t, x);
    }
  }

  lemma RefusedWhereSafe(t: SandwichTarget, hi: nat, x: nat)
    requires t.rIn > 0 && t.rOut > 0 && x <= hi
    ensures NoOverpayment(t) || FirstUnitBreaksLimit(t) || StrictVictimIsSafe(t, hi) ==> t.ProfitOf(x) == 0
  {
    hide NoOverpayment, FirstUnitBreaksLimit;
    if NoOverpayment(t) {
      NoOverpaymentNoProfit(t, x);
    } else if FirstUnitBreaksLimit(t) {
      FirstUnitNoProfit(t, x);
    } else if StrictVictimIsSafe(t, hi) {
      StrictVictimIsSafeIff(t, hi);
    }
  }
}
