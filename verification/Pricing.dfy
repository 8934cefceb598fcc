/** Exact-in and exact-out pricing of `dex.rs`, in unbounded naturals. */
module Pricing {
  import opened Arithmetic

  /** A fee in basis points; more than 100% underflows `10_000 - fee_bps` in the source. */
  type FeeBps = f: nat | f <= 10_000

  /** What `v2_amount_in` returns when no input buys the output. */
  const U256_MAX: nat := 0xffff_ffff_ffff_ffff_ffff_ffff_ffff_ffff_ffff_ffff_ffff_ffff_ffff_ffff_ffff_ffff

  function V2AmountOut(amountIn: nat, reserveIn: nat, reserveOut: nat, fee: FeeBps): nat {
    if amountIn == 0 || reserveIn == 0 || reserveOut == 0 then 0
    else
      var amountInWithFee: nat := amountIn * (10_000 - fee);
      var numerator: nat := amountInWithFee * reserveOut;
      var denominator: nat := reserveIn * 10_000 + amountInWithFee;
      if denominator == 0 then 0 else numerator / denominator
  }

  function V2AmountIn(amountOut: nat, reserveIn: nat, reserveOut: nat, fee: FeeBps): nat {
    if amountOut == 0 || amountOut >= reserveOut then U256_MAX
    else
      var numerator: nat := reserveIn * amountOut * 10_000;
      var denominator: nat := (reserveOut - amountOut) * (10_000 - fee);
      if denominator == 0 then U256_MAX else numerator / denominator + 1
  }

  /** What is left of `amountIn` once Aerodrome has taken its floored fee. */
  function AfterFee(amountIn: nat, fee: FeeBps): nat {
    MonusNat(amountIn, amountIn * fee / 10_000)
  }

  function AeroVolatileAmountOut(amountIn: nat, reserveIn: nat, reserveOut: nat, fee: FeeBps): nat {
    if amountIn == 0 || reserveIn == 0 || reserveOut == 0 then 0
    else
      var xin := AfterFee(amountIn, fee);
      if xin == 0 then 0
      else
        var denominator: nat := reserveIn + xin;
        if denominator == 0 then 0 else xin * reserveOut / denominator
  }

  // ---------------------------------------------------------------------
  // The constant-product check as an independent reference
  // ---------------------------------------------------------------------

  /** The check a pair makes before it pays `o`: with the fee taken from the
      input, the product of the reserves must not shrink. All scaled by 10_000. */
  ghost predicate KCheck(amountIn: nat, o: nat, reserveIn: nat, reserveOut: nat, fee: FeeBps) {
    o <= reserveOut
    && (reserveIn * 10_000 + amountIn * (10_000 - fee)) * (reserveOut - o) >= reserveIn * 10_000 * reserveOut
  }

  /** The V2 quote is the largest output that passes the pair's own check. An
      empty input side would let everything pass; the source quotes zero there. */
  lemma V2QuoteIsLargestAccepted(x: nat, rIn: nat, rOut: nat, fee: FeeBps, o: nat)
    ensures o <= V2AmountOut(x, rIn, rOut, fee) <==> KCheck(x, o, rIn, rOut, fee) && (rIn == 0 ==> o == 0)
  {
    if rIn > 0 {
      QuoteIsQuotient(x, rIn, rOut, fee);
      QuotientIff(x * (10_000 - fee), rIn * 10_000, rOut, o);
      hide V2AmountOut;
    }
  }

  lemma QuoteIsQuotient(x: nat, rIn: nat, rOut: nat, fee: FeeBps)
    requires rIn > 0
    ensures V2AmountOut(x, rIn, rOut, fee) == x * (10_000 - fee) * rOut / (rIn * 10_000 + x * (10_000 - fee))
  {
    if x == 0 || rOut == 0 {
      var n: nat, d: nat := x * (10_000 - fee) * rOut, rIn * 10_000 + x * (10_000 - fee);
      assert n == 0;
      ZeroOver(n, d);
    }
  }

  lemma ZeroOver(n: nat, d: nat)
    requires n == 0 && d > 0
    ensures n / d == 0
  {}

  /** The algebra shared by both venues: `floor(a*rOut / (base + a))` is the
      largest `o` for which `(base + a) * (rOut - o)` still covers `base * rOut`. */
  lemma QuotientIff(a: nat, base: nat, rOut: nat, o: nat)
    requires base > 0
    ensures o <= a * rOut / (base + a) <==> o <= rOut && (base + a) * (rOut - o) >= base * rOut
  {
    var d := base + a;
    FloorDivision(a * rOut, d, o);
    assert d * rOut == base * rOut + a * rOut;
    if o <= rOut {
      assert d * (rOut - o) == d * rOut - o * d;
    } else {
      MulLt(rOut, o, d);
    }
  }

  lemma AeroQuoteIsLargestAccepted(x: nat, rIn: nat, rOut: nat, fee: FeeBps, o: nat)
    ensures o <= AeroVolatileAmountOut(x, rIn, rOut, fee)
      <==> o <= rOut && (rIn + AfterFee(x, fee)) * (rOut - o) >= rIn * rOut && (rIn == 0 ==> o == 0)
  {
    if rIn > 0 {
      AeroQuoteIsQuotient(x, rIn, rOut, fee);
      QuotientIff(AfterFee(x, fee), rIn, rOut, o);
      hide AeroVolatileAmountOut, AfterFee;
    }
  }

  lemma AeroQuoteIsQuotient(x: nat, rIn: nat, rOut: nat, fee: FeeBps)
    requires rIn > 0
    ensures AeroVolatileAmountOut(x, rIn, rOut, fee) == AfterFee(x, fee) * rOut / (rIn + AfterFee(x, fee))
  {}

  /** The floored fee charges at most the exact fee, and less than one unit below it. */
  lemma AfterFeeBounds(x: nat, fee: FeeBps)
    ensures AfterFee(x, fee) <= x
    ensures x * (10_000 - fee) <= AfterFee(x, fee) * 10_000 < x * (10_000 - fee) + 10_000
  {}

  // ---------------------------------------------------------------------
  // One swap
  // ---------------------------------------------------------------------

  /** A quote never drains the pool and never shrinks the product of its
      reserves, whatever the input, the fee and the (possibly empty) reserves. */
  lemma V2SwapKeepsProduct(x: nat, rIn: nat, rOut: nat, fee: FeeBps)
    ensures var o := V2AmountOut(x, rIn, rOut, fee);
            o <= rOut && (rOut > 0 ==> o < rOut) && (rIn + x) * (rOut - o) >= rIn * rOut
  {
    var o := V2AmountOut(x, rIn, rOut, fee);
    if rIn > 0 && rOut > 0 {
      V2QuoteIsLargestAccepted(x, rIn, rOut, fee, o);
      V2QuoteIsLargestAccepted(x, rIn, rOut, fee, rOut);
      assert rIn * 10_000 * rOut > 0 by { MulLt(0, rIn * 10_000, rOut); }
      MulLe(10_000 - fee, 10_000, x);
      MulLe(rIn * 10_000 + x * (10_000 - fee), (rIn + x) * 10_000, rOut - o);
      CancelLe(rIn * rOut, (rIn + x) * (rOut - o), 10_000);
    }
  }

  lemma AeroSwapKeepsProduct(x: nat, rIn: nat, rOut: nat, fee: FeeBps)
    ensures var o := AeroVolatileAmountOut(x, rIn, rOut, fee);
            o <= rOut && (rOut > 0 ==> o < rOut) && (rIn + x) * (rOut - o) >= rIn * rOut
  {
    var o := AeroVolatileAmountOut(x, rIn, rOut, fee);
    if rIn > 0 && rOut > 0 {
      AeroQuoteIsLargestAccepted(x, rIn, rOut, fee, o);
      AeroQuoteIsLargestAccepted(x, rIn, rOut, fee, rOut);
      assert rIn * rOut > 0 by { MulLt(0, rIn, rOut); }
      AfterFeeBounds(x, fee);
      MulLe(rIn + AfterFee(x, fee), rIn + x, rOut - o);
    }
  }

  /** A worse pool never quotes more: less input, deeper input reserve or a
      shallower output reserve can only lower the quote. Only filling an empty input
      side raises it, from zero. */
  lemma V2Monotone(x: nat, rIn: nat, rOut: nat, x': nat, rIn': nat, rOut': nat, fee: FeeBps)
    requires x' <= x && rIn <= rIn' && rOut' <= rOut && (rIn == 0 ==> rIn' == 0)
    ensures V2AmountOut(x', rIn', rOut', fee) <= V2AmountOut(x, rIn, rOut, fee)
  {
    hide V2AmountOut, KCheck;
    var o := V2AmountOut(x', rIn', rOut', fee);
    if o > 0 {
      V2QuoteIsLargestAccepted(x', rIn', rOut', fee, o);
      V2QuoteIsLargestAccepted(x, rIn, rOut, fee, o);
      KCheckAsPrice(x', o, rIn', rOut', fee);
      KCheckAsPrice(x, o, rIn, rOut, fee);
      var g := 10_000 - fee;
      MulLe(x', x, g);
      MulLe(x' * g, x * g, rOut' - o);
      MulLe(rOut' - o, rOut - o, x * g);
      MulLe(rIn, rIn', 10_000 * o);
    }
  }

  /** The same check, read as a price: the net input covers the marginal cost of `o`. */
  lemma KCheckAsPrice(x: nat, o: nat, rIn: nat, rOut: nat, fee: FeeBps)
    ensures KCheck(x, o, rIn, rOut, fee)
      <==> o <= rOut && x * (10_000 - fee) * (rOut - o) >= rIn * (10_000 * o)
  {}

  /** A positive quote pays strictly less than the marginal price before the trade. */
  lemma QuoteBelowMarginalPrice(x: nat, rIn: nat, rOut: nat, fee: FeeBps)
    requires V2AmountOut(x, rIn, rOut, fee) > 0
    ensures rIn * (10_000 * V2AmountOut(x, rIn, rOut, fee)) < x * (10_000 - fee) * rOut
  {}

  // ---------------------------------------------------------------------
  // Exact-out pricing inverts exact-in pricing
  // ---------------------------------------------------------------------

  /** Paying the quoted input buys the output exactly when the pool has an
      input reserve and does not take the whole input as its fee. */
  lemma V2AmountInBuysOutput(o: nat, rIn: nat, rOut: nat, fee: FeeBps)
    requires 0 < o < rOut
    ensures V2AmountOut(V2AmountIn(o, rIn, rOut, fee), rIn, rOut, fee) >= o <==> rIn > 0 && fee < 10_000
  {
    var i := V2AmountIn(o, rIn, rOut, fee);
    if rIn > 0 && fee < 10_000 {
      V2AmountInIsTight(o, rIn, rOut, fee, i);
    } else {
      DustPoolQuotesZero(i, rIn, rOut, fee);
    }
  }

  /** The quoted input is at most one unit above the smallest input that buys
      `o`: one unit less buys it only if it pays the exact price to the unit. */
  lemma V2AmountInIsTight(o: nat, rIn: nat, rOut: nat, fee: FeeBps, x: nat)
    requires 0 < o < rOut && rIn > 0 && fee < 10_000
    ensures var i := V2AmountIn(o, rIn, rOut, fee);
            && (x + 2 <= i ==> V2AmountOut(x, rIn, rOut, fee) < o)
            && (x + 1 == i ==> (V2AmountOut(x, rIn, rOut, fee) >= o <==>
                                 x * ((rOut - o) * (10_000 - fee)) == rIn * o * 10_000))
            && (x >= i ==> V2AmountOut(x, rIn, rOut, fee) >= o)
  {
    hide V2AmountOut, V2AmountIn;
    V2QuoteIsLargestAccepted(x, rIn, rOut, fee, o);
    KCheckAsPrice(x, o, rIn, rOut, fee);
    PriceOfInput(x, o, rIn, rOut, fee);
    V2AmountInBrackets(o, rIn, rOut, fee);
    var i, unit := V2AmountIn(o, rIn, rOut, fee), (rOut - o) * (10_000 - fee);
    hide KCheck;
    MulLt(0, rOut - o, 10_000 - fee);
    if x >= i {
      MulLe(i, x, unit);
    } else if x + 1 == i {
      assert x * unit <= rIn * o * 10_000;
    } else {
      MulLt(x, i - 1, unit);
    }
  }

  /** The exact price of `o` lies in the last unit of the quoted input. */
  lemma V2AmountInBrackets(o: nat, rIn: nat, rOut: nat, fee: FeeBps)
    requires 0 < o < rOut && fee < 10_000
    ensures var i, unit := V2AmountIn(o, rIn, rOut, fee), (rOut - o) * (10_000 - fee);
            0 < i && (i - 1) * unit <= rIn * o * 10_000 < i * unit
  {
    var cost: nat, unit: nat := rIn * o * 10_000, (rOut - o) * (10_000 - fee);
    MulLt(0, rOut - o, 10_000 - fee);
    FloorDivision(cost, unit, cost / unit);
    FloorDivision(cost, unit, cost / unit + 1);
  }

  lemma PriceOfInput(x: nat, o: nat, rIn: nat, rOut: nat, fee: FeeBps)
    requires o <= rOut
    ensures x * (10_000 - fee) * (rOut - o) == x * ((rOut - o) * (10_000 - fee))
    ensures rIn * (10_000 * o) == rIn * o * 10_000
  {}

  /** A pool with no input side, with at most one unit to pay out, or whose fee
      takes everything quotes nothing. */
  lemma DustPoolQuotesZero(x: nat, rIn: nat, rOut: nat, fee: FeeBps)
    requires rIn == 0 || rOut <= 1 || fee == 10_000
    ensures V2AmountOut(x, rIn, rOut, fee) == 0
  {}

  /** Outside the pool's range the sentinel is honest except at zero: no input
      at all buys `o >= rOut > 0`, while an output of zero costs nothing. */
  lemma V2AmountInSentinel(o: nat, rIn: nat, rOut: nat, fee: FeeBps, x: nat)
    requires o == 0 || o >= rOut
    ensures V2AmountIn(o, rIn, rOut, fee) == U256_MAX
    ensures V2AmountOut(x, rIn, rOut, fee) >= o <==> o == 0
  {
    V2SwapKeepsProduct(x, rIn, rOut, fee);
  }

  // ---------------------------------------------------------------------
  // Splitting an order
  // ---------------------------------------------------------------------

  /** Selling `x1` and then `x2` never pays more than selling `x1 + x2` at once,
      with every floor included, on a pool that has an input reserve. */
  lemma SplittingNeverGains(x1: nat, x2: nat, rIn: nat, rOut: nat, fee: FeeBps)
    requires rIn > 0
    ensures !SplitGains(x1, x2, rIn, rOut, fee)
  {
    V2SwapKeepsProduct(x1, rIn, rOut, fee);
    var o1 := V2AmountOut(x1, rIn, rOut, fee);
    V2SwapKeepsProduct(x2, rIn + x1, rOut - o1, fee);
    var o2 := V2AmountOut(x2, rIn + x1, rOut - o1, fee);
    if rOut > 0 {
      V2QuoteIsLargestAccepted(x1, rIn, rOut, fee, o1);
      V2QuoteIsLargestAccepted(x2, rIn + x1, rOut - o1, fee, o2);
      KChecksCompose(x1, o1, x2, o2, rIn, rOut, fee);
      V2QuoteIsLargestAccepted(x1 + x2, rIn, rOut, fee, o1 + o2);
    }
  }

  /** Two parts in a row beat the whole order. */
  ghost predicate SplitGains(x1: nat, x2: nat, rIn: nat, rOut: nat, fee: FeeBps) {
    var o1 := V2AmountOut(x1, rIn, rOut, fee);
    o1 + V2AmountOut(x2, rIn + x1, MonusNat(rOut, o1), fee) > V2AmountOut(x1 + x2, rIn, rOut, fee)
  }

  lemma KChecksCompose(x1: nat, o1: nat, x2: nat, o2: nat, rIn: nat, rOut: nat, fee: FeeBps)
    requires rIn > 0 && KCheck(x1, o1, rIn, rOut, fee)
    requires KCheck(x2, o2, rIn + x1, rOut - o1, fee)
    ensures KCheck(x1 + x2, o1 + o2, rIn, rOut, fee)
  {
    var g: nat := 10_000 - fee;
    var a: nat, n1: nat, n2: nat := rIn * 10_000, x1 * g, x2 * g;
    var e: nat := (rIn + x1) * 10_000;
    assert a + n1 <= e by { MulLe(g, 10_000, x1); }
    ChainedChecks(a, a + n1, e, n2, rOut, rOut - o1, rOut - o1 - o2);
    assert (x1 + x2) * g == n1 + n2;
  }

  /** Two product checks in a row imply the check of the combined trade, since
      the second one starts from a base `e` that kept the first trade's fee. */
  lemma ChainedChecks(a: nat, b: nat, e: nat, f: nat, r0: nat, r1: nat, r2: nat)
    requires 0 < e && b <= e
    requires b * r1 >= a * r0
    requires (e + f) * r2 >= e * r1
    ensures (b + f) * r2 >= a * r0
  {}

  /** Exactly the pools on which no split of any order gains. An empty input
      side quotes zero for the first part, and prices the second from it. */
  lemma SplittingGainsOnlyOnEmptyInputSide(rIn: nat, rOut: nat, fee: FeeBps)
    ensures (forall x1: nat, x2: nat :: !SplitGains(x1, x2, rIn, rOut, fee))
            <==> rIn > 0 || rOut <= 1 || fee == 10_000
  {
    if rIn > 0 {
      forall x1: nat, x2: nat ensures !SplitGains(x1, x2, rIn, rOut, fee) {
        SplittingNeverGains(x1, x2, rIn, rOut, fee);
      }
    } else if rOut <= 1 || fee == 10_000 {
      forall x1: nat, x2: nat ensures !SplitGains(x1, x2, rIn, rOut, fee) {
        DustPoolQuotesZero(x2, x1, rOut, fee);
      }
    } else {
      SplitOfEmptyPool(rOut, fee);
      assert SplitGains(1, 10_000, rIn, rOut, fee);
    }
  }

  /** One unit paid into an empty input side, then 10_000 units priced against it. */
  lemma SplitOfEmptyPool(rOut: nat, fee: FeeBps)
    requires rOut > 1 && fee < 10_000
    ensures V2AmountOut(10_000, 1, rOut, fee) > 0
  {
    V2QuoteIsLargestAccepted(10_000, 1, rOut, fee, 1);
    KCheckAsPrice(10_000, 1, 1, rOut, fee);
    MulLe(1, rOut - 1, 10_000 * (10_000 - fee));
  }

  // ---------------------------------------------------------------------
  // Splitting an Aerodrome order
  // ---------------------------------------------------------------------

  /** Two parts in a row beat the whole order; a part quoted zero is refused. */
  ghost predicate AeroSplitGains(x1: nat, x2: nat, rIn: nat, rOut: nat, fee: FeeBps) {
    var o1 := AeroVolatileAmountOut(x1, rIn, rOut, fee);
    o1 > 0
    && o1 + AeroVolatileAmountOut(x2, rIn + x1, MonusNat(rOut, o1), fee)
         > AeroVolatileAmountOut(x1 + x2, rIn, rOut, fee)
  }

  /** Flooring the fee of each part saves at most one unit against the whole order. */
  lemma PartsSaveAtMostOne(x1: nat, x2: nat, fee: FeeBps)
    ensures AfterFee(x1, fee) + AfterFee(x2, fee) <= AfterFee(x1 + x2, fee) + 1
  {}

  /** The parts together pass the check of the net input they add up to. */
  lemma AeroPartsPassTogether(x1: nat, x2: nat, rIn: nat, rOut: nat, fee: FeeBps)
    requires rIn > 0
    ensures var o1 := AeroVolatileAmountOut(x1, rIn, rOut, fee);
            o1 <= rOut
            && var o := o1 + AeroVolatileAmountOut(x2, rIn + x1, rOut - o1, fee);
            o <= rOut && (rIn + AfterFee(x1, fee) + AfterFee(x2, fee)) * (rOut - o) >= rIn * rOut
  {
    hide AeroVolatileAmountOut, AfterFee;
    AeroSwapKeepsProduct(x1, rIn, rOut, fee);
    var o1 := AeroVolatileAmountOut(x1, rIn, rOut, fee);
    AeroSwapKeepsProduct(x2, rIn + x1, rOut - o1, fee);
    var o2 := AeroVolatileAmountOut(x2, rIn + x1, rOut - o1, fee);
    AeroQuoteIsLargestAccepted(x1, rIn, rOut, fee, o1);
    AeroQuoteIsLargestAccepted(x2, rIn + x1, rOut - o1, fee, o2);
    AfterFeeBounds(x1, fee);
    ChainedChecks(rIn, rIn + AfterFee(x1, fee), rIn + x1, AfterFee(x2, fee), rOut, rOut - o1, rOut - o1 - o2);
  }

  /** A split gains only where the floors save it a unit, and then less than the
      marginal price of that unit, and one. */
  lemma AeroSplitGainIsBounded(x1: nat, x2: nat, rIn: nat, rOut: nat, fee: FeeBps)
    requires AeroSplitGains(x1, x2, rIn, rOut, fee)
    ensures AfterFee(x1, fee) + AfterFee(x2, fee) == AfterFee(x1 + x2, fee) + 1
    ensures var o1 := AeroVolatileAmountOut(x1, rIn, rOut, fee);
            o1 <= rOut
            && var o := o1 + AeroVolatileAmountOut(x2, rIn + x1, rOut - o1, fee);
            (o - AeroVolatileAmountOut(x1 + x2, rIn, rOut, fee) - 1) * rIn < rOut
  {
    assert rIn > 0;
    hide AeroVolatileAmountOut, AfterFee;
    AeroPartsPassTogether(x1, x2, rIn, rOut, fee);
    PartsSaveAtMostOne(x1, x2, fee);
    var o1, w := AeroVolatileAmountOut(x1, rIn, rOut, fee), AeroVolatileAmountOut(x1 + x2, rIn, rOut, fee);
    var o := o1 + AeroVolatileAmountOut(x2, rIn + x1, rOut - o1, fee);
    var parts, whole := AfterFee(x1, fee) + AfterFee(x2, fee), AfterFee(x1 + x2, fee);
    AeroQuoteIsLargestAccepted(x1 + x2, rIn, rOut, fee, w + 1);
    hide *;
    OneUnitMore(rIn, rOut, whole, parts, o, w);
  }

  lemma OneUnitMore(rIn: nat, rOut: nat, net: nat, parts: nat, o: nat, w: nat)
    requires rIn > 0 && w < o <= rOut && (rIn + parts) * (rOut - o) >= rIn * rOut && parts <= net + 1
    requires (rIn + net) * (rOut - (w + 1)) < rIn * rOut
    ensures parts == net + 1 && (o - w - 1) * rIn < rOut
  {
    UnitsMore(rIn, rOut, net, parts, o, w);
  }

  /** Output `o` for a net input of `parts` against `w` for `net`. */
  lemma UnitsMore(rIn: nat, rOut: nat, net: nat, parts: nat, o: nat, w: nat)
    requires rIn > 0 && w < o <= rOut && (rIn + parts) * (rOut - o) >= rIn * rOut
    requires (rIn + net) * (rOut - (w + 1)) < rIn * rOut
    ensures parts > net && (o - w - 1) * rIn < (parts - net) * rOut
  {
    var m: nat, gap: nat, left: nat := rIn + net, o - w - 1, rOut - o;
    var saved := parts - net;
    assert rOut - (w + 1) == left + gap;
    var mLeft, mGap, sLeft, sOut, gIn := m * left, m * gap, saved * left, saved * rOut, gap * rIn;
    assert (m + saved) * left == mLeft + sLeft && m * (left + gap) == mLeft + mGap;
    assert mGap < sLeft;
    MulLeTo(0, m, gap, 0, mGap);
    if saved <= 0 {
      MulLe(saved, 0, left);
    }
    MulLeTo(rIn, m, gap, gIn, mGap);
    MulLeTo(left, rOut, saved, sLeft, sOut);
  }

  /** And wherever a unit is saved, some pool turns it into a gain: one deep enough for
      the price not to move, at eight units out for one in. */
  lemma AeroSplitPaysOnADeepPool(x1: nat, x2: nat, fee: FeeBps)
    requires AfterFee(x1, fee) + AfterFee(x2, fee) > AfterFee(x1 + x2, fee)
    ensures var r := DeepReserve(x1 + x2); AeroSplitGains(x1, x2, r, 8 * r, fee)
  {
    var r, a1, a2, whole := DeepReserve(x1 + x2), AfterFee(x1, fee), AfterFee(x2, fee), AfterFee(x1 + x2, fee);
    AfterFeeBounds(x1, fee);
    AfterFeeBounds(x2, fee);
    AfterFeeGrows(x2, x1 + x2, fee);
    hide *;
    var sum, o1 := a1 + x1 + a2, AeroVolatileAmountOut(x1, r, 8 * r, fee);
    DeepEnough(x1 + x2, a1, a2, sum, r);
    EightOut(x1, r, fee);
    EightOut(x1 + x2, r, fee);
    StillEightOut(x1, x2, a1, sum, r, 8 * r - o1, fee);
    GainsIs(x1, x2, r, 8 * r, fee);
  }

  lemma GainsIs(x1: nat, x2: nat, rIn: nat, rOut: nat, fee: FeeBps)
    requires AeroVolatileAmountOut(x1, rIn, rOut, fee) <= rOut
    ensures var o1 := AeroVolatileAmountOut(x1, rIn, rOut, fee);
            AeroSplitGains(x1, x2, rIn, rOut, fee) <==>
              o1 > 0
              && o1 + AeroVolatileAmountOut(x2, rIn + x1, rOut - o1, fee)
                   > AeroVolatileAmountOut(x1 + x2, rIn, rOut, fee)
  {
    hide AeroVolatileAmountOut;
  }

  /** At eight for one, a net input of `a` buys at most `8 * a`, and at least one unit less. */
  lemma EightOut(x: nat, r: nat, fee: FeeBps)
    requires r > 0
    ensures var a, o := AfterFee(x, fee), AeroVolatileAmountOut(x, r, 8 * r, fee);
            o <= 8 * r && o <= 8 * a && (8 * (a * a) <= r && 0 < a <= r ==> o >= 8 * a - 1)
  {
    var a := AfterFee(x, fee);
    hide AfterFee, AeroVolatileAmountOut;
    AeroSwapKeepsProduct(x, r, 8 * r, fee);
    AeroQuoteIsLargestAccepted(x, r, 8 * r, fee, 8 * a + 1);
    EightForOne(a, r);
    if 0 < a <= r {
      AeroQuoteIsLargestAccepted(x, r, 8 * r, fee, 8 * a - 1);
    }
  }

  /** And the second part, on the pool the first one left, still at least one unit less. */
  lemma StillEightOut(x1: nat, x2: nat, a1: nat, sum: nat, r: nat, left: nat, fee: FeeBps)
    requires sum == a1 + x1 + AfterFee(x2, fee) && 8 * (AfterFee(x2, fee) * sum) <= r && 8 * r - 8 * a1 <= left
    ensures AeroVolatileAmountOut(x2, r + x1, left, fee) >= 8 * AfterFee(x2, fee) - 1
  {
    var a2 := AfterFee(x2, fee);
    hide AfterFee, AeroVolatileAmountOut;
    if a2 > 0 {
      AeroQuoteIsLargestAccepted(x2, r + x1, left, fee, 8 * a2 - 1);
      StillNearlyEight(a1, a2, x1, sum, r, left);
      MulLe(0, a2, sum);
    }
  }

  function DeepReserve(order: nat): nat {
    16 * (order * order)
  }

  lemma AfterFeeGrows(x: nat, y: nat, fee: FeeBps)
    requires x <= y
    ensures AfterFee(x, fee) <= AfterFee(y, fee)
  {
    AfterFeeBounds(x, fee);
    AfterFeeBounds(y, fee);
    MulLe(x, y, 10_000 - fee);
    hide AfterFee;
  }

  lemma DeepEnough(s: nat, a1: nat, a2: nat, sum: nat, r: nat)
    requires 0 < a1 <= s && a2 <= s && sum <= 2 * s && r == DeepReserve(s)
    ensures r > 0 && 8 * (a1 * a1) <= r && a1 <= r && 8 * (a2 * sum) <= r
  {
    assert r == 16 * (s * s);
    hide *;
    Below(a1, s, a1, s);
    Below(1, s, 1, s);
    Below(a2, s, sum, 2 * s);
    WithinDeepReserve(s * s, a1 * a1, a2 * sum, s * (2 * s), s, a1, r);
  }

  lemma Below(a: nat, b: nat, c: nat, d: nat)
    requires a <= b && c <= d
    ensures a * c <= a * d <= b * d
  {}

  lemma WithinDeepReserve(ss: nat, as1: nat, aSum: nat, twice: nat, s: nat, a1: nat, r: nat)
    requires 0 < a1 <= s <= ss && as1 <= ss && aSum <= twice == 2 * ss && r == 16 * ss
    ensures r > 0 && 8 * as1 <= r && a1 <= r && 8 * aSum <= r
  {}

  /** At eight for one the price of `a` units misses `8 * a` by at most one, and never exceeds it. */
  lemma EightForOne(a: nat, r: nat)
    requires r > 0
    ensures 8 * (a * a) <= r && 0 < a <= r ==> (r + a) * (8 * r - (8 * a - 1)) >= r * (8 * r)
    ensures (r + a) * (8 * r - (8 * a + 1)) < r * (8 * r)
  {}

  lemma StillNearlyEight(a1: nat, a2: nat, x1: nat, sum: nat, r: nat, left: nat)
    requires sum == a1 + x1 + a2 && 8 * (a2 * sum) <= r && 8 * r - 8 * a1 <= left && a2 > 0
    ensures (r + x1 + a2) * (left - (8 * a2 - 1)) >= (r + x1) * left
    ensures 8 * a2 - 1 <= left
  {
    var t: nat, low := 8 * a2 - 1, 8 * r - 8 * a1;
    var aSum, aLow, aLeft := a2 * sum, a2 * low, a2 * left;
    MulLeTo(1, a2, sum, sum, aSum);
    MulLeTo(low, left, a2, aLow, aLeft);
    PriceOfEight(a1, a2, x1, sum, r, low, aSum, aLow);
    Traded(r + x1, a2, left, t);
  }

  lemma PriceOfEight(a1: nat, a2: nat, x1: nat, sum: nat, r: nat, low: int, aSum: int, aLow: int)
    requires sum == a1 + x1 + a2 && low == 8 * r - 8 * a1 && aSum == a2 * sum && aLow == a2 * low && 8 * aSum <= r
    ensures (8 * a2 - 1) * (r + x1 + a2) <= aLow
  {
    assert aLow == 8 * (a2 * r) - 8 * (a2 * a1) && aSum == a2 * a1 + a2 * x1 + a2 * a2;
    assert (8 * a2 - 1) * (r + x1 + a2) == 8 * (a2 * r) + 8 * (a2 * x1) + 8 * (a2 * a2) - r - x1 - a2;
  }

  lemma Traded(m: nat, a: nat, left: int, t: int)
    ensures (m + a) * (left - t) == m * left + a * left - t * (m + a)
  {
  }

  // ---------------------------------------------------------------------
  // Round trips
  // ---------------------------------------------------------------------

  /** Buying and selling straight back returns the whole input only if the pool
      charges no fee; otherwise it loses at least one unit. */
  lemma RoundTripLosesTheFee(x: nat, rIn: nat, rOut: nat, fee: FeeBps)
    ensures var mid := V2AmountOut(x, rIn, rOut, fee);
            mid <= rOut
            && V2AmountOut(mid, rOut - mid, rIn + x, fee) <= x
            && (x > 0 && fee > 0 ==> V2AmountOut(mid, rOut - mid, rIn + x, fee) < x)
  {
    var mid := V2AmountOut(x, rIn, rOut, fee);
    V2SwapKeepsProduct(x, rIn, rOut, fee);
    var r := rOut - mid;
    if mid > 0 && x > 0 {
      var g := 10_000 - fee;
      V2QuoteIsLargestAccepted(x, rIn, rOut, fee, mid);
      KCheckAsPrice(x, mid, rIn, rOut, fee);
      // the trip home would have to pass the same check in the other direction
      var target := if fee > 0 then x else x + 1;
      V2QuoteIsLargestAccepted(mid, r, rIn + x, fee, target);
      KCheckAsPrice(mid, target, r, rIn + x, fee);
      if KCheck(mid, target, r, rIn + x, fee) {
        HomewardCheckFails(x, mid, rIn, r, g, target);
      }
    }
  }

  /** Both checks bound the cross product of the two trades, from both sides. */
  lemma HomewardCheckFails(x: nat, mid: nat, rIn: nat, r: nat, g: nat, target: nat)
    requires 0 < x <= target <= rIn + x && 0 < mid && 0 < r && g <= 10_000
    requires target > x || g < 10_000
    requires x * g * r >= rIn * (10_000 * mid)
    ensures mid * g * (rIn + x - target) < r * (10_000 * target)
  {
    var p, q, t, mg, rest := mid * rIn, x * r, target * r, mid * g, rIn + x - target;
    var gp, gq, mgRest, mgAll := g * p, g * q, mg * rest, mg * rIn;
    assert gq >= 10_000 * p by {
      assert x * g * r == gq;
      assert rIn * (10_000 * mid) == 10_000 * p;
    }
    assert mgRest <= gp by {
      MulLeTo(rest, rIn, mg, mgRest, mgAll);
      assert mgAll == gp;
    }
    assert r * (10_000 * target) == 10_000 * t;
    var tenP, tenQ := 10_000 * p, 10_000 * q;
    MulLtTo(0, x, r, 0, q);
    MulLeTo(g, 10_000, q, gq, tenQ);
    MulLeTo(g, 10_000, p, gp, tenP);
    if target > x {
      MulLtTo(x, target, r, q, t);
    } else {
      MulLtTo(g, 10_000, q, gq, tenQ);
    }
    assert mid * g * (rIn + x - target) == mgRest;
  }

  // ---------------------------------------------------------------------
  // Where the fee is taken
  // ---------------------------------------------------------------------

  /** Aerodrome takes a floored fee off the input and UniswapV2 an exact one
      inside the fraction, so with the same reserves and fee Aerodrome never
      quotes less, and its advantage is bounded by the marginal price. */
  lemma FeeLocationGap(x: nat, rIn: nat, rOut: nat, fee: FeeBps)
    requires rIn > 0 && rOut > 0
    ensures var aero := AeroVolatileAmountOut(x, rIn, rOut, fee);
            var v2 := V2AmountOut(x, rIn, rOut, fee);
            aero >= v2 && (aero - v2 - 1) * rIn < rOut
  {
    hide V2AmountOut, AeroVolatileAmountOut, AfterFee;
    var aero, v2 := AeroVolatileAmountOut(x, rIn, rOut, fee), V2AmountOut(x, rIn, rOut, fee);
    var xin, gx := AfterFee(x, fee), x * (10_000 - fee);
    AfterFeeBounds(x, fee);
    V2QuoteIsLargestAccepted(x, rIn, rOut, fee, v2);
    AeroQuoteIsLargestAccepted(x, rIn, rOut, fee, v2);
    assert aero >= v2 by {
      MulLe(rIn * 10_000 + gx, (rIn + xin) * 10_000, rOut - v2);
      CancelLe(rIn * rOut, (rIn + xin) * (rOut - v2), 10_000);
    }
    if aero >= v2 + 2 {
      AeroQuoteIsLargestAccepted(x, rIn, rOut, fee, aero);
      V2QuoteIsLargestAccepted(x, rIn, rOut, fee, v2 + 1);
      GapArithmetic(rIn, rOut, xin, gx, aero, v2 + 1);
    } else {
      var gap: int := aero as int - v2 - 1;
      MulLe(gap, 0, rIn);
    }
  }

  lemma GapArithmetic(rIn: nat, rOut: nat, xin: nat, gx: nat, aero: nat, next: nat)
    requires rIn > 0 && rOut > 0 && next < aero <= rOut
    requires xin * 10_000 < gx + 10_000
    requires (rIn + xin) * (rOut - aero) >= rIn * rOut
    requires (rIn * 10_000 + gx) * (rOut - next) < rIn * 10_000 * rOut
    ensures (aero - next) * rIn < rOut
  {
    var m: nat, n: nat, d: nat := rIn + xin, rIn * 10_000 + gx, aero - next;
    assert aero * m <= xin * rOut by {
      assert m * (rOut - aero) == m * rOut - aero * m;
      assert m * rOut == rIn * rOut + xin * rOut;
    }
    assert next * n > gx * rOut by {
      assert n * (rOut - next) == n * rOut - next * n;
      assert n * rOut == rIn * 10_000 * rOut + gx * rOut;
    }
    var w: nat := rOut * rIn;
    CrossMultiplied(rIn, rOut, xin, gx, aero, next, m, n, w);
    assert w > 0 by { MulLt(0, rOut, rIn); }
    MulLt(xin * 10_000 - gx, 10_000, w);
    MarginalPrice(rIn, rOut, m, n, d);
  }

  lemma MarginalPrice(rIn: nat, rOut: nat, m: nat, n: nat, d: nat)
    requires rIn > 0 && rIn <= m && rIn * 10_000 <= n
    requires d * (m * n) < 10_000 * (rOut * rIn)
    ensures d * rIn < rOut
  {}

  lemma CrossMultiplied(rIn: nat, rOut: nat, xin: nat, gx: nat, aero: nat, next: nat, m: nat, n: nat, w: nat)
    requires m == rIn + xin && n == rIn * 10_000 + gx && w == rOut * rIn
    requires aero * m <= xin * rOut && next * n > gx * rOut && m > 0
    ensures (aero - next) * (m * n) < (xin * 10_000 - gx) * w
  {
    var a, b := xin * rOut, gx * rOut;
    Regroup(aero, next, m, n);
    Weighted(aero * m, next * n, a, b, n, m);
    CommonTermCancels(rIn, rOut, xin, gx);
  }

  lemma Weighted(p: int, q: int, a: int, b: int, n: int, m: int)
    requires p <= a && b < q && n >= 0 && m > 0
    ensures p * n - q * m < a * n - b * m
  {}

  lemma Regroup(a: int, b: int, m: int, n: int)
    ensures (a - b) * (m * n) == a * m * n - b * n * m
  {}

  lemma CommonTermCancels(rIn: int, rOut: int, xin: int, gx: int)
    ensures xin * rOut * (rIn * 10_000 + gx) - gx * rOut * (rIn + xin) == (xin * 10_000 - gx) * (rOut * rIn)
  {}

  /** The Aerodrome fee is zero exactly while `amountIn * fee` stays below one unit. */
  lemma SmallAeroTradesAreFree(x: nat, fee: FeeBps)
    ensures AfterFee(x, fee) == x <==> x * fee < 10_000
  {}
}
