/** Cycles of any length through V2 pools: the sizing of `dex/graph.rs`. */
module Routes {
  import opened Arithmetic
  import opened Options
  import opened Ideal
  import opened NearOptimum
  import opened Pricing
  import opened Reals
  import opened TernarySearch

  /** One hop as traded; a hop that does not resolve to a pool and token is `None` in a route. */
  datatype Hop = Hop(rIn: nat, rOut: nat, fee: FeeBps)

  type Route = seq<Option<Hop>>

  /** A zero on the way ends the route before any later hop is looked at. */
  function Output(route: Route, x: nat): Option<nat>
    decreases |route|
  {
    if route == [] then Some(x)
    else
      var hop :- route[0];
      var out := V2AmountOut(x, hop.rIn, hop.rOut, hop.fee);
      if out == 0 then Some(0) else Output(route[1..], out)
  }

  method Evaluate(route: Route, amountIn: nat) returns (r: Option<nat>)
    ensures r == Output(route, amountIn)
  {
    var amount := amountIn;
    for i := 0 to |route|
      invariant Output(route, amountIn) == Output(route[i..], amount)
    {
      assert route[i..][0] == route[i] && route[i..][1..] == route[i + 1..];
      if route[i].None? {
        return None;
      }
      var hop := route[i].value;
      amount := V2AmountOut(amount, hop.rIn, hop.rOut, hop.fee);
      if amount == 0 {
        return Some(0);
      }
    }
    r := Some(amount);
  }

  /** A route is its parts one after the other: what the first part pays goes into the
      second, an unresolved hop of it fails the whole, and a zero ends it there. */
  lemma {:induction false} OutputChains(first: Route, rest: Route, x: nat)
    requires first != []
    ensures Output(first + rest, x) ==
              match Output(first, x)
              case None => None
              case Some(mid) => if mid == 0 then Some(0) else Output(rest, mid)
    decreases |first|
  {
    hide V2AmountOut;
    assert (first + rest)[0] == first[0] && (first + rest)[1..] == first[1..] + rest;
    if first[0].Some? {
      var hop := first[0].value;
      var mid := V2AmountOut(x, hop.rIn, hop.rOut, hop.fee);
      if first[1..] == [] {
        assert first[1..] + rest == rest;
      } else if mid > 0 {
        OutputChains(first[1..], rest, mid);
      }
    }
  }

  /** One hop is one quote, and no hop leaves the input as it is. */
  lemma OutputOfOne(hop: Hop, x: nat)
    ensures Output([Some(hop)], x) == Some(V2AmountOut(x, hop.rIn, hop.rOut, hop.fee))
    ensures Output([None], x) == None && Output([], x) == Some(x)
  {
    hide V2AmountOut;
  }

  /** A size earns exactly what a resolved route returns beyond it. */
  lemma ProfitIs(route: Route, x: nat)
    ensures ProfitOf(route, x) > 0 <==> exists out: nat :: Output(route, x) == Some(out) && out > x
    ensures forall out: nat :: Output(route, x) == Some(out) && out > x ==> x + ProfitOf(route, x) == out
  {}

  function ProfitOf(route: Route, x: nat): nat {
    match Output(route, x)
    case Some(out) => MonusNat(out, x)
    case None => 0
  }

  function Curve(route: Route): nat -> nat {
    x => ProfitOf(route, x)
  }

  method OptimalCycleIn(route: Route, maxIn: nat) returns (r: Option<(nat, nat)>)
    ensures route == [] || route[0].None? || Min(maxIn, route[0].value.rIn) == 0 ==> r.None?
    ensures route != [] && route[0].Some? && Min(maxIn, route[0].value.rIn) > 0 ==>
      exists best: nat :: SearchEndsAt(Curve(route), 0, Min(maxIn, route[0].value.rIn), best)
        && r == if best == 0 || ProfitOf(route, best) == 0 then None else Some((best, ProfitOf(route, best)))
    ensures r.Some? ==>
      var (x, p) := r.value;
      route != [] && route[0].Some? && 0 < x <= Min(maxIn, route[0].value.rIn) && p > 0
      && Output(route, x) == Some(x + p) && PriceGap(route)
    ensures !Live(route) ==> r.None?
    ensures route != [] && Live(route) ==>
      NearlyOptimal(Curve(route), Slack(route), Min(maxIn, route[0].value.rIn), if r.Some? then r.value.1 else 0)
      && (WorthFinding(Curve(route), Slack(route), Min(maxIn, route[0].value.rIn)) ==> r.Some?)
  {
    hide V2AmountOut, PriceGap, SearchEndsAt, NearlyOptimal, WorthFinding, Slack;
    if route == [] || route[0].None? {
      return None;
    }
    var hi := Min(maxIn, route[0].value.rIn);
    NothingIn(route);
    if hi == 0 {
      if Live(route) && WorthFinding(Curve(route), Slack(route), 0) {
        FindsWhatIsWorthFinding(Curve(route), Slack(route), 0, 0);
      }
      return None;
    }
    var x, p, passes, scanned := TernarySearchMax(0, hi, Curve(route));
    if Live(route) {
      RouteIsNearlyOptimal(route, hi, x);
      if WorthFinding(Curve(route), Slack(route), hi) {
        FindsWhatIsWorthFinding(Curve(route), Slack(route), hi, p);
      }
    } else {
      DeadRouteEarnsNothing(route, x);
    }
    if x == 0 || p == 0 {
      r := None;
    } else {
      RouteProfitNeedsPriceGap(route, x);
      r := Some((x, p));
    }
  }

  /** A cap of zero leaves one size, which earns nothing. */
  lemma NothingIn(route: Route)
    requires route != [] && route[0].Some?
    ensures ProfitOf(route, 0) == 0
    ensures Live(route) ==> NearlyOptimal(Curve(route), Slack(route), 0, 0)
  {
    if Live(route) {
      forall k: nat ensures Loss(Slack(route), k) >= 0.0 {
        LossGrows(Slack(route), k);
      }
    }
  }

  // ---------------------------------------------------------------------
  // When a cycle can pay
  // ---------------------------------------------------------------------

  function InRates(route: Route): nat {
    if route == [] then 1
    else if route[0].None? then 0
    else route[0].value.rIn * 10_000 * InRates(route[1..])
  }

  function OutRates(route: Route): nat {
    if route == [] then 1
    else if route[0].None? then 0
    else (10_000 - route[0].value.fee) * route[0].value.rOut * OutRates(route[1..])
  }

  /** Every hop resolves, and the marginal prices after fees multiply to more than one. */
  predicate PriceGap(route: Route) {
    (forall i :: 0 <= i < |route| ==> route[i].Some?) && OutRates(route) > InRates(route)
  }

  /** A positive output stays strictly below what the marginal prices promise. */
  lemma {:induction false} OutputBelowMarginalPrices(route: Route, x: nat, out: nat)
    requires route != [] && out > 0
    ensures Output(route, x) == Some(out) ==>
              (forall i :: 0 <= i < |route| ==> route[i].Some?) && InRates(route) * out < x * OutRates(route)
    decreases |route|
  {
    hide V2AmountOut;
    if Output(route, x) == Some(out) {
      var hop := route[0].value;
      var mid := V2AmountOut(x, hop.rIn, hop.rOut, hop.fee);
      QuoteBelowMarginalPrice(x, hop.rIn, hop.rOut, hop.fee);
      var a: nat, b: nat := hop.rIn * 10_000, (10_000 - hop.fee) * hop.rOut;
      assert a * mid < x * b by {
        assert a * mid == hop.rIn * (10_000 * mid);
        Associate(x, 10_000 - hop.fee, hop.rOut);
      }
      var rest := route[1..];
      assert Output(rest, mid) == Some(out);
      if rest == [] {
        assert mid == out && InRates(rest) == 1 && OutRates(rest) == 1;
      } else {
        OutputBelowMarginalPrices(rest, mid, out);
        ChainRates(a, mid, x, b, InRates(rest), out, OutRates(rest));
      }
    }
  }

  lemma ChainRates(a: nat, mid: nat, x: nat, b: nat, i: nat, out: nat, o: nat)
    requires a * mid < x * b && i * out < mid * o
    ensures a * i * out < x * (b * o)
  {}

  /** However many hops: no size earns anything unless there is a price gap. */
  lemma RouteProfitNeedsPriceGap(route: Route, x: nat)
    requires route != []
    ensures ProfitOf(route, x) > 0 ==> PriceGap(route)
  {
    hide V2AmountOut;
    if ProfitOf(route, x) > 0 {
      var out := Output(route, x).value;
      OutputBelowMarginalPrices(route, x, out);
      MulLeLeft(InRates(route), x, out);
      if OutRates(route) <= InRates(route) {
        MulLeLeft(x, OutRates(route), InRates(route));
      }
    }
  }

  // ---------------------------------------------------------------------
  // How good the returned size is
  // ---------------------------------------------------------------------

  /** Every hop resolves to a pool with an input side; otherwise no size is profitable. */
  predicate Live(route: Route) {
    forall i :: 0 <= i < |route| ==> route[i].Some? && route[i].value.rIn > 0
  }

  /** The route with no rounding anywhere. */
  function Unrounded(route: Route): (p: Price)
    requires Live(route)
    ensures p.Valid()
  {
    if route == [] then Price(1.0, 1.0, 0.0)
    else
      var hop := route[0].value;
      UnroundedQuote(hop.rIn, hop.rOut, hop.fee).Then(Unrounded(route[1..]))
  }

  /** A unit lost to rounding at each hop, priced at the marginal rate of the hops after it. */
  function Slack(route: Route): (e: real)
    requires Live(route)
    ensures e >= 0.0
  {
    if route == [] then 0.0 else Slack(route[1..]) + Unrounded(route[1..]).Marginal()
  }

  /** Rounding only costs, and never more than the slack. */
  lemma {:induction false} OutputNearUnrounded(route: Route, x: nat)
    requires Live(route)
    ensures Output(route, x).Some?
    ensures var out := Output(route, x).value as real; out <= Unrounded(route).At(x as real) <= out + Slack(route)
    decreases |route|
  {
    if route == [] {
      var s := AtTimes(Price(1.0, 1.0, 0.0), x as real);
    } else {
      var hop, rest := route[0].value, route[1..];
      var first, p := UnroundedQuote(hop.rIn, hop.rOut, hop.fee), Unrounded(rest);
      var mid := V2AmountOut(x, hop.rIn, hop.rOut, hop.fee);
      QuoteRoundsDown(x, hop.rIn, hop.rOut, hop.fee);
      ChainsTo(first, p, x as real);
      UnitOfRounding(p, mid as real, first.At(x as real));
      hide V2AmountOut, UnroundedQuote, Price.At, Price.Then, Price.Marginal;
      if mid > 0 {
        OutputNearUnrounded(rest, mid);
      } else {
        AtZero(p);
      }
    }
  }

  lemma UnitOfRounding(p: Price, mid: real, exact: real)
    requires p.Valid() && 0.0 <= mid <= exact < mid + 1.0
    ensures p.At(mid) <= p.At(exact) <= p.At(mid) + p.Marginal()
  {
    hide *;
    var u, rate := exact - mid, p.Marginal();
    var v := u * rate;
    PriceGrows(p, mid, exact, u, v);
    Fraction(u, rate, v);
  }

  function Gain(route: Route): nat -> real
    requires Live(route)
  {
    (x: nat) => Unrounded(route).At(x as real) - x as real
  }

  lemma GainIdealizes(route: Route, f: nat -> nat, hi: nat)
    requires Live(route) && forall x: nat :: f(x) == ProfitOf(route, x)
    ensures Idealizes(Gain(route), f, Slack(route), hi)
  {
    hide Gain, AboveChord;
    forall x: nat ensures f(x) > 0 ==> f(x) as real <= Gain(route)(x)
                  ensures Gain(route)(x) - Slack(route) <= f(x) as real
    {
      GainNearCurve(route, x);
    }
    GainAtZero(route);
    forall a: nat, b: nat, c: nat | a <= b <= c ensures AboveChord(Gain(route), a, b, c) {
      GainAboveChord(route, a, b, c);
    }
  }

  lemma GainAtZero(route: Route)
    requires Live(route)
    ensures Gain(route)(0) == 0.0
  {}

  lemma GainNearCurve(route: Route, x: nat)
    requires Live(route)
    ensures ProfitOf(route, x) > 0 ==> ProfitOf(route, x) as real <= Gain(route)(x)
    ensures Gain(route)(x) - Slack(route) <= ProfitOf(route, x) as real
  {
    OutputNearUnrounded(route, x);
  }

  lemma GainAboveChord(route: Route, a: nat, b: nat, c: nat)
    requires Live(route) && a <= b <= c
    ensures AboveChord(Gain(route), a, b, c)
  {
    var h, x, y, z, u, w := Gain(route), a as real, b as real, c as real, (b - a) as real, (c - b) as real;
    GainChord(Unrounded(route), x, y, z, u, w, h(a), h(b), h(c));
    hide OnOrAbove, Gain, Unrounded, Price.At;
  }

  lemma GainChord(p: Price, x: real, y: real, z: real, u: real, w: real, ha: real, hb: real, hc: real)
    requires p.Valid() && 0.0 <= x <= y <= z && u == y - x && w == z - y
    requires ha == p.At(x) - x && hb == p.At(y) - y && hc == p.At(z) - z
    ensures OnOrAbove(ha, hb, hc, u, w)
  {
    hide *;
    PriceIsConcave(p, x, y, z);
    ChordLessTheInput(p.At(x), p.At(y), p.At(z), x, y, z, u, w, ha, hb, hc);
  }

  lemma ChordLessTheInput(pa: real, pb: real, pc: real, a: real, b: real, c: real, u: real, w: real,
                          ha: real, hb: real, hc: real)
    requires pb * (c - a) >= pa * (c - b) + pc * (b - a) && u == b - a && w == c - b
    requires ha == pa - a && hb == pb - b && hc == pc - c
    ensures OnOrAbove(ha, hb, hc, u, w)
  {}

  /** With no assumption on the curve: whatever the floors do to it, no admissible
      size earns more than the searched one by more than the rounding of the search. */
  lemma RouteIsNearlyOptimal(route: Route, hi: nat, best: nat)
    requires Live(route) && SearchEndsAt(Curve(route), 0, hi, best)
    ensures NearlyOptimal(Curve(route), Slack(route), hi, ProfitOf(route, best))
  {
    GainIdealizes(route, Curve(route), hi);
    SearchIsNearlyOptimal(Gain(route), Curve(route), Slack(route), hi, best);
    hide NearlyOptimal, ProfitOf, Slack;
    assert Curve(route)(best) == ProfitOf(route, best);
  }

  /** A route that does not resolve, or meets an empty input side, earns nothing. */
  lemma {:induction false} DeadRouteEarnsNothing(route: Route, x: nat)
    requires !Live(route)
    ensures Output(route, x).None? || Output(route, x).value == 0
    decreases |route|
  {
    if route[0].Some? && route[0].value.rIn > 0 {
      var rest := route[1..];
      assert !Live(rest) by {
        var i :| 0 <= i < |route| && !(route[i].Some? && route[i].value.rIn > 0);
        assert rest[i - 1] == route[i];
      }
      var hop := route[0].value;
      DeadRouteEarnsNothing(rest, V2AmountOut(x, hop.rIn, hop.rOut, hop.fee));
    }
  }
}
