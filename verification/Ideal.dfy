/** Pricing without rounding, over the reals, and how far the floors fall short of it. */
module Ideal {
  import opened Arithmetic
  import opened Pricing
  import opened Reals

  /** The curve `x -> gain * x / (base + drag * x)`: every unrounded quote has this
      form, and so has every chain of them. */
  datatype Price = Price(gain: real, base: real, drag: real) {

    predicate Valid() {
      gain >= 0.0 && base > 0.0 && drag >= 0.0
    }

    function Denominator(x: real): real {
      base + drag * x
    }

    function At(x: real): (m: real)
      requires Valid() && x >= 0.0
      ensures m >= 0.0
    {
      Positive(drag, x);
      Positive(gain, x);
      Ratio(gain * x, Denominator(x))
    }

    /** What the first unit buys. */
    function Marginal(): (m: real)
      requires Valid()
      ensures m >= 0.0
    {
      Ratio(gain, base)
    }

    /** First this price, then the other one. */
    function Then(p: Price): (q: Price)
      requires Valid() && p.Valid()
      ensures q.Valid()
    {
      Positive(gain, p.gain);
      Positive(drag, p.base);
      Positive(gain, p.drag);
      Product(base, p.base);
      Price(gain * p.gain, base * p.base, drag * p.base + gain * p.drag)
    }
  }

  /** The part of an input that is left once the fee is taken. */
  function Kept(fee: FeeBps): (k: real)
    ensures 0.0 <= k <= 1.0 && k * 10_000.0 == (10_000 - fee) as real
  {
    (10_000 - fee) as real / 10_000.0
  }

  /** The quote of `dex.rs` before it is rounded. */
  function UnroundedQuote(rIn: nat, rOut: nat, fee: FeeBps): (p: Price)
    requires rIn > 0
    ensures p.Valid()
  {
    Positive(Kept(fee), rOut as real);
    Price(Kept(fee) * rOut as real, rIn as real, Kept(fee))
  }

  // ---------------------------------------------------------------------
  // Rounding
  // ---------------------------------------------------------------------

  /** A quote is its unrounded value, rounded down. */
  lemma QuoteRoundsDown(x: nat, rIn: nat, rOut: nat, fee: FeeBps)
    requires rIn > 0
    ensures var q := V2AmountOut(x, rIn, rOut, fee) as real;
            q <= UnroundedQuote(rIn, rOut, fee).At(x as real) < q + 1.0
  {
    hide *;
    var q, n, d := QuoteBrackets(x, rIn, rOut, fee);
    IdealOverDenominator(x, rIn, rOut, fee, n, d);
    FloorOf(q, n, d, UnroundedQuote(rIn, rOut, fee).At(x as real));
  }

  lemma FloorOf(q: nat, n: nat, d: nat, m: real)
    requires d > 0 && q * d <= n < (q + 1) * d && m * d as real == n as real
    ensures q as real <= m < q as real + 1.0
  {
    RealBounds(q, n, d);
    RoundsDown(q as real, n as real, d as real, m);
  }

  /** The fraction whose floor a quote is. */
  ghost predicate QuoteFraction(x: nat, rIn: nat, rOut: nat, fee: FeeBps, n: nat, d: nat) {
    n == x * (10_000 - fee) * rOut && d == rIn * 10_000 + x * (10_000 - fee)
  }

  lemma QuoteBrackets(x: nat, rIn: nat, rOut: nat, fee: FeeBps) returns (q: nat, n: nat, d: nat)
    requires rIn > 0
    ensures q == V2AmountOut(x, rIn, rOut, fee) && QuoteFraction(x, rIn, rOut, fee, n, d)
    ensures d > 0 && q * d <= n < (q + 1) * d
  {
    q := V2AmountOut(x, rIn, rOut, fee);
    n, d := x * (10_000 - fee) * rOut, rIn * 10_000 + x * (10_000 - fee);
    QuoteIsQuotient(x, rIn, rOut, fee);
    hide V2AmountOut;
    FloorDivision(n, d, q);
    FloorDivision(n, d, q + 1);
  }

  lemma IdealOverDenominator(x: nat, rIn: nat, rOut: nat, fee: FeeBps, n: nat, d: nat)
    requires rIn > 0 && QuoteFraction(x, rIn, rOut, fee, n, d)
    ensures UnroundedQuote(rIn, rOut, fee).At(x as real) * d as real == n as real
  {}

  lemma RoundsDown(q: real, n: real, d: real, m: real)
    requires d > 0.0 && q * d <= n < q * d + d && m * d == n
    ensures q <= m < q + 1.0
  {
    if m >= q + 1.0 {
      Positive(m - q - 1.0, d);
    } else if m < q {
      Product(q - m, d);
    }
  }

  lemma RealBounds(q: nat, n: nat, d: nat)
    requires q * d <= n < (q + 1) * d
    ensures q as real * d as real <= n as real < q as real * d as real + d as real
  {}

  // ---------------------------------------------------------------------
  // The shape of a price
  // ---------------------------------------------------------------------

  lemma AtZero(p: Price)
    requires p.Valid()
    ensures p.At(0.0) == 0.0
  {}

  lemma AtTimes(p: Price, x: real) returns (s: real)
    requires p.Valid() && x >= 0.0
    ensures p.At(x) * p.Denominator(x) == s && s == p.gain * x
  {
    s := p.gain * x;
    Positive(p.drag, x);
    Positive(p.gain, x);
  }

  lemma MarginalTimes(p: Price)
    requires p.Valid()
    ensures p.Marginal() * p.base == p.gain
  {}

  lemma DenominatorGrows(p: Price, x: real, y: real)
    requires p.Valid() && 0.0 <= x <= y
    ensures 0.0 < p.base <= p.Denominator(x) <= p.Denominator(y)
  {}

  /** The difference of two values over the product of their denominators. */
  lemma Difference(p: Price, x: real, y: real)
    requires p.Valid() && x >= 0.0 && y >= 0.0
    ensures (p.At(y) - p.At(x)) * (p.Denominator(x) * p.Denominator(y)) == (y - x) * (p.gain * p.base)
  {
    var a, b := p.Denominator(x), p.Denominator(y);
    var s := AtTimes(p, x);
    var t := AtTimes(p, y);
    hide Price.At;
    Expand(p.gain, p.base, p.drag, x, y, a, b, s, t);
    hide *;
    Crossed(p.At(x), p.At(y), a, b, s, t);
  }

  lemma Crossed(m: real, n: real, a: real, b: real, s: real, t: real)
    requires m * a == s && n * b == t
    ensures (n - m) * (a * b) == t * a - s * b
  {}

  lemma Expand(o: real, i: real, d: real, x: real, y: real, a: real, b: real, s: real, t: real)
    requires a == i + d * x && b == i + d * y && s == o * x && t == o * y
    ensures t * a - s * b == (y - x) * (o * i)
  {}

  /** More input buys more, but never at better than the marginal price. */
  lemma PriceGrows(p: Price, x: real, y: real, u: real, v: real)
    requires p.Valid() && 0.0 <= x <= y && u == y - x && v == u * p.Marginal()
    ensures p.At(x) <= p.At(y) <= p.At(x) + v
  {
    hide *;
    Difference(p, x, y);
    DenominatorGrows(p, x, y);
    MarginalTimes(p);
    var m, a, b := p.At(y) - p.At(x), p.Denominator(x), p.Denominator(y);
    var g := p.gain * p.base;
    assert m * (a * b) == u * g;
    GrowthBound(m, p.base, a, b, p.gain, g, p.Marginal(), u, v);
  }

  lemma GrowthBound(m: real, i: real, a: real, b: real, o: real, g: real, rate: real, u: real, v: real)
    requires 0.0 < i <= a && i <= b && u >= 0.0 && rate >= 0.0 && rate * i == o && g == o * i && v == u * rate
    requires m * (a * b) == u * g
    ensures 0.0 <= m <= v
  {
    var ii, ai, ab := i * i, a * i, a * b;
    ScaleTo(i, a, i, ii, ai);
    ScaleTo(i, b, a, ai, ab);
    Square(i, ii);
    Positive(rate, u);
    var n, w := v * ii, v * ab;
    assert n == u * g;
    ScaleTo(ii, ab, v, n, w);
    Positive(v, ii);
    CancelTo(0.0, m, ab, 0.0, n);
    CancelTo(m, v, ab, n, w);
  }

  /** Prices compose as their names say. */
  lemma ChainsTo(p: Price, q: Price, x: real)
    requires p.Valid() && q.Valid() && x >= 0.0
    ensures p.Then(q).At(x) == q.At(p.At(x))
  {
    hide *;
    var r := p.Then(q);
    var s := AtTimes(r, x);
    Chained(p, q, x, s);
    DenominatorGrows(r, 0.0, x);
    Unique(q.At(p.At(x)), r.At(x), r.Denominator(x), s);
  }

  lemma Unique(n: real, l: real, c: real, s: real)
    requires c > 0.0 && n * c == s && l * c == s
    ensures n == l
  {}

  lemma Chained(p: Price, q: Price, x: real, n: real)
    requires p.Valid() && q.Valid() && x >= 0.0 && n == p.Then(q).gain * x
    ensures q.At(p.At(x)) * p.Then(q).Denominator(x) == n
  {
    hide *;
    var m := p.At(x);
    var s := AtTimes(p, x);
    var w := AtTimes(q, m);
    ChainedDenominator(p, q, x, m, p.Denominator(x), q.Denominator(m), p.Then(q).Denominator(x));
    ChainedValue(q.At(m), q.Denominator(m), p.Denominator(x), p.Then(q).Denominator(x), m, s, q.gain);
    ChainedGain(p, q, x, s, n);
  }

  lemma ChainedGain(p: Price, q: Price, x: real, s: real, n: real)
    requires p.Valid() && q.Valid() && s == p.gain * x && n == p.Then(q).gain * x
    ensures n == q.gain * s
  {}

  lemma ChainedDenominator(p: Price, q: Price, x: real, m: real, b: real, t: real, c: real)
    requires p.Valid() && q.Valid()
    requires b == p.Denominator(x) && t == q.Denominator(m) && c == p.Then(q).Denominator(x) && m * b == p.gain * x
    ensures t * b == c
  {
    assert t * b == q.base * b + q.drag * (m * b);
  }

  lemma ChainedValue(n: real, t: real, b: real, c: real, m: real, s: real, o: real)
    requires t * b == c && m * b == s && n * t == o * m
    ensures n * c == o * s
  {}

  /** Falling slopes put the middle point on or above the chord. Slopes are given as
      fractions: `(hb - ha) / (b - a) = g / (da * db)`, `(hc - hb) / (c - b) = k / (db * dc)`. */
  lemma SlopesFall(a: real, b: real, c: real, ha: real, hb: real, hc: real, da: real, db: real, dc: real,
                   g: real, k: real)
    requires da > 0.0 && db > 0.0 && dc > 0.0 && a <= b <= c
    requires (hb - ha) * (da * db) == (b - a) * g && (hc - hb) * (db * dc) == (c - b) * k
    requires g * dc >= k * da
    ensures hb * (c - a) >= ha * (c - b) + hc * (b - a)
  {}

  lemma PriceIsConcave(p: Price, a: real, b: real, c: real)
    requires p.Valid() && 0.0 <= a <= b <= c
    ensures p.At(b) * (c - a) >= p.At(a) * (c - b) + p.At(c) * (b - a)
  {
    var k, da, db, dc := p.gain * p.base, p.Denominator(a), p.Denominator(b), p.Denominator(c);
    DenominatorGrows(p, a, b);
    DenominatorGrows(p, b, c);
    Positive(p.gain, p.base);
    Difference(p, a, b);
    Difference(p, b, c);
    hide *;
    var s, t := k * da, k * dc;
    ScaleTo(da, dc, k, s, t);
    SlopesFall(a, b, c, p.At(a), p.At(b), p.At(c), da, db, dc, k, k);
  }
}
