/** How close the floors of a sandwich stay to the unrounded curve, and what that makes
    of the size the search returns. */
module SandwichRounding {
  import opened Arithmetic
  import opened Ideal
  import opened NearOptimum
  import opened Pricing
  import opened Sandwich
  import opened SandwichCurve
  import opened Reals
  import opened TernarySearch

  // ---------------------------------------------------------------------
  // The floors of the three legs
  // ---------------------------------------------------------------------

  /** One leg pays `q` where the unrounded one pays `m` on reserves `rIn` and `rOut`. */
  ghost predicate Leg(k: real, x: real, rIn: real, rOut: real, m: real, q: real) {
    m * (rIn + k * x) == k * rOut * x && q <= m < q + 1.0
  }

  lemma QuoteIsLeg(x: nat, rIn: nat, rOut: nat, fee: FeeBps) returns (m: real)
    requires rIn > 0
    ensures Leg(Kept(fee), x as real, rIn as real, rOut as real, m, V2AmountOut(x, rIn, rOut, fee) as real)
  {
    m := UnroundedQuote(rIn, rOut, fee).At(x as real);
    QuoteRoundsDown(x, rIn, rOut, fee);
    var s := AtTimes(UnroundedQuote(rIn, rOut, fee), x as real);
    hide V2AmountOut, Kept, Price.At;
  }

  /** A leg leaves the product of the reserves it started from, or up to one output unit more. */
  lemma LegKeepsProduct(k: real, x: real, rIn: real, rOut: real, m: real, q: real, den: real, left: real)
    requires Leg(k, x, rIn, rOut, m, q) && den == rIn + k * x && den > 0.0 && left == rOut - q
    ensures rOut * rIn <= left * den <= rOut * rIn + den
  {
    assert m * den == k * rOut * x by { SameProduct(m, rIn + k * x, den, k * rOut * x); }
    assert rOut * den == rOut * rIn + k * rOut * x;
    hide *;
    LegArithmetic(m, q, den, k * rOut * x, rOut * rIn, rOut, left);
  }

  lemma SameProduct(m: real, e: real, d: real, n: real)
    requires m * e == n && e == d
    ensures m * d == n
  {}

  lemma LegArithmetic(m: real, q: real, den: real, n: real, base: real, rOut: real, left: real)
    requires m * den == n && rOut * den == base + n && q <= m < q + 1.0 && den > 0.0 && left == rOut - q
    ensures base <= left * den <= base + den
  {
    var t := m - q;
    var slack := t * den;
    Fraction(t, den, slack);
    assert left * den == rOut * den - m * den + slack;
  }

  /** The amounts behind a front leg of `x`: `a` and `a2` are the input side after the
      front leg and after the victim, `m` and `q` the denominators of those two legs, and
      `d` that of the unrounded back leg. */
  ghost predicate Sizes(k: real, x: real, v: real, r: real, a: real, a2: real, g: real, m: real, q: real,
                        ra: real, d: real) {
    && 0.0 <= k <= 1.0 && 0.0 <= x <= r && v >= 0.0 && r > 0.0
    && a == r + x && a2 == a + v && g == k * x && m == r + g && q == a + k * v && ra == r * a && d == ra + k * g * q
  }

  lemma SizesBounded(k: real, x: real, v: real, r: real, a: real, a2: real, g: real, m: real, q: real,
                     ra: real, d: real)
    requires Sizes(k, x, v, r, a, a2, g, m, q, ra, d)
    ensures 0.0 <= k <= 1.0 && 0.0 <= g && 0.0 < r <= m <= a <= q <= a2 <= 2.0 * r + v && ra > 0.0
            && d == ra + k * g * q
  {
    var kv := k * v;
    Fraction(k, x, g);
    Fraction(k, v, kv);
    Product(r, a);
  }

  /** What is left of the output side before the back leg, against what the unrounded legs leave. */
  ghost predicate Left(a: real, base: real, y: real, q: real, m: real) {
    a * base <= y * q * m && y * q * m <= a * base + (a + q) * m
  }

  /** After the victim the output side is what the unrounded legs leave, or up to two units more. */
  lemma OutputLeft(k: real, x: real, v: real, r: real, a: real, rOut: real, o: real, o1: real, e: real, w: real,
                   left: real, y: real, base: real, m: real, q: real)
    requires Leg(k, x, r, rOut, o, o1) && left == rOut - o1 && Leg(k, v, a, left, e, w) && y == left - w
    requires m == r + k * x && q == a + k * v && m > 0.0 && q > 0.0 && a > 0.0 && base == rOut * r
    ensures Left(a, base, y, q, m)
  {
    LegKeepsProduct(k, x, r, rOut, o, o1, m, left);
    LegKeepsProduct(k, v, a, left, e, w, q, y);
    hide Leg;
    var u, t := left * m, y * q;
    Chained(a, base, u, left, m, t, q);
  }

  lemma Chained(a: real, rr: real, u: real, left: real, m: real, t: real, q: real)
    requires a > 0.0 && m > 0.0 && u == left * m && rr <= u <= rr + m && left * a <= t <= left * a + q
    ensures a * rr <= t * m <= a * rr + (a + q) * m
  {}

  /** With that, the back leg pays what the unrounded legs would, less at most
      `2 * a2 * a2 / base` units. Here `b` is the unrounded value. */
  lemma BackLeg(k: real, x: real, v: real, r: real, a: real, a2: real, g: real, m: real, q: real, ra: real, d: real,
                rOut: real, base: real, o: real, o1: real, y: real, b: real, e: real, back: real)
    requires Sizes(k, x, v, r, a, a2, g, m, q, ra, d) && Left(a, base, y, q, m)
    requires rOut > 0.0 && base == rOut * r && y > 0.0 && o1 >= 0.0
    requires Leg(k, x, r, rOut, o, o1) && Leg(k, o1, y, a2, e, back)
    requires Unrounded(b, d, k, g, a2, q)
    ensures e <= b && (b - e) * base <= 2.0 * (a2 * a2)
  {
    var c, z := g * q * y - o1 * ra, y + k * o1;
    SizesBounded(k, x, v, r, a, a2, g, m, q, ra, d);
    assert o * m == rOut * g && o1 <= o < o1 + 1.0 by { FrontLeg(k, x, r, rOut, o, o1, g, m); }
    assert e * z == k * a2 * o1;
    assert b * d == k * g * a2 * q;
    hide Sizes, Leg, Left, Unrounded;
    Bracket(r, a, ra, rOut, o, o1, y, base, g, m, q, c);
    var kc, dif := k * c, b - e;
    Subtracted(k, a2, g, q, y, o1, ra, d, z, b, e, c, kc, dif);
    AtMostTwice(k, c, ra, g, a, q, d, kc);
    Positive(k, o1);
    Positive(rOut, r);
    DepthLeft(y, q, m, a, a2, base);
    Shortfall(dif, d, z, a2, kc, y, base);
  }

  lemma FrontLeg(k: real, x: real, r: real, rOut: real, o: real, o1: real, g: real, m: real)
    requires Leg(k, x, r, rOut, o, o1) && g == k * x && m == r + g
    ensures o * m == rOut * g && o1 <= o < o1 + 1.0
  {}

  lemma AtMostTwice(k: real, c: real, ra: real, g: real, a: real, q: real, d: real, kc: real)
    requires 0.0 <= k <= 1.0 && g >= 0.0 && 0.0 <= a <= q && ra > 0.0
    requires 0.0 <= c <= ra + g * (a + q) && d == ra + k * g * q && kc == k * c
    ensures 0.0 <= kc <= 2.0 * d && d > 0.0
  {
    Positive(k, g);
    Positive(k * g, q);
    Positive(k, c);
    var top, kra, kga, kgq := ra + g * (a + q), k * ra, k * g * a, k * g * q;
    assert kc <= k * top by { Scale(c, top, k); }
    Fraction(k, ra, kra);
    Positive(k * g, q - a);
    assert kga <= kgq by { ScaleTo(a, q, k * g, kga, kgq); }
    assert k * top == kra + kga + kgq;
  }

  lemma DepthLeft(y: real, q: real, m: real, a: real, a2: real, base: real)
    requires 0.0 < m <= a && 0.0 < q <= a2 && y > 0.0 && base >= 0.0
    requires Left(a, base, y, q, m)
    ensures base <= y * a2
  {}

  lemma Shortfall(dif: real, d: real, z: real, a2: real, kc: real, y: real, base: real)
    requires d > 0.0 && z >= y > 0.0 && a2 >= 0.0 && 0.0 <= kc <= 2.0 * d && 0.0 <= base <= y * a2
    requires dif * (d * z) == a2 * kc
    ensures dif >= 0.0 && dif * base <= 2.0 * (a2 * a2)
  {
    Product(d, z);
    Positive(a2, kc);
    Cancel(0.0, dif, d * z);
    var dz := dif * z;
    assert dz * d <= 2.0 * a2 * d by { Scale(kc, 2.0 * d, a2); }
    Cancel(dz, 2.0 * a2, d);
    var dy := dif * y;
    assert dy <= dz by { Scale(y, z, dif); }
    assert dif * base <= dif * (y * a2) by { Scale(base, y * a2, dif); }
    assert dy * a2 <= 2.0 * a2 * a2 by { Scale(dy, 2.0 * a2, a2); }
  }

  /** How far the three floors are from cancelling. */
  lemma Bracket(r: real, a: real, ra: real, rOut: real, o: real, o1: real, y: real, base: real, g: real,
                m: real, q: real, c: real)
    requires r > 0.0 && a > 0.0 && g >= 0.0 && m == r + g && q > 0.0
    requires o * m == rOut * g && o1 <= o < o1 + 1.0 && base == rOut * r
    requires Left(a, base, y, q, m) && ra == r * a && ra > 0.0 && c == g * q * y - o1 * ra
    ensures 0.0 <= c <= ra + g * (a + q)
  {
    var t, top := o - o1, g * (a + q);
    // times m, the unrounded output takes the place of the reserves
    var n := y * q * m - a * base;
    var gn := g * n;
    assert 0.0 <= n <= (a + q) * m;
    assert 0.0 <= gn by { Positive(g, n); }
    assert gn <= top * m by { Scale(n, (a + q) * m, g); }
    var tr := t * ra;
    assert 0.0 <= tr by { Positive(t, ra); }
    assert tr <= ra by { Scale(t, 1.0, ra); }
    assert c * m == gn + tr * m;
    BetweenMultiples(c, gn, tr, top, ra, m);
  }

  lemma BetweenMultiples(c: real, gn: real, tr: real, top: real, ra: real, m: real)
    requires m > 0.0 && 0.0 <= gn <= top * m && 0.0 <= tr <= ra && c * m == gn + tr * m
    ensures 0.0 <= c <= ra + top
  {}

  lemma Subtracted(k: real, a2: real, g: real, q: real, y: real, o1: real, ra: real, d: real, z: real,
                   b: real, e: real, c: real, kc: real, dif: real)
    requires d == ra + k * g * q && z == y + k * o1 && c == g * q * y - o1 * ra && kc == k * c && dif == b - e
    requires b * d == k * g * a2 * q && e * z == k * a2 * o1
    ensures dif * (d * z) == a2 * kc
  {
    var bd, ez := b * d, e * z;
    assert dif * (d * z) == bd * z - ez * d;
  }

  /** The unrounded value `b` as a fraction over `d`. */
  ghost predicate Unrounded(b: real, d: real, k: real, g: real, a2: real, q: real) {
    b * d == k * g * a2 * q
  }

  ghost predicate Coefficients(k: real, r: real, v: real, rv: real, al: real, be: real, p: real, de: real, rr: real) {
    && rv == r + v && al == k * k * (r + v) - r && be == k * k * (r + k * v) * (r + v) - r * r
    && p == k * k && de == r + k * k * r + k * k * k * v && rr == r * r
  }

  lemma CurveIsUnrounded(k: real, x: real, v: real, r: real, a: real, a2: real, g: real, m: real, q: real,
                         ra: real, d: real,
                         s: Shape, b: real)
    requires Sizes(k, x, v, r, a, a2, g, m, q, ra, d) && s == SandwichShape(k, r, v) && s.Valid() && x >= 0.0
    requires b == s.At(x) + x
    ensures Unrounded(b, d, k, g, a2, q)
  {
    hide *;
    var rv := CoefficientsOf(k, r, v, s);
    var n := AtIsOnCurve(s, x);
    OverDenominator(k, x, v, r, a, a2, g, m, q, ra, d, rv, s.al, s.be, s.p, s.de, s.rr, s.Denominator(x), n,
                    s.At(x), b);
  }

  lemma CoefficientsOf(k: real, r: real, v: real, s: Shape) returns (rv: real)
    requires s == SandwichShape(k, r, v)
    ensures Coefficients(k, r, v, rv, s.al, s.be, s.p, s.de, s.rr)
  {
    rv := r + v;
  }

  lemma OverDenominator(k: real, x: real, v: real, r: real, a: real, a2: real, g: real, m: real, q: real,
                        ra: real, d: real,
                        rv: real, al: real, be: real, p: real, de: real, rr: real, e: real, n: real, h: real, b: real)
    requires Sizes(k, x, v, r, a, a2, g, m, q, ra, d) && Coefficients(k, r, v, rv, al, be, p, de, rr)
    requires OnCurve(al, be, p, de, rr, x, e, n, h) && b == h + x
    ensures Unrounded(b, d, k, g, a2, q)
  {
    hide *;
    var l, top := al * x + be, k * g * a2 * q;
    SameDenominator(k, x, v, r, a, a2, g, m, q, ra, d, rv, al, be, p, de, rr, e, n, h);
    ValueIs(al, be, p, de, rr, x, e, n, h, l);
    Numerator(k, x, v, r, a, a2, g, m, q, ra, d, rv, al, be, p, de, rr, l, top);
    AddedInput(b, h, x, d, n, l, top);
    IsUnrounded(b, d, k, g, a2, q, top);
  }

  lemma IsUnrounded(b: real, d: real, k: real, g: real, a2: real, q: real, top: real)
    requires b * d == top && top == k * g * a2 * q
    ensures Unrounded(b, d, k, g, a2, q)
  {}

  lemma AddedInput(b: real, h: real, x: real, d: real, n: real, l: real, top: real)
    requires b == h + x && h * d == n && n == x * l && x * l + x * d == top
    ensures b * d == top
  {}

  lemma SameDenominator(k: real, x: real, v: real, r: real, a: real, a2: real, g: real, m: real, q: real,
                        ra: real, d: real, rv: real, al: real, be: real, p: real, de: real, rr: real,
                        e: real, n: real, h: real)
    requires Sizes(k, x, v, r, a, a2, g, m, q, ra, d) && Coefficients(k, r, v, rv, al, be, p, de, rr)
    requires OnCurve(al, be, p, de, rr, x, e, n, h)
    ensures h * d == n
  {
    assert h * e == n;
    hide *;
    DenominatorIs(k, x, v, r, a, a2, g, m, q, ra, d, rv, al, be, p, de, rr, e, n, h);
    SameProduct(h, e, d, n);
  }

  lemma ValueIs(al: real, be: real, p: real, de: real, rr: real, x: real, e: real, n: real, h: real, l: real)
    requires OnCurve(al, be, p, de, rr, x, e, n, h) && l == al * x + be
    ensures n == x * l
  {}

  lemma DenominatorIs(k: real, x: real, v: real, r: real, a: real, a2: real, g: real, m: real, q: real,
                      ra: real, d: real, rv: real, al: real, be: real, p: real, de: real, rr: real,
                      e: real, n: real, h: real)
    requires Sizes(k, x, v, r, a, a2, g, m, q, ra, d) && Coefficients(k, r, v, rv, al, be, p, de, rr)
    requires OnCurve(al, be, p, de, rr, x, e, n, h)
    ensures e == d
  {
    hide *;
    DenominatorTerms(k, x, v, r, a, a2, g, m, q, ra, d, rv, al, be, p, de, rr, e, n, h);
    DenominatorCore(k, x, v, r, a, g, q, ra, d, p, de, rr, e);
  }

  lemma DenominatorTerms(k: real, x: real, v: real, r: real, a: real, a2: real, g: real, m: real, q: real,
                         ra: real, d: real, rv: real, al: real, be: real, p: real, de: real, rr: real,
                         e: real, n: real, h: real)
    requires Sizes(k, x, v, r, a, a2, g, m, q, ra, d) && Coefficients(k, r, v, rv, al, be, p, de, rr)
    requires OnCurve(al, be, p, de, rr, x, e, n, h)
    ensures a == r + x && g == k * x && q == a + k * v && ra == r * a && d == ra + k * g * q
    ensures p == k * k && de == r + k * k * r + k * k * k * v && rr == r * r && e == p * (x * x) + de * x + rr
  {}

  lemma DenominatorCore(k: real, x: real, v: real, r: real, a: real, g: real, q: real, ra: real, d: real,
                        p: real, de: real, rr: real, e: real)
    requires a == r + x && g == k * x && q == a + k * v && ra == r * a && d == ra + k * g * q
    requires p == k * k && de == r + k * k * r + k * k * k * v && rr == r * r && e == p * (x * x) + de * x + rr
    ensures e == d
  {}

  lemma Numerator(k: real, x: real, v: real, r: real, a: real, a2: real, g: real, m: real, q: real, ra: real, d: real,
                  rv: real, al: real, be: real, p: real, de: real, rr: real, l: real, top: real)
    requires Sizes(k, x, v, r, a, a2, g, m, q, ra, d) && Coefficients(k, r, v, rv, al, be, p, de, rr)
    requires l == al * x + be && top == k * g * a2 * q
    ensures x * l + x * d == top
  {
    hide *;
    NumeratorTerms(k, x, v, r, a, a2, g, m, q, ra, d, rv, al, be, p, de, rr);
    NumeratorCore(k, x, v, r, q, ra, al, be, l, rv);
    NumeratorOver(k, x, g, q, ra, d, l, rv, a2, top);
  }

  lemma NumeratorTerms(k: real, x: real, v: real, r: real, a: real, a2: real, g: real, m: real, q: real,
                       ra: real, d: real,
                       rv: real, al: real, be: real, p: real, de: real, rr: real)
    requires Sizes(k, x, v, r, a, a2, g, m, q, ra, d) && Coefficients(k, r, v, rv, al, be, p, de, rr)
    ensures a2 == rv + x && g == k * x && d == ra + k * g * q && q == r + x + k * v && ra == r * (r + x)
            && rv == r + v
    ensures al == k * k * (r + v) - r && be == k * k * (r + k * v) * (r + v) - r * r
  {}

  lemma NumeratorCore(k: real, x: real, v: real, r: real, q: real, ra: real, al: real, be: real, l: real, rv: real)
    requires q == r + x + k * v && ra == r * (r + x) && rv == r + v
    requires al == k * k * (r + v) - r && be == k * k * (r + k * v) * (r + v) - r * r && l == al * x + be
    ensures l + ra == k * k * (rv * q)
  {}

  lemma NumeratorOver(k: real, x: real, g: real, q: real, ra: real, d: real, l: real, rv: real, a2: real, top: real)
    requires l + ra == k * k * (rv * q) && d == ra + k * g * q && g == k * x && a2 == rv + x && top == k * g * a2 * q
    ensures x * l + x * d == top
  {}

  // ---------------------------------------------------------------------
  // The profit closure
  // ---------------------------------------------------------------------

  function ShapeOf(t: SandwichTarget): (s: Shape)
    requires t.rIn > 0
    ensures s.Valid()
  {
    ShapeIsValid(Kept(t.fee), t.rIn as real, t.victimIn as real);
    SandwichShape(Kept(t.fee), t.rIn as real, t.victimIn as real)
  }

  /** One unit, and twice the price of an output unit at twice the input reserve plus the victim's input. */
  function RoundingCost(t: SandwichTarget): (e: real)
    requires t.rIn > 0 && t.rOut > 0
    ensures e >= 1.0
  {
    var z := 2.0 * t.rIn as real + t.victimIn as real;
    Product(t.rOut as real, t.rIn as real);
    1.0 + Ratio(2.0 * (z * z), t.rOut as real * t.rIn as real)
  }

  /** The back leg's output with the three floors, for any size up to the reserve. */
  function BackOut(t: SandwichTarget, x: nat): nat
    requires t.rOut > 0
  {
    var out1 := V2AmountOut(x, t.rIn, t.rOut, t.fee);
    V2SwapKeepsProduct(x, t.rIn, t.rOut, t.fee);
    var victimOut := V2AmountOut(t.victimIn, t.rIn + x, t.rOut - out1, t.fee);
    V2SwapKeepsProduct(t.victimIn, t.rIn + x, t.rOut - out1, t.fee);
    V2AmountOut(out1, t.rOut - out1 - victimOut, t.rIn + x + t.victimIn, t.fee)
  }

  /** The three legs of a sandwich as the source computes them. */
  ghost predicate Legs(k: real, x: real, v: real, r: real, rOut: real, o: real, o1: real, w: real, w1: real,
                       e: real, back: real) {
    && 0.0 <= o1 && w1 < rOut - o1 && rOut > 0.0
    && Leg(k, x, r, rOut, o, o1) && Leg(k, v, r + x, rOut - o1, w, w1)
    && Leg(k, o1, rOut - o1 - w1, r + x + v, e, back)
  }

  lemma LegsOf(t: SandwichTarget, x: nat) returns (o: real, o1: real, w: real, w1: real, e: real)
    requires t.rIn > 0 && t.rOut > 0
    ensures Legs(Kept(t.fee), x as real, t.victimIn as real, t.rIn as real, t.rOut as real, o, o1, w, w1, e,
                 BackOut(t, x) as real)
  {
    hide V2AmountOut, Leg, Kept;
    var out1 := V2AmountOut(x, t.rIn, t.rOut, t.fee);
    V2SwapKeepsProduct(x, t.rIn, t.rOut, t.fee);
    var victimOut := V2AmountOut(t.victimIn, t.rIn + x, t.rOut - out1, t.fee);
    V2SwapKeepsProduct(t.victimIn, t.rIn + x, t.rOut - out1, t.fee);
    o := QuoteIsLeg(x, t.rIn, t.rOut, t.fee);
    w := QuoteIsLeg(t.victimIn, t.rIn + x, t.rOut - out1, t.fee);
    e := QuoteIsLeg(out1, t.rOut - out1 - victimOut, t.rIn + x + t.victimIn, t.fee);
    o1, w1 := out1 as real, victimOut as real;
    assert (t.rIn + x) as real == t.rIn as real + x as real && (t.rOut - out1) as real == t.rOut as real - o1;
    assert (t.rOut - out1 - victimOut) as real == t.rOut as real - o1 - w1;
    assert (t.rIn + x + t.victimIn) as real == t.rIn as real + x as real + t.victimIn as real;
  }

  lemma BackNearCurve(t: SandwichTarget, x: nat)
    requires t.rIn > 0 && t.rOut > 0 && x <= t.rIn
    ensures var b := ShapeOf(t).At(x as real) + x as real;
            BackOut(t, x) as real <= b <= BackOut(t, x) as real + RoundingCost(t)
  {
    assert ShapeOf(t) == SandwichShape(Kept(t.fee), t.rIn as real, t.victimIn as real);
    CostIs(t);
    hide *;
    var o, o1, w, w1, e := LegsOf(t, x);
    var k, r, v, b := Kept(t.fee), t.rIn as real, t.victimIn as real, ShapeOf(t).At(x as real) + x as real;
    var a, a2, g, m, q, ra, d := SizesOf(k, x as real, v, r);
    CurveIsUnrounded(k, x as real, v, r, a, a2, g, m, q, ra, d, ShapeOf(t), b);
    ThreeLegs(k, x as real, v, r, a, a2, g, m, q, ra, d, t.rOut as real, o, o1, w, w1, e,
              BackOut(t, x) as real, b, RoundingCost(t));
  }

  /** The cost in terms of the reserves, without the division. */
  ghost predicate Cost(r: real, rOut: real, v: real, cost: real) {
    var z := 2.0 * r + v;
    (cost - 1.0) * (rOut * r) == 2.0 * (z * z)
  }

  lemma CostIs(t: SandwichTarget)
    requires t.rIn > 0 && t.rOut > 0
    ensures Cost(t.rIn as real, t.rOut as real, t.victimIn as real, RoundingCost(t))
  {}

  lemma ThreeLegs(k: real, x: real, v: real, r: real, a: real, a2: real, g: real, m: real, q: real, ra: real, d: real,
                  rOut: real, o: real, o1: real, w: real, w1: real, e: real, back: real, b: real, cost: real)
    requires Sizes(k, x, v, r, a, a2, g, m, q, ra, d) && Unrounded(b, d, k, g, a2, q)
    requires Legs(k, x, v, r, rOut, o, o1, w, w1, e, back) && Cost(r, rOut, v, cost)
    ensures back <= b <= back + cost
  {
    hide *;
    var base, y := rOut * r, rOut - o1 - w1;
    AfterVictim(k, x, v, r, a, a2, g, m, q, ra, d, rOut, o, o1, w, w1, e, back, y, base);
    BackLeg(k, x, v, r, a, a2, g, m, q, ra, d, rOut, base, o, o1, y, b, e, back);
    SizesBounded(k, x, v, r, a, a2, g, m, q, ra, d);
    Product(rOut, r);
    CostCovers(b - e, base, a2, r, rOut, v, cost);
  }

  lemma SizesOf(k: real, x: real, v: real, r: real)
    returns (a: real, a2: real, g: real, m: real, q: real, ra: real, d: real)
    requires 0.0 <= k <= 1.0 && 0.0 <= x <= r && v >= 0.0 && r > 0.0
    ensures Sizes(k, x, v, r, a, a2, g, m, q, ra, d)
  {
    a, a2, g, q := r + x, r + x + v, k * x, r + x + k * v;
    m, ra := r + g, r * a;
    d := ra + k * g * q;
  }

  lemma AfterVictim(k: real, x: real, v: real, r: real, a: real, a2: real, g: real, m: real, q: real, ra: real,
                    d: real,
                    rOut: real, o: real, o1: real, w: real, w1: real, e: real, back: real, y: real, base: real)
    requires Sizes(k, x, v, r, a, a2, g, m, q, ra, d) && Legs(k, x, v, r, rOut, o, o1, w, w1, e, back)
    requires y == rOut - o1 - w1 && base == rOut * r
    ensures Left(a, base, y, q, m) && y > 0.0 && o1 >= 0.0 && rOut > 0.0
    ensures Leg(k, x, r, rOut, o, o1) && Leg(k, o1, y, a2, e, back) && back <= e < back + 1.0
  {
    SizesBounded(k, x, v, r, a, a2, g, m, q, ra, d);
    assert a == r + x && a2 == r + x + v;
    assert back <= e < back + 1.0;
    hide Leg, Left;
    OutputLeft(k, x, v, r, a, rOut, o, o1, w, w1, rOut - o1, y, base, m, q);
  }

  lemma CostCovers(dif: real, base: real, a2: real, r: real, rOut: real, v: real, cost: real)
    requires base == rOut * r && base > 0.0 && 0.0 <= a2 <= 2.0 * r + v && dif * base <= 2.0 * (a2 * a2)
    requires Cost(r, rOut, v, cost)
    ensures dif <= cost - 1.0
  {
    var z, c := 2.0 * r + v, cost - 1.0;
    var s, u, t := a2 * a2, a2 * z, z * z;
    ScaleTo(a2, z, a2, s, u);
    ScaleTo(a2, z, z, u, t);
    CancelTo(dif, c, base, dif * base, c * base);
  }
  // ---------------------------------------------------------------------
  // How good the returned size is
  // ---------------------------------------------------------------------

  function Gain(t: SandwichTarget): nat -> real
    requires t.rIn > 0
  {
    (x: nat) => ShapeOf(t).At(x as real)
  }

  /** Up to the last profitable size no leg fails, so the closure is just the three floors. */
  lemma BelowProfitable(t: SandwichTarget, x: nat, y: nat)
    requires t.rIn > 0 && t.rOut > 0 && x <= y && t.ProfitOf(y) > 0
    ensures t.ProfitOf(x) == MonusNat(BackOut(t, x), x)
  {
    hide V2AmountOut;
    var ox, oy := V2AmountOut(x, t.rIn, t.rOut, t.fee), V2AmountOut(y, t.rIn, t.rOut, t.fee);
    V2SwapKeepsProduct(x, t.rIn, t.rOut, t.fee);
    V2SwapKeepsProduct(t.victimIn, t.rIn + x, t.rOut - ox, t.fee);
    V2Monotone(y, t.rIn, t.rOut, x, t.rIn, t.rOut, t.fee);
    V2Monotone(t.victimIn, t.rIn + x, t.rOut - ox, t.victimIn, t.rIn + y, t.rOut - oy, t.fee);
    var wx := V2AmountOut(t.victimIn, t.rIn + x, t.rOut - ox, t.fee);
    NothingForNothing(t.rOut - ox - wx, t.rIn + x + t.victimIn, t.fee);
  }

  lemma NothingForNothing(rIn: nat, rOut: nat, fee: FeeBps)
    ensures V2AmountOut(0, rIn, rOut, fee) == 0
  {}

  lemma GainNearCurve(t: SandwichTarget, x: nat, y: nat)
    requires t.rIn > 0 && t.rOut > 0 && x <= y <= t.rIn && t.ProfitOf(y) > 0
    ensures Gain(t)(x) - RoundingCost(t) <= t.ProfitOf(x) as real
    ensures t.ProfitOf(x) > 0 ==> t.ProfitOf(x) as real <= Gain(t)(x)
  {
    BelowProfitable(t, x, y);
    BackNearCurve(t, x);
  }

  lemma GainAboveChord(t: SandwichTarget, a: nat, b: nat, c: nat)
    requires t.rIn > 0 && t.rOut > 0 && a <= b <= c <= t.rIn && t.ProfitOf(c) > 0
    ensures AboveChord(Gain(t), a, b, c)
  {
    var s, x, y, z := ShapeOf(t), a as real, b as real, c as real;
    GainNearCurve(t, c, c);
    assert s.At(z) > 0.0 && s == SandwichShape(Kept(t.fee), t.rIn as real, t.victimIn as real);
    ChordOf(Kept(t.fee), t.rIn as real, t.victimIn as real, s, x, y, z, (b - a) as real, (c - b) as real);
    hide Shape.At, Kept, OnOrAbove;
  }

  lemma ChordOf(k: real, r: real, v: real, s: Shape, x: real, y: real, z: real, u: real, w: real)
    requires 0.0 <= k <= 1.0 && r > 0.0 && v >= 0.0 && s == SandwichShape(k, r, v) && s.Valid()
    requires 0.0 <= x <= y <= z <= r && s.At(z) > 0.0 && u == y - x && w == z - y
    ensures OnOrAbove(s.At(x), s.At(y), s.At(z), u, w)
  {
    hide *;
    RisesFromZero(s, z);
    SandwichIsConcave(k, r, v, s, x, y, z);
    Restated(s.At(x), s.At(y), s.At(z), x, y, z, u, w);
  }

  lemma Restated(ha: real, hb: real, hc: real, a: real, b: real, c: real, u: real, w: real)
    requires hb * (c - a) >= ha * (c - b) + hc * (b - a) && u == b - a && w == c - b
    ensures OnOrAbove(ha, hb, hc, u, w)
  {}

  lemma RisesFromZero(s: Shape, z: real)
    requires s.Valid() && z >= 0.0 && s.At(z) > 0.0
    ensures s.al * z + s.be > 0.0
  {
    hide *;
    var n := AtIsOnCurve(s, z);
    SignOnCurve(s.al, s.be, s.p, s.de, s.rr, z, s.Denominator(z), n, s.At(z));
  }

  lemma SignOnCurve(al: real, be: real, p: real, de: real, rr: real, z: real, d: real, n: real, h: real)
    requires OnCurve(al, be, p, de, rr, z, d, n, h) && h > 0.0 && z >= 0.0
    ensures al * z + be > 0.0
  {}

  lemma GainIdealizes(t: SandwichTarget, hi: nat)
    requires t.rIn > 0 && t.rOut > 0 && hi <= t.rIn
    ensures Idealizes(Gain(t), t.Curve(), RoundingCost(t), hi)
  {
    hide Gain, AboveChord, RoundingCost, SandwichTarget.ProfitOf;
    assert Gain(t)(0) == 0.0 by { GainAtZero(t); }
    forall x: nat, y: nat | x <= y <= hi && t.Curve()(y) > 0
      ensures Gain(t)(x) - RoundingCost(t) <= t.Curve()(x) as real
      ensures t.Curve()(x) > 0 ==> t.Curve()(x) as real <= Gain(t)(x)
    {
      GainNearCurve(t, x, y);
    }
    forall a: nat, b: nat, c: nat | a <= b <= c <= hi && t.Curve()(c) > 0 ensures AboveChord(Gain(t), a, b, c) {
      GainAboveChord(t, a, b, c);
    }
  }

  lemma GainAtZero(t: SandwichTarget)
    requires t.rIn > 0
    ensures Gain(t)(0) == 0.0
  {}

  /** With no assumption on the curve: no size up to `hi` earns more than the searched
      one by more than the rounding of the search. */
  lemma SandwichIsNearlyOptimal(t: SandwichTarget, hi: nat, best: nat)
    requires t.rIn > 0 && t.rOut > 0 && hi <= t.rIn && SearchEndsAt(t.Curve(), 0, hi, best)
    ensures NearlyOptimal(t.Curve(), RoundingCost(t), hi, t.ProfitOf(best))
  {
    GainIdealizes(t, hi);
    SearchIsNearlyOptimal(Gain(t), t.Curve(), RoundingCost(t), hi, best);
    hide NearlyOptimal, RoundingCost, SandwichTarget.ProfitOf;
    assert t.Curve()(best) == t.ProfitOf(best);
  }
}
