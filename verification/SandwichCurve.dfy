/** The sandwich profit without rounding: a quotient of two quadratics that is
    concave wherever it is positive, up to the input reserve. */
module SandwichCurve {
  import opened Ideal
  import opened Reals

  // ---------------------------------------------------------------------
  // The curve
  // ---------------------------------------------------------------------

  /** The curve `x -> x * (al * x + be) / (p * x * x + de * x + rr)`. */
  datatype Shape = Shape(al: real, be: real, p: real, de: real, rr: real) {

    predicate Valid() {
      p >= 0.0 && de >= 0.0 && rr > 0.0
    }

    function Denominator(x: real): real {
      p * (x * x) + de * x + rr
    }

    function At(x: real): real
      requires Valid() && x >= 0.0
    {
      DenominatorPositive(this, x);
      Ratio(x * (al * x + be), Denominator(x))
    }
  }

  lemma DenominatorPositive(s: Shape, x: real)
    requires s.Valid() && x >= 0.0
    ensures s.Denominator(x) > 0.0
  {
    assert s.p * (x * x) >= 0.0;
    Positive(s.de, x);
  }

  /** What a sandwich earns with no rounding: `k` is the part of every input kept
      after the fee, `r` the input reserve and `v` the victim's input. The output
      reserve cancels out. */
  function SandwichShape(k: real, r: real, v: real): Shape {
    Shape(k * k * (r + v) - r, k * k * (r + k * v) * (r + v) - r * r, k * k, r + k * k * r + k * k * k * v, r * r)
  }

  /** How its coefficients hang together; `ka` is `k * k * k * v`. */
  ghost predicate Terms(al: real, be: real, p: real, ka: real, r: real, v: real, de: real, rr: real) {
    && 0.0 <= p <= 1.0 && ka >= 0.0 && r > 0.0 && v >= 0.0 && rr == r * r
    && al == p * (r + v) - r && be == al * r + ka * (r + v) && de == r + p * r + ka
  }

  lemma ShapeTerms(k: real, r: real, v: real) returns (ka: real)
    requires 0.0 <= k <= 1.0 && r > 0.0 && v >= 0.0
    ensures var s := SandwichShape(k, r, v); s.Valid() && Terms(s.al, s.be, s.p, ka, r, v, s.de, s.rr)
  {
    var s := SandwichShape(k, r, v);
    var p, rr, kv := s.p, s.rr, k * v;
    ka := p * kv;
    var pr := p * r;
    Fraction(k, k, p);
    Square(r, rr);
    Positive(k, v);
    Positive(p, kv);
    Positive(p, r);
    BetaTerms(k, r, v, p, kv, ka, rr, s.al, s.be);
    assert s.de == r + pr + ka;
  }

  lemma ShapeIsValid(k: real, r: real, v: real)
    requires 0.0 <= k <= 1.0 && r > 0.0 && v >= 0.0
    ensures SandwichShape(k, r, v).Valid()
  {
    var ka := ShapeTerms(k, r, v);
  }

  lemma BetaTerms(k: real, r: real, v: real, p: real, kv: real, ka: real, rr: real, al: real, be: real)
    requires p == k * k && kv == k * v && ka == p * kv && rr == r * r
    requires al == p * (r + v) - r && be == k * k * (r + k * v) * (r + v) - rr
    ensures be == al * r + ka * (r + v)
  {}

  // ---------------------------------------------------------------------
  // Slopes
  // ---------------------------------------------------------------------

  /** The numerator of the slope between two points of the curve. */
  function Slope(al: real, be: real, p: real, de: real, rr: real, a: real, b: real): real {
    (al * de - be * p) * (a * b) + al * rr * (a + b) + be * rr
  }

  /** `h` is the curve's value `n / d` at `x`. */
  ghost predicate OnCurve(al: real, be: real, p: real, de: real, rr: real, x: real, d: real, n: real, h: real) {
    d > 0.0 && d == p * (x * x) + de * x + rr && n == x * (al * x + be) && h * d == n
  }

  lemma AtIsOnCurve(s: Shape, x: real) returns (n: real)
    requires s.Valid() && x >= 0.0
    ensures OnCurve(s.al, s.be, s.p, s.de, s.rr, x, s.Denominator(x), n, s.At(x))
  {
    n := x * (s.al * x + s.be);
    DenominatorPositive(s, x);
  }

  lemma SlopeOf(al: real, be: real, p: real, de: real, rr: real,
                a: real, da: real, na: real, ha: real, b: real, db: real, nb: real, hb: real)
    requires OnCurve(al, be, p, de, rr, a, da, na, ha) && OnCurve(al, be, p, de, rr, b, db, nb, hb)
    ensures (hb - ha) * (da * db) == (b - a) * Slope(al, be, p, de, rr, a, b)
  {
    Crossed(ha, hb, da, db, na, nb);
    assert nb * da - na * db == (b - a) * Slope(al, be, p, de, rr, a, b);
  }

  /** How the slopes of two neighbouring stretches differ, from the product `x` of
      their three ends, the sum `y` of its pairs and the sum `z` of the ends. */
  function Bend(al: real, be: real, p: real, de: real, rr: real, x: real, y: real, z: real): real {
    (al * de - be * p) * p * x + al * p * rr * y + be * p * rr * z - rr * (al * rr - be * de)
  }

  /** Three points up to the reserve, their product, the sum of their pairs and their sum. */
  ghost predicate Ends(a: real, b: real, c: real, r: real, rr: real, ab: real, x: real, y: real, z: real) {
    && 0.0 <= a <= b <= c <= r && rr == r * r && ab == a * b && x == ab * c
    && x == a * b * c && y == a * b + b * c + c * a && z == a + b + c
  }

  lemma EndsOf(a: real, b: real, c: real, r: real) returns (rr: real, ab: real, x: real, y: real, z: real)
    requires 0.0 <= a <= b <= c <= r
    ensures Ends(a, b, c, r, rr, ab, x, y, z)
  {
    rr, ab, x, y, z := r * r, a * b, a * b * c, a * b + b * c + c * a, a + b + c;
  }

  lemma SlopesBend(al: real, be: real, p: real, de: real, s: real, a: real, b: real, c: real, da: real, dc: real)
    requires da == p * (a * a) + de * a + s && dc == p * (c * c) + de * c + s
    ensures Slope(al, be, p, de, s, a, b) * dc - Slope(al, be, p, de, s, b, c) * da
         == (c - a) * Bend(al, be, p, de, s, a * b * c, a * b + b * c + c * a, a + b + c)
  {}

  /** With a bend that is not negative the second slope is no steeper. */
  lemma SlopesFallIfBent(al: real, be: real, p: real, de: real, rr: real, a: real, b: real, c: real,
                         r: real, r2: real, ab: real, x: real, y: real, z: real,
                         da: real, na: real, ha: real, dc: real, nc: real, hc: real)
    requires Ends(a, b, c, r, r2, ab, x, y, z) && Bend(al, be, p, de, rr, x, y, z) >= 0.0
    requires OnCurve(al, be, p, de, rr, a, da, na, ha) && OnCurve(al, be, p, de, rr, c, dc, nc, hc)
    ensures Slope(al, be, p, de, rr, a, b) * dc >= Slope(al, be, p, de, rr, b, c) * da
  {
    hide Slope, Bend;
    var bend := Bend(al, be, p, de, rr, x, y, z);
    SlopesBend(al, be, p, de, rr, a, b, c, da, dc);
    Positive(c - a, bend);
  }

  // ---------------------------------------------------------------------
  // Which way the curve bends
  // ---------------------------------------------------------------------

  /** The bend over the reserve, sorted into what is never negative. */
  function BendSum(al: real, be: real, p: real, ka: real, r: real, de: real, x: real, y: real, z: real): real {
    al * p * x + al * p * r * y + (be * p * r * z - ka * p * x) + r * (be * de - al * r * r)
  }

  /** Up to the input reserve the curve bends down as long as the profit is positive. */
  lemma BendIsPositive(al: real, be: real, p: real, ka: real, r: real, v: real, de: real, rr: real,
                       a: real, b: real, c: real, r2: real, ab: real, x: real, y: real, z: real)
    requires Terms(al, be, p, ka, r, v, de, rr) && Ends(a, b, c, r, r2, ab, x, y, z) && al * c + be > 0.0
    ensures Bend(al, be, p, de, rr, x, y, z) >= 0.0
  {
    hide *;
    EndsBounded(a, b, c, r, r2, ab, x, y, z);
    CrossTerm(al, be, p, ka, r, v, de, rr);
    assert r2 == rr;
    if al >= 0.0 {
      RisingBend(al, be, p, ka, r, v, de, rr, x, y, z);
    } else {
      FallingBend(al, be, p, ka, r, v, de, rr, a, b, c, r2, ab, x, y, z);
    }
    BendIsTimesSum(al, be, p, ka, r, v, de, rr, x, y, z);
    Positive(r, BendSum(al, be, p, ka, r, de, x, y, z));
  }

  lemma BendIsTimesSum(al: real, be: real, p: real, ka: real, r: real, v: real, de: real, rr: real,
                       x: real, y: real, z: real)
    requires Terms(al, be, p, ka, r, v, de, rr)
    ensures r > 0.0 && Bend(al, be, p, de, rr, x, y, z) == r * BendSum(al, be, p, ka, r, de, x, y, z)
  {
    CrossTerm(al, be, p, ka, r, v, de, rr);
    hide Terms;
    BendIsTimes(al, be, p, ka, r, de, rr, x, y, z);
  }

  lemma CrossTerm(al: real, be: real, p: real, ka: real, r: real, v: real, de: real, rr: real)
    requires Terms(al, be, p, ka, r, v, de, rr)
    ensures r > 0.0 && rr == r * r && al * de - be * p == r * (al - ka)
  {}

  lemma BendIsTimes(al: real, be: real, p: real, ka: real, r: real, de: real, rr: real, x: real, y: real, z: real)
    requires rr == r * r && al * de - be * p == r * (al - ka)
    ensures Bend(al, be, p, de, rr, x, y, z) == r * BendSum(al, be, p, ka, r, de, x, y, z)
  {}

  lemma EndsBounded(a: real, b: real, c: real, r: real, rr: real, ab: real, x: real, y: real, z: real)
    requires Ends(a, b, c, r, rr, ab, x, y, z)
    ensures 0.0 <= ab <= rr && 0.0 <= x <= rr * z && x <= rr * r && y >= 0.0 && z >= 0.0 && rr == r * r
  {
    var rb, rc, rz, cube := r * b, rr * c, rr * z, rr * r;
    Positive(a, b);
    Positive(b, c);
    Positive(c, a);
    Positive(ab, c);
    ScaleTo(a, r, b, ab, rb);
    ScaleTo(b, r, r, rb, rr);
    ScaleTo(ab, rr, c, x, rc);
    ScaleTo(c, z, rr, rc, rz);
    ScaleTo(c, r, rr, rc, cube);
  }

  /** A rising numerator outweighs the rest by itself. */
  lemma RisingBend(al: real, be: real, p: real, ka: real, r: real, v: real, de: real, rr: real, x: real,
                   y: real, z: real)
    requires Terms(al, be, p, ka, r, v, de, rr) && al >= 0.0
    requires 0.0 <= x <= rr * z && y >= 0.0 && z >= 0.0
    ensures BendSum(al, be, p, ka, r, de, x, y, z) >= 0.0
  {
    var alr, kar, kav, pr, ap, kp := al * r, ka * r, ka * v, p * r, al * p, ka * p;
    Positive(al, r);
    Positive(ka, r);
    Positive(ka, v);
    Positive(p, r);
    Positive(al, p);
    Positive(ka, p);
    assert be == alr + kar + kav && de == r + pr + ka && rr == r * r;
    hide Terms;
    var apr, prz, rrz := ap * r, pr * z, rr * z;
    Positive(ap, x);
    Positive(ap, r);
    Positive(apr, y);
    Positive(pr, z);
    var kpx, krz, bprz := kp * x, kp * rrz, be * prz;
    ScaleTo(x, rrz, kp, kpx, krz);
    assert krz == kar * prz by { Regrouped(ka, p, r, rr, z, kp, rrz, pr, krz, kar, prz); }
    ScaleTo(kar, be, prz, krz, bprz);
    var alrr, ber, bde := alr * r, be * r, be * de;
    ScaleTo(alr, be, r, alrr, ber);
    ScaleTo(r, de, be, ber, bde);
    var gap := bde - alrr;
    Positive(r, gap);
    RisingSum(al, be, p, ka, r, de, x, y, z, ap, apr, bprz, kpx, gap);
  }

  lemma Regrouped(ka: real, p: real, r: real, rr: real, z: real, kp: real, rrz: real, pr: real, krz: real,
                  kar: real, prz: real)
    requires rr == r * r && kp == ka * p && rrz == rr * z && pr == p * r
    requires krz == kp * rrz && kar == ka * r && prz == pr * z
    ensures krz == kar * prz
  {}

  lemma RisingSum(al: real, be: real, p: real, ka: real, r: real, de: real, x: real, y: real, z: real,
                  ap: real, apr: real, bprz: real, kpx: real, gap: real)
    requires ap == al * p && apr == ap * r && bprz == be * (p * r * z) && kpx == ka * p * x
             && gap == be * de - al * r * r
    ensures BendSum(al, be, p, ka, r, de, x, y, z) == ap * x + apr * y + (bprz - kpx) + r * gap
  {}

  /** A falling one does so up to where it reaches zero. */
  lemma FallingBend(al: real, be: real, p: real, ka: real, r: real, v: real, de: real, rr: real,
                    a: real, b: real, c: real, r2: real, ab: real, x: real, y: real, z: real)
    requires Terms(al, be, p, ka, r, v, de, rr) && Ends(a, b, c, r, r2, ab, x, y, z)
    requires 0.0 <= ab <= r2 && 0.0 <= x <= r2 * r && al < 0.0 && al * c + be > 0.0
    ensures BendSum(al, be, p, ka, r, de, x, y, z) >= 0.0
  {
    var m := -al;
    var sum, bk := m * r + be, be * ka;
    var t, u, w := be * r2 - m * x, be * z - m * y, r * (r * sum) - ka * p * x;
    var mc := m * c;
    Positive(m, c);
    assert sum == ka * (r + v);
    FallsOverProduct(m, be, r2, ab, c, mc, x, t);
    FallsOverPairs(m, be, a, b, c, mc, r, r2, ab, x, y, z, u);
    VictimCovers(ka, p, x, r, v, r2, sum, w);
    Positive(be, ka);
    Positive(r, bk);
    Positive(p, t);
    var pr := p * r;
    Positive(p, r);
    Positive(pr, u);
    FallingSum(m, be, p, ka, r, r2, de, x, y, z, t, u, w, pr, bk);
  }

  lemma FallingSum(m: real, be: real, p: real, ka: real, r: real, r2: real, de: real, x: real, y: real, z: real,
                   t: real, u: real, w: real, pr: real, bk: real)
    requires de == r + p * r + ka && r2 == r * r && pr == p * r && bk == be * ka
    requires t == be * r2 - m * x && u == be * z - m * y && w == r * (r * (m * r + be)) - ka * p * x
    ensures BendSum(-m, be, p, ka, r, de, x, y, z) == p * t + pr * u + w + r * bk
  {}

  lemma FallsOverProduct(m: real, be: real, r2: real, ab: real, c: real, mc: real, x: real, t: real)
    requires 0.0 <= ab <= r2 && x == ab * c && mc == m * c && mc < be && m >= 0.0 && be >= 0.0
    requires t == be * r2 - m * x
    ensures t >= 0.0
  {}

  lemma FallsOverPairs(m: real, be: real, a: real, b: real, c: real, mc: real, r: real, r2: real, ab: real,
                       x: real, y: real, z: real, u: real)
    requires Ends(a, b, c, r, r2, ab, x, y, z) && mc == m * c && mc < be && m >= 0.0 && be >= 0.0
    requires u == be * z - m * y
    ensures u >= 0.0
  {
    var mb, ba, bb, bc := m * b, be * a, be * b, be * c;
    ScaleTo(b, c, m, mb, mc);
    var mab, mbc, mca := mb * a, mc * b, mc * a;
    ScaleTo(mb, be, a, mab, ba);
    ScaleTo(mc, be, b, mbc, bb);
    ScaleTo(mc, be, a, mca, ba);
    ScaleTo(a, c, be, ba, bc);
    assert m * y == mab + mbc + mca && be * z == ba + bb + bc;
  }

  lemma VictimCovers(ka: real, p: real, x: real, r: real, v: real, r2: real, sum: real, w: real)
    requires ka >= 0.0 && 0.0 <= p <= 1.0 && r > 0.0 && v >= 0.0 && r2 == r * r && sum == ka * (r + v)
    requires 0.0 <= x <= r2 * r && w == r * (r * sum) - ka * p * x
    ensures w >= 0.0
  {
    var px, cube, kcube, kpx, kv := p * x, r2 * r, ka * (r2 * r), ka * (p * x), ka * v;
    Fraction(p, x, px);
    ScaleTo(px, cube, ka, kpx, kcube);
    Positive(ka, v);
    Positive(r, kv);
    var rest := r * kv;
    Positive(r, rest);
    assert r * (r * sum) == kcube + r * rest;
  }

  // ---------------------------------------------------------------------
  // Concavity
  // ---------------------------------------------------------------------

  /** Where the curve is positive it is concave, up to the input reserve. */
  lemma SandwichIsConcave(k: real, r: real, v: real, s: Shape, a: real, b: real, c: real)
    requires 0.0 <= k <= 1.0 && r > 0.0 && v >= 0.0 && s == SandwichShape(k, r, v) && s.Valid()
    requires 0.0 <= a <= b <= c <= r && s.al * c + s.be > 0.0
    ensures s.At(b) * (c - a) >= s.At(a) * (c - b) + s.At(c) * (b - a)
  {
    hide *;
    var r2, ab, x, y, z := EndsOf(a, b, c, r);
    var ka := ShapeTerms(k, r, v);
    BendIsPositive(s.al, s.be, s.p, ka, r, v, s.de, s.rr, a, b, c, r2, ab, x, y, z);
    var na := AtIsOnCurve(s, a);
    var nb := AtIsOnCurve(s, b);
    var nc := AtIsOnCurve(s, c);
    ConcaveIfBent(s.al, s.be, s.p, s.de, s.rr, a, b, c, r, r2, ab, x, y, z,
                  s.Denominator(a), na, s.At(a), s.Denominator(b), nb, s.At(b), s.Denominator(c), nc, s.At(c));
  }

  lemma ConcaveIfBent(al: real, be: real, p: real, de: real, rr: real, a: real, b: real, c: real,
                      r: real, r2: real, ab: real, x: real, y: real, z: real,
                      da: real, na: real, ha: real, db: real, nb: real, hb: real, dc: real, nc: real, hc: real)
    requires a <= b <= c && Ends(a, b, c, r, r2, ab, x, y, z) && Bend(al, be, p, de, rr, x, y, z) >= 0.0
    requires OnCurve(al, be, p, de, rr, a, da, na, ha) && OnCurve(al, be, p, de, rr, b, db, nb, hb)
    requires OnCurve(al, be, p, de, rr, c, dc, nc, hc)
    ensures hb * (c - a) >= ha * (c - b) + hc * (b - a)
  {
    assert da > 0.0 && db > 0.0 && dc > 0.0;
    hide *;
    SlopeOf(al, be, p, de, rr, a, da, na, ha, b, db, nb, hb);
    SlopeOf(al, be, p, de, rr, b, db, nb, hb, c, dc, nc, hc);
    SlopesFallIfBent(al, be, p, de, rr, a, b, c, r, r2, ab, x, y, z, da, na, ha, dc, nc, hc);
    SlopesFall(a, b, c, ha, hb, hc, da, db, dc, Slope(al, be, p, de, rr, a, b), Slope(al, be, p, de, rr, b, c));
  }
}
