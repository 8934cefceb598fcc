/** How good the search's result is on a curve that is concave but for rounding.
    Floors make the profit curves of `dex.rs` jagged, so they need not have a peak. */
module NearOptimum {
  import opened Reals
  import opened TernarySearch

  /** The middle one of three values, `u` after the first and `w` before the last, is on
      or above their chord. */
  ghost predicate OnOrAbove(ha: real, hb: real, hc: real, u: real, w: real) {
    hb * (u + w) >= ha * w + hc * u
  }

  /** `b` lies on or above the chord from `a` to `c`. */
  ghost predicate AboveChord(h: nat -> real, a: nat, b: nat, c: nat) {
    OnOrAbove(h(a), h(b), h(c), (b - a) as real, (c - b) as real)
  }

  /** `h` is an ideal curve for `f`: never below a positive value of `f`, and, up to
      the last positive value, concave and at most `e` above `f`. */
  ghost predicate Idealizes(h: nat -> real, f: nat -> nat, e: real, hi: nat) {
    && e >= 0.0 && h(0) >= 0.0
    && (forall x: nat :: x <= hi && f(x) > 0 ==> f(x) as real <= h(x))
    && (forall x: nat, y: nat :: x <= y <= hi && f(y) > 0 ==> h(x) - e <= f(x) as real)
    && (forall a: nat, b: nat, c: nat :: a <= b <= c <= hi && f(c) > 0 ==> AboveChord(h, a, b, c))
  }

  /** Some positive point of the interval is worth at most `loss` less than `y`, or
      `y` is worth at most that much itself. */
  ghost predicate Retains(h: nat -> real, f: nat -> nat, y: nat, r: (nat, nat), loss: real) {
    h(y) <= loss || exists z: nat :: Worth(h, f, y, r, loss, z)
  }

  ghost predicate Worth(h: nat -> real, f: nat -> nat, y: nat, r: (nat, nat), loss: real, z: nat) {
    r.0 <= z <= r.1 && f(z) > 0 && h(y) <= h(z) + loss
  }

  /** Left of a climb between the probes nothing is worth much more than the right probe. */
  lemma ClimbLosesLittle(h: nat -> real, f: nat -> nat, e: real, hi: nat, z: nat, m1: nat, m2: nat)
    requires Idealizes(h, f, e, hi) && z <= m1 < m2 <= hi && m1 - z <= m2 - m1
    requires f(m1) < f(m2)
    ensures h(z) <= h(m2) + 2.0 * e
  {
    assert h(m1) - e <= f(m1) as real && f(m2) as real <= h(m2);
    assert AboveChord(h, z, m1, m2);
    var outer, inner := (m1 - z) as real, (m2 - m1) as real;
    hide Idealizes, OnOrAbove;
    ChordBound(h(z), h(m1), h(m2), e, outer, inner);
  }

  /** Right of a tie or a fall nothing is worth much more than the left probe, or than nothing. */
  lemma FallLosesLittle(h: nat -> real, f: nat -> nat, e: real, hi: nat, z: nat, m1: nat, m2: nat)
    requires Idealizes(h, f, e, hi) && m1 < m2 < z <= hi && z - m2 <= m2 - m1 && 2 * z <= 3 * m2
    requires f(m1) >= f(m2) && f(z) > 0
    ensures if f(m1) > 0 then h(z) <= h(m1) + 2.0 * e else h(z) <= 2.0 * e
  {
    assert h(m2) - e <= f(m2) as real && h(0) >= 0.0;
    assert f(m1) > 0 ==> f(m1) as real <= h(m1);
    assert AboveChord(h, m1, m2, z) && AboveChord(h, 0, m2, z);
    var outer, inner := (z - m2) as real, (m2 - m1) as real;
    hide Idealizes, OnOrAbove;
    if f(m1) > 0 {
      ChordBound(h(z), h(m2), h(m1), e, outer, inner);
    } else {
      FromZero(h(z), h(m2), h(0), e, outer, m2 as real);
    }
  }

  /** A chord over two stretches in either order, the outer one no longer than the inner. */
  lemma ChordBound(hz: real, hm: real, hn: real, e: real, outer: real, inner: real)
    requires 0.0 <= outer <= inner && inner > 0.0 && e >= 0.0
    requires OnOrAbove(hz, hm, hn, outer, inner) || OnOrAbove(hn, hm, hz, inner, outer)
    requires hm <= hn + e
    ensures hz <= hm + e
  {
    var drop, rise := hm - hn, hz - hm;
    var s, t, u, w := rise * inner, drop * outer, e * outer, e * inner;
    assert s <= t;
    hide OnOrAbove;
    ScaleTo(drop, e, outer, t, u);
    ScaleTo(outer, inner, e, u, w);
    CancelTo(rise, e, inner, s, w);
  }

  lemma FromZero(hz: real, hm: real, h0: real, e: real, outer: real, inner: real)
    requires 0.0 < inner && 0.0 <= outer && 2.0 * outer <= inner && e >= 0.0
    requires OnOrAbove(h0, hm, hz, inner, outer)
    requires h0 >= 0.0 && hm <= e
    ensures hz <= 2.0 * e
  {
    var both := outer + inner;
    var s, t, u, w := hz * inner, hm * both, e * both, 2.0 * e * inner;
    Positive(h0, outer);
    assert s <= t;
    ScaleTo(hm, e, both, t, u);
    ScaleTo(both, 2.0 * inner, e, u, w);
    CancelTo(hz, 2.0 * e, inner, s, w);
  }

  lemma PassRetains(h: nat -> real, f: nat -> nat, e: real, hi: nat, y: nat, r: (nat, nat), loss: real)
    requires Idealizes(h, f, e, hi) && Wide(r) && r.1 <= hi && Retains(h, f, y, r, loss)
    ensures Retains(h, f, y, Pass(f, r.0, r.1), loss + 2.0 * e)
  {
    var e2 := loss + 2.0 * e;
    assert e2 >= loss;
    hide Idealizes, AboveChord;
    if h(y) > loss {
      var q := Pass(f, r.0, r.1);
      var third := (r.1 - r.0) / 3;
      var m1, m2 := r.0 + third, r.1 - third;
      var z: nat :| Worth(h, f, y, r, loss, z);
      if f(m1) < f(m2) {
        if z <= m1 {
          ClimbLosesLittle(h, f, e, hi, z, m1, m2);
          assert Worth(h, f, y, q, e2, m2);
        } else {
          assert Worth(h, f, y, q, e2, z);
        }
      } else if z > m2 {
        FallLosesLittle(h, f, e, hi, z, m1, m2);
        assert f(m1) > 0 ==> Worth(h, f, y, q, e2, m1);
      } else {
        assert Worth(h, f, y, q, e2, z);
      }
    }
  }

  /** The rounding of two comparisons in each of `n` passes. */
  function Loss(e: real, n: nat): real {
    2.0 * e * n as real
  }

  lemma LossGrows(e: real, n: nat)
    requires e >= 0.0
    ensures 0.0 <= Loss(e, n) && Loss(e, n + 1) == Loss(e, n) + 2.0 * e
  {}

  /** One round of the loop, whether or not it still narrows. */
  lemma RoundRetains(h: nat -> real, f: nat -> nat, e: real, hi: nat, y: nat, r: (nat, nat), loss: real)
    requires Idealizes(h, f, e, hi) && r.0 <= r.1 <= hi && Retains(h, f, y, r, loss)
    ensures Retains(h, f, y, if Wide(r) then Pass(f, r.0, r.1) else r, loss + 2.0 * e)
  {
    if Wide(r) {
      PassRetains(h, f, e, hi, y, r, loss);
    } else if h(y) > loss {
      var z: nat :| Worth(h, f, y, r, loss, z);
      assert Worth(h, f, y, r, loss + 2.0 * e, z);
    }
  }

  lemma {:induction false} AfterRetains(h: nat -> real, f: nat -> nat, e: real, hi: nat, y: nat, n: nat)
    requires Idealizes(h, f, e, hi) && y <= hi && f(y) > 0
    ensures Retains(h, f, y, After(f, 0, hi, n), Loss(e, n))
  {
    assert e >= 0.0;
    hide Idealizes, Pass, Wide, Retains;
    if n == 0 {
      assert Retains(h, f, y, (0, hi), Loss(e, 0)) by { StartRetains(h, f, y, hi); }
    } else {
      AfterRetains(h, f, e, hi, y, n - 1);
      AfterStaysInside(f, 0, hi, n - 1);
      LossGrows(e, n - 1);
      RoundRetains(h, f, e, hi, y, After(f, 0, hi, n - 1), Loss(e, n - 1));
    }
  }

  lemma StartRetains(h: nat -> real, f: nat -> nat, y: nat, hi: nat)
    requires y <= hi && f(y) > 0
    ensures Retains(h, f, y, (0, hi), 0.0)
  {
    assert Worth(h, f, y, (0, hi), 0.0, y);
  }

  /** No point beats the one the search returns by more than the rounding of two
      comparisons per pass and of the result itself. */
  lemma SearchLosesLittle(h: nat -> real, f: nat -> nat, e: real, hi: nat, n: nat, best: nat)
    requires Idealizes(h, f, e, hi) && EndsAfter(f, 0, hi, n, best) && n < 256
    ensures forall y: nat :: y <= hi ==> f(y) as real <= f(best) as real + Loss(e, n) + e
  {
    LossGrows(e, n);
    forall y: nat | y <= hi ensures f(y) as real <= f(best) as real + Loss(e, n) + e {
      if f(y) > 0 {
        AfterRetains(h, f, e, hi, y, n);
        var r := After(f, 0, hi, n);
        AfterStaysInside(f, 0, hi, n);
        hide Loss, After;
        if h(y) > Loss(e, n) {
          var z: nat :| Worth(h, f, y, r, Loss(e, n), z);
          assert f(z) <= f(best);
          assert h(z) - e <= f(z) as real;
        }
      }
    }
  }

  /** No point of `[0, hi]` beats `earned` by more than two roundings for each pass
      the search can take, and one for the result. */
  ghost predicate NearlyOptimal(f: nat -> nat, e: real, hi: nat, earned: nat) {
    forall k: nat, x: nat :: k < 256 && hi <= Reach(k) && x <= hi ==> f(x) as real <= earned as real + Loss(e, k) + e
  }

  /** The search over any range it can narrow before its guard stops it. */
  lemma SearchIsNearlyOptimal(h: nat -> real, f: nat -> nat, e: real, hi: nat, best: nat)
    requires Idealizes(h, f, e, hi) && SearchEndsAt(f, 0, hi, best)
    ensures NearlyOptimal(f, e, hi, f(best))
  {
    var n: nat :| EndsAfter(f, 0, hi, n, best);
    assert e >= 0.0;
    if n < 256 {
      SearchLosesLittle(h, f, e, hi, n, best);
    }
    forall k: nat | k < 256 && hi <= Reach(k) ensures n <= k && Loss(e, n) <= Loss(e, k) {
      ReachCovers(f, 0, hi, k, k);
      LossAtMost(e, n, k);
    }
    hide Idealizes, Loss, EndsAfter;
  }

  lemma LossAtMost(e: real, n: nat, k: nat)
    requires n <= k && e >= 0.0
    ensures Loss(e, n) <= Loss(e, k)
  {}

  /** Over 112-bit reserves that is 383 roundings. */
  lemma OverReserves(f: nat -> nat, e: real, hi: nat, earned: nat)
    requires NearlyOptimal(f, e, hi, earned) && hi < 0x1_0000_0000_0000_0000_0000_0000_0000
    ensures forall x: nat :: x <= hi ==> f(x) as real <= earned as real + 383.0 * e
  {
    ReachOf190();
    hide Reach;
    assert hi <= Reach(191);
  }

  /** Some point is worth more than the search can lose to rounding. */
  ghost predicate WorthFinding(f: nat -> nat, e: real, hi: nat) {
    exists k: nat, x: nat :: k < 256 && hi <= Reach(k) && x <= hi && f(x) as real > Loss(e, k) + e
  }

  /** Then the search does not come back with nothing. */
  lemma FindsWhatIsWorthFinding(f: nat -> nat, e: real, hi: nat, earned: nat)
    requires NearlyOptimal(f, e, hi, earned) && WorthFinding(f, e, hi)
    ensures earned > 0
  {
    var k: nat, x: nat :| k < 256 && hi <= Reach(k) && x <= hi && f(x) as real > Loss(e, k) + e;
  }
}
