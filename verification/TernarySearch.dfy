/** The integer ternary search of `dex.rs`. */
module TernarySearch {
  import opened Arithmetic

  /** The loop runs while the interval holds more than three points. */
  predicate Wide(r: (nat, nat)) {
    r.1 > r.0 + 2
  }

  /** One pass of the narrowing loop over `[lo, hi]`. */
  function Pass(f: nat -> nat, lo: nat, hi: nat): (nat, nat)
    requires Wide((lo, hi))
  {
    var third := (hi - lo) / 3;
    if f(lo + third) < f(hi - third) then (lo + third + 1, hi) else (lo, hi - third)
  }

  /** The interval after `n` rounds of the loop, guard aside. */
  function After(f: nat -> nat, lo: nat, hi: nat, n: nat): (nat, nat) {
    if n == 0 then (lo, hi)
    else
      var r := After(f, lo, hi, n - 1);
      if Wide(r) then Pass(f, r.0, r.1) else r
  }

  /** The loop runs exactly `n` passes: each one was needed, and it ends because
      the interval is narrow or because the guard has counted to 256. */
  ghost predicate StopsAfter(f: nat -> nat, lo: nat, hi: nat, n: nat) {
    n <= 256
    && (forall m :: 0 <= m < n ==> Wide(After(f, lo, hi, m)))
    && (n == 256 || !Wide(After(f, lo, hi, n)))
  }

  lemma {:induction false} StaysNarrow(f: nat -> nat, lo: nat, hi: nat, n: nat, m: nat)
    requires n <= m && !Wide(After(f, lo, hi, n))
    ensures After(f, lo, hi, m) == After(f, lo, hi, n)
  {
    if n < m {
      StaysNarrow(f, lo, hi, n, m - 1);
    }
  }

  lemma WideUntil(f: nat -> nat, lo: nat, hi: nat, n: nat)
    requires n > 0 ==> Wide(After(f, lo, hi, n - 1))
    ensures forall m :: 0 <= m < n ==> Wide(After(f, lo, hi, m))
  {
    forall m | 0 <= m < n ensures Wide(After(f, lo, hi, m)) {
      if !Wide(After(f, lo, hi, m)) {
        StaysNarrow(f, lo, hi, m, n - 1);
      }
    }
  }

  /** `best` is the first of the points from `lo` up to, not including, `end` at
      which `f` is largest (`lo` itself if there is no such point). */
  ghost predicate FirstMax(f: nat -> nat, lo: nat, end: nat, best: nat) {
    lo <= best
    && (best < end || best == lo)
    && (forall y :: lo <= y < best ==> f(y) < f(best))
    && (forall y :: best <= y < end ==> f(y) <= f(best))
  }

  lemma FirstMaxExtends(f: nat -> nat, lo: nat, x: nat, best: nat)
    requires lo <= x && FirstMax(f, lo, x, best)
    ensures FirstMax(f, lo, x + 1, if f(x) > f(best) then x else best)
  {}

  /** `best` is where the search over `[lo, hi]` ends up. */
  ghost predicate SearchEndsAt(f: nat -> nat, lo: nat, hi: nat, best: nat) {
    exists n :: EndsAfter(f, lo, hi, n, best)
  }

  ghost predicate EndsAfter(f: nat -> nat, lo: nat, hi: nat, n: nat, best: nat) {
    StopsAfter(f, lo, hi, n) && var r := After(f, lo, hi, n); FirstMax(f, r.0, r.1 + 1, best)
  }

  lemma AfterUnfolds(f: nat -> nat, lo: nat, hi: nat, n: nat)
    ensures After(f, lo, hi, 0) == (lo, hi)
    ensures var r := After(f, lo, hi, n); After(f, lo, hi, n + 1) == if Wide(r) then Pass(f, r.0, r.1) else r
  {}

  lemma SearchEnds(f: nat -> nat, lo: nat, hi: nat, n: nat, best: nat)
    requires n <= 256 && (n == 256 || !Wide(After(f, lo, hi, n)))
    requires forall m :: 0 <= m < n ==> Wide(After(f, lo, hi, m))
    requires var r := After(f, lo, hi, n); FirstMax(f, r.0, r.1 + 1, best)
    ensures EndsAfter(f, lo, hi, n, best) && SearchEndsAt(f, lo, hi, best)
    ensures lo <= hi ==> lo <= best <= hi
  {
    assert EndsAfter(f, lo, hi, n, best);
    if lo <= hi {
      AfterStaysInside(f, lo, hi, n);
    }
  }

  /** `passes` and `scanned` count the rounds of the two loops, so the search
      evaluates `f` exactly `2 * passes + 1 + scanned` times. */
  method TernarySearchMax(lo: nat, hi: nat, f: nat -> nat)
    returns (best: nat, bestV: nat, ghost passes: nat, ghost scanned: nat)
    ensures bestV == f(best) && SearchEndsAt(f, lo, hi, best) && (lo <= hi ==> lo <= best <= hi)
    ensures EndsAfter(f, lo, hi, passes, best)
    ensures var r := After(f, lo, hi, passes); scanned == MonusNat(r.1 + 1, r.0)
  {
    hide After, FirstMax, SearchEndsAt, StopsAfter;
    var lo': nat, hi': nat, guard: nat := lo, hi, 0;
    assert After(f, lo, hi, 0) == (lo, hi) by { AfterUnfolds(f, lo, hi, 0); }
    while hi' > lo' + 2 && guard < 256
      invariant guard <= 256 && (lo', hi') == After(f, lo, hi, guard)
      invariant guard > 0 ==> Wide(After(f, lo, hi, guard - 1))
    {
      assert After(f, lo, hi, guard + 1) == Pass(f, lo', hi') by { AfterUnfolds(f, lo, hi, guard); }
      guard := guard + 1;
      var span := hi' - lo';
      var third: nat := span / 3;
      var m1, m2 := lo' + third, hi' - third;
      ghost var next := Pass(f, lo', hi');
      if f(m1) < f(m2) {
        assert next == (m1 + 1, hi');
        lo' := m1 + 1;
      } else {
        assert next == (lo', m2);
        hi' := m2;
      }
    }
    passes := guard;
    best, bestV, scanned := ScanMax(lo', hi', f);
    WideUntil(f, lo, hi, guard);
    SearchEnds(f, lo, hi, passes, best);
  }

  /** The closing scan of the search. */
  method ScanMax(lo: nat, hi: nat, f: nat -> nat) returns (best: nat, bestV: nat, ghost scanned: nat)
    ensures FirstMax(f, lo, hi + 1, best) && bestV == f(best)
    ensures scanned == MonusNat(hi + 1, lo)
  {
    best := lo;
    bestV := f(lo);
    var x: nat := lo;
    scanned := 0;
    while x <= hi
      invariant lo <= x && (x <= hi + 1 || x == lo)
      invariant FirstMax(f, lo, x, best) && bestV == f(best)
      invariant scanned == x - lo
    {
      FirstMaxExtends(f, lo, x, best);
      var v := f(x);
      if v > bestV {
        bestV := v;
        best := x;
      }
      x := x + 1;
      scanned := scanned + 1;
    }
  }

  // ---------------------------------------------------------------------
  // What the search finds
  // ---------------------------------------------------------------------

  /** `f` climbs strictly up to `p` and never climbs again; plateaus are allowed
      to the right of the peak but not to its left. */
  ghost predicate Peaked(f: nat -> nat, r: (nat, nat), p: nat) {
    r.0 <= p <= r.1
    && (forall a, b :: r.0 <= a < b <= p ==> f(a) < f(b))
    && (forall a, b :: p <= a <= b <= r.1 ==> f(a) >= f(b))
  }

  /** A pass leaves two thirds of the interval, up to rounding either way. */
  lemma PassShrinks(f: nat -> nat, lo: nat, hi: nat)
    requires Wide((lo, hi))
    ensures var (lo', hi') := Pass(f, lo, hi);
            && lo <= lo' < hi' <= hi
            && 3 * (hi' - lo' - 2) <= 2 * (hi - lo - 2)
            && 3 * (hi' - lo' + 3) >= 2 * (hi - lo + 3)
  {}

  /** Exactly which points a pass keeps. The probes stand a third of the span, rounded
      down, from either end; a climb between them drops the left one and all before it,
      anything else drops what lies beyond the right one. */
  lemma PassKeepsExactly(f: nat -> nat, lo: nat, hi: nat, m1: nat, m2: nat, y: nat)
    requires Wide((lo, hi)) && lo <= y <= hi
    requires lo <= m1 && 3 * (m1 - lo) <= hi - lo < 3 * (m1 - lo) + 3 && m2 + (m1 - lo) == hi
    ensures var q := Pass(f, lo, hi);
            q.0 <= y <= q.1 <==> if f(m1) < f(m2) then m1 < y else y <= m2
  {}

  lemma {:induction false} AfterStaysInside(f: nat -> nat, lo: nat, hi: nat, n: nat)
    requires lo <= hi
    ensures var r := After(f, lo, hi, n); lo <= r.0 <= r.1 <= hi
  {
    if n > 0 {
      AfterStaysInside(f, lo, hi, n - 1);
      var r := After(f, lo, hi, n - 1);
      if Wide(r) {
        PassShrinks(f, r.0, r.1);
      }
    }
  }

  /** No pass drops the peak: a tie or a fall between the probes puts the peak at
      or left of the right probe, a climb puts it right of the left probe. */
  lemma PassKeepsPeak(f: nat -> nat, lo: nat, hi: nat, p: nat)
    requires Wide((lo, hi)) && Peaked(f, (lo, hi), p)
    ensures Peaked(f, Pass(f, lo, hi), p)
  {
    var third := (hi - lo) / 3;
    var m1, m2 := lo + third, hi - third;
    assert lo < m1 < m2 < hi;
    if f(m1) < f(m2) {
      assert !(p <= m1);
    } else {
      assert !(m2 <= p);
    }
  }

  lemma {:induction false} AfterKeepsPeak(f: nat -> nat, lo: nat, hi: nat, n: nat, p: nat)
    requires Peaked(f, (lo, hi), p)
    ensures Peaked(f, After(f, lo, hi, n), p)
  {
    if n > 0 {
      AfterKeepsPeak(f, lo, hi, n - 1, p);
      var r := After(f, lo, hi, n - 1);
      if Wide(r) {
        PassKeepsPeak(f, r.0, r.1, p);
      }
      hide Pass, Peaked;
    }
  }

  /** Whenever there is a peak, the search returns it: the smallest of all
      argmaxes, with the largest value on the whole interval, guard or no guard. */
  lemma SearchFindsPeak(f: nat -> nat, lo: nat, hi: nat, best: nat, p: nat)
    requires Peaked(f, (lo, hi), p) && SearchEndsAt(f, lo, hi, best)
    ensures best == p
    ensures forall y :: lo <= y <= hi ==> f(y) <= f(best)
  {
    var n :| EndsAfter(f, lo, hi, n, best);
    AfterKeepsPeak(f, lo, hi, n, p);
    assert f(best) <= f(p) <= f(best);
  }

  /** The same up to a tolerance `w`: `f` rises over every stretch of `w` points
      before `p` and does not rise over one after it. Floors leave curves no better. */
  ghost predicate NearlyPeaked(f: nat -> nat, r: (nat, nat), p: nat, w: nat) {
    r.0 <= p <= r.1
    && (forall a, b :: r.0 <= a && a + w <= b <= p ==> f(a) < f(b))
    && (forall a, b :: p <= a && a + w <= b <= r.1 ==> f(a) >= f(b))
  }

  ghost predicate AllNear(r: (nat, nat), p: nat, d: nat) {
    r.1 <= p + d && p <= r.0 + d
  }

  /** Either the interval still has the peak, or all of it is near where the peak was. */
  ghost predicate Localized(f: nat -> nat, r: (nat, nat), p: nat, w: nat) {
    NearlyPeaked(f, r, p, w) || AllNear(r, p, 3 * w)
  }

  /** Probes a tolerance apart keep the peak; once they are closer, every point left is near it. */
  lemma PassLocalizes(f: nat -> nat, r: (nat, nat), p: nat, w: nat)
    requires Wide(r) && Localized(f, r, p, w)
    ensures Localized(f, Pass(f, r.0, r.1), p, w)
  {
    PassShrinks(f, r.0, r.1);
    if !AllNear(r, p, 3 * w) {
      var third := (r.1 - r.0) / 3;
      var m1, m2 := r.0 + third, r.1 - third;
      assert m1 + w <= m2;
      if f(m1) < f(m2) {
        assert !(p <= m1);
      } else {
        assert !(m2 <= p);
      }
    }
  }

  lemma {:induction false} AfterLocalizes(f: nat -> nat, lo: nat, hi: nat, n: nat, p: nat, w: nat)
    requires Localized(f, (lo, hi), p, w)
    ensures Localized(f, After(f, lo, hi, n), p, w)
  {
    hide Pass, Localized, Wide;
    if n > 0 {
      AfterLocalizes(f, lo, hi, n - 1, p, w);
      if Wide(After(f, lo, hi, n - 1)) {
        PassLocalizes(f, After(f, lo, hi, n - 1), p, w);
      }
    }
  }

  /** A search that is not cut short by the guard ends within three tolerances of such a peak. */
  lemma SearchFindsNearPeak(f: nat -> nat, lo: nat, hi: nat, n: nat, best: nat, p: nat, w: nat)
    requires w > 0 && NearlyPeaked(f, (lo, hi), p, w)
    requires EndsAfter(f, lo, hi, n, best) && n < 256
    ensures AllNear((best, best), p, 3 * w)
  {
    AfterLocalizes(f, lo, hi, n, p, w);
    AfterStaysInside(f, lo, hi, n);
  }

  /** The search has one outcome, so its contract pins the result for every `f`. */
  lemma SearchIsDeterministic(f: nat -> nat, lo: nat, hi: nat, a: nat, b: nat)
    requires SearchEndsAt(f, lo, hi, a) && SearchEndsAt(f, lo, hi, b)
    ensures a == b
  {
    var m :| EndsAfter(f, lo, hi, m, a);
    var n :| EndsAfter(f, lo, hi, n, b);
    SamePasses(f, lo, hi, m, n);
    var r := After(f, lo, hi, n);
    assert FirstMax(f, r.0, r.1 + 1, a) && FirstMax(f, r.0, r.1 + 1, b);
    hide After, StopsAfter;
  }

  lemma SamePasses(f: nat -> nat, lo: nat, hi: nat, m: nat, n: nat)
    requires StopsAfter(f, lo, hi, m) && StopsAfter(f, lo, hi, n)
    ensures m == n
  {}

  // ---------------------------------------------------------------------
  // How long the search takes
  // ---------------------------------------------------------------------

  /** The widest span `n` passes are sure to narrow to three points. */
  function Reach(n: nat): (r: nat)
    ensures r >= 2
  {
    if n == 0 then 2 else Reach(n - 1) + Reach(n - 1) / 2
  }

  /** Every pass adds half, rounded down: `n` passes beyond the `m`-th multiply the
      reach by `(3/2)^n`, give or take one unit of the `m`-th. */
  lemma {:induction false} ReachGrowth(m: nat, n: nat)
    ensures Pow(3, n) * (Reach(m) - 1) <= Pow(2, n) * (Reach(m + n) - 1)
    ensures Pow(2, n) * Reach(m + n) <= Pow(3, n) * Reach(m)
  {
    if n > 0 {
      ReachGrowth(m, n - 1);
      HalfMore(Pow(3, n - 1), Pow(2, n - 1), Reach(m), Reach(m + n - 1), Reach(m + n));
    } else {
      assert Pow(3, 0) == 1 && Pow(2, 0) == 1;
    }
  }

  lemma HalfMore(p: nat, w: nat, first: nat, r: nat, next: nat)
    requires p * (first - 1) <= w * (r - 1) && w * r <= p * first
    requires 2 * next <= 3 * r <= 2 * next + 1
    ensures 3 * p * (first - 1) <= 2 * w * (next - 1) && 2 * w * next <= 3 * p * first
  {
    MulLeLeft(w, 2 * next, 3 * r);
    MulLeLeft(w, 3 * (r - 1), 2 * (next - 1));
  }

  /** Whatever `f` is, a pass brings the span within one pass less of its end. */
  lemma {:induction false} ReachCovers(f: nat -> nat, lo: nat, hi: nat, n: nat, k: nat)
    requires lo <= hi && hi - lo <= Reach(k) && n <= k
    ensures SpanWithin(After(f, lo, hi, n), Reach(k - n))
  {
    hide Pass, Reach, Wide;
    if n > 0 {
      ReachCovers(f, lo, hi, n - 1, k);
      RoundCovers(f, After(f, lo, hi, n - 1), k - n);
    }
  }

  predicate SpanWithin(r: (nat, nat), span: nat) {
    r.0 <= r.1 && r.1 - r.0 <= span
  }

  lemma RoundCovers(f: nat -> nat, r: (nat, nat), k: nat)
    requires SpanWithin(r, Reach(k + 1))
    ensures SpanWithin(if Wide(r) then Pass(f, r.0, r.1) else r, Reach(k))
  {
    assert Reach(k + 1) == Reach(k) + Reach(k) / 2;
  }

  /** On a flat curve every pass keeps as much as a pass can keep. */
  lemma {:induction false} FlatCurveIsSlow(lo: nat, hi: nat, n: nat, k: nat)
    requires lo <= hi && hi - lo > Reach(k) && n <= k
    ensures var r := After(Flat, lo, hi, n); r.1 - r.0 > Reach(k - n)
  {
    if n > 0 {
      FlatCurveIsSlow(lo, hi, n - 1, k);
      AfterStaysInside(Flat, lo, hi, n - 1);
    }
  }

  function Flat(x: nat): nat {
    0
  }

  lemma {:induction false} SearchStops(f: nat -> nat, lo: nat, hi: nat, n: nat) returns (stop: nat)
    requires n <= 256 && forall m :: 0 <= m < n ==> Wide(After(f, lo, hi, m))
    ensures n <= stop && StopsAfter(f, lo, hi, stop)
    decreases 256 - n
  {
    if n == 256 || !Wide(After(f, lo, hi, n)) {
      stop := n;
    } else {
      stop := SearchStops(f, lo, hi, n + 1);
    }
  }

  /** Exactly the spans on which no search at all takes more than `k` passes. */
  lemma PassesWithinIff(lo: nat, hi: nat, k: nat)
    requires lo <= hi && k < 256
    ensures (forall f: nat -> nat, n: nat :: StopsAfter(f, lo, hi, n) ==> n <= k) <==> hi - lo <= Reach(k)
  {
    if hi - lo <= Reach(k) {
      forall f: nat -> nat, n: nat | StopsAfter(f, lo, hi, n) ensures n <= k {
        ReachCovers(f, lo, hi, k, k);
      }
    } else {
      forall m | 0 <= m < k + 1 ensures Wide(After(Flat, lo, hi, m)) {
        FlatCurveIsSlow(lo, hi, m, k);
      }
      var n := SearchStops(Flat, lo, hi, k + 1);
      assert StopsAfter(Flat, lo, hi, n);
    }
  }

  lemma ReachOf10()
    ensures Reach(10) == 94
  {
    assert Reach(0) == 2 && Reach(1) == 3 && Reach(2) == 4 && Reach(3) == 6;
    assert Reach(4) == 9 && Reach(5) == 13 && Reach(6) == 19 && Reach(7) == 28;
    assert Reach(8) == 42 && Reach(9) == 63;
  }

  /** 120 passes are enough up to some span between `2^70` and `2^71`. */
  lemma ReachOf120()
    ensures 0x40_0000_0000_0000_0000 < Reach(120) < 0x80_0000_0000_0000_0000
  {
    hide Reach, Pow;
    ReachOf10();
    ReachGrowth(10, 110);
    LargePowers();
  }

  /** Over reserves of at most 112 bits the guard of 256 never binds, 191 passes
      are enough, and the final scan looks at no more than three points. */
  lemma ReservesEndWithin191(f: nat -> nat, lo: nat, hi: nat, n: nat)
    requires lo <= hi && hi - lo < 0x1_0000_0000_0000_0000_0000_0000_0000 && StopsAfter(f, lo, hi, n)
    ensures n <= 191 && !Wide(After(f, lo, hi, n))
  {
    ReachOf190();
    ReachCovers(f, lo, hi, 191, 191);
  }

  /** The widest such range is out of reach of 190 passes. */
  lemma ReachOf190()
    ensures Reach(190) < 0xffff_ffff_ffff_ffff_ffff_ffff_ffff < Reach(191)
  {
    assert Reach(191) == Reach(190) + Reach(190) / 2;
    hide Reach, Pow;
    ReachOf10();
    ReachGrowth(10, 180);
    LargePowers();
  }

  lemma LargePowers()
    ensures Pow(3, 110) == 0x5156_c7b5_2959_eb51_76ff_82e0_3b94_10a1_d5d2_2dd2_daf9
    ensures Pow(2, 110) == 0x4000_0000_0000_0000_0000_0000_0000
    ensures Pow(3, 180) == 0x2736_7561_cddf_d3aa_fb8e_a1fd_4470_b117_1c34_de2c_2f9a_b7b3_74a1_45d4_b58a_f2f0_c76f_1c11
    ensures Pow(2, 180) == 0x10_0000_0000_0000_0000_0000_0000_0000_0000_0000_0000_0000
  {
    assert Pow(3, 5) == 243;
    PowerOfSum(3, 5, 5, 0xf3, 0xf3);
    PowerOfSum(3, 10, 10, 0xe6a9, 0xe6a9);
    PowerOfSum(3, 20, 20, 0xcfd4_1b91, 0xcfd4_1b91);
    PowerOfSum(3, 40, 5, 0xa8b8_b452_291f_e821, 0xf3);
    PowerOfSum(3, 45, 10, 0xa0_2753_29fd_0949_5753, 0xe6a9);
    PowerOfSum(3, 55, 55, 0x90_4d0e_ada0_0e63_05df_37cb, 0x90_4d0e_ada0_0e63_05df_37cb);
    PowerOfSum(3, 45, 45, 0xa0_2753_29fd_0949_5753, 0xa0_2753_29fd_0949_5753);
    PowerOfSum(3, 90, 90, 0x6431_2dfe_ee1a_f578_8cfe_c317_6d34_c11f_84e9,
               0x6431_2dfe_ee1a_f578_8cfe_c317_6d34_c11f_84e9);
    assert Pow(2, 5) == 32;
    PowerOfSum(2, 5, 5, 0x20, 0x20);
    PowerOfSum(2, 10, 10, 0x400, 0x400);
    PowerOfSum(2, 20, 20, 0x10_0000, 0x10_0000);
    PowerOfSum(2, 40, 5, 0x100_0000_0000, 0x20);
    PowerOfSum(2, 45, 10, 0x2000_0000_0000, 0x400);
    PowerOfSum(2, 55, 55, 0x80_0000_0000_0000, 0x80_0000_0000_0000);
    PowerOfSum(2, 45, 45, 0x2000_0000_0000, 0x2000_0000_0000);
    PowerOfSum(2, 90, 90, 0x400_0000_0000_0000_0000_0000, 0x400_0000_0000_0000_0000_0000);
  }

  lemma PowerOfSum(base: nat, m: nat, n: nat, v: nat, w: nat)
    requires Pow(base, m) == v && Pow(base, n) == w
    ensures Pow(base, m + n) == v * w
  {
    PowAdd(base, m, n);
  }
}
