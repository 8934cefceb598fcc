/** The same pricing on wrapping 256-bit words, as `U256` computes it. */
module Words {
  import opened Arithmetic
  import opened Options
  import opened Pricing
  import Routes
  import opened Sandwich
  import opened Sizing

  const WORD: nat := 0x1_0000_0000_0000_0000_0000_0000_0000_0000_0000_0000_0000_0000_0000_0000_0000_0000

  type Word = n: nat | n < WORD

  /** The residue of an exact result. */
  function Wrap(n: int): Word {
    n % WORD
  }

  function Add(a: Word, b: Word): Word {
    Wrap(a + b)
  }

  function Sub(a: Word, b: Word): Word {
    Wrap(a - b)
  }

  function Mul(a: Word, b: Word): Word {
    Wrap(a * b)
  }

  function V2AmountOutW(amountIn: Word, reserveIn: Word, reserveOut: Word, fee: FeeBps): Word {
    if amountIn == 0 || reserveIn == 0 || reserveOut == 0 then 0
    else
      var amountInWithFee := Mul(amountIn, 10_000 - fee);
      var numerator := Mul(amountInWithFee, reserveOut);
      var denominator := Add(Mul(reserveIn, 10_000), amountInWithFee);
      if denominator == 0 then 0 else Quotient(numerator, denominator)
  }

  function Quotient(n: Word, d: Word): Word
    requires d > 0
  {
    QuotientAtMost(n, d);
    n / d
  }

  function SandwichProfitW(rIn: Word, rOut: Word, fee: FeeBps, victimIn: Word, victimMinOut: nat, x: Word): nat {
    if x == 0 then 0
    else
      var out1 := V2AmountOutW(x, rIn, rOut, fee);
      if out1 == 0 || out1 >= rOut then 0
      else
        var (rIn2, rOut2) := (Add(rIn, x), Sub(rOut, out1));
        var victimOut := V2AmountOutW(victimIn, rIn2, rOut2, fee);
        if victimOut == 0 || victimOut >= rOut2 then 0
        else if victimMinOut != 0 && victimOut < victimMinOut then 0
        else
          var (rIn3, rOut3) := (Add(rIn2, victimIn), Sub(rOut2, victimOut));
          MonusNat(V2AmountOutW(out1, rOut3, rIn3, fee), x)
  }

  function CycleProfitW(arIn: Word, arOut: Word, aFee: FeeBps, brIn: Word, brOut: Word, bFee: FeeBps, x: Word): nat {
    var mid := V2AmountOutW(x, arIn, arOut, aFee);
    if mid == 0 then 0
    else MonusNat(V2AmountOutW(mid, brIn, brOut, bFee), x)
  }

  predicate Fits112(n: nat) {
    n < 0x1_0000_0000_0000_0000_0000_0000_0000
  }

  predicate Fits114(n: nat) {
    n < 0x4_0000_0000_0000_0000_0000_0000_0000
  }

  /** A word is 256 bits wide, and a wrapped result differs from the exact one by a
      multiple of `2^256`. */
  lemma WrapIsResidue(n: int)
    ensures WORD == Pow(2, 256) == U256_MAX + 1
    ensures exists k: int :: n == Wrap(n) + k * Pow(2, 256)
  {
    WordIsPower();
    assert n == Wrap(n) + n / WORD * WORD;
    hide Pow;
  }

  lemma WordIsPower()
    ensures WORD == Pow(2, 256) == U256_MAX + 1
  {
    PowerOfSixteen();
    hide Pow;
    Squared(16, 0x1_0000);
    Squared(32, 0x1_0000_0000);
    Squared(64, 0x1_0000_0000_0000_0000);
    Squared(128, 0x1_0000_0000_0000_0000_0000_0000_0000_0000);
  }

  lemma PowerOfSixteen()
    ensures Pow(2, 16) == 0x1_0000
  {
    PowAdd(2, 8, 8);
    assert Pow(2, 8) == 0x100;
  }

  lemma Squared(n: nat, v: nat)
    requires Pow(2, n) == v
    ensures Pow(2, 2 * n) == v * v
  {
    PowAdd(2, n, n);
    hide Pow;
  }

  lemma AddFits(a: Word, b: Word)
    requires a + b < WORD
    ensures Add(a, b) == a + b
  {}

  lemma SubFits(a: Word, b: Word)
    requires b <= a
    ensures Sub(a, b) == a - b
  {}

  lemma MulFits(a: Word, b: Word, p: nat)
    requires p == a * b && p < WORD
    ensures Mul(a, b) == p
  {}

  /** Every value a quote computes on the way, before any wrapping. */
  ghost predicate IntermediatesFit(x: nat, rIn: nat, rOut: nat, fee: FeeBps) {
    var a := x * (10_000 - fee);
    StepsFit(a, a * rOut, rIn * 10_000)
  }

  ghost predicate StepsFit(a: nat, n: nat, b: nat) {
    a < WORD && n < WORD && b < WORD && b + a < WORD
  }

  /** No step of a quote over 114-bit operands reaches `2^256`, so wrapping changes nothing. */
  lemma QuoteFits(x: nat, rIn: nat, rOut: nat, fee: FeeBps)
    requires Fits114(x) && Fits114(rIn) && Fits114(rOut)
    ensures IntermediatesFit(x, rIn, rOut, fee)
    ensures V2AmountOutW(x, rIn, rOut, fee) == V2AmountOut(x, rIn, rOut, fee)
  {
    SmallOperands(x, rIn, rOut, fee);
    assert x < WORD && rIn < WORD && rOut < WORD;
    hide *;
    NothingWraps(x, rIn, rOut, fee);
  }

  lemma SmallOperands(x: nat, rIn: nat, rOut: nat, fee: FeeBps)
    requires Fits114(x) && Fits114(rIn) && Fits114(rOut)
    ensures IntermediatesFit(x, rIn, rOut, fee)
  {
    var g: nat, a := 10_000 - fee, x * (10_000 - fee);
    LargestProduct(x, g, a, rOut);
  }

  /** The largest intermediate, an input less its fee times a reserve. */
  lemma LargestProduct(x: nat, g: nat, a: nat, rOut: nat)
    requires Fits114(x) && Fits114(rOut) && g <= 10_000 && a == x * g
    ensures a < 0x4_0000_0000_0000_0000_0000_0000_0000 * 10_000 && a * rOut < WORD
  {
    MulLeLeft(x, g, 10_000);
    MulLeLeft(a, rOut, 0x4_0000_0000_0000_0000_0000_0000_0000);
  }

  lemma NothingWraps(x: Word, rIn: Word, rOut: Word, fee: FeeBps)
    requires IntermediatesFit(x, rIn, rOut, fee)
    ensures V2AmountOutW(x, rIn, rOut, fee) == V2AmountOut(x, rIn, rOut, fee)
  {
    hide StepsFit, WORD, V2AmountOut, V2AmountOutW;
    var a: nat := x * (10_000 - fee);
    NothingWrapsAt(x, rIn, rOut, fee, 10_000 - fee, a, a * rOut, rIn * 10_000);
  }

  lemma NothingWrapsAt(x: Word, rIn: Word, rOut: Word, fee: FeeBps, g: nat, a: nat, n: nat, b: nat)
    requires g == 10_000 - fee && a == x * g && n == a * rOut && b == rIn * 10_000 && StepsFit(a, n, b)
    ensures V2AmountOutW(x, rIn, rOut, fee) == V2AmountOut(x, rIn, rOut, fee)
  {
    hide V2AmountOut, V2AmountOutW, Mul, Add, Wrap;
    MulFits(x, g, a);
    MulFits(a, rOut, n);
    MulFits(rIn, 10_000, b);
    AddFits(b, a);
    QuoteSteps(x, rIn, rOut, fee, a, n, b);
  }

  lemma QuoteSteps(x: Word, rIn: Word, rOut: Word, fee: FeeBps, a: Word, n: Word, b: Word)
    requires a == x * (10_000 - fee) && n == a * rOut && b == rIn * 10_000 && b + a < WORD
    requires Mul(x, 10_000 - fee) == a && Mul(a, rOut) == n && Mul(rIn, 10_000) == b && Add(b, a) == b + a
    ensures V2AmountOutW(x, rIn, rOut, fee) == V2AmountOut(x, rIn, rOut, fee)
  {
    hide Mul, Add;
  }

  /** On pair reserves and a victim input of at most 112 bits, and at every size
      the search can try, the wrapping code computes the unbounded profit. */
  lemma SandwichFits(t: SandwichTarget, x: nat)
    requires Fits112(t.rIn) && Fits112(t.rOut) && Fits112(t.victimIn) && x <= t.rIn
    ensures SandwichProfitW(t.rIn, t.rOut, t.fee, t.victimIn, t.victimMinOut, x) == t.ProfitOf(x)
  {
    hide V2AmountOut, V2AmountOutW, Add, Sub;
    QuoteFits(x, t.rIn, t.rOut, t.fee);
    var out1 := V2AmountOut(x, t.rIn, t.rOut, t.fee);
    if x > 0 && 0 < out1 < t.rOut {
      var rIn2: nat, rOut2: nat := t.rIn + x, t.rOut - out1;
      AddFits(t.rIn, x);
      SubFits(t.rOut, out1);
      QuoteFits(t.victimIn, rIn2, rOut2, t.fee);
      var victimOut := V2AmountOut(t.victimIn, rIn2, rOut2, t.fee);
      if 0 < victimOut < rOut2 {
        AddFits(rIn2, t.victimIn);
        SubFits(rOut2, victimOut);
        QuoteFits(out1, rOut2 - victimOut, rIn2 + t.victimIn, t.fee);
      }
    }
  }

  lemma CycleFits(c: Cycle, x: nat)
    requires Fits112(c.arIn) && Fits112(c.arOut) && Fits112(c.brIn) && Fits112(c.brOut) && x <= c.arIn
    ensures CycleProfitW(c.arIn, c.arOut, c.aFee, c.brIn, c.brOut, c.bFee, x) == c.ProfitOf(x)
  {
    hide V2AmountOut, V2AmountOutW;
    QuoteFits(x, c.arIn, c.arOut, c.aFee);
    V2SwapKeepsProduct(x, c.arIn, c.arOut, c.aFee);
    QuoteFits(V2AmountOut(x, c.arIn, c.arOut, c.aFee), c.brIn, c.brOut, c.bFee);
  }

  // ---------------------------------------------------------------------
  // The other quotes, and routes of any length
  // ---------------------------------------------------------------------

  function V2AmountInW(amountOut: Word, reserveIn: Word, reserveOut: Word, fee: FeeBps): Word {
    if amountOut == 0 || amountOut >= reserveOut then U256_MAX
    else
      var numerator := Mul(Mul(reserveIn, amountOut), 10_000);
      var denominator := Mul(Sub(reserveOut, amountOut), 10_000 - fee);
      if denominator == 0 then U256_MAX else Add(Quotient(numerator, denominator), 1)
  }

  function AeroVolatileAmountOutW(amountIn: Word, reserveIn: Word, reserveOut: Word, fee: FeeBps): Word {
    if amountIn == 0 || reserveIn == 0 || reserveOut == 0 then 0
    else
      var xin: Word := MonusNat(amountIn, Quotient(Mul(amountIn, fee), 10_000));
      if xin == 0 then 0
      else
        var denominator := Add(reserveIn, xin);
        if denominator == 0 then 0 else Quotient(Mul(xin, reserveOut), denominator)
  }

  /** The reserves of a route, as words. */
  predicate OfWords(route: Routes.Route) {
    forall i :: 0 <= i < |route| && route[i].Some? ==> route[i].value.rIn < WORD && route[i].value.rOut < WORD
  }

  function OutputW(route: Routes.Route, x: Word): Option<Word>
    requires OfWords(route)
    decreases |route|
  {
    if route == [] then Some(x)
    else
      var hop :- route[0];
      var out := V2AmountOutW(x, hop.rIn, hop.rOut, hop.fee);
      if out == 0 then Some(0) else OutputW(route[1..], out)
  }

  /** Exact-out pricing never wraps over 114-bit reserves; an output beyond them is refused. */
  lemma AmountInFits(o: Word, rIn: nat, rOut: nat, fee: FeeBps)
    requires Fits114(rIn) && Fits114(rOut)
    ensures V2AmountInW(o, rIn, rOut, fee) == V2AmountIn(o, rIn, rOut, fee)
  {
    if 0 < o < rOut {
      var n: nat, d: nat := rIn * o, (rOut - o) * (10_000 - fee);
      BothFit(rIn, o, n);
      BothFit(rOut - o, 10_000 - fee, d);
      hide Mul, Sub, Add, V2AmountInW, V2AmountIn;
      MulFits(rIn, o, n);
      MulFits(n, 10_000, n * 10_000);
      SubFits(rOut, o);
      MulFits(rOut - o, 10_000 - fee, d);
      if d > 0 {
        QuotientAtMost(n * 10_000, d);
        AddFits(n * 10_000 / d, 1);
      }
      AmountInSteps(o, rIn, rOut, fee, n, d);
    }
  }

  lemma AmountInSteps(o: Word, rIn: Word, rOut: Word, fee: FeeBps, n: Word, d: Word)
    requires 0 < o < rOut && n == rIn * o && d == (rOut - o) * (10_000 - fee) && n * 10_000 < WORD - 1
    requires Mul(rIn, o) == n && Mul(n, 10_000) == n * 10_000 && Sub(rOut, o) == rOut - o
    requires Mul(rOut - o, 10_000 - fee) == d
    requires d > 0 ==> n * 10_000 / d <= n * 10_000 && Add(n * 10_000 / d, 1) == n * 10_000 / d + 1
    ensures V2AmountInW(o, rIn, rOut, fee) == V2AmountIn(o, rIn, rOut, fee)
  {
    hide Mul, Sub, Add;
  }

  lemma QuotientAtMost(n: nat, d: nat)
    requires d > 0
    ensures n / d <= n
  {
    FloorDivision(n, d, n / d);
    MulLeLeft(n / d, 1, d);
  }

  lemma BothFit(a: nat, b: nat, n: nat)
    requires Fits114(a) && Fits114(b) && n == a * b
    ensures n * 10_000 < WORD - 1
  {
    var s: nat := a * 0x4_0000_0000_0000_0000_0000_0000_0000;
    MulLeTo(b, 0x4_0000_0000_0000_0000_0000_0000_0000, a, n, s);
  }

  lemma AeroQuoteFits(x: nat, rIn: nat, rOut: nat, fee: FeeBps)
    requires Fits114(x) && Fits114(rIn) && Fits114(rOut)
    ensures AeroVolatileAmountOutW(x, rIn, rOut, fee) == AeroVolatileAmountOut(x, rIn, rOut, fee)
  {
    var f: nat, net := x * fee, AfterFee(x, fee);
    var n: nat := net * rOut;
    assert net == MonusNat(x, f / 10_000);
    AfterFeeBounds(x, fee);
    assert Fits114(fee) && Fits114(net) && x < WORD && rIn < WORD && rOut < WORD && rIn + net < WORD && fee < WORD;
    hide *;
    BothFit(x, fee, f);
    BothFit(net, rOut, n);
    MulFits(x, fee, f);
    AddFits(rIn, net);
    MulFits(net, rOut, n);
    AeroSteps(x, rIn, rOut, fee, f, net, n);
  }

  lemma AeroSteps(x: Word, rIn: Word, rOut: Word, fee: FeeBps, f: Word, net: Word, n: Word)
    requires f == x * fee && net == MonusNat(x, f / 10_000) && n == net * rOut && rIn + net < WORD
    requires Mul(x, fee) == f && Add(rIn, net) == rIn + net && Mul(net, rOut) == n
    ensures AeroVolatileAmountOutW(x, rIn, rOut, fee) == AeroVolatileAmountOut(x, rIn, rOut, fee)
  {
    hide Mul, Add;
  }

  /** Every reserve along the route has at most 112 bits. */
  predicate RouteFits112(route: Routes.Route) {
    forall i :: 0 <= i < |route| && route[i].Some? ==> Fits112(route[i].value.rIn) && Fits112(route[i].value.rOut)
  }

  /** Each hop pays out less than its reserve, so no hop of a route of any length wraps. */
  lemma {:induction false} RouteFits(route: Routes.Route, x: nat)
    requires RouteFits112(route) && Fits114(x)
    ensures OfWords(route) && OutputW(route, x) == Routes.Output(route, x)
    decreases |route|
  {
    hide V2AmountOut, V2AmountOutW;
    if route != [] && route[0].Some? {
      var hop := route[0].value;
      QuoteFits(x, hop.rIn, hop.rOut, hop.fee);
      V2SwapKeepsProduct(x, hop.rIn, hop.rOut, hop.fee);
      RouteFits(route[1..], V2AmountOut(x, hop.rIn, hop.rOut, hop.fee));
    }
  }
}
