/** The pool snapshots of `dex.rs` and whole runs of swaps over them. */
module Pools {
  import opened Arithmetic
  import opened Options
  import opened Pricing

  type Address = nat

  /** Constant-product pair; the address, venue and block labels play no part in pricing. */
  datatype V2Pool = V2Pool(token0: Address, token1: Address, reserve0: nat, reserve1: nat, feeBps: FeeBps) {

    function ReservesFor(tokenIn: Address): Option<(nat, nat)> {
      if tokenIn == token0 then Some((reserve0, reserve1))
      else if tokenIn == token1 then Some((reserve1, reserve0))
      else None
    }

    function OtherToken(token: Address): Option<Address> {
      if token == token0 then Some(token1)
      else if token == token1 then Some(token0)
      else None
    }

    function AmountOut(tokenIn: Address, amountIn: nat): Option<nat> {
      var (rIn, rOut) :- ReservesFor(tokenIn);
      Some(V2AmountOut(amountIn, rIn, rOut, feeBps))
    }

    function WithSwap(tokenIn: Address, amountIn: nat): Option<(V2Pool, nat)> {
      var out :- AmountOut(tokenIn, amountIn);
      Some((
        if tokenIn == token0 then
          this.(reserve0 := reserve0 + amountIn, reserve1 := MonusNat(reserve1, out))
        else
          this.(reserve1 := reserve1 + amountIn, reserve0 := MonusNat(reserve0, out)),
        out))
    }
  }

  /** Aerodrome pool. Stable pools are never priced, and a zero quote is no quote. */
  datatype AeroPool = AeroPool(token0: Address, token1: Address, reserve0: nat, reserve1: nat,
                               feeBps: FeeBps, stable: bool) {

    function ReservesFor(tokenIn: Address): Option<(nat, nat)> {
      if tokenIn == token0 then Some((reserve0, reserve1))
      else if tokenIn == token1 then Some((reserve1, reserve0))
      else None
    }

    function AmountOut(tokenIn: Address, amountIn: nat): Option<nat> {
      if stable then None
      else
        var (rIn, rOut) :- ReservesFor(tokenIn);
        var out := AeroVolatileAmountOut(amountIn, rIn, rOut, feeBps);
        if out == 0 then None else Some(out)
    }

    function WithSwap(tokenIn: Address, amountIn: nat): Option<(AeroPool, nat)> {
      var out :- AmountOut(tokenIn, amountIn);
      Some((
        if tokenIn == token0 then
          this.(reserve0 := reserve0 + amountIn, reserve1 := MonusNat(reserve1, out))
        else
          this.(reserve1 := reserve1 + amountIn, reserve0 := MonusNat(reserve0, out)),
        out))
    }
  }

  /** Either venue, so that one run theorem covers both. */
  datatype Pool = V2(v2: V2Pool) | Aero(aero: AeroPool) {

    function Token0(): Address {
      if V2? then v2.token0 else aero.token0
    }

    function Reserve0(): nat {
      if V2? then v2.reserve0 else aero.reserve0
    }

    function Reserve1(): nat {
      if V2? then v2.reserve1 else aero.reserve1
    }

    function WithSwap(tokenIn: Address, amountIn: nat): Option<(Pool, nat)> {
      match this
      case V2(p) =>
        var (q, out) :- p.WithSwap(tokenIn, amountIn);
        Some((V2(q), out))
      case Aero(p) =>
        var (q, out) :- p.WithSwap(tokenIn, amountIn);
        Some((Aero(q), out))
    }
  }

  // ---------------------------------------------------------------------
  // One swap, on each venue and in each direction
  // ---------------------------------------------------------------------

  /** `out` is the most the pair's own check lets go for `x`. */
  ghost predicate V2Pays(x: nat, rIn: nat, rOut: nat, fee: FeeBps, out: nat) {
    out <= rOut && if rIn == 0 then out == 0
                   else forall o: nat :: o <= out <==> KCheck(x, o, rIn, rOut, fee)
  }

  /** The constant product over the input left after the floored fee. */
  ghost predicate AeroCheck(x: nat, o: nat, rIn: nat, rOut: nat, fee: FeeBps) {
    o <= rOut && (rIn + AfterFee(x, fee)) * (rOut - o) >= rIn * rOut
  }

  ghost predicate AeroPays(x: nat, rIn: nat, rOut: nat, fee: FeeBps, out: nat) {
    out <= rOut && if rIn == 0 then out == 0
                   else forall o: nat :: o <= out <==> AeroCheck(x, o, rIn, rOut, fee)
  }

  lemma V2QuotePays(x: nat, rIn: nat, rOut: nat, fee: FeeBps)
    ensures V2Pays(x, rIn, rOut, fee, V2AmountOut(x, rIn, rOut, fee))
  {
    V2SwapKeepsProduct(x, rIn, rOut, fee);
    forall o: nat
      ensures o <= V2AmountOut(x, rIn, rOut, fee) <==> KCheck(x, o, rIn, rOut, fee) && (rIn == 0 ==> o == 0)
    {
      V2QuoteIsLargestAccepted(x, rIn, rOut, fee, o);
    }
    hide V2AmountOut, KCheck;
  }

  lemma AeroQuotePays(x: nat, rIn: nat, rOut: nat, fee: FeeBps)
    ensures AeroPays(x, rIn, rOut, fee, AeroVolatileAmountOut(x, rIn, rOut, fee))
  {
    var out := AeroVolatileAmountOut(x, rIn, rOut, fee);
    AeroSwapKeepsProduct(x, rIn, rOut, fee);
    AeroQuoteIsLargestAccepted(x, rIn, rOut, fee, out);
    hide AeroVolatileAmountOut, AfterFee;
    forall o: nat ensures o <= out <==> AeroCheck(x, o, rIn, rOut, fee) && (rIn == 0 ==> o == 0) {
      AeroQuoteIsLargestAccepted(x, rIn, rOut, fee, o);
    }
    hide AeroCheck;
  }

  /** A V2 pool takes either of its tokens, adds the input to that token's side and pays
      the most its check allows from the other; it refuses every other token. */
  lemma V2SwapIs(p: V2Pool, tokenIn: Address, x: nat)
    requires p.token0 != p.token1
    ensures p.WithSwap(tokenIn, x).None? <==> tokenIn != p.token0 && tokenIn != p.token1
    ensures p.WithSwap(tokenIn, x).Some? ==>
              var (q, out) := p.WithSwap(tokenIn, x).value;
              && p.AmountOut(tokenIn, x) == Some(out)
              && (tokenIn == p.token0 ==>
                    V2Pays(x, p.reserve0, p.reserve1, p.feeBps, out)
                    && q == V2Pool(p.token0, p.token1, p.reserve0 + x, p.reserve1 - out, p.feeBps))
              && (tokenIn == p.token1 ==>
                    V2Pays(x, p.reserve1, p.reserve0, p.feeBps, out)
                    && q == V2Pool(p.token0, p.token1, p.reserve0 - out, p.reserve1 + x, p.feeBps))
    ensures p.ReservesFor(p.token0) == Some((p.reserve0, p.reserve1))
    ensures p.ReservesFor(p.token1) == Some((p.reserve1, p.reserve0))
    ensures p.OtherToken(p.token0) == Some(p.token1) && p.OtherToken(p.token1) == Some(p.token0)
    ensures tokenIn != p.token0 && tokenIn != p.token1 ==> p.ReservesFor(tokenIn).None? && p.OtherToken(tokenIn).None?
  {
    V2QuotePays(x, p.reserve0, p.reserve1, p.feeBps);
    V2QuotePays(x, p.reserve1, p.reserve0, p.feeBps);
    PaysWithin(x, p.feeBps);
    hide V2AmountOut, V2Pays;
  }

  lemma PaysWithin(x: nat, fee: FeeBps)
    ensures forall rIn: nat, rOut: nat, out: nat :: V2Pays(x, rIn, rOut, fee, out) ==> out <= rOut
    ensures forall rIn: nat, rOut: nat, out: nat :: AeroPays(x, rIn, rOut, fee, out) ==> out <= rOut
  {}

  /** An Aerodrome pool refuses exactly if it is stable, if it does not hold the token,
      or if the most its check allows is nothing. Otherwise it does as above. */
  lemma AeroSwapIs(p: AeroPool, tokenIn: Address, x: nat)
    requires p.token0 != p.token1
    ensures p.WithSwap(tokenIn, x).None? <==>
              p.stable || (tokenIn != p.token0 && tokenIn != p.token1)
              || (tokenIn == p.token0 && AeroPays(x, p.reserve0, p.reserve1, p.feeBps, 0))
              || (tokenIn == p.token1 && AeroPays(x, p.reserve1, p.reserve0, p.feeBps, 0))
    ensures p.WithSwap(tokenIn, x).Some? ==>
              var (q, out) := p.WithSwap(tokenIn, x).value;
              && p.AmountOut(tokenIn, x) == Some(out) && out > 0
              && (tokenIn == p.token0 ==>
                    AeroPays(x, p.reserve0, p.reserve1, p.feeBps, out)
                    && q == AeroPool(p.token0, p.token1, p.reserve0 + x, p.reserve1 - out, p.feeBps, false))
              && (tokenIn == p.token1 ==>
                    AeroPays(x, p.reserve1, p.reserve0, p.feeBps, out)
                    && q == AeroPool(p.token0, p.token1, p.reserve0 - out, p.reserve1 + x, p.feeBps, false))
  {
    AeroQuotePays(x, p.reserve0, p.reserve1, p.feeBps);
    AeroQuotePays(x, p.reserve1, p.reserve0, p.feeBps);
    OnePayment(x, p.reserve0, p.reserve1, p.feeBps, AeroVolatileAmountOut(x, p.reserve0, p.reserve1, p.feeBps));
    OnePayment(x, p.reserve1, p.reserve0, p.feeBps, AeroVolatileAmountOut(x, p.reserve1, p.reserve0, p.feeBps));
    PaysWithin(x, p.feeBps);
    hide AeroVolatileAmountOut, AeroPays;
  }

  /** The check allows one largest payment. */
  lemma OnePayment(x: nat, rIn: nat, rOut: nat, fee: FeeBps, out: nat)
    requires AeroPays(x, rIn, rOut, fee, out)
    ensures AeroPays(x, rIn, rOut, fee, 0) <==> out == 0
  {
    if rIn > 0 {
      assert out <= out <==> AeroCheck(x, out, rIn, rOut, fee);
    }
    hide AeroCheck;
  }

  // ---------------------------------------------------------------------
  // Runs of swaps
  // ---------------------------------------------------------------------

  datatype Swap = Swap(tokenIn: Address, amountIn: nat)

  /** A pool together with what one trader has received from it, less what it was paid. */
  datatype Ledger = Ledger(pool: Pool, net0: int, net1: int)

  /** A refused swap (unknown token, stable pool, zero Aerodrome quote) changes nothing. */
  function Trade(l: Ledger, s: Swap): Ledger {
    match l.pool.WithSwap(s.tokenIn, s.amountIn)
    case None => l
    case Some((p, out)) =>
      if s.tokenIn == l.pool.Token0() then
        Ledger(p, l.net0 - s.amountIn, l.net1 + out)
      else
        Ledger(p, l.net0 + out, l.net1 - s.amountIn)
  }

  function TradeAll(l: Ledger, swaps: seq<Swap>): Ledger
    decreases |swaps|
  {
    if swaps == [] then l else TradeAll(Trade(l, swaps[0]), swaps[1..])
  }

  /** What every swap keeps: the product never shrinks, a token that is there
      stays there, and one side can only have shrunk if the other holds something. */
  ghost predicate Keeps(p: Pool, q: Pool) {
    && p.Reserve0() * p.Reserve1() <= q.Reserve0() * q.Reserve1()
    && (p.Reserve0() > 0 ==> q.Reserve0() > 0)
    && (p.Reserve1() > 0 ==> q.Reserve1() > 0)
    && (q.Reserve0() == 0 ==> p.Reserve1() <= q.Reserve1())
    && (q.Reserve1() == 0 ==> p.Reserve0() <= q.Reserve0())
  }

  /** Nothing is created or lost between the trader and the pool; in particular
      the saturating subtraction of `with_swap` never saturates. */
  ghost predicate Conserved(a: Ledger, b: Ledger) {
    && a.net0 + a.pool.Reserve0() == b.net0 + b.pool.Reserve0()
    && a.net1 + a.pool.Reserve1() == b.net1 + b.pool.Reserve1()
  }

  lemma TradeKeeps(l: Ledger, s: Swap)
    ensures Keeps(l.pool, Trade(l, s).pool) && Conserved(l, Trade(l, s))
    ensures match l.pool.WithSwap(s.tokenIn, s.amountIn)
            case None => Trade(l, s) == l
            case Some((q, out)) =>
              Trade(l, s).pool == q && Trade(l, s).net0 + Trade(l, s).net1 == l.net0 + l.net1 + out - s.amountIn
  {
    var r0, r1, x := l.pool.Reserve0(), l.pool.Reserve1(), s.amountIn;
    if s.tokenIn == l.pool.Token0() {
      QuoteKeepsProduct(l.pool, x, r0, r1);
    } else {
      QuoteKeepsProduct(l.pool, x, r1, r0);
    }
  }

  lemma QuoteKeepsProduct(p: Pool, x: nat, rIn: nat, rOut: nat)
    ensures var o := if p.V2? then V2AmountOut(x, rIn, rOut, p.v2.feeBps)
                     else AeroVolatileAmountOut(x, rIn, rOut, p.aero.feeBps);
            o <= rOut && (rOut > 0 ==> o < rOut) && (rIn == 0 ==> o == 0)
            && (rIn + x) * (rOut - o) >= rIn * rOut && (rOut - o) * (rIn + x) >= rOut * rIn
  {
    match p {
      case V2(v) => V2SwapKeepsProduct(x, rIn, rOut, v.feeBps);
      case Aero(a) => AeroSwapKeepsProduct(x, rIn, rOut, a.feeBps);
    }
  }

  /** Over every finite run of swaps in either direction, on either venue. */
  lemma {:induction false} RunKeeps(l: Ledger, swaps: seq<Swap>)
    ensures Keeps(l.pool, TradeAll(l, swaps).pool) && Conserved(l, TradeAll(l, swaps))
    decreases |swaps|
  {
    if swaps != [] {
      TradeKeeps(l, swaps[0]);
      RunKeeps(Trade(l, swaps[0]), swaps[1..]);
    }
  }

  /** No run leaves the trader with no less of both tokens and more of one. */
  lemma NoRunGainsForFree(pool: Pool, swaps: seq<Swap>)
    ensures var end := TradeAll(Ledger(pool, 0, 0), swaps);
            end.net0 >= 0 && end.net1 >= 0 ==> end.net0 == 0 && end.net1 == 0
  {
    var start := Ledger(pool, 0, 0);
    var end := TradeAll(start, swaps);
    RunKeeps(start, swaps);
    var r0, r1, s0, s1 := pool.Reserve0(), pool.Reserve1(), end.pool.Reserve0(), end.pool.Reserve1();
    if s0 <= r0 && s1 <= r1 && s0 > 0 && s1 > 0 {
      MulLe(s1, r1, s0);
      MulLe(s0, r0, r1);
      if s1 < r1 {
        MulLt(s1, r1, s0);
      } else if s0 < r0 {
        MulLt(s0, r0, s1);
      }
    }
  }

  // ---------------------------------------------------------------------
  // Splitting one order into many
  // ---------------------------------------------------------------------

  function Sum(xs: seq<nat>): nat {
    if xs == [] then 0 else xs[0] + Sum(xs[1..])
  }

  /** Sell every part in turn, each on the pool the previous one left behind. */
  function SellInParts(p: V2Pool, tokenIn: Address, xs: seq<nat>): Option<nat>
    decreases |xs|
  {
    if xs == [] then Some(0)
    else
      var (q, out) :- p.WithSwap(tokenIn, xs[0]);
      var rest :- SellInParts(q, tokenIn, xs[1..]);
      Some(out + rest)
  }

  /** However an order is cut up, its parts never fetch more than the whole. */
  lemma {:induction false} NoSplitGains(p: V2Pool, tokenIn: Address, xs: seq<nat>)
    requires p.ReservesFor(tokenIn).Some? && p.ReservesFor(tokenIn).value.0 > 0
    ensures SellInParts(p, tokenIn, xs).Some?
    ensures SellInParts(p, tokenIn, xs).value <= p.AmountOut(tokenIn, Sum(xs)).value
    decreases |xs|
  {
    if xs != [] {
      var (rIn, rOut) := p.ReservesFor(tokenIn).value;
      var (q, out) := p.WithSwap(tokenIn, xs[0]).value;
      V2SwapKeepsProduct(xs[0], rIn, rOut, p.feeBps);
      NoSplitGains(q, tokenIn, xs[1..]);
      SplittingNeverGains(xs[0], Sum(xs[1..]), rIn, rOut, p.feeBps);
    }
  }

  /** What an Aerodrome pool pays for an order; a refused quote pays nothing. */
  function PaidBy(p: AeroPool, tokenIn: Address, x: nat): nat {
    match p.AmountOut(tokenIn, x)
    case Some(out) => out
    case None => 0
  }

  /** Two parts in a row, the first one accepted, beat the whole order. */
  ghost predicate SplitPays(p: AeroPool, tokenIn: Address, x1: nat, x2: nat) {
    match p.WithSwap(tokenIn, x1)
    case Some((q, out)) => out + PaidBy(q, tokenIn, x2) > PaidBy(p, tokenIn, x1 + x2)
    case None => false
  }

  /** On Aerodrome a split can pay, but only for the unit of input that flooring the
      parts' fees saves: a split of these two sizes pays on some pool of this fee
      exactly if it saves one. */
  lemma AeroSplitPaysIffFeeSaved(x1: nat, x2: nat, fee: FeeBps)
    ensures (exists p: AeroPool, tokenIn :: p.feeBps == fee && SplitPays(p, tokenIn, x1, x2))
            <==> AfterFee(x1, fee) + AfterFee(x2, fee) == AfterFee(x1 + x2, fee) + 1
  {
    forall p: AeroPool, tokenIn | p.feeBps == fee && SplitPays(p, tokenIn, x1, x2)
      ensures AfterFee(x1, fee) + AfterFee(x2, fee) == AfterFee(x1 + x2, fee) + 1
    {
      AeroSplitGainMeasured(p, tokenIn, x1, x2);
    }
    if AfterFee(x1, fee) + AfterFee(x2, fee) == AfterFee(x1 + x2, fee) + 1 {
      AeroSplitPaysOnADeepPool(x1, x2, fee);
      var r := DeepReserve(x1 + x2);
      var p := AeroPool(0, 1, r, 8 * r, fee, false);
      AeroSwapKeepsProduct(x1, r, 8 * r, fee);
      hide AeroVolatileAmountOut, AfterFee, DeepReserve;
      assert SplitPays(p, 0, x1, x2);
    }
  }

  /** And it gains at most one unit of output more than the price of that input unit. */
  lemma AeroSplitGainMeasured(p: AeroPool, tokenIn: Address, x1: nat, x2: nat)
    requires SplitPays(p, tokenIn, x1, x2)
    ensures AfterFee(x1, p.feeBps) + AfterFee(x2, p.feeBps) == AfterFee(x1 + x2, p.feeBps) + 1
    ensures var (rIn, rOut) := p.ReservesFor(tokenIn).value;
            var (q, out) := p.WithSwap(tokenIn, x1).value;
            (out + PaidBy(q, tokenIn, x2) - PaidBy(p, tokenIn, x1 + x2) - 1) * rIn < rOut
  {
    var (rIn, rOut) := p.ReservesFor(tokenIn).value;
    hide AeroVolatileAmountOut, AfterFee;
    AeroSwapKeepsProduct(x1, rIn, rOut, p.feeBps);
    AeroSplitGainIsBounded(x1, x2, rIn, rOut, p.feeBps);
  }

  /** Any number of parts in a row, each on the pool the accepted ones before it left. */
  function AeroSellInParts(p: AeroPool, tokenIn: Address, xs: seq<nat>): nat
    decreases |xs|
  {
    if xs == [] then 0
    else
      match p.WithSwap(tokenIn, xs[0])
      case None => AeroSellInParts(p, tokenIn, xs[1..])
      case Some((q, out)) => out + AeroSellInParts(q, tokenIn, xs[1..])
  }

  /** What is left of the parts once each has paid its own floored fee. */
  function NetOf(xs: seq<nat>, fee: FeeBps): nat {
    if xs == [] then 0 else AfterFee(xs[0], fee) + NetOf(xs[1..], fee)
  }

  /** Flooring saves at most one unit for every part but one. */
  lemma {:induction false} PartsSaveAtMost(xs: seq<nat>, fee: FeeBps)
    requires xs != []
    ensures NetOf(xs, fee) <= AfterFee(Sum(xs), fee) + |xs| - 1
  {
    if |xs| == 1 {
      assert xs[1..] == [];
    } else {
      PartsSaveAtMost(xs[1..], fee);
      PartsSaveAtMostOne(xs[0], Sum(xs[1..]), fee);
      hide AfterFee;
    }
  }

  /** However many parts, together they pass the product check of their net input. */
  lemma {:induction false} AeroPartsPass(p: AeroPool, tokenIn: Address, xs: seq<nat>)
    requires p.ReservesFor(tokenIn).Some? && p.ReservesFor(tokenIn).value.0 > 0
    ensures var (rIn, rOut) := p.ReservesFor(tokenIn).value;
            var paid := AeroSellInParts(p, tokenIn, xs);
            paid <= rOut && (rIn + NetOf(xs, p.feeBps)) * (rOut - paid) >= rIn * rOut
    decreases |xs|
  {
    hide AeroVolatileAmountOut, AfterFee;
    if xs != [] {
      var (rIn, rOut) := p.ReservesFor(tokenIn).value;
      var net, rest := AfterFee(xs[0], p.feeBps), NetOf(xs[1..], p.feeBps);
      match p.WithSwap(tokenIn, xs[0]) {
        case None =>
          AeroPartsPass(p, tokenIn, xs[1..]);
          var paid := AeroSellInParts(p, tokenIn, xs[1..]);
          MulLe(rIn + rest, rIn + net + rest, rOut - paid);
        case Some((q, out)) =>
          AeroSwapKeepsProduct(xs[0], rIn, rOut, p.feeBps);
          AeroQuoteIsLargestAccepted(xs[0], rIn, rOut, p.feeBps, out);
          AfterFeeBounds(xs[0], p.feeBps);
          AeroPartsPass(q, tokenIn, xs[1..]);
          var paid := AeroSellInParts(q, tokenIn, xs[1..]);
          ChainedChecks(rIn, rIn + net, rIn + xs[0], rest, rOut, rOut - out, rOut - out - paid);
      }
    }
  }

  /** So any number of parts gain only if flooring saves some input, at most one unit
      for every part but one, and less than the price of that at the reserves, and one
      output unit more. */
  lemma AeroPartsGainBounded(p: AeroPool, tokenIn: Address, xs: seq<nat>)
    requires xs != [] && p.ReservesFor(tokenIn).Some?
    ensures var (rIn, rOut) := p.ReservesFor(tokenIn).value;
            var gain := AeroSellInParts(p, tokenIn, xs) - PaidBy(p, tokenIn, Sum(xs));
            var saved := NetOf(xs, p.feeBps) - AfterFee(Sum(xs), p.feeBps);
            saved < |xs| && (gain > 0 ==> saved > 0 && (gain - 1) * rIn < saved * rOut)
  {
    var (rIn, rOut) := p.ReservesFor(tokenIn).value;
    PartsSaveAtMost(xs, p.feeBps);
    var paid, whole := AeroSellInParts(p, tokenIn, xs), PaidBy(p, tokenIn, Sum(xs));
    if p.stable || rIn == 0 {
      NothingPaid(p, tokenIn, xs);
    } else if paid > whole {
      var net, parts := AfterFee(Sum(xs), p.feeBps), NetOf(xs, p.feeBps);
      AeroPartsPass(p, tokenIn, xs);
      hide AfterFee, NetOf, AeroSellInParts;
      AeroQuoteIsLargestAccepted(Sum(xs), rIn, rOut, p.feeBps, whole + 1);
      hide AeroVolatileAmountOut;
      UnitsMore(rIn, rOut, net, parts, paid, whole);
    }
  }

  lemma {:induction false} NothingPaid(p: AeroPool, tokenIn: Address, xs: seq<nat>)
    requires p.ReservesFor(tokenIn).Some? && (p.stable || p.ReservesFor(tokenIn).value.0 == 0)
    ensures AeroSellInParts(p, tokenIn, xs) == 0
    decreases |xs|
  {
    if xs != [] {
      assert p.WithSwap(tokenIn, xs[0]).None?;
      NothingPaid(p, tokenIn, xs[1..]);
    }
  }

  // ---------------------------------------------------------------------
  // Orders in parts, as runs
  // ---------------------------------------------------------------------

  function Orders(tokenIn: Address, xs: seq<nat>): seq<Swap> {
    seq(|xs|, i requires 0 <= i < |xs| => Swap(tokenIn, xs[i]))
  }

  /** What a run of swaps out of `tokenIn` leaves the trader with in the other token. */
  function Received(l: Ledger, tokenIn: Address): int {
    if tokenIn == l.pool.Token0() then l.net1 else l.net0
  }

  /** Selling in parts is that run of swaps. */
  lemma {:induction false} PartsAreARun(p: V2Pool, tokenIn: Address, xs: seq<nat>, l: Ledger)
    requires p.token0 != p.token1 && p.ReservesFor(tokenIn).Some? && l.pool == V2(p)
    ensures SellInParts(p, tokenIn, xs).Some?
    ensures Received(TradeAll(l, Orders(tokenIn, xs)), tokenIn) ==
            Received(l, tokenIn) + SellInParts(p, tokenIn, xs).value
    decreases |xs|
  {
    if xs != [] {
      var (q, out) := p.WithSwap(tokenIn, xs[0]).value;
      hide V2AmountOut;
      assert Orders(tokenIn, xs)[1..] == Orders(tokenIn, xs[1..]);
      PartsAreARun(q, tokenIn, xs[1..], Trade(l, Swap(tokenIn, xs[0])));
    }
  }

  lemma {:induction false} AeroPartsAreARun(p: AeroPool, tokenIn: Address, xs: seq<nat>, l: Ledger)
    requires p.token0 != p.token1 && l.pool == Aero(p)
    ensures Received(TradeAll(l, Orders(tokenIn, xs)), tokenIn) ==
            Received(l, tokenIn) + AeroSellInParts(p, tokenIn, xs)
    decreases |xs|
  {
    if xs != [] {
      hide AeroVolatileAmountOut;
      assert Orders(tokenIn, xs)[1..] == Orders(tokenIn, xs[1..]);
      match p.WithSwap(tokenIn, xs[0]) {
        case None => AeroPartsAreARun(p, tokenIn, xs[1..], l);
        case Some((q, out)) => AeroPartsAreARun(q, tokenIn, xs[1..], Trade(l, Swap(tokenIn, xs[0])));
      }
    }
  }
}
