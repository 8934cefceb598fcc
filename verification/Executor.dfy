/** The phase and settlement rules of `MevExecutor.sol`, and what they make of the
    legs `bundle.rs` encodes. The calls of a leg are seen only through the
    executor's balance of the profit token before and after them. */
module Executor {
  import opened Arithmetic
  import opened Options
  import opened Bundle

  /** The balance an opening leg persisted under its tag. */
  datatype Baseline = Baseline(profitToken: Address, block: nat, balance: nat)

  type Baselines = map<nat, Baseline>

  /** The block a bundle lands in; all its transactions share it. */
  datatype Block = Block(number: nat, baseFee: nat)

  /** The profit-token balance just before and just after a leg's own calls. */
  datatype Balances = Balances(entry: nat, exit: nat)

  datatype Settled = Settled(baselines: Baselines, balance: nat)

  predicate GuardsPass(g: Guard, b: Block) {
    && (g.blockDeadline == 0 || b.number <= g.blockDeadline)
    && (g.maxBaseFee == 0 || b.baseFee <= g.maxBaseFee)
    && g.bribeBps <= 10_000
    && g.phase <= 2
    && (g.phase == 1 ==> g.minProfit == 0 && g.bribeBps == 0)
  }

  /** The builder's share, split into quotient and remainder as the contract does.
      `paysBribe` says whether the profit token is ETH or WETH. */
  function Bribe(profit: nat, bps: nat, paysBribe: bool): nat {
    if bps != 0 && profit != 0 && paysBribe then
      profit / 10_000 * bps + profit % 10_000 * bps / 10_000
    else 0
  }

  /** The balance after settlement, or nothing if the retained profit is too small. */
  function Settle(g: Guard, before: nat, after: nat, paysBribe: bool): Option<nat> {
    var profit := MonusNat(after, before);
    var bribe := Bribe(profit, g.bribeBps, paysBribe);
    if MonusNat(profit, bribe) < g.minProfit then None else Some(MonusNat(after, bribe))
  }

  /** A stored block number of zero means there is no baseline. */
  predicate HasBaseline(x: Baselines, tag: nat) {
    tag in x && x[tag].block != 0
  }

  /** One executor call; `None` is a revert. */
  function Run(x: Baselines, leg: ExecutorCall, b: Block, bal: Balances, paysBribe: bool): Option<Settled> {
    var g := leg.guard;
    if !GuardsPass(g, b) then None
    else
      match leg
      case FlashExecute(_, _, _, _, _) =>
        if g.phase != 0 then None
        else
          var balance :- Settle(g, bal.entry, bal.exit, paysBribe);
          Some(Settled(x, balance))
      case Execute(tag, _, _) =>
        if g.phase == 1 then
          if HasBaseline(x, tag) then None
          else Some(Settled(x[tag := Baseline(g.profitToken, b.number, bal.entry)], bal.exit))
        else if g.phase == 2 then
          if !HasBaseline(x, tag) || x[tag].block != b.number || x[tag].profitToken != g.profitToken then None
          else
            var balance :- Settle(g, x[tag].balance, bal.exit, paysBribe);
            Some(Settled(x - {tag}, balance))
        else
          var balance :- Settle(g, bal.entry, bal.exit, paysBribe);
          Some(Settled(x, balance))
  }

  /** Our legs in order, each with its balances; whatever lies between them is in the balances. */
  function RunLegs(x: Baselines, legs: seq<ExecutorCall>, b: Block, bals: seq<Balances>,
                   paysBribe: bool): Option<Settled>
    requires |legs| == |bals| > 0
    decreases |legs|
  {
    if |legs| == 1 then Run(x, legs[0], b, bals[0], paysBribe)
    else
      var first :- Run(x, legs[0], b, bals[0], paysBribe);
      RunLegs(first.baselines, legs[1..], b, bals[1..], paysBribe)
  }

  // ---------------------------------------------------------------------
  // The builder's share
  // ---------------------------------------------------------------------

  /** The overflow-safe split is the exact floor, and never more than the profit. */
  lemma BribeIsExactFloor(profit: nat, bps: nat)
    requires bps <= 10_000
    ensures Bribe(profit, bps, true) == profit * bps / 10_000 <= profit
  {
    var q: nat, r: nat := profit / 10_000, profit % 10_000;
    var rest: nat := r * bps;
    assert profit * bps == 10_000 * (q * bps) + rest by {
      assert profit == 10_000 * q + r;
      assert (10_000 * q + r) * bps == 10_000 * (q * bps) + rest;
    }
    FloorOfSum(q * bps, rest);
    MulLeLeft(q, bps, 10_000);
    MulLeLeft(r, bps, 10_000);
  }

  lemma FloorOfSum(a: nat, rest: nat)
    ensures (10_000 * a + rest) / 10_000 == a + rest / 10_000
  {}

  // ---------------------------------------------------------------------
  // Which bundles the executor can admit
  // ---------------------------------------------------------------------

  /** The limits of the risk settings, apart from profit, that the block must meet. */
  predicate WithinLimits(opp: Opportunity, risk: RiskConfig, b: Block) {
    && (opp.targetBlock == 0 || b.number <= opp.targetBlock)
    && (risk.maxBaseFeeWei == 0 || b.baseFee <= risk.maxBaseFeeWei)
    && risk.bribeBps <= 10_000
  }

  /** What the phase rules ask for besides the limits. A single front leg needs nothing,
      flash-funded or not. Two legs need each other: no flash funding, and a tag that no
      leftover baseline occupies. A back leg alone needs a leftover it can settle
      against, of its own token and from this very block. */
  predicate PhasesAgree(x: Baselines, opp: Opportunity, b: Block) {
    if opp.backCalls == [] then true
    else
      opp.flashTokens == []
      && if opp.frontCalls != [] then opp.id in x ==> x[opp.id].block == 0
         else opp.id in x && x[opp.id].block == b.number && x[opp.id].profitToken == opp.profitToken
  }

  /** The balance the profit is measured from: before the first leg, or the leftover's. */
  function OpeningBalance(x: Baselines, opp: Opportunity, bals: seq<Balances>): nat
    requires bals != []
  {
    if opp.frontCalls == [] && opp.id in x then x[opp.id].balance else bals[0].entry
  }

  /** What the settling leg requires, measured from the opening balance. */
  predicate ProfitKept(risk: RiskConfig, opening: nat, closing: nat, paysBribe: bool) {
    var profit := MonusNat(closing, opening);
    profit - (if paysBribe then profit * risk.bribeBps / 10_000 else 0) >= risk.minNetProfitWei
  }

  /** A built bundle runs to the end exactly when the phase rules and the limits agree
      and the balance gained since its opening, less the builder's share, covers the
      required profit. A bundle with only a back leg is refused in every block unless
      someone left it a baseline in the same block. */
  lemma BundleRunsIff(x: Baselines, opp: Opportunity, risk: RiskConfig, b: Block, bals: seq<Balances>,
                      paysBribe: bool)
    requires b.number > 0 && |bals| == LegCount(opp) > 0
    ensures RunLegs(x, LegsOf(opp, risk), b, bals, paysBribe).Some? <==>
            && PhasesAgree(x, opp, b) && WithinLimits(opp, risk, b)
            && ProfitKept(risk, OpeningBalance(x, opp, bals), bals[|bals| - 1].exit, paysBribe)
  {
    var legs := LegsOf(opp, risk);
    if opp.frontCalls != [] && opp.backCalls != [] {
      assert legs == [EncodeExecute(opp, opp.frontCalls, true, risk), EncodeExecute(opp, opp.backCalls, false, risk)];
      var front := Run(x, legs[0], b, bals[0], paysBribe);
      assert RunLegs(x, legs, b, bals, paysBribe) ==
             if front.None? then None else Run(front.value.baselines, legs[1], b, bals[1], paysBribe);
    } else {
      assert legs == [EncodeExecute(opp, if opp.frontCalls != [] then opp.frontCalls else opp.backCalls,
                                    opp.frontCalls != [], risk)];
    }
    if risk.bribeBps <= 10_000 {
      SettlesIff(risk, OpeningBalance(x, opp, bals), bals[|bals| - 1].exit, paysBribe);
    }
  }

  lemma SettlesIff(risk: RiskConfig, opening: nat, closing: nat, paysBribe: bool)
    requires risk.bribeBps <= 10_000
    ensures forall g: Guard :: g.minProfit == risk.minNetProfitWei && g.bribeBps == risk.bribeBps ==>
              (Settle(g, opening, closing, paysBribe).Some? <==> ProfitKept(risk, opening, closing, paysBribe))
  {
    BribeIsExactFloor(MonusNat(closing, opening), risk.bribeBps);
  }

  /** Any call at all that runs, built by the bot or not, runs within its guard. An opening
      call asks for no profit, pays nothing and records where it began, under a free tag; any
      other ends with what its calls left less the floor of the builder's share, which covers
      the profit it asked for over its own start: its entry, or the baseline of the same tag,
      token and block, which it uses up. */
  lemma RunsWithinItsGuard(x: Baselines, leg: ExecutorCall, b: Block, bal: Balances, paysBribe: bool)
    requires Run(x, leg, b, bal, paysBribe).Some?
    ensures var g, end := leg.guard, Run(x, leg, b, bal, paysBribe).value;
            && (g.blockDeadline != 0 ==> b.number <= g.blockDeadline)
            && (g.maxBaseFee != 0 ==> b.baseFee <= g.maxBaseFee)
            && g.phase <= 2 && (g.phase != 0 ==> leg.Execute?)
            && (g.phase == 1 ==>
                  && g.minProfit == g.bribeBps == 0 && (leg.tag in x ==> x[leg.tag].block == 0)
                  && end.balance == bal.exit
                  && end.baselines == x[leg.tag := Baseline(g.profitToken, b.number, bal.entry)])
            && (g.phase == 2 ==>
                  leg.tag in x && x[leg.tag].block == b.number != 0 && x[leg.tag].profitToken == g.profitToken)
            && (g.phase != 1 ==>
                  var start := if g.phase == 2 then x[leg.tag].balance else bal.entry;
                  var profit := MonusNat(bal.exit, start);
                  && end.balance == bal.exit - (if paysBribe then profit * g.bribeBps / 10_000 else 0)
                  && (end.balance >= start + g.minProfit || (g.minProfit == 0 && end.balance == bal.exit < start))
                  && end.baselines == if g.phase == 2 then x - {leg.tag} else x)
  {
    var g := leg.guard;
    if g.phase == 2 {
      SettledFrom(g, x[leg.tag].balance, bal.exit, paysBribe);
    } else {
      SettledFrom(g, bal.entry, bal.exit, paysBribe);
    }
    hide Settle;
  }

  lemma SettledFrom(g: Guard, start: nat, exit: nat, paysBribe: bool)
    requires g.bribeBps <= 10_000 && Settle(g, start, exit, paysBribe).Some?
    ensures var end, profit := Settle(g, start, exit, paysBribe).value, MonusNat(exit, start);
            && end == exit - (if paysBribe then profit * g.bribeBps / 10_000 else 0)
            && (end >= start + g.minProfit || (g.minProfit == 0 && end == exit < start))
  {
    BribeIsExactFloor(MonusNat(exit, start), g.bribeBps);
  }

  /** Economic atomicity: if a bundle runs, the executor ends with what its last leg left
      less the builder's share, at least the
      required profit over its opening balance, whatever happened in between; only a
      required profit of zero lets it end lower. Every other tag keeps its baseline, and
      a bundle with a back leg leaves none under its own to settle against again. */
  lemma BundleKeepsItsProfit(x: Baselines, opp: Opportunity, risk: RiskConfig, b: Block, bals: seq<Balances>,
                             paysBribe: bool)
    requires b.number > 0 && |bals| == LegCount(opp) > 0
    requires RunLegs(x, LegsOf(opp, risk), b, bals, paysBribe).Some?
    ensures var end, opening := RunLegs(x, LegsOf(opp, risk), b, bals, paysBribe).value, OpeningBalance(x, opp, bals);
            && end.baselines == (if opp.backCalls == [] then x else x - {opp.id})
            && end.balance == bals[|bals| - 1].exit
                 - (if paysBribe then MonusNat(bals[|bals| - 1].exit, opening) * risk.bribeBps / 10_000 else 0)
            && (end.balance >= opening + risk.minNetProfitWei
                || (risk.minNetProfitWei == 0 && end.balance == bals[|bals| - 1].exit < opening))
  {
    BundleRunsIff(x, opp, risk, b, bals, paysBribe);
    var legs := LegsOf(opp, risk);
    BribeIsExactFloor(MonusNat(bals[|bals| - 1].exit, OpeningBalance(x, opp, bals)), risk.bribeBps);
    if opp.frontCalls != [] && opp.backCalls != [] {
      assert legs == [EncodeExecute(opp, opp.frontCalls, true, risk), EncodeExecute(opp, opp.backCalls, false, risk)];
      var front := Run(x, legs[0], b, bals[0], paysBribe).value;
      assert RunLegs(x, legs, b, bals, paysBribe) == Run(front.baselines, legs[1], b, bals[1], paysBribe);
      assert front.baselines - {opp.id} == x - {opp.id};
    } else {
      assert legs == [EncodeExecute(opp, if opp.frontCalls != [] then opp.frontCalls else opp.backCalls,
                                    opp.frontCalls != [], risk)];
    }
  }
}
