/** Bundle construction of `bundle.rs`: leg order, nonces and the guard each leg carries. */
module Bundle {

  type Address = nat
  type Bytes = seq<bv8>

  /** One call of a leg, already encoded. */
  datatype Call = Call(target: Address, value: nat, data: Bytes)

  datatype Opportunity = Opportunity(
    id: nat,
    frontCalls: seq<Call>,
    backCalls: seq<Call>,
    flashTokens: seq<Address>,
    flashAmounts: seq<nat>,
    profitToken: Address,
    targetBlock: nat)

  datatype RiskConfig = RiskConfig(minNetProfitWei: nat, bribeBps: nat, maxBaseFeeWei: nat)

  datatype Guard = Guard(
    profitToken: Address, minProfit: nat, bribeBps: nat, blockDeadline: nat, maxBaseFee: nat, phase: nat)

  /** The executor entry point a leg calls. The tag is derived from the opportunity's id. */
  datatype ExecutorCall =
    | Execute(tag: nat, calls: seq<Call>, guard: Guard)
    | FlashExecute(tag: nat, tokens: seq<Address>, amounts: seq<nat>, calls: seq<Call>, guard: Guard)

  function EncodeExecute(opp: Opportunity, calls: seq<Call>, front: bool, risk: RiskConfig): ExecutorCall {
    var singleLeg := opp.backCalls == [];
    var enforce := !front || singleLeg;
    var guard := Guard(
      opp.profitToken,
      if enforce then risk.minNetProfitWei else 0,
      if enforce then risk.bribeBps else 0,
      opp.targetBlock,
      risk.maxBaseFeeWei,
      if singleLeg then 0 else if front then 1 else 2);
    if enforce && opp.flashTokens != [] then
      FlashExecute(opp.id, opp.flashTokens, opp.flashAmounts, calls, guard)
    else
      Execute(opp.id, calls, guard)
  }

  /** A leg we sign at a nonce, or a victim's raw transaction. */
  datatype BundleTx =
    | Own(nonce: nat, leg: ExecutorCall, canRevert: bool)
    | Foreign(raw: Bytes, canRevert: bool)

  method BuildBundle(opp: Opportunity, victims: seq<Bytes>, startNonce: nat, risk: RiskConfig)
    returns (txs: seq<BundleTx>)
    ensures txs == BundleOf(opp, victims, startNonce, risk)
  {
    txs := [];
    var nonce := startNonce;
    if opp.frontCalls != [] {
      txs := txs + [Own(nonce, EncodeExecute(opp, opp.frontCalls, true, risk), false)];
      nonce := nonce + 1;
    }
    ghost var front := txs;
    for i := 0 to |victims|
      invariant txs == front + seq(i, k requires 0 <= k < i => Foreign(victims[k], false))
    {
      txs := txs + [Foreign(victims[i], false)];
    }
    if opp.backCalls != [] {
      txs := txs + [Own(nonce, EncodeExecute(opp, opp.backCalls, false, risk), false)];
    }
  }

  function FrontTxs(opp: Opportunity, startNonce: nat, risk: RiskConfig): seq<BundleTx> {
    if opp.frontCalls == [] then [] else [Own(startNonce, EncodeExecute(opp, opp.frontCalls, true, risk), false)]
  }

  function VictimTxs(victims: seq<Bytes>): seq<BundleTx> {
    seq(|victims|, k requires 0 <= k < |victims| => Foreign(victims[k], false))
  }

  /** The back leg's nonce follows the front leg's if there is one. */
  function BackTxs(opp: Opportunity, startNonce: nat, risk: RiskConfig): seq<BundleTx> {
    if opp.backCalls == [] then []
    else [Own(if opp.frontCalls == [] then startNonce else startNonce + 1,
              EncodeExecute(opp, opp.backCalls, false, risk), false)]
  }

  function BundleOf(opp: Opportunity, victims: seq<Bytes>, startNonce: nat, risk: RiskConfig): seq<BundleTx> {
    FrontTxs(opp, startNonce, risk) + VictimTxs(victims) + BackTxs(opp, startNonce, risk)
  }

  /** How many of our own transactions a bundle contains (`Inventory::legs`). */
  method Legs(opp: Opportunity) returns (n: nat)
    ensures n == LegCount(opp)
  {
    n := 0;
    if opp.frontCalls != [] {
      n := n + 1;
    }
    if opp.backCalls != [] {
      n := n + 1;
    }
  }

  function LegCount(opp: Opportunity): nat {
    (if opp.frontCalls != [] then 1 else 0) + (if opp.backCalls != [] then 1 else 0)
  }

  // ---------------------------------------------------------------------
  // What a built bundle promises
  // ---------------------------------------------------------------------

  function OwnNonces(txs: seq<BundleTx>): seq<nat> {
    if txs == [] then []
    else (if txs[0].Own? then [txs[0].nonce] else []) + OwnNonces(txs[1..])
  }

  function OwnLegs(txs: seq<BundleTx>): seq<ExecutorCall> {
    if txs == [] then []
    else (if txs[0].Own? then [txs[0].leg] else []) + OwnLegs(txs[1..])
  }

  function ForeignTxs(txs: seq<BundleTx>): seq<Bytes> {
    if txs == [] then []
    else (if txs[0].Foreign? then [txs[0].raw] else []) + ForeignTxs(txs[1..])
  }

  lemma {:induction false} NoncesConcatenate(a: seq<BundleTx>, b: seq<BundleTx>)
    ensures OwnNonces(a + b) == OwnNonces(a) + OwnNonces(b)
  {
    if a == [] {
      assert a + b == b;
    } else {
      assert (a + b)[0] == a[0] && (a + b)[1..] == a[1..] + b;
      NoncesConcatenate(a[1..], b);
    }
  }

  lemma {:induction false} LegsConcatenate(a: seq<BundleTx>, b: seq<BundleTx>)
    ensures OwnLegs(a + b) == OwnLegs(a) + OwnLegs(b)
  {
    if a == [] {
      assert a + b == b;
    } else {
      assert (a + b)[0] == a[0] && (a + b)[1..] == a[1..] + b;
      LegsConcatenate(a[1..], b);
    }
  }

  lemma {:induction false} ForeignConcatenate(a: seq<BundleTx>, b: seq<BundleTx>)
    ensures ForeignTxs(a + b) == ForeignTxs(a) + ForeignTxs(b)
  {
    if a == [] {
      assert a + b == b;
    } else {
      assert (a + b)[0] == a[0] && (a + b)[1..] == a[1..] + b;
      ForeignConcatenate(a[1..], b);
    }
  }

  /** Three stretches at once. */
  lemma Concatenated(a: seq<BundleTx>, b: seq<BundleTx>, c: seq<BundleTx>)
    ensures OwnNonces(a + b + c) == OwnNonces(a) + OwnNonces(b) + OwnNonces(c)
    ensures OwnLegs(a + b + c) == OwnLegs(a) + OwnLegs(b) + OwnLegs(c)
    ensures ForeignTxs(a + b + c) == ForeignTxs(a) + ForeignTxs(b) + ForeignTxs(c)
  {
    hide *;
    NoncesConcatenate(a + b, c);
    NoncesConcatenate(a, b);
    LegsConcatenate(a + b, c);
    LegsConcatenate(a, b);
    ForeignConcatenate(a + b, c);
    ForeignConcatenate(a, b);
  }

  lemma {:induction false} AllForeign(victims: seq<Bytes>)
    ensures OwnNonces(VictimTxs(victims)) == [] && OwnLegs(VictimTxs(victims)) == []
    ensures ForeignTxs(VictimTxs(victims)) == victims
  {
    if victims != [] {
      AllForeign(victims[1..]);
      assert VictimTxs(victims)[1..] == VictimTxs(victims[1..]);
    }
  }

  lemma OwnEnds(opp: Opportunity, startNonce: nat, risk: RiskConfig)
    ensures OwnNonces(FrontTxs(opp, startNonce, risk)) + OwnNonces(BackTxs(opp, startNonce, risk))
         == seq(LegCount(opp), k => startNonce + k)
    ensures OwnLegs(FrontTxs(opp, startNonce, risk)) + OwnLegs(BackTxs(opp, startNonce, risk)) == LegsOf(opp, risk)
    ensures ForeignTxs(FrontTxs(opp, startNonce, risk)) == [] && ForeignTxs(BackTxs(opp, startNonce, risk)) == []
  {
    hide EncodeExecute;
  }

  function FrontCount(opp: Opportunity): nat {
    if opp.frontCalls == [] then 0 else 1
  }

  /** The bundle signs exactly as many consecutive nonces as it has legs, from its
      start nonce up; carries every victim once, in order and without anything of
      ours in between; and lets no transaction revert. */
  lemma BundleShape(opp: Opportunity, victims: seq<Bytes>, startNonce: nat, risk: RiskConfig)
    ensures var txs, f := BundleOf(opp, victims, startNonce, risk), FrontCount(opp);
            && OwnNonces(txs) == seq(LegCount(opp), k => startNonce + k)
            && OwnLegs(txs) == LegsOf(opp, risk)
            && ForeignTxs(txs) == victims
            && |txs| == LegCount(opp) + |victims| && ForeignTxs(txs[f..f + |victims|]) == victims
            && (forall tx :: tx in txs ==> !tx.canRevert)
  {
    AllForeign(victims);
    OwnEnds(opp, startNonce, risk);
    Concatenated(FrontTxs(opp, startNonce, risk), VictimTxs(victims), BackTxs(opp, startNonce, risk));
    Middle(opp, victims, startNonce, risk);
    hide FrontTxs, BackTxs, VictimTxs, OwnNonces, OwnLegs, ForeignTxs, LegsOf;
  }

  /** Each of our legs runs one call list of the opportunity, whole and in order, front
      before back, under the opportunity's tag, token, deadline and fee cap. Only the last one
      settles: it alone asks for the profit, pays the bribe and borrows, and it borrows
      exactly the tokens and amounts the opportunity names, if it names any. */
  lemma LegsCarryTheOpportunity(opp: Opportunity, victims: seq<Bytes>, startNonce: nat, risk: RiskConfig)
    ensures var legs := OwnLegs(BundleOf(opp, victims, startNonce, risk));
            && CallLists(legs) == (if opp.frontCalls == [] then [] else [opp.frontCalls])
                                  + (if opp.backCalls == [] then [] else [opp.backCalls])
            && (forall k :: 0 <= k < |legs| ==>
                  && legs[k].tag == opp.id
                  && legs[k].guard.profitToken == opp.profitToken
                  && legs[k].guard.blockDeadline == opp.targetBlock
                  && legs[k].guard.maxBaseFee == risk.maxBaseFeeWei)
            && (forall k :: 0 <= k < |legs| - 1 ==>
                  legs[k].Execute? && legs[k].guard.minProfit == legs[k].guard.bribeBps == 0
                  && legs[k].guard.phase == 1)
            && (legs != [] ==>
                  var last := legs[|legs| - 1];
                  && last.guard.minProfit == risk.minNetProfitWei && last.guard.bribeBps == risk.bribeBps
                  && last.guard.phase == (if opp.backCalls == [] then 0 else 2)
                  && (last.FlashExecute? <==> opp.flashTokens != [])
                  && (last.FlashExecute? ==>
                        last.tokens == opp.flashTokens && last.amounts == opp.flashAmounts))
  {
    BundleShape(opp, victims, startNonce, risk);
    hide BundleOf, OwnLegs;
  }

  /** What each leg runs. */
  function CallLists(legs: seq<ExecutorCall>): seq<seq<Call>> {
    seq(|legs|, k requires 0 <= k < |legs| => legs[k].calls)
  }

  lemma Middle(opp: Opportunity, victims: seq<Bytes>, startNonce: nat, risk: RiskConfig)
    ensures var txs, f := BundleOf(opp, victims, startNonce, risk), FrontCount(opp);
            && |txs| == LegCount(opp) + |victims| && txs[f..f + |victims|] == VictimTxs(victims)
            && (forall tx :: tx in txs ==> !tx.canRevert)
  {
    hide EncodeExecute;
    assert |FrontTxs(opp, startNonce, risk)| == FrontCount(opp) && |VictimTxs(victims)| == |victims|;
  }

  /** Our own legs, in the order they run. */
  function LegsOf(opp: Opportunity, risk: RiskConfig): seq<ExecutorCall> {
    (if opp.frontCalls != [] then [EncodeExecute(opp, opp.frontCalls, true, risk)] else [])
    + (if opp.backCalls != [] then [EncodeExecute(opp, opp.backCalls, false, risk)] else [])
  }
}
