/** Bundles built from reserved nonces: the allocator and the builder together. */
module NonceLane {
  import opened Bundle
  import opened Inventory

  /** A bundle whose builder reserved one nonce per leg under `id` and built from the first. */
  ghost predicate BuiltUnder(l: Lane, id: nat, opp: Opportunity, victims: seq<Bytes>, risk: RiskConfig,
                             txs: seq<BundleTx>) {
    id in l.outstanding
    && l.outstanding[id].count == LegCount(opp)
    && txs == BundleOf(opp, victims, l.outstanding[id].start, risk)
  }

  /** Such a bundle signs exactly the nonces of its reservation. */
  lemma SignsItsReservation(l: Lane, id: nat, opp: Opportunity, victims: seq<Bytes>, risk: RiskConfig,
                            txs: seq<BundleTx>)
    requires BuiltUnder(l, id, opp, victims, risk, txs)
    ensures forall n: nat :: n in OwnNonces(txs) <==> Uses(l.outstanding[id], n)
  {
    var r := l.outstanding[id];
    BundleShape(opp, victims, r.start, risk);
    forall n: nat ensures n in OwnNonces(txs) <==> Uses(r, n) {
      if Uses(r, n) {
        assert OwnNonces(txs)[n - r.start] == n;
      }
    }
  }

  /** After any interleaving from a fresh lane, no two outstanding bundles sign the same nonce. */
  lemma NoNonceSignedTwice(start: U64, actions: seq<Action>,
                           i: nat, oppI: Opportunity, victimsI: seq<Bytes>, txsI: seq<BundleTx>,
                           j: nat, oppJ: Opportunity, victimsJ: seq<Bytes>, txsJ: seq<BundleTx>, risk: RiskConfig)
    requires NeverWraps(Lane(start, map[]), actions) && i != j
    requires BuiltUnder(ActAll(Lane(start, map[]), actions), i, oppI, victimsI, risk, txsI)
    requires BuiltUnder(ActAll(Lane(start, map[]), actions), j, oppJ, victimsJ, risk, txsJ)
    ensures forall n: nat :: n in OwnNonces(txsI) ==> n !in OwnNonces(txsJ)
  {
    var l := ActAll(Lane(start, map[]), actions);
    EveryInterleavingKeepsLane(Lane(start, map[]), actions);
    SignsItsReservation(l, i, oppI, victimsI, risk, txsI);
    SignsItsReservation(l, j, oppJ, victimsJ, risk, txsJ);
  }
}
