/** The Flashblocks parser of `flashblocks.rs`: sequence tracking and the bounded
    dedupe window, over frames whose JSON, hex and RLP are already decoded. */
module Flashblocks {
  import opened Arithmetic
  import opened Options

  type Hash = nat

  /** The one feed label in use. */
  const FEED_FLASHBLOCKS: nat := 0

  const DEDUPE_BLOCKS: nat := 32

  /** `metadata.prev_flashblock_id`: `"<block>-<index>"`, or text that does not parse. */
  datatype PrevFrameId = Link(block: nat, index: nat) | Unparseable

  /** One raw entry of a frame's transaction list. */
  datatype Entry = Malformed | Deposit | Tx(hash: Hash)

  /** The `base` object, present at index 0; a block number of zero counts as absent. */
  datatype Base = Base(blockNumber: nat, parentHash: Option<Hash>)

  datatype RawFrame = RawFrame(
    index: Option<nat>,
    hasDiff: bool,
    stateId: Option<Hash>,
    payloadId: nat,
    metaBlock: Option<nat>,
    base: Option<Base>,
    prevFrameId: Option<PrevFrameId>,
    entries: seq<Entry>)

  datatype PreconfirmedState = PreconfirmedState(
    feed: nat,
    blockNumber: nat,
    flashblockIndex: nat,
    stateId: Hash,
    payloadId: nat,
    prevFrameId: Option<PrevFrameId>,
    parentHash: Option<Hash>,
    observedAtMs: nat)

  datatype Reason = BadIndex | NoDiff | BadStateId | BlocksDisagree | NoBlockNumber

  datatype FrameOutcome = NewBlock | Continuation | Redelivered | Rejected(reason: Reason)

  datatype ParsedFlashblock = ParsedFlashblock(
    state: Option<PreconfirmedState>, txs: seq<Hash>, duplicateTxs: nat, outcome: FrameOutcome)

  // ---------------------------------------------------------------------
  // Identity
  // ---------------------------------------------------------------------

  datatype Identity = Frame(block: nat, index: nat, stateId: Hash) | Unidentified(reason: Reason)

  /** The checks of the source, in its order. */
  function Identify(f: RawFrame): Identity {
    if f.index.None? then Unidentified(BadIndex)
    else if !f.hasDiff then Unidentified(NoDiff)
    else if f.stateId.None? then Unidentified(BadStateId)
    else
      var baseBn := if f.base.Some? && f.base.value.blockNumber > 0 then Some(f.base.value.blockNumber) else None;
      if f.metaBlock.Some? && baseBn.Some? && f.metaBlock != baseBn then Unidentified(BlocksDisagree)
      else if f.metaBlock.Some? then Frame(f.metaBlock.value, f.index.value, f.stateId.value)
      else if baseBn.Some? then Frame(baseBn.value, f.index.value, f.stateId.value)
      else Unidentified(NoBlockNumber)
  }

  function BaseParentHash(f: RawFrame): Option<Hash> {
    if f.base.Some? then f.base.value.parentHash else None
  }

  // ---------------------------------------------------------------------
  // State and counters
  // ---------------------------------------------------------------------

  type Key = (Hash, Hash)

  datatype ParserState = ParserState(
    lastFrame: Option<(nat, nat)>,
    lastPayload: Option<nat>,
    lastParentHash: Option<Hash>,
    seen: set<Key>,
    seenOrder: seq<(nat, Key)>)

  datatype Counters = Counters(
    framesTotal: nat, framesMalformed: nat, blocksSeen: nat, txsTotal: nat,
    txsDuplicate: nat, txsMalformed: nat, txsDeposit: nat, stateGaps: nat) {

    function Plus(d: Counters): Counters {
      Counters(framesTotal + d.framesTotal, framesMalformed + d.framesMalformed, blocksSeen + d.blocksSeen,
               txsTotal + d.txsTotal, txsDuplicate + d.txsDuplicate, txsMalformed + d.txsMalformed,
               txsDeposit + d.txsDeposit, stateGaps + d.stateGaps)
    }
  }

  const ZERO: Counters := Counters(0, 0, 0, 0, 0, 0, 0, 0)
  const INITIAL: ParserState := ParserState(None, None, None, {}, [])

  // ---------------------------------------------------------------------
  // One frame
  // ---------------------------------------------------------------------

  predicate SequenceGap(block: nat, index: nat, prev: Option<PrevFrameId>, lastBlock: nat, lastIndex: nat) {
    var link := if prev.Some? && prev.value.Link? then prev else None;
    if block == lastBlock then
      if index <= lastIndex then false
      else if index != lastIndex + 1 then true
      else link.Some? && (link.value.block != block || link.value.index + 1 != index)
    else if block == lastBlock + 1 then
      if index != 0 then true
      else link.Some? && (link.value.block != lastBlock || link.value.index != lastIndex)
    else block > lastBlock + 1 || block < lastBlock
  }

  predicate StateIdIsDuplicate(s: ParserState, block: nat, index: nat, stateId: Hash) {
    s.lastFrame == Some((block, index))
    && exists i :: 0 <= i < |s.seenOrder| && s.seenOrder[i].0 == block && s.seenOrder[i].1.0 == stateId
  }

  function Classify(s: ParserState, id: Identity): FrameOutcome
    requires id.Frame?
  {
    match s.lastFrame
    case None => NewBlock
    case Some((lb, li)) =>
      if StateIdIsDuplicate(s, id.block, id.index, id.stateId) then Redelivered
      else if id.block != lb then NewBlock
      else Continuation
  }

  /** Whether the frame raises `state_gaps`. */
  predicate RaisesGap(s: ParserState, id: Identity, prev: Option<PrevFrameId>)
    requires id.Frame?
  {
    match s.lastFrame
    case None => id.index != 0
    case Some((lb, li)) =>
      !StateIdIsDuplicate(s, id.block, id.index, id.stateId)
      && SequenceGap(id.block, id.index, prev, lb, li)
  }

  /** What the transaction loop makes of a list of entries. */
  datatype Absorbed = Absorbed(emitted: seq<Hash>, duplicate: nat, malformed: nat, deposit: nat)

  function Absorb(entries: seq<Entry>, stateId: Hash, seen: set<Key>): Absorbed {
    if entries == [] then Absorbed([], 0, 0, 0)
    else
      var n := |entries| - 1;
      var a := Absorb(entries[..n], stateId, seen);
      match entries[n]
      case Malformed => a.(malformed := a.malformed + 1)
      case Deposit => a.(deposit := a.deposit + 1)
      case Tx(h) =>
        if (stateId, h) in seen || h in a.emitted then a.(duplicate := a.duplicate + 1)
        else a.(emitted := a.emitted + [h])
  }

  function KeysOf(stateId: Hash, hashes: seq<Hash>): set<Key> {
    set h | h in hashes :: (stateId, h)
  }

  function Tagged(block: nat, stateId: Hash, hashes: seq<Hash>): seq<(nat, Key)> {
    seq(|hashes|, i requires 0 <= i < |hashes| => (block, (stateId, hashes[i])))
  }

  /** Drop the front of the window up to the first entry from `minBlock` or later. */
  function EvictBefore(seen: set<Key>, order: seq<(nat, Key)>, minBlock: nat): (set<Key>, seq<(nat, Key)>)
    decreases |order|
  {
    if order == [] || order[0].0 >= minBlock then (seen, order)
    else EvictBefore(seen - {order[0].1}, order[1..], minBlock)
  }

  predicate Advances(s: ParserState, block: nat, index: nat) {
    s.lastFrame.None?
    || block > s.lastFrame.value.0 || (block == s.lastFrame.value.0 && index > s.lastFrame.value.1)
  }

  datatype StepResult = StepResult(next: ParserState, parsed: ParsedFlashblock, delta: Counters)

  /** Everything one call of `parse` does, as a function of the old state. */
  function Step(s: ParserState, f: RawFrame, feed: nat, now: nat): StepResult {
    match Identify(f)
    case Unidentified(reason) =>
      StepResult(s, ParsedFlashblock(None, [], 0, Rejected(reason)),
                 ZERO.(framesTotal := 1, framesMalformed := 1))
    case Frame(block, index, stateId) =>
      var outcome := Classify(s, Identify(f));
      var a := Absorb(f.entries, stateId, s.seen);
      var (seen, order) := EvictBefore(s.seen + KeysOf(stateId, a.emitted),
                                       s.seenOrder + Tagged(block, stateId, a.emitted),
                                       MonusNat(block, DEDUPE_BLOCKS));
      var moves := outcome != Redelivered && Advances(s, block, index);
      var newBlock := moves && (s.lastFrame.None? || s.lastFrame.value.0 != block);
      StepResult(
        ParserState(
          if moves then Some((block, index)) else s.lastFrame,
          if moves then Some(f.payloadId) else s.lastPayload,
          if outcome != Redelivered && BaseParentHash(f).Some? then BaseParentHash(f) else s.lastParentHash,
          seen, order),
        ParsedFlashblock(
          Some(PreconfirmedState(feed, block, index, stateId, f.payloadId, f.prevFrameId,
                                 if BaseParentHash(f).Some? then BaseParentHash(f) else s.lastParentHash, now)),
          a.emitted, a.duplicate, outcome),
        Counters(1, 0, if newBlock then 1 else 0, |a.emitted|, a.duplicate, a.malformed, a.deposit,
                 if RaisesGap(s, Identify(f), f.prevFrameId) then 1 else 0))
  }

  // ---------------------------------------------------------------------
  // The objects
  // ---------------------------------------------------------------------

  class FlashblockStats {
    var framesTotal: nat
    var framesMalformed: nat
    var blocksSeen: nat
    var txsTotal: nat
    var txsDuplicate: nat
    var txsMalformed: nat
    var txsDeposit: nat
    var stateGaps: nat

    constructor ()
      ensures Value() == ZERO
    {
      framesTotal, framesMalformed, blocksSeen, txsTotal := 0, 0, 0, 0;
      txsDuplicate, txsMalformed, txsDeposit, stateGaps := 0, 0, 0, 0;
    }

    function Value(): Counters
      reads this
    {
      Counters(framesTotal, framesMalformed, blocksSeen, txsTotal, txsDuplicate, txsMalformed, txsDeposit, stateGaps)
    }
  }

  class FlashblockParser {
    const feed: nat
    var lastFrame: Option<(nat, nat)>
    var lastPayload: Option<nat>
    var lastParentHash: Option<Hash>
    var seen: set<Key>
    var seenOrder: seq<(nat, Key)>

    constructor (feed: nat)
      ensures this.feed == feed && State() == INITIAL
    {
      this.feed := feed;
      lastFrame, lastPayload, lastParentHash, seen, seenOrder := None, None, None, {}, [];
    }

    function State(): ParserState
      reads this
    {
      ParserState(lastFrame, lastPayload, lastParentHash, seen, seenOrder)
    }

    method Parse(f: RawFrame, stats: FlashblockStats, now: nat) returns (parsed: ParsedFlashblock)
      modifies this, stats
      ensures var step := Step(old(State()), f, feed, now);
              && State() == step.next
              && parsed == step.parsed
              && stats.Value() == old(stats.Value()).Plus(step.delta)
    {
      hide Identify, Absorb, EvictBefore, KeysOf, Tagged, Classify, RaisesGap;
      stats.framesTotal := stats.framesTotal + 1;
      var id := Identify(f);
      if id.Unidentified? {
        stats.framesMalformed := stats.framesMalformed + 1;
        return ParsedFlashblock(None, [], 0, Rejected(id.reason));
      }
      var Frame(block, index, stateId) := id;
      var parentHash := if BaseParentHash(f).Some? then BaseParentHash(f) else lastParentHash;

      var outcome := TrackSequence(id, f.prevFrameId, stats);
      var txs, dup := AbsorbEntries(f.entries, block, stateId, stats);
      Evict(MonusNat(block, DEDUPE_BLOCKS));

      if outcome != Redelivered {
        Advance(block, index, f.payloadId, BaseParentHash(f), stats);
      }
      parsed := ParsedFlashblock(
        Some(PreconfirmedState(feed, block, index, stateId, f.payloadId, f.prevFrameId, parentHash, now)),
        txs, dup, outcome);
    }

    /** The sequence tracking of `parse`. */
    method TrackSequence(id: Identity, prev: Option<PrevFrameId>, stats: FlashblockStats)
      returns (outcome: FrameOutcome)
      requires id.Frame?
      modifies stats`stateGaps
      ensures outcome == Classify(State(), id)
      ensures stats.stateGaps == old(stats.stateGaps) + if RaisesGap(State(), id, prev) then 1 else 0
    {
      match lastFrame {
        case None =>
          if id.index != 0 {
            stats.stateGaps := stats.stateGaps + 1;
          }
          outcome := NewBlock;
        case Some((lb, li)) =>
          if StateIdIsDuplicate(State(), id.block, id.index, id.stateId) {
            outcome := Redelivered;
          } else {
            if SequenceGap(id.block, id.index, prev, lb, li) {
              stats.stateGaps := stats.stateGaps + 1;
            }
            outcome := if id.block != lb then NewBlock else Continuation;
          }
      }
    }

    /** The closing bookkeeping of `parse` for a frame that is not a redelivery. */
    method Advance(block: nat, index: nat, payloadId: nat, baseParent: Option<Hash>, stats: FlashblockStats)
      modifies this`lastFrame, this`lastPayload, this`lastParentHash, stats`blocksSeen
      ensures var moves := old(Advances(State(), block, index));
              && lastFrame == (if moves then Some((block, index)) else old(lastFrame))
              && lastPayload == (if moves then Some(payloadId) else old(lastPayload))
              && lastParentHash == (if baseParent.Some? then baseParent else old(lastParentHash))
              && stats.blocksSeen == old(stats.blocksSeen)
                   + if moves && (old(lastFrame).None? || old(lastFrame).value.0 != block) then 1 else 0
    {
      if Advances(State(), block, index) {
        if lastFrame.None? || lastFrame.value.0 != block {
          stats.blocksSeen := stats.blocksSeen + 1;
        }
        lastFrame := Some((block, index));
        lastPayload := Some(payloadId);
      }
      if baseParent.Some? {
        lastParentHash := baseParent;
      }
    }

    /** The transaction loop of `parse`. */
    method AbsorbEntries(entries: seq<Entry>, block: nat, stateId: Hash, stats: FlashblockStats)
      returns (txs: seq<Hash>, dup: nat)
      modifies this`seen, this`seenOrder, stats`txsTotal, stats`txsDuplicate, stats`txsMalformed, stats`txsDeposit
      ensures var a := Absorb(entries, stateId, old(seen));
              && txs == a.emitted && dup == a.duplicate
              && seen == old(seen) + KeysOf(stateId, a.emitted)
              && seenOrder == old(seenOrder) + Tagged(block, stateId, a.emitted)
              && stats.txsTotal == old(stats.txsTotal) + |a.emitted|
              && stats.txsDuplicate == old(stats.txsDuplicate) + a.duplicate
              && stats.txsMalformed == old(stats.txsMalformed) + a.malformed
              && stats.txsDeposit == old(stats.txsDeposit) + a.deposit
    {
      txs, dup := [], 0;
      for i := 0 to |entries|
        invariant var a := Absorb(entries[..i], stateId, old(seen));
                  && txs == a.emitted && dup == a.duplicate
                  && seen == old(seen) + KeysOf(stateId, a.emitted)
                  && seenOrder == old(seenOrder) + Tagged(block, stateId, a.emitted)
                  && stats.txsTotal == old(stats.txsTotal) + |a.emitted|
                  && stats.txsDuplicate == old(stats.txsDuplicate) + a.duplicate
                  && stats.txsMalformed == old(stats.txsMalformed) + a.malformed
                  && stats.txsDeposit == old(stats.txsDeposit) + a.deposit
      {
        assert entries[..i + 1][..i] == entries[..i];
        match entries[i] {
          case Malformed =>
            stats.txsMalformed := stats.txsMalformed + 1;
          case Deposit =>
            stats.txsDeposit := stats.txsDeposit + 1;
          case Tx(h) =>
            var key := (stateId, h);
            if key in seen {
              dup := dup + 1;
              stats.txsDuplicate := stats.txsDuplicate + 1;
            } else {
              seen := seen + {key};
              seenOrder := seenOrder + [(block, key)];
              stats.txsTotal := stats.txsTotal + 1;
              txs := txs + [h];
            }
        }
      }
      assert entries[..|entries|] == entries;
    }

    /** `evict_before`. */
    method Evict(minBlock: nat)
      modifies this`seen, this`seenOrder
      ensures (seen, seenOrder) == EvictBefore(old(seen), old(seenOrder), minBlock)
    {
      while seenOrder != [] && seenOrder[0].0 < minBlock
        invariant EvictBefore(seen, seenOrder, minBlock) == EvictBefore(old(seen), old(seenOrder), minBlock)
        decreases |seenOrder|
      {
        seen := seen - {seenOrder[0].1};
        seenOrder := seenOrder[1..];
      }
    }
  }
}
