/** What one frame brings out of the parser, read off the frame itself, and which
    emitted states are current after any run of frames and sealed blocks. */
module EmittedStates {
  import opened Options
  import opened Flashblocks
  import opened FlashblockRuns
  import opened Tracker
  import opened Redelivery

  // ---------------------------------------------------------------------
  // One frame
  // ---------------------------------------------------------------------

  /** The metadata or the base object of the frame gives this block number. */
  predicate Names(f: RawFrame, block: nat) {
    f.metaBlock == Some(block) || (block > 0 && f.base.Some? && f.base.value.blockNumber == block)
  }

  ghost predicate NamesOneBlock(f: RawFrame) {
    (exists b :: Names(f, b)) && forall b, c :: Names(f, b) && Names(f, c) ==> b == c
  }

  /** Exactly which frames are accepted, under which identity, and why the others are refused. */
  lemma AcceptedIff(f: RawFrame)
    ensures Identify(f).Frame? <==> f.index.Some? && f.hasDiff && f.stateId.Some? && NamesOneBlock(f)
    ensures match Identify(f)
            case Frame(block, index, stateId) =>
              Names(f, block) && f.index == Some(index) && f.stateId == Some(stateId)
            case Unidentified(reason) =>
              reason == if f.index.None? then BadIndex
                        else if !f.hasDiff then NoDiff
                        else if f.stateId.None? then BadStateId
                        else if exists b :: Names(f, b) then BlocksDisagree
                        else NoBlockNumber
  {
    if f.metaBlock.Some? {
      assert Names(f, f.metaBlock.value);
    }
    if f.base.Some? && f.base.value.blockNumber > 0 {
      assert Names(f, f.base.value.blockNumber);
    }
  }

  /** A refused frame changes nothing but the two frame counters. */
  lemma RefusedFrameOnlyCounts(s: ParserState, f: RawFrame, feed: nat, now: nat)
    requires Identify(f).Unidentified?
    ensures var step := Step(s, f, feed, now);
            && step.next == s && step.parsed.state.None? && step.parsed.txs == [] && step.parsed.duplicateTxs == 0
            && step.parsed.outcome == Rejected(Identify(f).reason)
            && step.delta == Counters(1, 1, 0, 0, 0, 0, 0, 0)
  {}

  /** An accepted frame's state carries what the frame says: its block, index and state
      identity, its payload and its link, the feed it came on and the time it was read. */
  lemma StateIsTheFrames(s: ParserState, f: RawFrame, feed: nat, now: nat)
    requires Identify(f).Frame?
    ensures var state := Step(s, f, feed, now).parsed.state;
            && state.Some? && Names(f, state.value.blockNumber)
            && f.index == Some(state.value.flashblockIndex) && f.stateId == Some(state.value.stateId)
            && f.payloadId == state.value.payloadId && f.prevFrameId == state.value.prevFrameId
            && state.value.feed == feed && state.value.observedAtMs == now
  {
    AcceptedIff(f);
    hide Absorb, EvictBefore, Classify, RaisesGap;
  }

  /** It emits, in frame order and once each, the hashes not seen yet under its state; every
      other transaction is a duplicate, and every entry is counted under its kind. */
  lemma EmitsTheUnseen(s: ParserState, f: RawFrame, feed: nat, now: nat)
    requires Identify(f).Frame?
    ensures var step, entries := Step(s, f, feed, now), multiset(f.entries);
            var txs, d := step.parsed.txs, step.delta;
            && (forall h :: h in txs <==> Tx(h) in f.entries && (Identify(f).stateId, h) !in s.seen)
            && (forall i, j :: 0 <= i < j < |txs| ==> txs[i] != txs[j])
            && (forall i, j :: 0 <= i < j < |txs| ==> FirstAt(f.entries, txs[i]) < FirstAt(f.entries, txs[j]))
            && step.parsed.duplicateTxs == d.txsDuplicate
            && d.txsTotal == |txs| && d.txsMalformed == entries[Malformed] && d.txsDeposit == entries[Deposit]
            && d.txsTotal + d.txsDuplicate + d.txsMalformed + d.txsDeposit == |f.entries|
            && d.framesTotal == 1 && d.framesMalformed == 0 && d.stateGaps <= 1
  {
    AbsorbPartitions(f.entries, Identify(f).stateId, s.seen);
    hide Absorb, EvictBefore, Classify, RaisesGap, FirstAt;
  }

  /** The frame's new keys go to the end of the window under its block, and the window
      then loses its front as far as it is more than 32 blocks old, and no further. */
  lemma WindowSlides(s: ParserState, f: RawFrame, feed: nat, now: nat)
    requires Identify(f).Frame?
    ensures var id, step := Identify(f), Step(s, f, feed, now);
            var txs, pushed := step.parsed.txs, Tagged(id.block, id.stateId, step.parsed.txs);
            && |pushed| == |txs| && (forall i :: 0 <= i < |txs| ==> pushed[i] == (id.block, (id.stateId, txs[i])))
            && SlidTo(s.seenOrder + pushed, step.next.seenOrder, id.block)
  {
    var id, txs := Identify(f), Step(s, f, feed, now).parsed.txs;
    EvictSlides(s.seen + KeysOf(id.stateId, txs), s.seenOrder + Tagged(id.block, id.stateId, txs), id.block);
    hide Absorb, EvictBefore, Classify, RaisesGap, SlidTo;
  }

  /** `kept` is `all` without its longest front that is more than 32 blocks below `block`. */
  ghost predicate SlidTo(all: seq<(nat, Key)>, kept: seq<(nat, Key)>, block: nat) {
    && |kept| <= |all| && all[|all| - |kept|..] == kept
    && (forall i :: 0 <= i < |all| - |kept| ==> all[i].0 + 32 < block)
    && (kept != [] ==> kept[0].0 + 32 >= block)
  }

  lemma {:induction false} EvictSlides(seen: set<Key>, order: seq<(nat, Key)>, block: nat)
    ensures SlidTo(order, EvictBefore(seen, order, Arithmetic.MonusNat(block, DEDUPE_BLOCKS)).1, block)
    decreases |order|
  {
    if order != [] && order[0].0 + 32 < block {
      EvictSlides(seen - {order[0].1}, order[1..], block);
    }
  }

  /** What a frame is taken for: a redelivery repeats the last position under a state the window
      still holds for its block; of the others, those of another block open it. */
  lemma OutcomeIs(s: ParserState, f: RawFrame, feed: nat, now: nat)
    requires Identify(f).Frame?
    ensures var id, outcome := Identify(f), Step(s, f, feed, now).parsed.outcome;
            var held := exists e :: e in s.seenOrder && e.0 == id.block && e.1.0 == id.stateId;
            && (outcome == Redelivered <==> s.lastFrame == Some((id.block, id.index)) && held)
            && (outcome == NewBlock <==> s.lastFrame.None? || s.lastFrame.value.0 != id.block)
            && (outcome == Continuation <==>
                  s.lastFrame.Some? && s.lastFrame.value.0 == id.block && !(s.lastFrame.value.1 == id.index && held))
  {
    var id := Identify(f);
    if exists e :: e in s.seenOrder && e.0 == id.block && e.1.0 == id.stateId {
      var e :| e in s.seenOrder && e.0 == id.block && e.1.0 == id.stateId;
      var i :| 0 <= i < |s.seenOrder| && s.seenOrder[i] == e;
      assert s.seenOrder[i].0 == id.block && s.seenOrder[i].1.0 == id.stateId;
    }
    if StateIdIsDuplicate(s, id.block, id.index, id.stateId) {
      var i :| 0 <= i < |s.seenOrder| && s.seenOrder[i].0 == id.block && s.seenOrder[i].1.0 == id.stateId;
      assert s.seenOrder[i] in s.seenOrder;
    }
    hide Absorb, EvictBefore, RaisesGap, Identify;
  }

  /** The gap counter rises exactly when the frame is neither the healthy successor of the
      last position nor a resend from within the current block. */
  lemma GapIsCounted(s: ParserState, f: RawFrame, feed: nat, now: nat)
    requires Identify(f).Frame?
    ensures var id, gaps := Identify(f), Step(s, f, feed, now).delta.stateGaps;
            gaps == 0 <==>
              match s.lastFrame
              case None => id.index == 0
              case Some((lb, li)) =>
                (id.block == lb && id.index <= li)
                || (Follows(id.block, id.index, lb, li) && LinkNames(f.prevFrameId, lb, li))
  {
    GapMeansDiscontinuity(s, f);
    hide Absorb, EvictBefore, Classify, RaisesGap, Follows, LinkNames;
  }

  // ---------------------------------------------------------------------
  // Parent hashes and payloads
  // ---------------------------------------------------------------------

  /** The `i`-th arrival was accepted, was not a redelivery, and named a parent. */
  ghost predicate NamesParent(arrivals: seq<Arrival>, i: nat) {
    && i < |arrivals| && arrivals[i].frame.base.Some? && arrivals[i].frame.base.value.parentHash.Some?
    && var step := StepOf(FeedAfter(arrivals[..i]).parser, arrivals[i]);
       step.parsed.state.Some? && step.parsed.outcome != Redelivered
  }

  /** `h` is the parent named last among the first `n` arrivals. */
  ghost predicate LastParent(arrivals: seq<Arrival>, n: nat, h: Option<Hash>) {
    if h.None? then forall i :: 0 <= i < n ==> !NamesParent(arrivals, i)
    else exists i :: 0 <= i < n && NamesParent(arrivals, i) && arrivals[i].frame.base.value.parentHash == h
                     && forall j :: i < j < n ==> !NamesParent(arrivals, j)
  }

  /** A state's parent is the one its own frame names, or else the one named last before it
      by an accepted frame that was no redelivery. */
  lemma ParentHashIs(arrivals: seq<Arrival>, n: nat)
    requires n < |arrivals| && Identify(arrivals[n].frame).Frame?
    ensures var state := StepOf(FeedAfter(arrivals[..n]).parser, arrivals[n]).parsed.state.value;
            if arrivals[n].frame.base.Some? && arrivals[n].frame.base.value.parentHash.Some?
            then state.parentHash == arrivals[n].frame.base.value.parentHash
            else LastParent(arrivals, n, state.parentHash)
  {
    LastParentIsKept(arrivals, n);
    hide Absorb, EvictBefore, Classify, RaisesGap, LastParent;
  }

  lemma {:induction false} LastParentIsKept(arrivals: seq<Arrival>, n: nat)
    requires n <= |arrivals|
    ensures LastParent(arrivals, n, FeedAfter(arrivals[..n]).parser.lastParentHash)
  {
    if n > 0 {
      var m := n - 1;
      LastParentIsKept(arrivals, m);
      assert arrivals[..n][..m] == arrivals[..m];
      var before := FeedAfter(arrivals[..m]).parser.lastParentHash;
      var after := FeedAfter(arrivals[..n]).parser.lastParentHash;
      ParentStep(FeedAfter(arrivals[..m]).parser, arrivals[m]);
      assert after == if NamesParent(arrivals, m) then arrivals[m].frame.base.value.parentHash else before;
      hide FeedAfter, NamesParent;
      LastParentExtends(arrivals, m, before);
    }
  }

  lemma ParentStep(s: ParserState, a: Arrival)
    ensures var step := StepOf(s, a);
            step.next.lastParentHash ==
              if step.parsed.state.Some? && step.parsed.outcome != Redelivered
                 && a.frame.base.Some? && a.frame.base.value.parentHash.Some?
              then a.frame.base.value.parentHash else s.lastParentHash
  {
    hide Absorb, EvictBefore, Classify, RaisesGap;
  }

  lemma LastParentExtends(arrivals: seq<Arrival>, m: nat, h: Option<Hash>)
    requires m < |arrivals| && LastParent(arrivals, m, h)
    requires NamesParent(arrivals, m) ==>
               arrivals[m].frame.base.Some? && arrivals[m].frame.base.value.parentHash.Some?
    ensures LastParent(arrivals, m + 1,
                       if NamesParent(arrivals, m) then arrivals[m].frame.base.value.parentHash else h)
  {
    hide NamesParent;
  }

  // ---------------------------------------------------------------------
  // Which states are current
  // ---------------------------------------------------------------------

  /** The state the parser emits for the `i`-th event of a run. */
  function EmittedAt(events: seq<SystemEvent>, i: nat): PreconfirmedState
    requires i < |events| && Accepts(events[i])
  {
    StepOf(SystemAfter(events[..i]).parser, events[i].arrival).parsed.state.value
  }

  predicate Behind(a: Identity, b: Identity)
    requires a.Frame? && b.Frame?
  {
    a.block < b.block || (a.block == b.block && a.index < b.index)
  }

  /** The `j`-th event is the first accepted frame at the largest position of the run. */
  ghost predicate LeadsAt(events: seq<SystemEvent>, j: nat) {
    && j < |events| && Accepts(events[j])
    && (forall i :: 0 <= i < j && Accepts(events[i]) ==> Behind(IdOf(events[i]), IdOf(events[j])))
    && (forall i :: j < i < |events| && Accepts(events[i]) ==> !Behind(IdOf(events[j]), IdOf(events[i])))
  }

  /** After any run, the state emitted for an accepted frame is current exactly if that frame
      has the block and the payload of the frame that first reached the largest position. */
  lemma EmittedStateIsCurrentIff(events: seq<SystemEvent>, i: nat, j: nat)
    requires LeadsAt(events, j) && i < |events| && Accepts(events[i])
    ensures PinnedIsCurrent(SystemAfter(events).tracker, EmittedAt(events, i)) <==>
              IdOf(events[i]).block == IdOf(events[j]).block
              && events[i].arrival.frame.payloadId == events[j].arrival.frame.payloadId
  {
    LeaderIsLatest(events, j);
    EmittedIs(SystemAfter(events[..i]).parser, events[i].arrival);
    EmittedIs(SystemAfter(events[..j]).parser, events[j].arrival);
    hide Step, SystemAfter;
  }

  lemma EmittedIs(s: ParserState, a: Arrival)
    requires Identify(a.frame).Frame?
    ensures var id, state := Identify(a.frame), StepOf(s, a).parsed.state;
            && state.Some? && state.value.feed == FEED_FLASHBLOCKS && state.value.payloadId == a.frame.payloadId
            && state.value.blockNumber == id.block && state.value.flashblockIndex == id.index
  {
    hide Absorb, EvictBefore, Classify, RaisesGap;
  }

  /** The newest state of the tracker is the one emitted for that frame. */
  lemma {:induction false} LeaderIsLatest(events: seq<SystemEvent>, j: nat)
    requires LeadsAt(events, j)
    ensures SystemAfter(events).tracker.latest == Some(EmittedAt(events, j))
  {
    var n := |events| - 1;
    var s := SystemAfter(events[..n]);
    assert SystemAfter(events) == NextSystem(s, events[n]);
    NextLatest(s, events[n]);
    if j < n {
      LedBefore(events, j);
      LeaderIsLatest(events[..n], j);
      EmittedIs(SystemAfter(events[..j]).parser, events[j].arrival);
      hide LeadsAt;
    } else {
      LeaderIsNewer(events);
    }
    hide Step, Observe, NextSystem, Identify, SystemAfter;
  }

  lemma LedBefore(events: seq<SystemEvent>, j: nat)
    requires LeadsAt(events, j) && j < |events| - 1
    ensures var n := |events| - 1;
            && LeadsAt(events[..n], j) && EmittedAt(events[..n], j) == EmittedAt(events, j)
            && (Accepts(events[n]) ==> !Behind(IdOf(events[j]), IdOf(events[n])))
  {
    var n := |events| - 1;
    assert forall i :: 0 <= i < n ==> events[..n][i] == events[i];
    assert events[..n][..j] == events[..j];
    hide Step, SystemAfter, Identify, Behind;
  }

  lemma LeaderIsNewer(events: seq<SystemEvent>)
    requires events != [] && LeadsAt(events, |events| - 1)
    ensures var n := |events| - 1;
            IsNewer(SystemAfter(events[..n]).tracker.latest, EmittedAt(events, n))
  {
    var n := |events| - 1;
    var init := events[..n];
    LatestWasEmitted(init);
    EmittedIs(SystemAfter(init).parser, events[n].arrival);
    var latest := SystemAfter(init).tracker.latest;
    if latest.Some? {
      var i :| 0 <= i < n && Accepts(init[i])
               && (latest.value.blockNumber, latest.value.flashblockIndex) == (IdOf(init[i]).block, IdOf(init[i]).index);
      assert init[i] == events[i];
    }
    hide Step, SystemAfter, Identify;
  }

  /** What one event does to the newest state. */
  lemma NextLatest(s: System, e: SystemEvent)
    ensures NextSystem(s, e).tracker.latest ==
            if Accepts(e) && IsNewer(s.tracker.latest, StepOf(s.parser, e.arrival).parsed.state.value)
            then StepOf(s.parser, e.arrival).parsed.state else s.tracker.latest
    ensures Accepts(e) ==>
              var id, state := IdOf(e), StepOf(s.parser, e.arrival).parsed.state.value;
              state.blockNumber == id.block && state.flashblockIndex == id.index
  {
    hide Absorb, EvictBefore, Classify, RaisesGap, Trim, WithFrame, IsNewer;
  }

  lemma {:induction false} LatestWasEmitted(events: seq<SystemEvent>)
    ensures var latest := SystemAfter(events).tracker.latest;
            latest.None? || exists i :: 0 <= i < |events| && Accepts(events[i])
                              && (latest.value.blockNumber, latest.value.flashblockIndex) ==
                                 (IdOf(events[i]).block, IdOf(events[i]).index)
  {
    if events != [] {
      var n := |events| - 1;
      LatestWasEmitted(events[..n]);
      NextLatest(SystemAfter(events[..n]), events[n]);
      assert forall i :: 0 <= i < n ==> events[..n][i] == events[i];
      hide Step, Observe, NextSystem, Identify;
    }
  }

  /** The parser and the tracker always agree on the newest position. */
  lemma {:induction false} PositionsAgree(events: seq<SystemEvent>)
    ensures var s := SystemAfter(events);
            s.parser.lastFrame ==
              match s.tracker.latest
              case None => None
              case Some(latest) => Some((latest.blockNumber, latest.flashblockIndex))
  {
    if events != [] {
      var n := |events| - 1;
      PositionsAgree(events[..n]);
      var s := SystemAfter(events[..n]);
      NextLatest(s, events[n]);
      if events[n].Notify? {
        MovesForward(s.parser, events[n].arrival);
      }
      hide Step, Observe;
    }
  }

  /** `last_frame` follows every accepted frame beyond it, and no other. */
  lemma MovesForward(s: ParserState, a: Arrival)
    ensures var id := Identify(a.frame);
            StepOf(s, a).next.lastFrame ==
              if id.Frame? && (s.lastFrame.None? || s.lastFrame.value.0 < id.block
                               || (s.lastFrame.value.0 == id.block && s.lastFrame.value.1 < id.index))
              then Some((id.block, id.index)) else s.lastFrame
    ensures StepOf(s, a).next.lastPayload ==
            if StepOf(s, a).next.lastFrame != s.lastFrame then Some(a.frame.payloadId) else s.lastPayload
  {
    hide Absorb, EvictBefore, RaisesGap;
  }
}
