/** The parser feeding the tracker, as `ingest.rs` and the engine wire them, and
    what a frame delivered a second time does to the pair. */
module Redelivery {
  import opened Arithmetic
  import opened Options
  import opened Flashblocks
  import opened FlashblockRuns
  import opened Tracker

  datatype System = System(parser: ParserState, tracker: TrackerState)

  datatype SystemEvent = Notify(arrival: Arrival) | SealBlock(block: nat)

  /** Parse one notification and hand an accepted frame to the tracker. */
  function Deliver(s: System, a: Arrival): System {
    var step := StepOf(s.parser, a);
    System(step.next,
           if step.parsed.state.Some? then Observe(s.tracker, step.parsed.state.value, step.parsed.txs)
           else s.tracker)
  }

  function NextSystem(s: System, e: SystemEvent): System {
    match e
    case Notify(a) => Deliver(s, a)
    case SealBlock(b) => s.(tracker := Seal(s.tracker, b))
  }

  function SystemAfter(events: seq<SystemEvent>): System {
    if events == [] then System(INITIAL, EMPTY)
    else NextSystem(SystemAfter(events[..|events| - 1]), events[|events| - 1])
  }

  // ---------------------------------------------------------------------
  // Invariants of the pair
  // ---------------------------------------------------------------------

  ghost predicate SystemOk(s: System) {
    WindowOk(s.parser.seen, s.parser.seenOrder) && TrackerOk(s.tracker)
  }

  predicate Accepts(e: SystemEvent) {
    e.Notify? && Identify(e.arrival.frame).Frame?
  }

  function IdOf(e: SystemEvent): Identity
    requires Accepts(e)
  {
    Identify(e.arrival.frame)
  }

  /** A state identity belongs to one block, as the feed promises. */
  ghost predicate StateIdsNameBlocks(events: seq<SystemEvent>) {
    forall i, j ::
      (0 <= i < |events| && 0 <= j < |events| && Accepts(events[i]) && Accepts(events[j])
       && IdOf(events[i]).stateId == IdOf(events[j]).stateId)
      ==> IdOf(events[i]).block == IdOf(events[j]).block
  }

  /** Every entry of the window was put there by an accepted frame of its block and state. */
  ghost predicate TagsExplained(events: seq<SystemEvent>, order: seq<(nat, Key)>) {
    forall e :: e in order ==>
      exists j :: 0 <= j < |events| && Accepts(events[j])
                  && IdOf(events[j]).block == e.0 && IdOf(events[j]).stateId == e.1.0
  }

  lemma {:induction false} SystemAlwaysOk(events: seq<SystemEvent>)
    ensures SystemOk(SystemAfter(events)) && TagsExplained(events, SystemAfter(events).parser.seenOrder)
  {
    if events != [] {
      var n := |events| - 1;
      var s := SystemAfter(events[..n]);
      SystemAlwaysOk(events[..n]);
      NextKeepsSystem(s, events[n]);
      var order := NextSystem(s, events[n]).parser.seenOrder;
      forall e | e in order
        ensures exists j :: 0 <= j < |events| && Accepts(events[j])
                    && IdOf(events[j]).block == e.0 && IdOf(events[j]).stateId == e.1.0
      {
        if e in s.parser.seenOrder {
          var j :| 0 <= j < n && Accepts(events[..n][j])
                   && IdOf(events[..n][j]).block == e.0 && IdOf(events[..n][j]).stateId == e.1.0;
          assert events[j] == events[..n][j];
        } else {
          assert Accepts(events[n]);
        }
      }
    }
  }

  lemma NextKeepsSystem(s: System, e: SystemEvent)
    requires SystemOk(s)
    ensures SystemOk(NextSystem(s, e))
    ensures forall x :: x in NextSystem(s, e).parser.seenOrder ==>
              x in s.parser.seenOrder || (Accepts(e) && x.0 == IdOf(e).block && x.1.0 == IdOf(e).stateId)
  {
    hide Absorb, EvictBefore, Classify, RaisesGap, Trim;
    match e {
      case Notify(a) =>
        StepKeepsWindow(s.parser, a.frame, FEED_FLASHBLOCKS, a.now);
        var step := StepOf(s.parser, a);
        if step.parsed.state.Some? {
          StepKeepsTracker(s.tracker, Observed(step.parsed.state.value, step.parsed.txs));
        }
      case SealBlock(b) =>
        StepKeepsTracker(s.tracker, Sealed(b));
    }
  }

  // ---------------------------------------------------------------------
  // What stays behind after a frame was accepted
  // ---------------------------------------------------------------------

  /** Both halves remember the frame: its keys are in the window under its block,
      the tracker holds it, and neither position is behind it. */
  ghost predicate Remembers(s: System, f: RawFrame) {
    var id := Identify(f);
    id.Frame?
    && (forall h: Hash :: Tx(h) in f.entries ==> (id.block, (id.stateId, h)) in s.parser.seenOrder)
    && !Advances(s.parser, id.block, id.index)
    && TrackerRemembers(s.tracker, id)
  }

  ghost predicate TrackerRemembers(t: TrackerState, id: Identity)
    requires id.Frame?
  {
    && t.latest.Some?
    && (t.latest.value.blockNumber > id.block
        || (t.latest.value.blockNumber == id.block && t.latest.value.flashblockIndex >= id.index))
    && id.block in t.byBlock && HasFrame(t.byBlock[id.block], id.index, id.stateId)
  }

  /** Delivering a frame makes both halves remember it, provided every window
      entry of its state is filed under its block and the tracker keeps the block. */
  lemma DeliveryIsRemembered(s: System, a: Arrival)
    requires SystemOk(s) && Identify(a.frame).Frame?
    requires forall x :: x in s.parser.seenOrder && x.1.0 == Identify(a.frame).stateId ==>
               x.0 == Identify(a.frame).block
    requires Identify(a.frame).block in Deliver(s, a).tracker.byBlock
    ensures Remembers(Deliver(s, a), a.frame)
  {
    hide EvictBefore, RaisesGap, Trim, Absorb;
    var id := Identify(a.frame);
    var step := StepOf(s.parser, a);
    StepKeepsWindow(s.parser, a.frame, FEED_FLASHBLOCKS, a.now);
    AbsorbPartitions(a.frame.entries, id.stateId, s.parser.seen);
    forall h: Hash | Tx(h) in a.frame.entries ensures (id.block, (id.stateId, h)) in step.next.seenOrder {
      if h !in step.parsed.txs {
        var i :| 0 <= i < |s.parser.seenOrder| && s.parser.seenOrder[i].1 == (id.stateId, h);
        assert s.parser.seenOrder[i] == (id.block, (id.stateId, h));
      }
    }
    ObservedIsRemembered(s.tracker, step.parsed.state.value, step.parsed.txs, id);
  }

  lemma ObservedIsRemembered(t: TrackerState, state: PreconfirmedState, hashes: seq<Hash>, id: Identity)
    requires id == Frame(state.blockNumber, state.flashblockIndex, state.stateId)
    requires id.block in Observe(t, state, hashes).byBlock
    ensures TrackerRemembers(Observe(t, state, hashes), id)
  {
    var m := WithFrame(t.byBlock, state, hashes);
    TrimForgetsOldest(m);
    var frames := FramesOf(t.byBlock, id.block);
    if !HasFrame(frames, id.index, id.stateId) {
      assert m[id.block][|frames|].index == id.index;
    }
  }

  /** No later event makes them forget it, as long as the block stays tracked and
      no frame from beyond the window arrives. */
  lemma RemembersStays(s: System, e: SystemEvent, f: RawFrame)
    requires SystemOk(s) && Remembers(s, f)
    requires e.Notify? ==> !BeyondWindow(e.arrival, Identify(f).block)
    requires Identify(f).block in NextSystem(s, e).tracker.byBlock
    ensures Remembers(NextSystem(s, e), f)
  {
    hide EvictBefore, RaisesGap, Trim, Absorb;
    var id := Identify(f);
    match e {
      case Notify(a) =>
        StepKeepsWindow(s.parser, a.frame, FEED_FLASHBLOCKS, a.now);
        var step := StepOf(s.parser, a);
        if step.parsed.state.Some? {
          TrackerStays(s.tracker, step.parsed.state.value, step.parsed.txs, id);
        }
      case SealBlock(b) =>
    }
  }

  lemma TrackerStays(t: TrackerState, state: PreconfirmedState, hashes: seq<Hash>, id: Identity)
    requires id.Frame? && TrackerRemembers(t, id)
    requires id.block in Observe(t, state, hashes).byBlock
    ensures TrackerRemembers(Observe(t, state, hashes), id)
  {
    var m := WithFrame(t.byBlock, state, hashes);
    TrimForgetsOldest(m);
    var i :| 0 <= i < |t.byBlock[id.block]|
             && t.byBlock[id.block][i].index == id.index && t.byBlock[id.block][i].stateId == id.stateId;
    assert m[id.block][i] == t.byBlock[id.block][i];
  }

  // ---------------------------------------------------------------------
  // Redelivery
  // ---------------------------------------------------------------------

  /** A remembered frame delivered again emits nothing and leaves the tracker, and
      with it every later verdict on a sealed block, exactly as it was. Its malformed
      and deposit entries are counted again, and a gap if a later block has begun. */
  lemma RedeliveryChangesNothing(s: System, a: Arrival)
    requires SystemOk(s) && Remembers(s, a.frame)
    ensures StepOf(s.parser, a).parsed.txs == []
    ensures Deliver(s, a).tracker == s.tracker
    ensures Deliver(s, a).parser.lastFrame == s.parser.lastFrame
    ensures var d, entries := StepOf(s.parser, a).delta, multiset(a.frame.entries);
            && d.framesTotal == 1 && d.framesMalformed == 0 && d.blocksSeen == 0 && d.txsTotal == 0
            && d.txsMalformed == entries[Malformed] && d.txsDeposit == entries[Deposit]
            && d.txsDuplicate == |a.frame.entries| - entries[Malformed] - entries[Deposit]
            && d.stateGaps == if s.parser.lastFrame.value.0 > Identify(a.frame).block then 1 else 0
  {
    hide EvictBefore, Trim, Absorb;
    var id := Identify(a.frame);
    forall h: Hash | Tx(h) in a.frame.entries ensures (id.stateId, h) in s.parser.seen {
      assert (id.block, (id.stateId, h)) in s.parser.seenOrder;
    }
    NothingFresh(a.frame.entries, id.stateId, s.parser.seen);
    var step := StepOf(s.parser, a);
    ObserveIsInert(s.tracker, step.parsed.state.value, []);
  }

  /** Besides the frame itself and its duplicates, nothing is counted. */
  predicate OnlyDuplicates(d: Counters) {
    d == ZERO.(framesTotal := 1, txsDuplicate := d.txsDuplicate)
  }

  /** Exactly which remembered frames inflate no count when they come again. */
  lemma InflatesNothingIff(s: System, a: Arrival)
    requires SystemOk(s) && Remembers(s, a.frame)
    ensures OnlyDuplicates(StepOf(s.parser, a).delta) <==>
            Malformed !in a.frame.entries && Deposit !in a.frame.entries
            && s.parser.lastFrame.value.0 == Identify(a.frame).block
  {
    RedeliveryChangesNothing(s, a);
    hide Step, Identify, Remembers;
    assert forall e :: e in a.frame.entries <==> multiset(a.frame.entries)[e] > 0;
    NotBehind(s, a.frame);
  }

  lemma NotBehind(s: System, f: RawFrame)
    requires Remembers(s, f)
    ensures s.parser.lastFrame.Some? && s.parser.lastFrame.value.0 >= Identify(f).block
  {}

  lemma NothingFresh(entries: seq<Entry>, stateId: Hash, seen: set<Key>)
    requires forall h: Hash :: Tx(h) in entries ==> (stateId, h) in seen
    ensures var a, all := Absorb(entries, stateId, seen), multiset(entries);
            && a.emitted == [] && a.malformed == all[Malformed] && a.deposit == all[Deposit]
            && a.duplicate == |entries| - all[Malformed] - all[Deposit]
  {
    AbsorbPartitions(entries, stateId, seen);
    HasFirst(Absorb(entries, stateId, seen).emitted);
    hide Absorb;
  }

  lemma HasFirst(hashes: seq<Hash>)
    ensures hashes != [] ==> exists h :: h in hashes
  {
    if hashes != [] {
      assert hashes[0] in hashes;
    }
  }

  /** Exactly when an accepted frame, new or not, shows nothing downstream: every hash
      it carries was seen under its state, and the observation is inert. */
  lemma InvisibleIff(s: System, a: Arrival)
    requires SystemOk(s) && Identify(a.frame).Frame?
    ensures var id, state := Identify(a.frame), StepOf(s.parser, a).parsed.state.value;
            StepOf(s.parser, a).parsed.txs == [] && Deliver(s, a).tracker == s.tracker <==>
              && (forall h: Hash :: Tx(h) in a.frame.entries ==> (id.stateId, h) in s.parser.seen)
              && !IsNewer(s.tracker.latest, state)
              && (HasFrame(FramesOf(s.tracker.byBlock, id.block), id.index, id.stateId)
                  || (|s.tracker.byBlock| == TRACKED_BLOCKS && forall c :: c in s.tracker.byBlock ==> id.block < c))
  {
    hide EvictBefore, Trim, Absorb, HasFrame;
    var id, step := Identify(a.frame), StepOf(s.parser, a);
    AbsorbPartitions(a.frame.entries, id.stateId, s.parser.seen);
    HasFirst(step.parsed.txs);
    ObserveIsInert(s.tracker, step.parsed.state.value, step.parsed.txs);
  }

  /** Exactly when an observation leaves the tracker as it was: its position is
      not new, and either the frame is held already or its block would be the
      49th and the oldest, forgotten at once. */
  lemma ObserveIsInert(t: TrackerState, state: PreconfirmedState, hashes: seq<Hash>)
    requires TrackerOk(t)
    ensures Observe(t, state, hashes) == t <==>
            !IsNewer(t.latest, state)
            && (HasFrame(FramesOf(t.byBlock, state.blockNumber), state.flashblockIndex, state.stateId)
                || (|t.byBlock| == TRACKED_BLOCKS && forall c :: c in t.byBlock ==> state.blockNumber < c))
  {
    hide Trim;
    var b := state.blockNumber;
    var m := WithFrame(t.byBlock, state, hashes);
    TrimForgetsOldest(m);
    if HasFrame(FramesOf(t.byBlock, b), state.flashblockIndex, state.stateId) {
      assert m == t.byBlock;
    } else if b in t.byBlock {
      assert m.Keys == t.byBlock.Keys;
      assert |m[b]| == |t.byBlock[b]| + 1;
    } else {
      assert m.Keys == t.byBlock.Keys + {b};
      if |t.byBlock| == TRACKED_BLOCKS {
        OnlyOneForgotten(t.byBlock, m, b);
      }
      hide HasFrame;
    }
  }

  lemma OnlyOneForgotten(kept: Blocks, m: Blocks, b: nat)
    requires b !in kept && m.Keys == kept.Keys + {b} && |kept| == TRACKED_BLOCKS
    requires forall c :: c in kept ==> m[c] == kept[c]
    ensures Trim(m) == kept <==> forall c :: c in kept ==> b < c
  {
    var first := Oldest(m.Keys);
    var rest := m - {first};
    assert rest.Keys == m.Keys - {first};
    assert Trim(m) == Trim(rest) == rest;
    if first == b {
      assert rest == kept;
    } else {
      assert b in rest;
    }
  }

  /** The whole-run form: a frame accepted once and delivered again while its block
      stayed tracked and no frame from beyond the window arrived, on a feed whose
      state identities name their blocks. */
  lemma RedeliveryIsInvisible(events: seq<SystemEvent>, i: nat, now: nat)
    requires i < |events| && Accepts(events[i]) && StateIdsNameBlocks(events)
    requires forall m :: i < m < |events| && events[m].Notify? ==>
               !BeyondWindow(events[m].arrival, IdOf(events[i]).block)
    requires forall m :: i < m <= |events| ==> IdOf(events[i]).block in SystemAfter(events[..m]).tracker.byBlock
    ensures var s, again := SystemAfter(events), Arrival(events[i].arrival.frame, now);
            && StepOf(s.parser, again).parsed.txs == []
            && Deliver(s, again).tracker == s.tracker
  {
    AcceptedFrameIsRemembered(events, i, |events|);
    assert events[..|events|] == events;
    SystemAlwaysOk(events);
    RedeliveryChangesNothing(SystemAfter(events), Arrival(events[i].arrival.frame, now));
  }

  lemma {:induction false} AcceptedFrameIsRemembered(events: seq<SystemEvent>, i: nat, n: nat)
    requires i < n <= |events| && Accepts(events[i]) && StateIdsNameBlocks(events)
    requires forall m :: i < m < n && events[m].Notify? ==> !BeyondWindow(events[m].arrival, IdOf(events[i]).block)
    requires forall m :: i < m <= n ==> IdOf(events[i]).block in SystemAfter(events[..m]).tracker.byBlock
    ensures Remembers(SystemAfter(events[..n]), events[i].arrival.frame)
    decreases n
  {
    var s := SystemAfter(events[..n - 1]);
    LastEvent(events, n);
    SystemAlwaysOk(events[..n - 1]);
    hide Remembers, SystemAfter, SystemOk;
    if i == n - 1 {
      FiledUnderItsBlock(events, i);
      hide StateIdsNameBlocks, TagsExplained, BeyondWindow;
      DeliveryIsRemembered(s, events[i].arrival);
    } else {
      AcceptedFrameIsRemembered(events, i, n - 1);
      hide Deliver, NextSystem, StateIdsNameBlocks, TagsExplained;
      RemembersStays(s, events[n - 1], events[i].arrival.frame);
    }
  }

  lemma LastEvent(events: seq<SystemEvent>, n: nat)
    requires 0 < n <= |events|
    ensures SystemAfter(events[..n]) == NextSystem(SystemAfter(events[..n - 1]), events[n - 1])
  {
    assert events[..n][..n - 1] == events[..n - 1];
    hide NextSystem;
  }

  /** On such a feed every key of the window that shares a frame's state is filed under its block. */
  lemma FiledUnderItsBlock(events: seq<SystemEvent>, i: nat)
    requires i < |events| && Accepts(events[i]) && StateIdsNameBlocks(events)
    ensures forall x :: x in SystemAfter(events[..i]).parser.seenOrder && x.1.0 == IdOf(events[i]).stateId ==>
              x.0 == IdOf(events[i]).block
  {
    hide Identify, SystemAfter;
    SystemAlwaysOk(events[..i]);
    forall x | x in SystemAfter(events[..i]).parser.seenOrder && x.1.0 == IdOf(events[i]).stateId
      ensures x.0 == IdOf(events[i]).block
    {
      var j :| 0 <= j < i && Accepts(events[..i][j])
        && IdOf(events[..i][j]).block == x.0 && IdOf(events[..i][j]).stateId == x.1.0;
      assert events[j] == events[..i][j];
    }
  }

  // ---------------------------------------------------------------------
  // Where it is visible
  // ---------------------------------------------------------------------

  /** A frame for a block that is not tracked opens it, with just what the frame emits,
      unless the tracker is full of newer blocks. */
  lemma OpensBlockIff(s: System, a: Arrival)
    requires SystemOk(s) && Identify(a.frame).Frame? && Identify(a.frame).block !in s.tracker.byBlock
    ensures var block, t := Identify(a.frame).block, Deliver(s, a).tracker;
            && (block in t.byBlock <==>
                  |s.tracker.byBlock| < TRACKED_BLOCKS || exists c :: c in s.tracker.byBlock && c < block)
            && (block in t.byBlock ==> Cumulative(t.byBlock[block]) == StepOf(s.parser, a).parsed.txs)
  {
    hide EvictBefore, Absorb, Classify, RaisesGap, Trim;
    var id, step := Identify(a.frame), StepOf(s.parser, a);
    ObservesNewBlock(s.tracker, step.parsed.state.value, step.parsed.txs);
  }

  lemma ObservesNewBlock(t: TrackerState, state: PreconfirmedState, hashes: seq<Hash>)
    requires TrackerOk(t) && state.blockNumber !in t.byBlock
    ensures var block, m := state.blockNumber, Observe(t, state, hashes).byBlock;
            && (block in m <==> |t.byBlock| < TRACKED_BLOCKS || exists c :: c in t.byBlock && c < block)
            && (block in m ==> Cumulative(m[block]) == hashes)
  {
    var block, m := state.blockNumber, WithFrame(t.byBlock, state, hashes);
    assert Observe(t, state, hashes).byBlock == Trim(m);
    NewBlockFrames(t.byBlock, state, hashes);
    CumulativeOfOne(m[block]);
    hide *;
    assert |t.byBlock| <= 48 && TRACKED_BLOCKS == 48 by { BlocksBounded(t); }
    assert m.Keys == t.byBlock.Keys + {block} && |m| == |t.byBlock| + 1;
    TrimForgetsOldest(m);
    if |t.byBlock| == TRACKED_BLOCKS {
      OneForgotten(m);
      assert (exists c :: c in m && c < block) <==> exists c :: c in t.byBlock && c < block;
    }
  }

  lemma BlocksBounded(t: TrackerState)
    requires TrackerOk(t)
    ensures |t.byBlock| <= 48 && TRACKED_BLOCKS == 48
  {}

  lemma NewBlockFrames(byBlock: Blocks, state: PreconfirmedState, hashes: seq<Hash>)
    requires state.blockNumber !in byBlock
    ensures WithFrame(byBlock, state, hashes) == byBlock[state.blockNumber := [FrameOf(state, hashes)]]
    ensures FrameOf(state, hashes).txHashes == hashes
  {
    assert FramesOf(byBlock, state.blockNumber) == [] && !HasFrame([], state.flashblockIndex, state.stateId);
    assert [] + [FrameOf(state, hashes)] == [FrameOf(state, hashes)];
  }

  lemma CumulativeOfOne(frames: seq<TrackedFrame>)
    requires |frames| == 1
    ensures Cumulative(frames) == frames[0].txHashes
  {
    assert frames[..0] == [];
  }

  lemma OneForgotten(m: Blocks)
    requires |m| == TRACKED_BLOCKS + 1
    ensures forall b :: b in m ==> (b in Trim(m) <==> exists c :: c in m && c < b)
  {
    var first := Oldest(m.Keys);
    var rest := m - {first};
    assert rest.Keys == m.Keys - {first};
    assert Trim(m) == Trim(rest) == rest;
    forall b | b in m ensures b in Trim(m) <==> exists c :: c in m && c < b {
      if b != first {
        assert first in m && first < b;
      }
    }
  }

  /** Any block sealed while it is tracked comes back with no transactions when its
      frame does: a second head is graded after all, a non-empty one as a mismatch. */
  lemma RedeliveryAfterSealReopensBlock(s: System, a: Arrival, now: nat)
    requires SystemOk(s) && Identify(a.frame).Frame?
    requires forall x :: x in s.parser.seenOrder && x.1.0 == Identify(a.frame).stateId ==>
               x.0 == Identify(a.frame).block
    requires Identify(a.frame).block in Deliver(s, a).tracker.byBlock
    ensures var block := Identify(a.frame).block;
            var sealed := NextSystem(Deliver(s, a), SealBlock(block));
            var t := Deliver(sealed, Arrival(a.frame, now)).tracker;
            block !in sealed.tracker.byBlock && block in t.byBlock && Cumulative(t.byBlock[block]) == []
  {
    var id, first := Identify(a.frame), Deliver(s, a);
    var sealed, again := NextSystem(first, SealBlock(id.block)), Arrival(a.frame, now);
    DeliveryIsRemembered(s, a);
    NextKeepsSystem(s, Notify(a));
    NextKeepsSystem(first, SealBlock(id.block));
    assert |sealed.tracker.byBlock| < TRACKED_BLOCKS by {
      assert sealed.tracker.byBlock.Keys == first.tracker.byBlock.Keys - {id.block};
    }
    forall h: Hash | Tx(h) in a.frame.entries ensures (id.stateId, h) in sealed.parser.seen {
      assert (id.block, (id.stateId, h)) in first.parser.seenOrder;
    }
    hide Step, Observe, Remembers;
    EmitsNothing(sealed.parser, again);
    OpensBlockIff(sealed, again);
  }

  lemma EmitsNothing(s: ParserState, a: Arrival)
    requires Identify(a.frame).Frame?
    requires forall h: Hash :: Tx(h) in a.frame.entries ==> (Identify(a.frame).stateId, h) in s.seen
    ensures StepOf(s, a).parsed.txs == []
  {
    hide EvictBefore, Absorb;
    NothingFresh(a.frame.entries, Identify(a.frame).stateId, s.seen);
  }

  /** For instance the first frame a fresh system accepts, whatever it is. */
  lemma FirstFrameReopens(a: Arrival, now: nat)
    requires Identify(a.frame).Frame?
    ensures var block := Identify(a.frame).block;
            var t := SystemAfter([Notify(a), SealBlock(block), Notify(Arrival(a.frame, now))]).tracker;
            block in t.byBlock && Cumulative(t.byBlock[block]) == []
  {
    var start, block := System(INITIAL, EMPTY), Identify(a.frame).block;
    SystemAlwaysOk([]);
    AfterThree(Notify(a), SealBlock(block), Notify(Arrival(a.frame, now)));
    hide Step, Observe, SystemAfter;
    OpensBlockIff(start, a);
    RedeliveryAfterSealReopensBlock(start, a, now);
  }

  lemma AfterThree(e: SystemEvent, f: SystemEvent, g: SystemEvent)
    ensures SystemAfter([]) == System(INITIAL, EMPTY)
    ensures SystemAfter([e, f, g]) == NextSystem(NextSystem(NextSystem(System(INITIAL, EMPTY), e), f), g)
  {
    assert [e, f, g][..2] == [e, f] && [e, f][..1] == [e] && [e][..0] == [];
    hide NextSystem;
    assert SystemAfter([e]) == NextSystem(System(INITIAL, EMPTY), e);
    assert SystemAfter([e, f]) == NextSystem(SystemAfter([e]), f);
  }

  /** A frame for `block` with one transaction. */
  function OneTx(block: nat, stateId: Hash, hash: Hash): Arrival {
    Arrival(RawFrame(Some(0), true, Some(stateId), 0, Some(block), None, None, [Tx(hash)]), 0)
  }

  /** If two blocks share a state identity, the key is filed under the older one and
      expires with it: the newer frame, still inside its own window, emits again. */
  lemma ReusedStateIdEmitsAgain()
    ensures var s1 := Deliver(System(INITIAL, EMPTY), OneTx(1, 7, 5));
            var s2 := Deliver(s1, OneTx(33, 7, 5));
            var s3 := Deliver(s2, OneTx(34, 8, 6));
            !BeyondWindow(OneTx(34, 8, 6), 33) && StepOf(s3.parser, OneTx(33, 7, 5)).parsed.txs == [5]
  {
    var p1 := StepOf(INITIAL, OneTx(1, 7, 5)).next;
    OneTxStep(INITIAL, 1, 7, 5);
    var p2 := StepOf(p1, OneTx(33, 7, 5)).next;
    OneTxStep(p1, 33, 7, 5);
    var p3 := StepOf(p2, OneTx(34, 8, 6)).next;
    OneTxStep(p2, 34, 8, 6);
    OneTxStep(p3, 33, 7, 5);
    hide Step, Observe;
    KeyExpires();
  }

  /** The window after a one-transaction frame, and what the frame emits. */
  lemma OneTxStep(s: ParserState, block: nat, stateId: Hash, h: Hash)
    ensures var step, key := StepOf(s, OneTx(block, stateId, h)), (stateId, h);
            && step.parsed.txs == (if key in s.seen then [] else [h])
            && (step.next.seen, step.next.seenOrder) ==
                 (if key in s.seen then EvictBefore(s.seen, s.seenOrder, MonusNat(block, 32))
                  else EvictBefore(s.seen + {key}, s.seenOrder + [(block, key)], MonusNat(block, 32)))
  {
    hide EvictBefore, Classify, RaisesGap;
    OneTxAbsorbed(stateId, h, s.seen);
    assert s.seen + {} == s.seen && s.seenOrder + [] == s.seenOrder;
  }

  lemma KeyExpires()
    ensures var kept: seq<(nat, Key)>, both: seq<(nat, Key)> := [(1, (7, 5))], [(1, (7, 5)), (34, (8, 6))];
            && {} + {(7, 5)} == {(7, 5)} && [] + kept == kept
            && kept + [(34, (8, 6))] == both && {(7, 5)} + {(8, 6)} == {(7, 5), (8, 6)}
            && EvictBefore({(7, 5)}, kept, 0) == ({(7, 5)}, kept)
            && EvictBefore({(7, 5)}, kept, 1) == ({(7, 5)}, kept)
            && EvictBefore({(7, 5), (8, 6)}, both, 2) == ({(8, 6)}, [(34, (8, 6))])
  {}

  lemma OneTxAbsorbed(stateId: Hash, h: Hash, seen: set<Key>)
    ensures Absorb([Tx(h)], stateId, seen) ==
            if (stateId, h) in seen then Absorbed([], 1, 0, 0) else Absorbed([h], 0, 0, 0)
    ensures Tagged(1, stateId, []) == [] && KeysOf(stateId, []) == {} && KeysOf(stateId, [h]) == {(stateId, h)}
    ensures forall block: nat :: Tagged(block, stateId, [h]) == [(block, (stateId, h))]
    ensures forall block: nat :: Tagged(block, stateId, []) == []
  {
    assert [Tx(h)][..0] == [];
    assert Absorb([Tx(h)][..0], stateId, seen) == Absorbed([], 0, 0, 0);
  }
}
