/** The engine-side tracker of `flashblocks.rs`: the current preconfirmed state,
    the frames of recent blocks, and the pin recheck. */
module Tracker {
  import opened Arithmetic
  import opened Options
  import opened Flashblocks

  const TRACKED_BLOCKS: nat := 48
  const U64_MAX: nat := 0xffff_ffff_ffff_ffff

  datatype TrackedFrame = TrackedFrame(index: nat, stateId: Hash, observedAtMs: nat, txHashes: seq<Hash>)

  type Blocks = map<nat, seq<TrackedFrame>>

  datatype TrackerState = TrackerState(latest: Option<PreconfirmedState>, byBlock: Blocks)

  const EMPTY: TrackerState := TrackerState(None, map[])

  // ---------------------------------------------------------------------
  // One call
  // ---------------------------------------------------------------------

  /** `state` is lexicographically beyond the newest state so far. */
  predicate IsNewer(latest: Option<PreconfirmedState>, state: PreconfirmedState) {
    latest.None?
    || state.blockNumber > latest.value.blockNumber
    || (state.blockNumber == latest.value.blockNumber && state.flashblockIndex > latest.value.flashblockIndex)
  }

  predicate HasFrame(frames: seq<TrackedFrame>, index: nat, stateId: Hash) {
    exists i :: 0 <= i < |frames| && frames[i].index == index && frames[i].stateId == stateId
  }

  function FramesOf(byBlock: Blocks, block: nat): seq<TrackedFrame> {
    if block in byBlock then byBlock[block] else []
  }

  function WithFrame(byBlock: Blocks, state: PreconfirmedState, hashes: seq<Hash>): Blocks {
    var frames := FramesOf(byBlock, state.blockNumber);
    byBlock[state.blockNumber :=
      if HasFrame(frames, state.flashblockIndex, state.stateId) then frames
      else frames + [TrackedFrame(state.flashblockIndex, state.stateId, state.observedAtMs, hashes)]]
  }

  predicate IsOldest(b: nat, blocks: set<nat>) {
    b in blocks && forall c :: c in blocks ==> b <= c
  }

  /** The oldest block, the first key of the ordered map. */
  function Oldest(blocks: set<nat>): (b: nat)
    requires blocks != {}
    ensures IsOldest(b, blocks)
  {
    HasOldest(blocks);
    var b :| IsOldest(b, blocks);
    b
  }

  lemma {:induction false} HasOldest(blocks: set<nat>)
    requires blocks != {}
    ensures exists b :: IsOldest(b, blocks)
  {
    var b :| b in blocks;
    var rest := blocks - {b};
    if rest == {} {
      assert blocks == {b};
      assert IsOldest(b, blocks);
    } else {
      HasOldest(rest);
      var d :| IsOldest(d, rest);
      assert blocks == rest + {b};
      assert IsOldest(if b <= d then b else d, blocks);
    }
  }

  function Trim(byBlock: Blocks): Blocks
    decreases |byBlock|
  {
    if |byBlock| <= TRACKED_BLOCKS then byBlock else Trim(byBlock - {Oldest(byBlock.Keys)})
  }

  function Observe(t: TrackerState, state: PreconfirmedState, hashes: seq<Hash>): TrackerState {
    TrackerState(if IsNewer(t.latest, state) then Some(state) else t.latest,
                 Trim(WithFrame(t.byBlock, state, hashes)))
  }

  function Seal(t: TrackerState, block: nat): TrackerState {
    t.(byBlock := t.byBlock - {block})
  }

  function Cumulative(frames: seq<TrackedFrame>): seq<Hash> {
    if frames == [] then []
    else Cumulative(frames[..|frames| - 1]) + frames[|frames| - 1].txHashes
  }

  function Newest(frames: seq<TrackedFrame>): nat {
    if frames == [] then 0
    else
      var n := Newest(frames[..|frames| - 1]);
      var at := frames[|frames| - 1].observedAtMs;
      if at > n then at else n
  }

  predicate IsDescendantOf(state: PreconfirmedState, earlier: PreconfirmedState) {
    && state.feed == earlier.feed
    && state.blockNumber == earlier.blockNumber
    && state.flashblockIndex >= earlier.flashblockIndex
    && state.payloadId == earlier.payloadId
  }

  predicate PinnedIsCurrent(t: TrackerState, pinned: PreconfirmedState) {
    t.latest.Some? && (IsDescendantOf(t.latest.value, pinned) || t.latest.value == pinned)
  }

  datatype PinReject = TtlExpired | StateSuperseded

  /** The parts of an opportunity the recheck reads. */
  datatype Candidate = Candidate(createdAtMs: nat, sourceState: Option<PreconfirmedState>, ttlMs: Option<nat>)

  /** The reason for refusing a candidate's pin, if any; the deadline saturates at 64 bits. */
  function CheckPin(c: Candidate, now: nat, t: TrackerState): Option<PinReject> {
    if c.sourceState.None? then None
    else if c.ttlMs.Some? && now >= Min(c.createdAtMs + c.ttlMs.value, U64_MAX) then Some(TtlExpired)
    else if !PinnedIsCurrent(t, c.sourceState.value) then Some(StateSuperseded)
    else None
  }

  // ---------------------------------------------------------------------
  // The object
  // ---------------------------------------------------------------------

  class PreconfirmedTracker {
    var latest: Option<PreconfirmedState>
    var byBlock: Blocks

    constructor ()
      ensures State() == EMPTY
    {
      latest, byBlock := None, map[];
    }

    function State(): TrackerState
      reads this
    {
      TrackerState(latest, byBlock)
    }

    method ObserveFrame(state: PreconfirmedState, hashes: seq<Hash>)
      modifies this
      ensures State() == Observe(old(State()), state, hashes)
    {
      if IsNewer(latest, state) {
        latest := Some(state);
      }
      var frames := FramesOf(byBlock, state.blockNumber);
      if !HasFrame(frames, state.flashblockIndex, state.stateId) {
        frames := frames + [TrackedFrame(state.flashblockIndex, state.stateId, state.observedAtMs, hashes)];
      }
      byBlock := byBlock[state.blockNumber := frames];
      while |byBlock| > TRACKED_BLOCKS
        invariant latest == if IsNewer(old(latest), state) then Some(state) else old(latest)
        invariant Trim(byBlock) == Trim(WithFrame(old(byBlock), state, hashes))
        decreases |byBlock|
      {
        var first := Oldest(byBlock.Keys);
        byBlock := byBlock - {first};
      }
    }

    /** Grade the sealed block against the frames held for it, and let them go. */
    method ObserveSealed(block: nat, canonical: seq<Hash>, sealedAtMs: nat) returns (r: Option<(bool, nat)>)
      modifies this`byBlock
      ensures State() == Seal(old(State()), block)
      ensures r == if block !in old(byBlock) then None
                   else Some((Cumulative(old(byBlock)[block]) == canonical,
                              MonusNat(sealedAtMs, Newest(old(byBlock)[block]))))
    {
      if block !in byBlock {
        assert Seal(State(), block).byBlock == byBlock;
        return None;
      }
      var frames := byBlock[block];
      byBlock := byBlock - {block};
      var cumulative, newest := [], 0;
      for i := 0 to |frames|
        invariant cumulative == Cumulative(frames[..i]) && newest == Newest(frames[..i])
      {
        assert frames[..i + 1][..i] == frames[..i];
        cumulative := cumulative + frames[i].txHashes;
        newest := if frames[i].observedAtMs > newest then frames[i].observedAtMs else newest;
      }
      assert frames[..|frames|] == frames;
      r := Some((cumulative == canonical, MonusNat(sealedAtMs, newest)));
    }
  }

  // ---------------------------------------------------------------------
  // Runs
  // ---------------------------------------------------------------------

  datatype Event = Observed(state: PreconfirmedState, hashes: seq<Hash>) | Sealed(block: nat)

  function TrackOne(t: TrackerState, e: Event): TrackerState {
    match e
    case Observed(state, hashes) => Observe(t, state, hashes)
    case Sealed(block) => Seal(t, block)
  }

  function Track(t: TrackerState, events: seq<Event>): TrackerState {
    if events == [] then t
    else TrackOne(Track(t, events[..|events| - 1]), events[|events| - 1])
  }

  /** At most 48 blocks are kept, none of them beyond the newest state. */
  ghost predicate TrackerOk(t: TrackerState) {
    |t.byBlock| <= TRACKED_BLOCKS
    && forall b :: b in t.byBlock ==> t.latest.Some? && b <= t.latest.value.blockNumber
  }

  ghost predicate NotBefore(a: Option<PreconfirmedState>, b: Option<PreconfirmedState>) {
    a.Some? ==>
      b.Some?
      && (a.value.blockNumber < b.value.blockNumber
          || (a.value.blockNumber == b.value.blockNumber && a.value.flashblockIndex <= b.value.flashblockIndex))
  }

  /** Trimming only forgets whole blocks, the oldest ones; a map within bounds is left alone. */
  lemma {:induction false} TrimForgetsOldest(byBlock: Blocks)
    ensures var kept := Trim(byBlock);
            && |kept| <= TRACKED_BLOCKS
            && (forall b :: b in kept ==> b in byBlock && kept[b] == byBlock[b])
            && (forall b, c :: b in byBlock && b !in kept && c in kept ==> b < c)
            && (|byBlock| <= TRACKED_BLOCKS ==> kept == byBlock)
    decreases |byBlock|
  {
    if |byBlock| > TRACKED_BLOCKS {
      var first := Oldest(byBlock.Keys);
      var rest := byBlock - {first};
      assert rest.Keys == byBlock.Keys - {first};
      TrimForgetsOldest(rest);
    }
  }

  lemma StepKeepsTracker(t: TrackerState, e: Event)
    requires TrackerOk(t)
    ensures TrackerOk(TrackOne(t, e)) && NotBefore(t.latest, TrackOne(t, e).latest)
  {
    match e {
      case Observed(state, hashes) => TrimForgetsOldest(WithFrame(t.byBlock, state, hashes));
      case Sealed(block) => SmallerMap(t.byBlock, block);
    }
  }

  lemma SmallerMap(m: Blocks, block: nat)
    ensures |m - {block}| <= |m|
  {}

  /** Whatever is observed or sealed, the newest state never moves back. */
  lemma {:induction false} RunKeepsTracker(t: TrackerState, events: seq<Event>)
    requires TrackerOk(t)
    ensures TrackerOk(Track(t, events)) && NotBefore(t.latest, Track(t, events).latest)
  {
    if events != [] {
      var n := |events| - 1;
      RunKeepsTracker(t, events[..n]);
      StepKeepsTracker(Track(t, events[..n]), events[n]);
    }
  }

  /** The positions observed so far, in order. */
  function Positions(events: seq<Event>): seq<(nat, nat)> {
    if events == [] then []
    else
      var e := events[|events| - 1];
      Positions(events[..|events| - 1])
      + if e.Observed? then [(e.state.blockNumber, e.state.flashblockIndex)] else []
  }

  predicate AtOrBefore(a: (nat, nat), b: (nat, nat)) {
    a.0 < b.0 || (a.0 == b.0 && a.1 <= b.1)
  }

  /** The newest state is at the largest position ever observed, whatever was sealed. */
  lemma {:induction false} LatestIsLargest(events: seq<Event>)
    ensures var latest, seen := Track(EMPTY, events).latest, Positions(events);
            && (latest.None? <==> seen == [])
            && (latest.Some? ==>
                  var p := (latest.value.blockNumber, latest.value.flashblockIndex);
                  p in seen && forall q :: q in seen ==> AtOrBefore(q, p))
  {
    if events != [] {
      LatestIsLargest(events[..|events| - 1]);
      hide WithFrame, Trim;
    }
  }

  /** And it is a state that was observed, as it was observed. */
  lemma {:induction false} LatestWasObserved(events: seq<Event>)
    ensures var latest := Track(EMPTY, events).latest;
            latest.Some? ==> exists i :: 0 <= i < |events| && events[i].Observed? && events[i].state == latest.value
  {
    if events != [] {
      var n := |events| - 1;
      LatestWasObserved(events[..n]);
      var latest := Track(EMPTY, events[..n]).latest;
      if latest.Some? {
        var i :| 0 <= i < n && events[..n][i].Observed? && events[..n][i].state == latest.value;
        assert events[i] == events[..n][i];
      }
      if events[n].Observed? {
        assert events[n].state == events[n].state;
      }
      hide WithFrame, Trim;
    }
  }

  /** What one observation records: a frame not yet held goes to the end of its block's
      list, with its identity, its time and what it emitted; nothing else changes in the
      blocks that are kept. */
  lemma ObserveRecords(t: TrackerState, state: PreconfirmedState, hashes: seq<Hash>, block: nat)
    requires block in Observe(t, state, hashes).byBlock
    ensures var before, after := FramesOf(t.byBlock, block), Observe(t, state, hashes).byBlock[block];
            if block != state.blockNumber
               || exists i :: 0 <= i < |before| && before[i].index == state.flashblockIndex
                                && before[i].stateId == state.stateId
            then after == before
            else |after| == |before| + 1 && after[..|before|] == before
                 && var f := after[|before|];
                    f.index == state.flashblockIndex && f.stateId == state.stateId
                    && f.observedAtMs == state.observedAtMs && f.txHashes == hashes
  {
    TrimForgetsOldest(WithFrame(t.byBlock, state, hashes));
    hide Trim;
  }

  /** Sealing a block forgets that block and nothing else. */
  lemma SealForgetsOne(t: TrackerState, block: nat)
    ensures Seal(t, block).latest == t.latest
    ensures forall b :: b in Seal(t, block).byBlock <==> b in t.byBlock && b != block
    ensures forall b :: b in Seal(t, block).byBlock ==> Seal(t, block).byBlock[b] == t.byBlock[b]
  {}

  /** The lead is measured from the latest observation of the block. */
  lemma {:induction false} NewestIsLatest(frames: seq<TrackedFrame>)
    ensures forall i :: 0 <= i < |frames| ==> frames[i].observedAtMs <= Newest(frames)
    ensures Newest(frames) == 0 || exists i :: 0 <= i < |frames| && frames[i].observedAtMs == Newest(frames)
  {
    if frames != [] {
      var n := |frames| - 1;
      NewestIsLatest(frames[..n]);
      assert forall i :: 0 <= i < n ==> frames[..n][i] == frames[i];
      if Newest(frames) != 0 && Newest(frames) != frames[n].observedAtMs {
        var i :| 0 <= i < n && frames[..n][i].observedAtMs == Newest(frames[..n]);
        assert frames[i].observedAtMs == Newest(frames);
      }
    }
  }

  /** The transactions of a list of frames are those of its parts, in order. */
  lemma {:induction false} CumulativeConcatenates(a: seq<TrackedFrame>, b: seq<TrackedFrame>)
    ensures Cumulative(a + b) == Cumulative(a) + Cumulative(b)
    ensures |a| == 1 ==> Cumulative(a) == a[0].txHashes
  {
    if b == [] {
      assert a + b == a;
      assert |a| == 1 ==> a[..0] == [];
    } else {
      var n := |b| - 1;
      assert (a + b)[..|a| + n] == a + b[..n];
      CumulativeConcatenates(a, b[..n]);
    }
  }

  // ---------------------------------------------------------------------
  // Pins
  // ---------------------------------------------------------------------

  /** From `t` on, no sequence of events makes the pin current again. */
  ghost predicate RejectedForever(t: TrackerState, pin: PreconfirmedState) {
    forall events: seq<Event> :: !PinnedIsCurrent(Track(t, events), pin)
  }

  /** A pin is lost for good exactly when a later block has started. A payload
      that was replaced within its block can still come back. */
  lemma LostForGoodIffBlockRolledOver(t: TrackerState, pin: PreconfirmedState)
    requires TrackerOk(t)
    ensures RejectedForever(t, pin) <==> t.latest.Some? && t.latest.value.blockNumber > pin.blockNumber
  {
    if t.latest.Some? && t.latest.value.blockNumber > pin.blockNumber {
      forall events: seq<Event> ensures !PinnedIsCurrent(Track(t, events), pin) {
        RunKeepsTracker(t, events);
      }
    } else {
      var index := pin.flashblockIndex + if t.latest.Some? then t.latest.value.flashblockIndex + 1 else 0;
      var revival := [Observed(pin.(flashblockIndex := index), [])];
      assert revival[..0] == [];
      assert Track(t, revival) == TrackOne(Track(t, []), revival[0]);
      assert PinnedIsCurrent(Track(t, revival), pin);
    }
  }

  /** The deadline of a candidate has not come: it has none, or the clock is before it
      and before the last moment 64 bits can hold. */
  predicate BeforeDeadline(c: Candidate, now: nat) {
    match c.ttlMs
    case None => true
    case Some(ttl) => now < U64_MAX && now < c.createdAtMs + ttl
  }

  /** The pin is the newest state, or the newest state extends its payload. */
  predicate StillLeads(t: TrackerState, pin: PreconfirmedState) {
    match t.latest
    case None => false
    case Some(newest) =>
      newest == pin
      || (newest.feed == pin.feed && newest.blockNumber == pin.blockNumber && newest.payloadId == pin.payloadId
          && newest.flashblockIndex >= pin.flashblockIndex)
  }

  /** Exactly which candidates pass the recheck, and why the others do not: the deadline
      is looked at first. */
  lemma CheckPinIs(c: Candidate, now: nat, t: TrackerState)
    ensures CheckPin(c, now, t).None? <==>
            c.sourceState.None? || (BeforeDeadline(c, now) && StillLeads(t, c.sourceState.value))
    ensures CheckPin(c, now, t) == Some(TtlExpired) <==> c.sourceState.Some? && !BeforeDeadline(c, now)
    ensures CheckPin(c, now, t) == Some(StateSuperseded) <==>
            c.sourceState.Some? && BeforeDeadline(c, now) && !StillLeads(t, c.sourceState.value)
  {}

  /** Once any frame of a later block was observed, every later recheck of the
      pinned candidate refuses it, at any time and whatever its TTL. */
  lemma CheckPinStaysRejected(t: TrackerState, before: seq<Event>, later: PreconfirmedState, hashes: seq<Hash>,
                              after: seq<Event>, c: Candidate, now: nat)
    requires TrackerOk(t) && c.sourceState.Some? && later.blockNumber > c.sourceState.value.blockNumber
    ensures CheckPin(c, now, Track(TrackOne(Track(t, before), Observed(later, hashes)), after)).Some?
  {
    RunKeepsTracker(t, before);
    var seen := TrackOne(Track(t, before), Observed(later, hashes));
    StepKeepsTracker(Track(t, before), Observed(later, hashes));
    RunKeepsTracker(seen, after);
  }

  /** An expired TTL stays expired, whatever the feed does, and outranks the other reason. */
  lemma TtlIsPermanent(c: Candidate, now: nat, t: TrackerState, later: nat, t': TrackerState)
    requires CheckPin(c, now, t) == Some(TtlExpired) && now <= later
    ensures CheckPin(c, later, t') == Some(TtlExpired)
  {}

  /** The frames up to an index, in the order they arrived. */
  function UpTo(frames: seq<TrackedFrame>, index: nat): seq<TrackedFrame> {
    if frames == [] then []
    else
      var last := frames[|frames| - 1];
      UpTo(frames[..|frames| - 1], index) + if last.index <= index then [last] else []
  }

  /** Some frame above `p` and up to `d` arrived before one at or below `p`. */
  ghost predicate Overtaken(frames: seq<TrackedFrame>, p: nat, d: nat) {
    exists i, j :: 0 <= i < j < |frames| && p < frames[i].index <= d && frames[j].index <= p
  }

  /** Between two moments at which a pin is current, its block not being sealed in
      between, the transactions recorded for the block only grow at the end. Those up
      to the pin stay what they were exactly if no frame at or below the pin's index
      came late, and are the first of those up to any later index exactly if none of
      the frames in between overtook one of theirs. */
  lemma PinnedTransactionsAreAPrefix(t: TrackerState, events: seq<Event>, pin: PreconfirmedState, later: nat)
    requires TrackerOk(t) && t.latest.Some? && t.latest.value.blockNumber == pin.blockNumber
    requires PinnedIsCurrent(Track(t, events), pin)
    requires Sealed(pin.blockNumber) !in events && pin.flashblockIndex <= later
    ensures var before := FramesOf(t.byBlock, pin.blockNumber);
            var now, i := FramesOf(Track(t, events).byBlock, pin.blockNumber), pin.flashblockIndex;
            && before <= now && Cumulative(before) <= Cumulative(now)
            && (UpTo(now, i) == UpTo(before, i) <==> forall k :: |before| <= k < |now| ==> now[k].index > i)
            && (UpTo(now, i) <= UpTo(now, later) <==> !Overtaken(now, i, later))
            && (!Overtaken(now, i, later) ==> Cumulative(UpTo(now, i)) <= Cumulative(UpTo(now, later)))
  {
    var before, now := FramesOf(t.byBlock, pin.blockNumber), FramesOf(Track(t, events).byBlock, pin.blockNumber);
    BlockOnlyGrows(t, events, pin.blockNumber);
    PrefixAccumulates(before, now);
    LateFramesShow(before, now, pin.flashblockIndex);
    PrefixIffNotOvertaken(now, pin.flashblockIndex, later);
    hide Track, PinnedIsCurrent, Cumulative, Overtaken;
    if !Overtaken(now, pin.flashblockIndex, later) {
      PrefixAccumulates(UpTo(now, pin.flashblockIndex), UpTo(now, later));
    }
  }

  lemma {:induction false} LateFramesShow(a: seq<TrackedFrame>, b: seq<TrackedFrame>, index: nat)
    requires a <= b
    ensures UpTo(a, index) <= UpTo(b, index)
    ensures UpTo(b, index) == UpTo(a, index) <==> forall k :: |a| <= k < |b| ==> b[k].index > index
  {
    if a != b {
      var n := |b| - 1;
      assert a <= b[..n];
      LateFramesShow(a, b[..n], index);
    }
  }

  /** Some frame lies between the two indices. */
  predicate Between(frames: seq<TrackedFrame>, p: nat, d: nat) {
    exists i :: 0 <= i < |frames| && p < frames[i].index <= d
  }

  /** The shorter list `a` against the longer `b`: if the prefix is proper, the next
      frame of the longer list is above `p`. */
  ghost predicate Related(frames: seq<TrackedFrame>, p: nat, d: nat, a: seq<TrackedFrame>, b: seq<TrackedFrame>) {
    && (a <= b <==> !Overtaken(frames, p, d))
    && |a| <= |b| && (|a| == |b| <==> !Between(frames, p, d))
    && (a <= b && |a| < |b| ==> b[|a|].index > p)
  }

  lemma {:induction false} PrefixIffNotOvertaken(frames: seq<TrackedFrame>, p: nat, d: nat)
    requires p <= d
    ensures Related(frames, p, d, UpTo(frames, p), UpTo(frames, d))
  {
    if frames != [] {
      var n := |frames| - 1;
      PrefixIffNotOvertaken(frames[..n], p, d);
      OvertakenUnfolds(frames, p, d);
      BetweenUnfolds(frames, p, d);
      RelatedExtends(frames, p, d, UpTo(frames[..n], p), UpTo(frames[..n], d));
      hide Related;
    }
  }

  lemma RelatedExtends(frames: seq<TrackedFrame>, p: nat, d: nat, a: seq<TrackedFrame>, b: seq<TrackedFrame>)
    requires frames != [] && p <= d && Related(frames[..|frames| - 1], p, d, a, b)
    ensures var f := frames[|frames| - 1];
            Related(frames, p, d, a + (if f.index <= p then [f] else []), b + if f.index <= d then [f] else [])
  {
    var f := frames[|frames| - 1];
    OvertakenUnfolds(frames, p, d);
    BetweenUnfolds(frames, p, d);
    BothExtend(a, b, f);
    OneExtends(a, b, f);
    hide Overtaken, Between;
    if f.index > d {
      assert a + [] == a && b + [] == b;
    } else if f.index > p {
      assert a + [] == a;
    }
  }

  lemma BetweenUnfolds(frames: seq<TrackedFrame>, p: nat, d: nat)
    requires frames != []
    ensures var n := |frames| - 1;
            Between(frames, p, d) <==> Between(frames[..n], p, d) || p < frames[n].index <= d
  {
    var n := |frames| - 1;
    assert forall i :: 0 <= i < n ==> frames[..n][i] == frames[i];
    if Between(frames[..n], p, d) {
      var i :| 0 <= i < n && p < frames[..n][i].index <= d;
      assert p < frames[i].index <= d;
    }
  }

  lemma BothExtend(a: seq<TrackedFrame>, b: seq<TrackedFrame>, f: TrackedFrame)
    requires |a| <= |b|
    ensures a + [f] <= b + [f] <==> a <= b && (|a| == |b| || b[|a|] == f)
    ensures a <= b && |a| < |b| ==> (b + [f])[|a|] == b[|a|]
  {
    if a + [f] <= b + [f] {
      assert forall i :: 0 <= i < |a| ==> a[i] == (a + [f])[i] == (b + [f])[i] == b[i];
      assert (a + [f])[|a|] == (b + [f])[|a|];
    }
  }

  lemma OneExtends(a: seq<TrackedFrame>, b: seq<TrackedFrame>, f: TrackedFrame)
    requires |a| <= |b|
    ensures a <= b + [f] <==> a <= b
    ensures (b + [f])[|a|] == if |a| < |b| then b[|a|] else f
  {
    if a <= b + [f] {
      assert forall i :: 0 <= i < |a| ==> a[i] == (b + [f])[i] == b[i];
    }
  }

  lemma OvertakenUnfolds(frames: seq<TrackedFrame>, p: nat, d: nat)
    requires frames != []
    ensures var n := |frames| - 1;
            Overtaken(frames, p, d) <==>
              Overtaken(frames[..n], p, d)
              || (frames[n].index <= p && Between(frames[..n], p, d))
  {
    var n := |frames| - 1;
    if Overtaken(frames, p, d) {
      var i, j :| 0 <= i < j < |frames| && p < frames[i].index <= d && frames[j].index <= p;
      assert frames[..n][i] == frames[i] && (j < n ==> frames[..n][j] == frames[j]);
    }
    if frames[n].index <= p && Between(frames[..n], p, d) {
      var i :| 0 <= i < n && p < frames[..n][i].index <= d;
      assert frames[i] == frames[..n][i];
    }
    if Overtaken(frames[..n], p, d) {
      var i, j :| 0 <= i < j < n && p < frames[..n][i].index <= d && frames[..n][j].index <= p;
      assert frames[i] == frames[..n][i] && frames[j] == frames[..n][j];
    }
  }

  /** Such a run: frames 1 and 2 of a block, then a late frame 0. The transactions up
      to the pin at index 1 were the first of the block's, and no longer are. */
  lemma LateFrameBreaksThePrefix(pin: PreconfirmedState)
    requires pin.flashblockIndex == 1
    ensures var early := [Observed(pin, [11]), Observed(pin.(flashblockIndex := 2), [22])];
            var t := Track(EMPTY, early + [Observed(pin.(flashblockIndex := 0), [33])]);
            var now := FramesOf(t.byBlock, pin.blockNumber);
            && PinnedIsCurrent(Track(EMPTY, early), pin) && PinnedIsCurrent(t, pin)
            && Cumulative(UpTo(now, 1)) == [11, 33] && Cumulative(UpTo(now, 2)) == [11, 22, 33]
  {
    hide *;
    LateRun(pin, pin.(flashblockIndex := 2), pin.(flashblockIndex := 0));
  }

  lemma LateRun(pin: PreconfirmedState, second: PreconfirmedState, late: PreconfirmedState)
    requires pin.flashblockIndex == 1
    requires second == pin.(flashblockIndex := 2) && late == pin.(flashblockIndex := 0)
    ensures var early := [Observed(pin, [11]), Observed(second, [22])];
            var t := Track(EMPTY, early + [Observed(late, [33])]);
            var now := FramesOf(t.byBlock, pin.blockNumber);
            && PinnedIsCurrent(Track(EMPTY, early), pin) && PinnedIsCurrent(t, pin)
            && Cumulative(UpTo(now, 1)) == [11, 33] && Cumulative(UpTo(now, 2)) == [11, 22, 33]
  {
    hide *;
    TrackThree(Observed(pin, [11]), Observed(second, [22]), Observed(late, [33]));
    ObservesThree(pin, [11], second, [22], late, [33]);
    FramesRead(pin, [11], second, [22], late, [33]);
    LateFrameComesBetween(FrameOf(pin, [11]), FrameOf(second, [22]), FrameOf(late, [33]));
    assert [11] + [33] == [11, 33] && [11] + [22] + [33] == [11, 22, 33];
  }

  lemma FramesRead(a: PreconfirmedState, ha: seq<Hash>, b: PreconfirmedState, hb: seq<Hash>,
                   c: PreconfirmedState, hc: seq<Hash>)
    ensures var frames := [FrameOf(a, ha)] + [FrameOf(b, hb)] + [FrameOf(c, hc)];
            FramesOf(map[a.blockNumber := frames], a.blockNumber) == frames
    ensures FrameOf(a, ha).index == a.flashblockIndex && FrameOf(a, ha).txHashes == ha
    ensures FrameOf(b, hb).index == b.flashblockIndex && FrameOf(b, hb).txHashes == hb
    ensures FrameOf(c, hc).index == c.flashblockIndex && FrameOf(c, hc).txHashes == hc
  {}

  lemma TrackThree(e: Event, f: Event, g: Event)
    requires e.Observed? && f.Observed? && g.Observed?
    ensures Track(EMPTY, [e, f]) == Observe(Observe(EMPTY, e.state, e.hashes), f.state, f.hashes)
    ensures Track(EMPTY, [e, f] + [g]) == Observe(Track(EMPTY, [e, f]), g.state, g.hashes)
  {
    TrackAppend(EMPTY, [], e);
    TrackAppend(EMPTY, [e], f);
    TrackAppend(EMPTY, [e, f], g);
    assert [] + [e] == [e] && [e] + [f] == [e, f];
    assert Track(EMPTY, []) == EMPTY;
    hide Track, Observe;
  }

  /** Frames 1, 2 and 0 of one block, from nothing. */
  lemma ObservesThree(a: PreconfirmedState, ha: seq<Hash>, b: PreconfirmedState, hb: seq<Hash>,
                      c: PreconfirmedState, hc: seq<Hash>)
    requires a.flashblockIndex == 1 && b == a.(flashblockIndex := 2) && c == a.(flashblockIndex := 0)
    ensures var two := Observe(Observe(EMPTY, a, ha), b, hb);
            var three := Observe(two, c, hc);
            && two.latest == three.latest == Some(b)
            && PinnedIsCurrent(two, a) && PinnedIsCurrent(three, a)
            && three.byBlock == map[a.blockNumber := [FrameOf(a, ha)] + [FrameOf(b, hb)] + [FrameOf(c, hc)]]
  {
    assert [] + [FrameOf(a, ha)] == [FrameOf(a, ha)];
    ObservesInto(EMPTY, a, ha, []);
    ObservesInto(Observe(EMPTY, a, ha), b, hb, [FrameOf(a, ha)]);
    ObservesInto(Observe(Observe(EMPTY, a, ha), b, hb), c, hc, [FrameOf(a, ha)] + [FrameOf(b, hb)]);
    hide Observe;
  }

  lemma LateFrameComesBetween(f1: TrackedFrame, f2: TrackedFrame, f0: TrackedFrame)
    requires f0.index == 0 && f1.index == 1 && f2.index == 2
    ensures Cumulative(UpTo([f1] + [f2] + [f0], 1)) == f1.txHashes + f0.txHashes
    ensures Cumulative(UpTo([f1] + [f2] + [f0], 2)) == f1.txHashes + f2.txHashes + f0.txHashes
  {
    NothingHeld();
    UpToAppend([], f1);
    UpToAppend([f1], f2);
    UpToAppend([f1] + [f2], f0);
    CumulativeAppend([], f1);
    CumulativeAppend([f1], f0);
    CumulativeAppend([f1], f2);
    CumulativeAppend([f1] + [f2], f0);
    hide UpTo, Cumulative;
    assert [] + [f1] == [f1] && [f1] + [] == [f1];
  }

  lemma NothingHeld()
    ensures Track(EMPTY, []) == EMPTY && UpTo([], 1) == UpTo([], 2) == [] && Cumulative([]) == []
  {}

  lemma TrackAppend(t: TrackerState, events: seq<Event>, e: Event)
    ensures Track(t, events + [e]) == TrackOne(Track(t, events), e)
  {
    assert (events + [e])[..|events|] == events;
  }

  lemma UpToAppend(frames: seq<TrackedFrame>, f: TrackedFrame)
    ensures forall i: nat :: UpTo(frames + [f], i) == UpTo(frames, i) + if f.index <= i then [f] else []
  {
    assert (frames + [f])[..|frames|] == frames;
  }

  lemma CumulativeAppend(frames: seq<TrackedFrame>, f: TrackedFrame)
    ensures Cumulative(frames + [f]) == Cumulative(frames) + f.txHashes
  {
    assert (frames + [f])[..|frames|] == frames;
  }

  function FrameOf(state: PreconfirmedState, hashes: seq<Hash>): TrackedFrame {
    TrackedFrame(state.flashblockIndex, state.stateId, state.observedAtMs, hashes)
  }

  /** One more frame of the only block tracked. */
  lemma ObservesInto(t: TrackerState, state: PreconfirmedState, hashes: seq<Hash>, frames: seq<TrackedFrame>)
    requires t.byBlock == (if frames == [] then map[] else map[state.blockNumber := frames])
    requires forall i :: 0 <= i < |frames| ==> frames[i].index != state.flashblockIndex
    ensures Observe(t, state, hashes).byBlock == map[state.blockNumber := frames + [FrameOf(state, hashes)]]
    ensures Observe(t, state, hashes).latest == if IsNewer(t.latest, state) then Some(state) else t.latest
  {
    assert !HasFrame(frames, state.flashblockIndex, state.stateId);
    hide HasFrame;
    var m := WithFrame(t.byBlock, state, hashes);
    assert m == map[state.blockNumber := frames + [FrameOf(state, hashes)]];
    TrimForgetsOldest(m);
  }

  lemma {:induction false} BlockOnlyGrows(t: TrackerState, events: seq<Event>, block: nat)
    requires TrackerOk(t) && t.latest.Some? && t.latest.value.blockNumber == block
    requires Track(t, events).latest.Some? && Track(t, events).latest.value.blockNumber == block
    requires Sealed(block) !in events
    ensures FramesOf(t.byBlock, block) <= FramesOf(Track(t, events).byBlock, block)
  {
    if events != [] {
      var n := |events| - 1;
      var s := Track(t, events[..n]);
      RunKeepsTracker(t, events[..n]);
      StepKeepsTracker(s, events[n]);
      BlockOnlyGrows(t, events[..n], block);
      match events[n] {
        case Observed(state, hashes) =>
          var m := WithFrame(s.byBlock, state, hashes);
          TrimForgetsOldest(m);
          if block in m && block !in Trim(m) {
            // the newest block is the last to be forgotten
            assert Trim(m) == map[];
          }
        case Sealed(b) =>
          assert events[n] in events;
      }
    }
  }

  lemma {:induction false} PrefixAccumulates(a: seq<TrackedFrame>, b: seq<TrackedFrame>)
    requires a <= b
    ensures Cumulative(a) <= Cumulative(b)
  {
    if a == b {
    } else {
      var n := |b| - 1;
      assert a <= b[..n];
      PrefixAccumulates(a, b[..n]);
    }
  }
}
