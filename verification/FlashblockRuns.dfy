/** What every run of the Flashblocks parser keeps. */
module FlashblockRuns {
  import opened Arithmetic
  import opened Options
  import opened Flashblocks

  /** One notification and the clock it was parsed at. */
  datatype Arrival = Arrival(frame: RawFrame, now: nat)

  /** A position `last_frame` has held, with the link of the frame that moved it there. */
  datatype Held = Held(block: nat, index: nat, prev: Option<PrevFrameId>)

  datatype Feed = Feed(parser: ParserState, counters: Counters, held: seq<Held>)

  function StepOf(s: ParserState, a: Arrival): StepResult {
    Step(s, a.frame, FEED_FLASHBLOCKS, a.now)
  }

  predicate Moves(s: ParserState, f: RawFrame) {
    var id := Identify(f);
    id.Frame? && Classify(s, id) != Redelivered && Advances(s, id.block, id.index)
  }

  /** A fresh parser after the given arrivals, in order. */
  function FeedAfter(arrivals: seq<Arrival>): Feed {
    if arrivals == [] then Feed(INITIAL, ZERO, [])
    else
      var n := |arrivals| - 1;
      FeedNext(FeedAfter(arrivals[..n]), arrivals[n])
  }

  function FeedNext(p: Feed, a: Arrival): Feed {
    var step := StepOf(p.parser, a);
    var id := Identify(a.frame);
    Feed(step.next, p.counters.Plus(step.delta),
         if Moves(p.parser, a.frame) then p.held + [Held(id.block, id.index, a.frame.prevFrameId)] else p.held)
  }

  // ---------------------------------------------------------------------
  // The dedupe window
  // ---------------------------------------------------------------------

  /** `seen` is exactly the keys of `seen_order`, which holds no key twice. */
  ghost predicate WindowOk(seen: set<Key>, order: seq<(nat, Key)>) {
    && (forall i, j :: 0 <= i < j < |order| ==> order[i].1 != order[j].1)
    && (forall i :: 0 <= i < |order| ==> order[i].1 in seen)
    && (forall k :: k in seen ==> exists i :: 0 <= i < |order| && order[i].1 == k)
  }

  /** Each entry is counted exactly once and under its kind; what is emitted is exactly the hashes
      not yet seen under this state, without repeats and in frame order. */
  lemma {:induction false} AbsorbPartitions(entries: seq<Entry>, stateId: Hash, seen: set<Key>)
    ensures var a := Absorb(entries, stateId, seen);
            && |a.emitted| + a.duplicate + a.malformed + a.deposit == |entries|
            && a.malformed == multiset(entries)[Malformed] && a.deposit == multiset(entries)[Deposit]
            && (forall h :: h in a.emitted <==> Tx(h) in entries && (stateId, h) !in seen)
            && (forall i, j :: 0 <= i < j < |a.emitted| ==> a.emitted[i] != a.emitted[j])
            && (forall i, j :: 0 <= i < j < |a.emitted| ==>
                  FirstAt(entries, a.emitted[i]) < FirstAt(entries, a.emitted[j]))
  {
    AbsorbCounts(entries, stateId, seen);
    AbsorbsInOrder(entries, stateId, seen);
    hide Absorb, FirstAt;
  }

  lemma {:induction false} AbsorbCounts(entries: seq<Entry>, stateId: Hash, seen: set<Key>)
    ensures var a := Absorb(entries, stateId, seen);
            && |a.emitted| + a.duplicate + a.malformed + a.deposit == |entries|
            && a.malformed == multiset(entries)[Malformed] && a.deposit == multiset(entries)[Deposit]
            && (forall h :: h in a.emitted <==> Tx(h) in entries && (stateId, h) !in seen)
            && (forall i, j :: 0 <= i < j < |a.emitted| ==> a.emitted[i] != a.emitted[j])
  {
    if entries != [] {
      var n := |entries| - 1;
      AbsorbCounts(entries[..n], stateId, seen);
      assert entries == entries[..n] + [entries[n]];
    }
  }

  lemma {:induction false} AbsorbsInOrder(entries: seq<Entry>, stateId: Hash, seen: set<Key>)
    ensures var emitted := Absorb(entries, stateId, seen).emitted;
            forall i, j :: 0 <= i < j < |emitted| ==> FirstAt(entries, emitted[i]) < FirstAt(entries, emitted[j])
  {
    if entries != [] {
      var n := |entries| - 1;
      var init := entries[..n];
      AbsorbsInOrder(init, stateId, seen);
      AbsorbCounts(init, stateId, seen);
      assert entries == init + [entries[n]];
      forall h | Tx(h) in init ensures FirstAt(entries, h) == FirstAt(init, h) < n {
        FirstAtPrefix(init, entries[n], h);
      }
      if entries[n].Tx? && Tx(entries[n].hash) !in init {
        FirstAtLast(init, entries[n].hash);
      }
      hide FirstAt;
    }
  }

  /** The index of the first entry for `h`, or the length if there is none. */
  function FirstAt(entries: seq<Entry>, h: Hash): nat {
    if entries == [] then 0
    else if entries[0] == Tx(h) then 0
    else 1 + FirstAt(entries[1..], h)
  }

  lemma {:induction false} FirstAtPrefix(init: seq<Entry>, e: Entry, h: Hash)
    requires Tx(h) in init
    ensures FirstAt(init + [e], h) == FirstAt(init, h) < |init|
  {
    assert (init + [e])[1..] == init[1..] + [e];
    if init[0] != Tx(h) {
      FirstAtPrefix(init[1..], e, h);
    }
  }

  lemma {:induction false} FirstAtLast(init: seq<Entry>, h: Hash)
    requires Tx(h) !in init
    ensures FirstAt(init + [Tx(h)], h) == |init|
  {
    if init != [] {
      assert (init + [Tx(h)])[1..] == init[1..] + [Tx(h)];
      FirstAtLast(init[1..], h);
    }
  }

  lemma {:induction false} EvictKeepsWindow(seen: set<Key>, order: seq<(nat, Key)>, minBlock: nat)
    requires WindowOk(seen, order)
    ensures var (seen', order') := EvictBefore(seen, order, minBlock);
            && WindowOk(seen', order')
            && (forall e :: e in order && e.0 >= minBlock ==> e in order')
            && (forall e :: e in order' ==> e in order)
    decreases |order|
  {
    if order != [] && order[0].0 < minBlock {
      EvictKeepsWindow(seen - {order[0].1}, order[1..], minBlock);
    }
  }

  /** One parse: the window stays exact, and forgets only what is more than the
      window below the frame's block. */
  lemma StepKeepsWindow(s: ParserState, f: RawFrame, feed: nat, now: nat)
    requires WindowOk(s.seen, s.seenOrder)
    ensures var step := Step(s, f, feed, now);
            && WindowOk(step.next.seen, step.next.seenOrder)
            && (Identify(f).Frame? ==>
                  && (forall e :: e in s.seenOrder && Identify(f).block <= e.0 + DEDUPE_BLOCKS ==>
                        e in step.next.seenOrder)
                  && (forall h :: h in step.parsed.txs ==>
                        (Identify(f).block, (Identify(f).stateId, h)) in step.next.seenOrder)
                  && (forall e :: e in step.next.seenOrder ==>
                        e in s.seenOrder || (e.0 == Identify(f).block && e.1.0 == Identify(f).stateId)))
  {
    var id := Identify(f);
    if id.Frame? {
      var a := Absorb(f.entries, id.stateId, s.seen);
      AbsorbPartitions(f.entries, id.stateId, s.seen);
      var seen, order := s.seen + KeysOf(id.stateId, a.emitted),
                         s.seenOrder + Tagged(id.block, id.stateId, a.emitted);
      PushKeepsWindow(s.seen, s.seenOrder, id.block, id.stateId, a.emitted);
      EvictKeepsWindow(seen, order, MonusNat(id.block, DEDUPE_BLOCKS));
    }
  }

  lemma PushKeepsWindow(seen: set<Key>, order: seq<(nat, Key)>, block: nat, stateId: Hash, hashes: seq<Hash>)
    requires WindowOk(seen, order)
    requires forall h :: h in hashes ==> (stateId, h) !in seen
    requires forall i, j :: 0 <= i < j < |hashes| ==> hashes[i] != hashes[j]
    ensures var order' := order + Tagged(block, stateId, hashes);
            && WindowOk(seen + KeysOf(stateId, hashes), order')
            && (forall e :: e in order ==> e in order')
            && (forall h :: h in hashes ==> (block, (stateId, h)) in order')
            && (forall e :: e in order' ==> e in order || (e.0 == block && e.1.0 == stateId))
  {
    var pushed := Tagged(block, stateId, hashes);
    var order' := order + pushed;
    forall k | k in seen + KeysOf(stateId, hashes) ensures exists i :: 0 <= i < |order'| && order'[i].1 == k {
      if k in seen {
        var i :| 0 <= i < |order| && order[i].1 == k;
        assert order'[i].1 == k;
      } else {
        var i :| 0 <= i < |hashes| && (stateId, hashes[i]) == k;
        assert order'[|order| + i] == pushed[i];
      }
    }
    forall h | h in hashes ensures (block, (stateId, h)) in order' {
      var i :| 0 <= i < |hashes| && hashes[i] == h;
      assert order'[|order| + i] == pushed[i];
    }
  }

  /** After every run, `seen` and `seen_order` agree. */
  lemma {:induction false} WindowAlwaysExact(arrivals: seq<Arrival>)
    ensures var s := FeedAfter(arrivals).parser; WindowOk(s.seen, s.seenOrder)
  {
    if arrivals != [] {
      var n := |arrivals| - 1;
      WindowAlwaysExact(arrivals[..n]);
      StepKeepsWindow(FeedAfter(arrivals[..n]).parser, arrivals[n].frame, FEED_FLASHBLOCKS, arrivals[n].now);
    }
  }

  /** The `i`-th arrival emits the transaction `k.1` under the state `k.0`. */
  ghost predicate EmitsAt(arrivals: seq<Arrival>, i: nat, k: Key) {
    i < |arrivals|
    && var id := Identify(arrivals[i].frame);
    id.Frame? && id.stateId == k.0 && k.1 in StepOf(FeedAfter(arrivals[..i]).parser, arrivals[i]).parsed.txs
  }

  /** The arrival is an accepted frame for a block more than the window above `block`. */
  predicate BeyondWindow(a: Arrival, block: nat) {
    Identify(a.frame).Frame? && Identify(a.frame).block > block + DEDUPE_BLOCKS
  }

  /** A pair emitted under a block is emitted again only after an accepted frame
      for a block more than 32 above it, strictly between the two. */
  lemma ReEmittedOnlyBeyondWindow(arrivals: seq<Arrival>, i: nat, j: nat, k: Key)
    requires i < j && EmitsAt(arrivals, i, k) && EmitsAt(arrivals, j, k)
    ensures exists m :: i < m < j && BeyondWindow(arrivals[m], Identify(arrivals[i].frame).block)
  {
    if forall m :: i < m < j ==> !BeyondWindow(arrivals[m], Identify(arrivals[i].frame).block) {
      Remembered(arrivals, i, j, k);
      var id := Identify(arrivals[j].frame);
      WindowAlwaysExact(arrivals[..j]);
      AbsorbPartitions(arrivals[j].frame.entries, id.stateId, FeedAfter(arrivals[..j]).parser.seen);
    }
  }

  /** Until then the pair stays in the window, under the block it was emitted with. */
  lemma {:induction false} Remembered(arrivals: seq<Arrival>, i: nat, j: nat, k: Key)
    requires i < j <= |arrivals| && EmitsAt(arrivals, i, k)
    requires forall m :: i < m < j ==> !BeyondWindow(arrivals[m], Identify(arrivals[i].frame).block)
    ensures (Identify(arrivals[i].frame).block, k) in FeedAfter(arrivals[..j]).parser.seenOrder
  {
    hide Absorb, EvictBefore, Classify, RaisesGap;
    var s := FeedAfter(arrivals[..j - 1]).parser;
    var a := arrivals[j - 1];
    assert arrivals[..j][..j - 1] == arrivals[..j - 1];
    WindowAlwaysExact(arrivals[..j - 1]);
    StepKeepsWindow(s, a.frame, FEED_FLASHBLOCKS, a.now);
    if i < j - 1 {
      Remembered(arrivals, i, j - 1, k);
    }
  }

  // ---------------------------------------------------------------------
  // Sequence gaps
  // ---------------------------------------------------------------------

  /** The two healthy steps: the next index of the block, or index 0 of the next block. */
  ghost predicate Follows(block: nat, index: nat, lastBlock: nat, lastIndex: nat) {
    (block == lastBlock && index == lastIndex + 1) || (block == lastBlock + 1 && index == 0)
  }

  /** A link that parses names exactly this position. */
  ghost predicate LinkNames(prev: Option<PrevFrameId>, block: nat, index: nat) {
    prev.Some? && prev.value.Link? ==> prev.value == Link(block, index)
  }

  /** An accepted frame raises no gap exactly when it is the healthy successor of
      the last frame or a resend from within the current block. */
  lemma GapMeansDiscontinuity(s: ParserState, f: RawFrame)
    requires Identify(f).Frame?
    ensures var id := Identify(f);
            RaisesGap(s, id, f.prevFrameId) <==>
              match s.lastFrame
              case None => id.index != 0
              case Some((lb, li)) =>
                !(id.block == lb && id.index <= li)
                && !(Follows(id.block, id.index, lb, li) && LinkNames(f.prevFrameId, lb, li))
  {}

  /** Every position follows the one before it, its link says so, and the first is index 0. */
  ghost predicate Chained(held: seq<Held>) {
    && (held != [] ==> held[0].index == 0)
    && (forall k :: 0 < k < |held| ==>
          && Follows(held[k].block, held[k].index, held[k - 1].block, held[k - 1].index)
          && LinkNames(held[k].prev, held[k - 1].block, held[k - 1].index))
  }

  /** The `i`-th arrival was accepted without advancing, and not from the current block. */
  ghost predicate Stray(arrivals: seq<Arrival>, i: nat) {
    i < |arrivals|
    && var s := FeedAfter(arrivals[..i]).parser;
    var id := Identify(arrivals[i].frame);
    id.Frame? && !Moves(s, arrivals[i].frame) && (s.lastFrame.None? || s.lastFrame.value.0 != id.block)
  }

  /** `last_frame` is the last position held; positions only move forward; and
      `blocks_seen` counts the distinct blocks among them. */
  ghost predicate HeldOk(p: Feed) {
    && (p.parser.lastFrame == if p.held == [] then None
                              else Some((p.held[|p.held| - 1].block, p.held[|p.held| - 1].index)))
    && (forall i, j :: 0 <= i < j < |p.held| ==> Before(p.held[i], p.held[j]))
    && p.counters.blocksSeen == |BlocksOf(p.held)|
  }

  ghost predicate Before(a: Held, b: Held) {
    a.block < b.block || (a.block == b.block && a.index < b.index)
  }

  ghost function BlocksOf(held: seq<Held>): set<nat> {
    set i | 0 <= i < |held| :: held[i].block
  }

  lemma {:induction false} HeldAlwaysOk(arrivals: seq<Arrival>)
    ensures HeldOk(FeedAfter(arrivals))
  {
    if arrivals == [] {
      assert BlocksOf([]) == {};
    } else {
      var n := |arrivals| - 1;
      HeldAlwaysOk(arrivals[..n]);
      HeldStep(FeedAfter(arrivals[..n]), arrivals[n]);
    }
  }

  lemma HeldStep(p: Feed, a: Arrival)
    requires HeldOk(p)
    ensures HeldOk(FeedNext(p, a))
  {
    hide Absorb, EvictBefore, Identify, RaisesGap, BlocksOf;
    if Moves(p.parser, a.frame) {
      var id := Identify(a.frame);
      var next := Held(id.block, id.index, a.frame.prevFrameId);
      BlocksGrow(p.held, next);
      forall i | 0 <= i < |p.held| ensures Before(p.held[i], next) {
        assert Before(p.held[|p.held| - 1], next);
      }
    }
  }

  /** A position at or beyond the last one adds its block to the set unless it is the last one's. */
  lemma BlocksGrow(held: seq<Held>, next: Held)
    requires forall i, j :: 0 <= i < j < |held| ==> Before(held[i], held[j])
    requires held != [] ==> held[|held| - 1].block <= next.block
    ensures |BlocksOf(held + [next])| ==
            |BlocksOf(held)| + if held != [] && held[|held| - 1].block == next.block then 0 else 1
  {
    BlocksOfAppend(held, next);
    var blocks := BlocksOf(held);
    if held != [] {
      var last := held[|held| - 1];
      assert last.block in blocks;
      if last.block == next.block {
        assert blocks + {next.block} == blocks;
      } else {
        assert forall i :: 0 <= i < |held| - 1 ==> Before(held[i], last);
      }
    }
  }

  lemma BlocksOfAppend(held: seq<Held>, next: Held)
    ensures BlocksOf(held + [next]) == BlocksOf(held) + {next.block}
  {
    var all := held + [next];
    forall b | b in BlocksOf(held) + {next.block} ensures b in BlocksOf(all) {
      if b in BlocksOf(held) {
        var i :| 0 <= i < |held| && held[i].block == b;
        assert all[i].block == b;
      } else {
        assert all[|held|].block == b;
      }
    }
  }

  /** `state_gaps` stays zero exactly over the runs whose accepted positions form
      one unbroken chain from an index 0, with no frame from another block in between. */
  lemma {:induction false} GaplessIffChained(arrivals: seq<Arrival>)
    ensures FeedAfter(arrivals).counters.stateGaps == 0
      <==> Chained(FeedAfter(arrivals).held) && forall i :: 0 <= i < |arrivals| ==> !Stray(arrivals, i)
  {
    if arrivals != [] {
      var n := |arrivals| - 1;
      var p := FeedAfter(arrivals[..n]);
      GaplessIffChained(arrivals[..n]);
      HeldAlwaysOk(arrivals[..n]);
      ChainStep(p, arrivals[n]);
      StraysSoFar(arrivals);
      hide HeldOk, Chained, FeedNext;
      assert Stray(arrivals, n) <==> (Identify(arrivals[n].frame).Frame? && !Moves(p.parser, arrivals[n].frame)
        && (p.parser.lastFrame.None? || p.parser.lastFrame.value.0 != Identify(arrivals[n].frame).block));
      hide Stray, Moves, Identify;
    }
  }

  lemma StraysSoFar(arrivals: seq<Arrival>)
    requires arrivals != []
    ensures var n := |arrivals| - 1;
            (forall i :: 0 <= i < |arrivals| ==> !Stray(arrivals, i))
            <==> (forall i :: 0 <= i < n ==> !Stray(arrivals[..n], i)) && !Stray(arrivals, n)
  {
    var n := |arrivals| - 1;
    forall i | 0 <= i < n ensures Stray(arrivals, i) <==> Stray(arrivals[..n], i) {
      assert arrivals[..n][..i] == arrivals[..i];
    }
    hide Stray;
  }

  lemma ChainStep(p: Feed, a: Arrival)
    requires HeldOk(p)
    ensures var q, id := FeedNext(p, a), Identify(a.frame);
            && q.counters.stateGaps >= p.counters.stateGaps
            && (Chained(q.held) ==> Chained(p.held))
            && (Chained(p.held) ==>
                  (q.counters.stateGaps == p.counters.stateGaps <==>
                    Chained(q.held) && !(id.Frame? && !Moves(p.parser, a.frame)
                      && (p.parser.lastFrame.None? || p.parser.lastFrame.value.0 != id.block))))
  {
    hide Absorb, EvictBefore, Identify, Chained;
    var id := Identify(a.frame);
    if id.Frame? {
      GapMeansDiscontinuity(p.parser, a.frame);
    }
    if Moves(p.parser, a.frame) {
      ChainedPush(p.held, Held(id.block, id.index, a.frame.prevFrameId));
    }
  }

  lemma ChainedPush(held: seq<Held>, next: Held)
    ensures Chained(held + [next]) <==>
            Chained(held)
            && if held == [] then next.index == 0
               else var last := held[|held| - 1];
                    && Follows(next.block, next.index, last.block, last.index)
                    && LinkNames(next.prev, last.block, last.index)
  {
    var all := held + [next];
    assert forall k :: 0 <= k < |held| ==> all[k] == held[k];
    assert all[|held|] == next;
    if Chained(all) {
      assert forall k :: 0 < k < |held| ==>
        Follows(all[k].block, all[k].index, all[k - 1].block, all[k - 1].index)
        && LinkNames(all[k].prev, all[k - 1].block, all[k - 1].index);
    }
  }

  /** In a gapless run nothing was skipped: below every position held, each earlier
      index of its block and index 0 of each block since the first were held too. */
  lemma {:induction false} ChainSkipsNothing(held: seq<Held>, k: nat, block: nat, index: nat)
    requires Chained(held) && k < |held|
    requires held[0].block <= block <= held[k].block
    requires if block == held[k].block then index <= held[k].index else index == 0
    ensures exists m :: 0 <= m <= k && held[m].block == block && held[m].index == index
  {
    if k > 0 && !(held[k].block == block && held[k].index == index) {
      ChainSkipsNothing(held, k - 1, block, index);
    }
  }
}
