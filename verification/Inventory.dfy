/** The nonce allocator of `inventory.rs`: each method is one atomic step. */
module Inventory {

  const U64_MAX: nat := 0xffff_ffff_ffff_ffff

  type U64 = n: nat | n <= U64_MAX

  function SaturatingAdd(a: U64, b: U64): (r: U64)
    ensures r <= a + b && (r < a + b ==> r == U64_MAX)
  {
    if a + b <= U64_MAX then a + b else U64_MAX
  }

  /** `fetch_add` wraps around. */
  function WrappingAdd(a: U64, b: U64): (r: U64)
    ensures r == (a + b) % (U64_MAX + 1)
  {
    if a + b <= U64_MAX then a + b else a + b - U64_MAX - 1
  }

  /** What `fetch_max` leaves. */
  function Max(a: U64, b: U64): (r: U64)
    ensures r >= a && r >= b && (r == a || r == b)
  {
    if a >= b then a else b
  }

  class Inventory {
    var nonce: U64
    var blockedUntilBlock: U64
    /** Every block broadcasting has been blocked through, in order. */
    ghost var blocks: seq<U64>

    ghost predicate Valid()
      reads this
    {
      blockedUntilBlock == BlockedThrough(0, blocks)
    }

    constructor ()
      ensures Valid() && nonce == 0 && blockedUntilBlock == 0 && blocks == []
    {
      nonce, blockedUntilBlock := 0, 0;
      blocks := [];
    }

    method ReserveNonces(count: U64) returns (start: U64)
      modifies this`nonce
      ensures start == old(nonce) && nonce == WrappingAdd(old(nonce), count)
    {
      start := nonce;
      nonce := WrappingAdd(nonce, count);
    }

    /** Compare-and-exchange: only from the tip. */
    method ReleaseNonces(start: U64, count: U64) returns (released: bool)
      modifies this`nonce
      ensures released <==> old(nonce) == SaturatingAdd(start, count)
      ensures nonce == if released then start else old(nonce)
    {
      released := nonce == SaturatingAdd(start, count);
      if released {
        nonce := start;
      }
    }

    method AdvanceChainNonce(n: U64)
      modifies this`nonce
      ensures nonce == Max(old(nonce), n)
    {
      if n > nonce {
        nonce := n;
      }
    }

    method BlockBroadcastUntil(block: U64)
      requires Valid()
      modifies this`blockedUntilBlock, this`blocks
      ensures Valid() && blocks == old(blocks) + [block]
      ensures blockedUntilBlock == Max(old(blockedUntilBlock), block)
    {
      if block > blockedUntilBlock {
        blockedUntilBlock := block;
      }
      blocks := blocks + [block];
      assert blocks[..|blocks| - 1] == old(blocks);
    }

    /** Open exactly above every block it has been blocked through. */
    method BroadcastAvailable(head: U64) returns (open: bool)
      requires Valid()
      ensures open <==> head > 0 && forall i :: 0 <= i < |blocks| ==> head > blocks[i]
    {
      open := head > blockedUntilBlock;
      OpenAboveEveryBlock(0, blocks, head);
    }
  }

  /** The height blocked through after a run of `block_broadcast_until` calls. */
  function BlockedThrough(initial: U64, blocks: seq<U64>): U64 {
    if blocks == [] then initial
    else Max(BlockedThrough(initial, blocks[..|blocks| - 1]), blocks[|blocks| - 1])
  }

  /** Blocks only accumulate: broadcasting is open exactly above every one of them. */
  lemma {:induction false} OpenAboveEveryBlock(initial: U64, blocks: seq<U64>, head: U64)
    ensures head > BlockedThrough(initial, blocks)
      <==> head > initial && forall i :: 0 <= i < |blocks| ==> head > blocks[i]
  {
    if blocks != [] {
      var n := |blocks| - 1;
      OpenAboveEveryBlock(initial, blocks[..n], head);
      if head > BlockedThrough(initial, blocks) {
        forall i | 0 <= i < |blocks| ensures head > blocks[i] {
          assert i == n || blocks[..n][i] == blocks[i];
        }
      }
    }
  }

  // ---------------------------------------------------------------------
  // Interleavings of the atomic steps
  // ---------------------------------------------------------------------

  datatype Reservation = Reservation(start: U64, count: U64)

  /** The counter, and which reservations their holders have not released. */
  datatype Lane = Lane(nonce: U64, outstanding: map<nat, Reservation>)

  /** One atomic step by the holder of a bundle id, or a chain refresh. */
  datatype Action =
    | Reserve(id: nat, count: U64)
    | Release(id: nat)
    | AdvanceChain(n: U64)

  /** Each step is the call of the same name; an id reserves once, and only an
      outstanding reservation is ever released. */
  function Act(l: Lane, a: Action): Lane {
    match a
    case Reserve(id, count) =>
      if id in l.outstanding then l
      else Lane(WrappingAdd(l.nonce, count), l.outstanding[id := Reservation(l.nonce, count)])
    case Release(id) =>
      if Releases(l, id) then Lane(l.outstanding[id].start, l.outstanding - {id}) else l
    case AdvanceChain(n) =>
      Lane(Max(l.nonce, n), l.outstanding)
  }

  /** The step of the transition system is what the calls do: a holder keeps the start it was
      given and gives it back with its count. */
  method Perform(inventory: Inventory, l: Lane, a: Action) returns (next: Lane)
    requires inventory.nonce == l.nonce
    modifies inventory`nonce
    ensures next == Act(l, a) && inventory.nonce == next.nonce
  {
    next := l;
    match a {
      case Reserve(id, count) =>
        if id !in l.outstanding {
          var start := inventory.ReserveNonces(count);
          next := Lane(inventory.nonce, l.outstanding[id := Reservation(start, count)]);
        }
      case Release(id) =>
        if id in l.outstanding {
          var released := inventory.ReleaseNonces(l.outstanding[id].start, l.outstanding[id].count);
          if released {
            next := Lane(inventory.nonce, l.outstanding - {id});
          }
        }
      case AdvanceChain(n) =>
        inventory.AdvanceChainNonce(n);
        next := l.(nonce := inventory.nonce);
    }
  }

  predicate Releases(l: Lane, id: nat) {
    id in l.outstanding && l.nonce == SaturatingAdd(l.outstanding[id].start, l.outstanding[id].count)
  }

  function ActAll(l: Lane, actions: seq<Action>): Lane {
    if actions == [] then l
    else Act(ActAll(l, actions[..|actions| - 1]), actions[|actions| - 1])
  }

  /** The 64-bit counter does not wrap at any reservation made in the run. */
  ghost predicate NeverWraps(l: Lane, actions: seq<Action>) {
    forall i :: 0 <= i < |actions| ==> !Wraps(ActAll(l, actions[..i]), actions[i])
  }

  predicate Wraps(l: Lane, a: Action) {
    a.Reserve? && a.id !in l.outstanding && l.nonce + a.count > U64_MAX
  }

  predicate Uses(r: Reservation, nonce: nat) {
    r.start <= nonce < r.start + r.count
  }

  /** No nonce is held twice, and every held nonce is below the counter. */
  ghost predicate LaneOk(l: Lane) {
    && (forall i, n: nat :: i in l.outstanding && Uses(l.outstanding[i], n) ==> n < l.nonce)
    && (forall i, j, n: nat :: i in l.outstanding && j in l.outstanding && i != j && Uses(l.outstanding[i], n)
          ==> !Uses(l.outstanding[j], n))
  }

  /** A step keeps the lane exactly if it does not wrap: one that does holds a nonce
      at or above the new counter. */
  lemma ActKeepsLaneIff(l: Lane, a: Action)
    requires LaneOk(l)
    ensures LaneOk(Act(l, a)) <==> !Wraps(l, a)
  {
    match a {
      case Reserve(id, count) =>
        if Wraps(l, a) {
          assert Uses(Act(l, a).outstanding[id], l.nonce);
        }
      case Release(id) =>
        if Releases(l, id) {
          ReleaseFromTip(l, id);
        }
      case AdvanceChain(n) =>
    }
  }

  /** A non-empty reservation is released exactly from the tip: then nothing else
      is held at or above its start. */
  lemma ReleaseFromTip(l: Lane, id: nat)
    requires LaneOk(l) && id in l.outstanding
    ensures var r := l.outstanding[id];
            && (r.count > 0 ==> (Releases(l, id) <==> l.nonce == r.start + r.count))
            && (Releases(l, id) ==>
                  forall j, n: nat :: j in l.outstanding && j != id && Uses(l.outstanding[j], n) ==> n < r.start)
  {
    var r := l.outstanding[id];
    if r.count > 0 {
      assert Uses(r, r.start + r.count - 1);
    }
    if Releases(l, id) {
      forall j, n: nat | j in l.outstanding && j != id && Uses(l.outstanding[j], n) ensures n < r.start {
        assert !Uses(r, n);
      }
    }
  }

  /** No nonce is held twice, and none at or above the counter, at any time in the run. */
  ghost predicate AlwaysOk(l: Lane, actions: seq<Action>) {
    forall i :: 0 <= i <= |actions| ==> LaneOk(ActAll(l, actions[..i]))
  }

  /** Every interleaving of reservations, releases and chain refreshes keeps the lane
      throughout, exactly if no reservation in it wraps the counter. */
  lemma {:induction false} EveryInterleavingKeepsLane(l: Lane, actions: seq<Action>)
    requires LaneOk(l)
    ensures AlwaysOk(l, actions) <==> NeverWraps(l, actions)
    ensures NeverWraps(l, actions) ==> LaneOk(ActAll(l, actions))
  {
    if actions != [] {
      EveryInterleavingKeepsLane(l, actions[..|actions| - 1]);
      AlwaysOkUnfolds(l, actions);
      NeverWrapsUnfolds(l, actions);
      LastStep(l, actions);
      hide *;
    }
  }

  lemma LastStep(l: Lane, actions: seq<Action>)
    requires actions != []
    ensures var n := |actions| - 1;
            LaneOk(ActAll(l, actions[..n])) ==>
              (LaneOk(ActAll(l, actions)) <==> !Wraps(ActAll(l, actions[..n]), actions[n]))
    ensures AlwaysOk(l, actions[..|actions| - 1]) ==> LaneOk(ActAll(l, actions[..|actions| - 1]))
  {
    var n := |actions| - 1;
    var init := actions[..n];
    if LaneOk(ActAll(l, init)) {
      ActKeepsLaneIff(ActAll(l, init), actions[n]);
    }
    assert init[..n] == init;
    hide LaneOk, Wraps, Act;
  }

  lemma AlwaysOkUnfolds(l: Lane, actions: seq<Action>)
    requires actions != []
    ensures AlwaysOk(l, actions) <==> AlwaysOk(l, actions[..|actions| - 1]) && LaneOk(ActAll(l, actions))
  {
    hide ActAll, LaneOk;
    var n := |actions| - 1;
    assert forall i :: 0 <= i <= n ==> actions[..n][..i] == actions[..i];
    assert actions[..n + 1] == actions;
  }

  lemma NeverWrapsUnfolds(l: Lane, actions: seq<Action>)
    requires actions != []
    ensures var n := |actions| - 1;
            NeverWraps(l, actions) <==> NeverWraps(l, actions[..n]) && !Wraps(ActAll(l, actions[..n]), actions[n])
  {
    hide ActAll, Wraps;
    var n := |actions| - 1;
    assert forall i :: 0 <= i < n ==> actions[..n][..i] == actions[..i] && actions[..n][i] == actions[i];
  }

  /** Past the last 64-bit nonce it does not hold: the wrapped counter hands out nonce 0 again. */
  lemma WrappedCounterRepeats()
    ensures var l := ActAll(Lane(0, map[]), [Reserve(0, U64_MAX), Reserve(1, 1), Reserve(2, 1)]);
            0 in l.outstanding && 2 in l.outstanding && Uses(l.outstanding[0], 0) && Uses(l.outstanding[2], 0)
  {
    var a, b, c := Reserve(0, U64_MAX), Reserve(1, 1), Reserve(2, 1);
    assert [a, b, c][..2] == [a, b] && [a, b][..1] == [a] && [a][..0] == [];
    assert ActAll(Lane(0, map[]), [a]) == Lane(U64_MAX, map[0 := Reservation(0, U64_MAX)]);
    assert ActAll(Lane(0, map[]), [a, b]).nonce == 0;
  }

  // ---------------------------------------------------------------------
  // The chain's own nonce
  // ---------------------------------------------------------------------

  /** The highest nonce the chain has reported in the run. */
  function ChainNonce(actions: seq<Action>): nat {
    if actions == [] then 0
    else
      var rest, last := ChainNonce(actions[..|actions| - 1]), actions[|actions| - 1];
      if last.AdvanceChain? && last.n > rest then last.n else rest
  }

  /** The counter is at or above it after every step. */
  ghost predicate NeverBehindChain(l: Lane, actions: seq<Action>) {
    forall i :: 0 <= i <= |actions| ==> ActAll(l, actions[..i]).nonce >= ChainNonce(actions[..i])
  }

  /** The step takes the counter below what the chain has reported: a release that
      starts below it, or a reservation that wraps to below it. */
  predicate FallsBehind(l: Lane, a: Action, chain: nat) {
    match a
    case Reserve(id, count) => Wraps(l, a) && l.nonce + count - U64_MAX - 1 < chain
    case Release(id) => Releases(l, id) && l.outstanding[id].start < chain
    case AdvanceChain(n) => false
  }

  ghost predicate NoStepFallsBehind(l: Lane, actions: seq<Action>) {
    forall i :: 0 <= i < |actions| ==> !FallsBehind(ActAll(l, actions[..i]), actions[i], ChainNonce(actions[..i]))
  }

  /** Exactly the runs in which the counter stays at or above the chain's nonce. */
  lemma {:induction false} NeverBehindChainIff(l: Lane, actions: seq<Action>)
    ensures NeverBehindChain(l, actions) <==> NoStepFallsBehind(l, actions)
  {
    if actions != [] {
      NeverBehindChainIff(l, actions[..|actions| - 1]);
      NeverBehindUnfolds(l, actions);
      NoStepUnfolds(l, actions);
      NeverBehindStep(l, actions);
      hide *;
    }
  }

  lemma NeverBehindUnfolds(l: Lane, actions: seq<Action>)
    requires actions != []
    ensures NeverBehindChain(l, actions) <==>
            NeverBehindChain(l, actions[..|actions| - 1]) && ActAll(l, actions).nonce >= ChainNonce(actions)
  {
    hide ActAll, ChainNonce;
    var n := |actions| - 1;
    assert forall i :: 0 <= i <= n ==> actions[..n][..i] == actions[..i];
    assert actions[..n + 1] == actions;
  }

  ghost predicate LastFallsBehind(l: Lane, actions: seq<Action>)
    requires actions != []
  {
    var n := |actions| - 1;
    FallsBehind(ActAll(l, actions[..n]), actions[n], ChainNonce(actions[..n]))
  }

  lemma NoStepUnfolds(l: Lane, actions: seq<Action>)
    requires actions != []
    ensures NoStepFallsBehind(l, actions) <==>
            NoStepFallsBehind(l, actions[..|actions| - 1]) && !LastFallsBehind(l, actions)
  {
    hide ActAll, ChainNonce, FallsBehind;
    var n := |actions| - 1;
    assert forall i :: 0 <= i < n ==> actions[..n][..i] == actions[..i] && actions[..n][i] == actions[i];
  }

  lemma NeverBehindStep(l: Lane, actions: seq<Action>)
    requires actions != []
    ensures ActAll(l, actions[..|actions| - 1]).nonce >= ChainNonce(actions[..|actions| - 1]) ==>
              (ActAll(l, actions).nonce >= ChainNonce(actions) <==> !LastFallsBehind(l, actions))
    ensures NeverBehindChain(l, actions[..|actions| - 1]) ==>
              ActAll(l, actions[..|actions| - 1]).nonce >= ChainNonce(actions[..|actions| - 1])
  {
    var init := actions[..|actions| - 1];
    assert init[..|init|] == init;
  }

  // ---------------------------------------------------------------------
  // Withdrawing
  // ---------------------------------------------------------------------

  /** Release the given reservations, newest first, as the engine does when it withdraws
      all active bundles; whatever other steps came before. */
  function ReleaseAll(l: Lane, ids: seq<nat>): Lane
    decreases |ids|
  {
    if ids == [] then l else ReleaseAll(Act(l, Release(ids[0])), ids[1..])
  }

  function EndOf(r: Reservation): U64 {
    SaturatingAdd(r.start, r.count)
  }

  /** The `i`-th reservation ends where the one above it, or the counter, begins. */
  predicate Abuts(l: Lane, ids: seq<nat>, i: nat) {
    i < |ids| && ids[i] in l.outstanding
    && if i == 0 then EndOf(l.outstanding[ids[0]]) == l.nonce
       else ids[i - 1] in l.outstanding && EndOf(l.outstanding[ids[i]]) == l.outstanding[ids[i - 1]].start
  }

  /** The reservations reach down from the counter without a hole. */
  ghost predicate Stacked(l: Lane, ids: seq<nat>) {
    forall i :: 0 <= i < |ids| ==> Abuts(l, ids, i)
  }

  /** Every release succeeds exactly when they are stacked; then the counter is back
      where the oldest of them began, and everything else is as it was. */
  lemma {:induction false} WithdrawalReleasesAllIff(l: Lane, ids: seq<nat>)
    requires forall i, j :: 0 <= i < j < |ids| ==> ids[i] != ids[j]
    requires forall i :: 0 <= i < |ids| ==> ids[i] in l.outstanding
    ensures (forall i :: 0 <= i < |ids| ==> ids[i] !in ReleaseAll(l, ids).outstanding) <==> Stacked(l, ids)
    ensures Stacked(l, ids) ==>
              ReleaseAll(l, ids) == Lane(if ids == [] then l.nonce else l.outstanding[ids[|ids| - 1]].start,
                                         l.outstanding - IdsOf(ids))
    decreases |ids|
  {
    if ids != [] {
      var next, rest := Act(l, Release(ids[0])), ids[1..];
      StackedUnfolds(l, ids);
      if Releases(l, ids[0]) {
        WithdrawalReleasesAllIff(next, rest);
        StaysReleased(next, rest, ids[0]);
        assert IdsOf(ids) == {ids[0]} + IdsOf(rest);
        assert l.outstanding - IdsOf(ids) == next.outstanding - IdsOf(rest);
        hide Stacked, IdsOf;
        assert forall i :: 0 < i < |ids| ==> ids[i] == rest[i - 1];
        assert forall i :: 0 <= i < |rest| ==> rest[i] == ids[i + 1];
      } else {
        StaysHeld(next, rest, ids[0]);
      }
    }
  }

  function IdsOf(ids: seq<nat>): set<nat> {
    set i | i in ids
  }

  lemma StackedUnfolds(l: Lane, ids: seq<nat>)
    requires ids != [] && forall i, j :: 0 <= i < j < |ids| ==> ids[i] != ids[j]
    requires forall i :: 0 <= i < |ids| ==> ids[i] in l.outstanding
    ensures Stacked(l, ids) <==> Releases(l, ids[0]) && Stacked(Act(l, Release(ids[0])), ids[1..])
  {
    var next, rest := Act(l, Release(ids[0])), ids[1..];
    if Releases(l, ids[0]) {
      forall i | 0 < i < |ids| ensures Abuts(l, ids, i) <==> Abuts(next, rest, i - 1) {
        assert rest[i - 1] == ids[i] && (i > 1 ==> rest[i - 2] == ids[i - 1]);
      }
      assert forall i :: 0 <= i < |rest| ==> (Abuts(next, rest, i) <==> Abuts(l, ids, i + 1));
    } else {
      assert !Abuts(l, ids, 0);
    }
  }

  lemma {:induction false} StaysReleased(l: Lane, ids: seq<nat>, id: nat)
    requires id !in l.outstanding
    ensures id !in ReleaseAll(l, ids).outstanding
    decreases |ids|
  {
    if ids != [] {
      StaysReleased(Act(l, Release(ids[0])), ids[1..], id);
    }
  }

  lemma {:induction false} StaysHeld(l: Lane, ids: seq<nat>, id: nat)
    requires id in l.outstanding && id !in ids
    ensures id in ReleaseAll(l, ids).outstanding
    decreases |ids|
  {
    if ids != [] {
      StaysHeld(Act(l, Release(ids[0])), ids[1..], id);
    }
  }
}
