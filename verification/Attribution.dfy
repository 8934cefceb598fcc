/** The observable WETH delta of `attribution.rs` over decoded receipt logs. */
module Attribution {
  import opened Options

  type Address = nat

  const I128_MAX: int := 0x7fff_ffff_ffff_ffff_ffff_ffff_ffff_ffff
  const I128_MIN: int := -0x8000_0000_0000_0000_0000_0000_0000_0000

  datatype Topic = Transfer | Deposit | Withdrawal | OtherEvent

  /** A receipt log: its emitter, first topic, the two address topics, and its data word. */
  datatype Log = Log(
    address: Option<Address>, topic: Option<Topic>, first: Option<Address>, second: Option<Address>, data: nat)

  /** `to_i128`: amounts beyond the signed range are taken as its maximum. */
  function ToI128(n: nat): (r: nat)
    ensures r <= n && r <= I128_MAX && (r < n ==> r == I128_MAX)
  {
    if n > I128_MAX then I128_MAX else n
  }

  function Clamp(n: int): (r: int)
    ensures I128_MIN <= r <= I128_MAX
    ensures (r < n ==> r == I128_MAX) && (r > n ==> r == I128_MIN)
  {
    if n > I128_MAX then I128_MAX else if n < I128_MIN then I128_MIN else n
  }

  predicate Ours(address: Option<Address>, entity: set<Address>) {
    address.Some? && address.value in entity
  }

  /** The loop of `weth_delta`, with its saturating additions and subtractions. */
  method WethDelta(logs: Option<seq<Log>>, weth: Address, entity: set<Address>) returns (delta: int)
    ensures delta == if logs.None? then 0 else Delta(logs.value, weth, entity)
  {
    delta := 0;
    if logs.None? {
      return 0;
    }
    for i := 0 to |logs.value|
      invariant delta == Delta(logs.value[..i], weth, entity)
    {
      var log := logs.value[i];
      assert logs.value[..i + 1][..i] == logs.value[..i];
      if log.address != Some(weth) || log.topic.None? {
        continue;
      }
      var amount := ToI128(log.data);
      match log.topic.value {
        case Transfer =>
          var fromUs, toUs := Ours(log.first, entity), Ours(log.second, entity);
          if fromUs && !toUs {
            delta := Clamp(delta - amount);
          } else if toUs && !fromUs {
            delta := Clamp(delta + amount);
          }
        case Deposit =>
          if Ours(log.first, entity) {
            delta := Clamp(delta + amount);
          }
        case Withdrawal =>
          if Ours(log.first, entity) {
            delta := Clamp(delta - amount);
          }
        case OtherEvent =>
      }
    }
    assert logs.value[..|logs.value|] == logs.value;
  }

  /** What one log moves into the entity, as a signed amount. */
  function Moved(log: Log, weth: Address, entity: set<Address>): int {
    if log.address != Some(weth) || log.topic.None? then 0
    else
      var amount: int := ToI128(log.data);
      match log.topic.value
      case Transfer =>
        (if Ours(log.second, entity) then amount else 0) - (if Ours(log.first, entity) then amount else 0)
      case Deposit => if Ours(log.first, entity) then amount else 0
      case Withdrawal => if Ours(log.first, entity) then -amount else 0
      case OtherEvent => 0
  }

  /** The running sum, clamped after every log. */
  function Delta(logs: seq<Log>, weth: Address, entity: set<Address>): (d: int)
    ensures I128_MIN <= d <= I128_MAX
  {
    if logs == [] then 0
    else Clamp(Delta(logs[..|logs| - 1], weth, entity) + Moved(logs[|logs| - 1], weth, entity))
  }

  // ---------------------------------------------------------------------
  // The unclamped measure
  // ---------------------------------------------------------------------

  function Net(logs: seq<Log>, weth: Address, entity: set<Address>): int {
    if logs == [] then 0
    else Net(logs[..|logs| - 1], weth, entity) + Moved(logs[|logs| - 1], weth, entity)
  }

  /** No prefix of the logs carries the entity out of the signed range. */
  ghost predicate NeverSaturates(logs: seq<Log>, weth: Address, entity: set<Address>) {
    forall k :: 0 <= k <= |logs| ==> I128_MIN <= Net(logs[..k], weth, entity) <= I128_MAX
  }

  lemma {:induction false} DeltaIsNet(logs: seq<Log>, weth: Address, entity: set<Address>)
    requires NeverSaturates(logs, weth, entity)
    ensures Delta(logs, weth, entity) == Net(logs, weth, entity)
  {
    if logs != [] {
      var n := |logs| - 1;
      var init := logs[..n];
      forall k | 0 <= k <= n ensures I128_MIN <= Net(init[..k], weth, entity) <= I128_MAX {
        assert init[..k] == logs[..k];
      }
      DeltaIsNet(init, weth, entity);
      assert logs[..|logs|] == logs;
    }
  }

  /** All the WETH the logs mention; real supply is far below the signed range. */
  function Volume(logs: seq<Log>): nat {
    if logs == [] then 0
    else
      Volume(logs[..|logs| - 1]) + ToI128(logs[|logs| - 1].data)
  }

  /** A volume within the signed range rules saturation out for every entity. */
  lemma SmallVolumeNeverSaturates(logs: seq<Log>, weth: Address, entity: set<Address>)
    requires Volume(logs) <= I128_MAX
    ensures NeverSaturates(logs, weth, entity)
  {
    forall k | 0 <= k <= |logs| ensures I128_MIN <= Net(logs[..k], weth, entity) <= I128_MAX {
      VolumeBoundsNet(logs, k, weth, entity);
    }
  }

  lemma {:induction false} VolumeBoundsNet(logs: seq<Log>, k: nat, weth: Address, entity: set<Address>)
    requires k <= |logs|
    ensures 0 - Volume(logs) as int <= Net(logs[..k], weth, entity) <= Volume(logs)
    decreases |logs|
  {
    if k < |logs| {
      assert logs[..|logs| - 1][..k] == logs[..k];
      VolumeBoundsNet(logs[..|logs| - 1], k, weth, entity);
    } else if logs != [] {
      var n := |logs| - 1;
      assert logs[..k] == logs;
      assert logs[..n][..n] == logs[..n];
      VolumeBoundsNet(logs[..n], n, weth, entity);
    } else {
      assert logs[..k] == [];
    }
  }

  /** The measure is additive on disjoint sets: a transfer between the two moves nothing. */
  lemma {:induction false} NetIsAdditive(logs: seq<Log>, weth: Address, a: set<Address>, b: set<Address>)
    requires a !! b
    ensures Net(logs, weth, a + b) == Net(logs, weth, a) + Net(logs, weth, b)
  {
    if logs != [] {
      NetIsAdditive(logs[..|logs| - 1], weth, a, b);
    }
  }

  /** `weth_delta` is additive on disjoint entities wherever none of the three sums saturates. */
  lemma DeltaIsAdditive(logs: seq<Log>, weth: Address, a: set<Address>, b: set<Address>)
    requires a !! b
    requires NeverSaturates(logs, weth, a) && NeverSaturates(logs, weth, b) && NeverSaturates(logs, weth, a + b)
    ensures Delta(logs, weth, a + b) == Delta(logs, weth, a) + Delta(logs, weth, b)
  {
    DeltaIsNet(logs, weth, a);
    DeltaIsNet(logs, weth, b);
    DeltaIsNet(logs, weth, a + b);
    NetIsAdditive(logs, weth, a, b);
  }

  /** With saturation it is not: the union hits the ceiling that neither part reaches. */
  lemma SaturationBreaksAdditivity()
    ensures var logs := [Log(Some(0), Some(Deposit), Some(1), None, 0x7fff_ffff_ffff_ffff_ffff_ffff_ffff_ffff),
                         Log(Some(0), Some(Deposit), Some(2), None, 0x7fff_ffff_ffff_ffff_ffff_ffff_ffff_ffff),
                         Log(Some(0), Some(Withdrawal), Some(1), None, 0x7fff_ffff_ffff_ffff_ffff_ffff_ffff_ffff)];
            Delta(logs, 0, {1}) == 0 && Delta(logs, 0, {2}) == I128_MAX && Delta(logs, 0, {1, 2}) == 0
  {
    var m: nat := 0x7fff_ffff_ffff_ffff_ffff_ffff_ffff_ffff;
    var l0 := Log(Some(0), Some(Deposit), Some(1), None, m);
    var l1 := Log(Some(0), Some(Deposit), Some(2), None, m);
    var l2 := Log(Some(0), Some(Withdrawal), Some(1), None, m);
    assert [l0][..0] == [] && [l0, l1][..1] == [l0] && [l0, l1, l2][..2] == [l0, l1];
    forall entity: set<Address>
      ensures Delta([l0, l1, l2], 0, entity) ==
        var d0 := if 1 in entity then m else 0;
        var d1 := if 2 in entity then Clamp(d0 + m) else d0;
        if 1 in entity then Clamp(d1 - m) else d1
    {
      assert Delta([l0], 0, entity) == if 1 in entity then m else 0;
      assert Delta([l0, l1], 0, entity) ==
        if 2 in entity then Clamp(Delta([l0], 0, entity) + m) else Delta([l0], 0, entity);
    }
  }

  lemma {:induction false} NetConcatenates(a: seq<Log>, b: seq<Log>, weth: Address, entity: set<Address>)
    ensures Net(a + b, weth, entity) == Net(a, weth, entity) + Net(b, weth, entity)
  {
    if b == [] {
      assert a + b == a;
    } else {
      var n := |b| - 1;
      assert (a + b)[..|a| + n] == a + b[..n];
      NetConcatenates(a, b[..n], weth, entity);
    }
  }

  /** The fold over a candidate's receipts, saturating after every one. */
  function ReceiptsDelta(receipts: seq<seq<Log>>, weth: Address, entity: set<Address>): (d: int)
    ensures I128_MIN <= d <= I128_MAX
  {
    if receipts == [] then 0
    else
      Clamp(ReceiptsDelta(receipts[..|receipts| - 1], weth, entity) + Delta(receipts[|receipts| - 1], weth, entity))
  }

  function AllLogs(receipts: seq<seq<Log>>): seq<Log> {
    if receipts == [] then [] else AllLogs(receipts[..|receipts| - 1]) + receipts[|receipts| - 1]
  }

  /** Several receipts of one candidate add up to the delta of all their logs in order,
      wherever neither a receipt nor the whole saturates. */
  lemma {:induction false} ReceiptsAddUp(receipts: seq<seq<Log>>, weth: Address, entity: set<Address>)
    requires NeverSaturates(AllLogs(receipts), weth, entity)
    requires forall i :: 0 <= i < |receipts| ==> NeverSaturates(receipts[i], weth, entity)
    ensures ReceiptsDelta(receipts, weth, entity) == Delta(AllLogs(receipts), weth, entity)
  {
    if receipts != [] {
      var n := |receipts| - 1;
      var before, last := AllLogs(receipts[..n]), receipts[n];
      forall k | 0 <= k <= |before| ensures I128_MIN <= Net(before[..k], weth, entity) <= I128_MAX {
        assert before[..k] == AllLogs(receipts)[..k];
      }
      ReceiptsAddUp(receipts[..n], weth, entity);
      DeltaIsNet(before, weth, entity);
      DeltaIsNet(last, weth, entity);
      DeltaIsNet(before + last, weth, entity);
      NetConcatenates(before, last, weth, entity);
      hide Net;
      assert (before + last)[..|before + last|] == before + last;
    }
  }

  /** Every WETH log that matters names only addresses of the set. */
  ghost predicate Closed(logs: seq<Log>, weth: Address, entity: set<Address>) {
    forall i :: 0 <= i < |logs| && logs[i].address == Some(weth) && logs[i].topic == Some(Transfer) ==>
      Ours(logs[i].first, entity) && Ours(logs[i].second, entity)
  }

  /** Wrapped less unwrapped by members of the set. */
  function Minted(logs: seq<Log>, weth: Address, entity: set<Address>): int {
    if logs == [] then 0
    else
      var log := logs[|logs| - 1];
      Minted(logs[..|logs| - 1], weth, entity)
      + if log.topic == Some(Transfer) then 0 else Moved(log, weth, entity)
  }

  /** Conservation: over a set closed under the transfers, all transfers cancel and
      only wrapping and unwrapping is left. */
  lemma {:induction false} TransfersCancelInside(logs: seq<Log>, weth: Address, entity: set<Address>)
    requires Closed(logs, weth, entity)
    ensures Net(logs, weth, entity) == Minted(logs, weth, entity)
  {
    if logs != [] {
      TransfersCancelInside(logs[..|logs| - 1], weth, entity);
    }
  }

  // ---------------------------------------------------------------------
  // Against the token's own ledger
  // ---------------------------------------------------------------------

  /** WETH balances relative to the start; an address not listed has not moved. */
  type Ledger = map<Address, int>

  function BalanceOf(l: Ledger, a: Address): int {
    if a in l then l[a] else 0
  }

  function Credit(l: Ledger, a: Option<Address>, amount: int): Ledger {
    if a.None? then l else l[a.value := BalanceOf(l, a.value) + amount]
  }

  /** What the token does when it emits the log. */
  function Apply(l: Ledger, log: Log, weth: Address): Ledger {
    if log.address != Some(weth) || log.topic.None? then l
    else
      var amount: int := log.data;
      match log.topic.value
      case Transfer => Credit(Credit(l, log.first, -amount), log.second, amount)
      case Deposit => Credit(l, log.first, amount)
      case Withdrawal => Credit(l, log.first, -amount)
      case OtherEvent => l
  }

  function ApplyAll(logs: seq<Log>, weth: Address): Ledger {
    if logs == [] then map[]
    else Apply(ApplyAll(logs[..|logs| - 1], weth), logs[|logs| - 1], weth)
  }

  /** No amount the token reports is capped on its way into the delta. */
  ghost predicate Uncapped(logs: seq<Log>, weth: Address) {
    forall i :: 0 <= i < |logs| && logs[i].address == Some(weth) ==> logs[i].data <= I128_MAX
  }

  /** The net movement of one address is its balance change on the token's ledger. */
  lemma {:induction false} NetIsBalanceChange(logs: seq<Log>, weth: Address, a: Address)
    requires Uncapped(logs, weth)
    ensures Net(logs, weth, {a}) == BalanceOf(ApplyAll(logs, weth), a)
  {
    if logs != [] {
      NetIsBalanceChange(logs[..|logs| - 1], weth, a);
    }
  }

  function SumOver(l: Ledger, members: seq<Address>): int {
    if members == [] then 0 else BalanceOf(l, members[0]) + SumOver(l, members[1..])
  }

  /** The net movement of an entity is the sum of its addresses' balance changes. */
  lemma {:induction false} NetIsSumOfBalances(logs: seq<Log>, weth: Address, members: seq<Address>)
    requires Uncapped(logs, weth) && forall i, j :: 0 <= i < j < |members| ==> members[i] != members[j]
    ensures Net(logs, weth, Members(members)) == SumOver(ApplyAll(logs, weth), members)
  {
    if members == [] {
      assert Members(members) == {};
      NoEntityNoDelta(logs, weth);
    } else {
      var rest := Members(members[1..]);
      assert members == [members[0]] + members[1..];
      assert Members(members) == {members[0]} + rest;
      NetIsAdditive(logs, weth, {members[0]}, rest);
      NetIsBalanceChange(logs, weth, members[0]);
      NetIsSumOfBalances(logs, weth, members[1..]);
    }
  }

  function Members(s: seq<Address>): set<Address> {
    set x | x in s
  }

  lemma {:induction false} NoEntityNoDelta(logs: seq<Log>, weth: Address)
    ensures Net(logs, weth, {}) == 0
  {
    if logs != [] {
      NoEntityNoDelta(logs[..|logs| - 1], weth);
    }
  }
}
