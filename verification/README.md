# Verified model of the JerseyMikes bot core

A Dafny 4.11 model of the parts of the bot whose mistakes cost money or trust:
pool pricing and trade sizing, the Flashblocks feed, nonce reservations and
bundle construction, alert lifecycle, and WETH attribution. `dafny verify
dfyconfig.toml` checks the whole project.

| file | source it models |
|---|---|
| `Arithmetic.dfy`, `Reals.dfy`, `Options.dfy` | products, floor division and powers; optional results |
| `Ideal.dfy`, `NearOptimum.dfy` | pricing without rounding; what the search returns on a curve that is concave but for rounding |
| `Pricing.dfy` | the exact-in and exact-out quotes of `dex.rs` |
| `Pools.dfy` | `V2Pool`, `AeroPool`, and runs of swaps over them |
| `TernarySearch.dfy` | `ternary_search_max` |
| `Sandwich.dfy`, `SandwichCurve.dfy`, `SandwichRounding.dfy` | the sandwich profit closure, its unrounded curve, and the distance between them |
| `Sizing.dfy` | `optimal_sandwich_in`, `optimal_two_leg_arb` |
| `Routes.dfy` | `evaluate` and `optimal_cycle_in` of `dex/graph.rs`, cycles of any length |
| `Words.dfy` | the same pricing on wrapping 256-bit words |
| `Flashblocks.dfy`, `FlashblockRuns.dfy` | the parser of `flashblocks.rs`, and whole runs of it |
| `EmittedStates.dfy` | what one frame brings out of the parser, and which emitted states are current |
| `Tracker.dfy`, `Redelivery.dfy` | the tracker and pin recheck, and parser and tracker together |
| `Inventory.dfy`, `Bundle.dfy`, `NonceLane.dfy` | nonce allocator, bundle builder, and the two together |
| `Executor.dfy` | phase and settlement rules of `MevExecutor.sol`, against the legs `bundle.rs` encodes |
| `Alerts.dfy`, `AlertLifecycle.dfy` | rule evaluation; active set and history |
| `Attribution.dfy` | `weth_delta` |

Stateful parts are classes and methods with loops (`FlashblockParser`,
`PreconfirmedTracker`, `Inventory`, `AlertBook`, the searches and optimisers,
`BuildBundle`, `WethDelta`). Each is proved equal to a function of its old
state, and the run theorems are about those functions.

## Results that differ from what the repository says

Paths in this list are relative to `bot/crates/mev-bot/src/`.

* The search comment speaks of about 120 iterations at worst (`dex.rs:437-439`).
  That is right exactly up to a range between 2^70 and 2^71 (`PassesWithinIff`,
  `ReachOf120`). Over 112-bit reserves the worst case is 191, so the guard of 256
  never stops the loop there (`ReservesEndWithin191`).
* The same comment, and `dex/graph.rs:312-313`, take the profit curve to be unimodal.
  Floors can leave two peaks (`TwoPeaks`), and the search can then decline a cycle or a
  sandwich that has a profitable size (`ProfitableCycleDeclined`,
  `ProfitableRouteDeclined`, `ProfitableSandwichDeclined`). It never misses more than its
  rounding: no size beats the returned one by more than 383 roundings of one evaluation
  over 112-bit reserves, and where one earns more than that something is returned
  (`SearchIsNearlyOptimal`, `OverReserves`, `FindsWhatIsWorthFinding`).
* A victim with no slippage allowance can still be sandwiched (`dex.rs:1009-1023` states
  the opposite as a rule): where one unit of output is coarse, its own rounding pays
  (`StrictVictimCanBeSandwiched`). Three conditions to check beforehand rule it out; the
  last is exact (`NoOverpaymentNoProfit`, `FirstUnitNoProfit`, `StrictVictimIsSafeIff`).
  It never receives less for it (`StrictVictimLosesNothing`).
* Splitting an order can gain on a V2 pool with an empty input side
  (`SplittingGainsOnlyOnEmptyInputSide` is the exact condition), and on an Aerodrome pool
  exactly for orders whose parts save a unit of floored fee (`AeroSplitPaysIffFeeSaved`).
* "A redelivered frame can never inflate counts" (`flashblocks.rs:20-22`) holds exactly
  for frames of the current block without malformed or deposit entries
  (`InflatesNothingIff`). If two blocks share a state identity, a resend inside the
  window even emits again (`ReusedStateIdEmitsAgain`; `InvisibleIff` is exact).
* A sealed block's window is consumed only until its frame is redelivered
  (`flashblocks.rs:819-820`): the block reopens empty and a second head is graded
  after all (`RedeliveryAfterSealReopensBlock`).
* The pinned state's transactions are a prefix of a descendant's (`types.rs:71-72`)
  exactly where no frame between the two arrived before one up to the pin
  (`PinnedTransactionsAreAPrefix`). The recheck does not look at that, and keeps a pin
  current whose prefix a late frame broke (`LateFrameBreaksThePrefix`).
* A pin rejected because its payload was replaced can become current again. Only
  a block rollover is final (`LostForGoodIffBlockRolledOver`).
* The builder tags a back-leg-only bundle phase 2, and meant the back leg to carry
  flash funding (`bundle.rs:104-106`). The executor refuses the first unless someone left
  a baseline under its tag in the same block, and the second always (`BundleRunsIff`).

## Model

| member | source | states |
|---|---|---|
| Pricing.V2QuoteIsLargestAccepted | bot/crates/mev-bot/src/dex.rs:410-422 | the V2 quote is the largest output that passes the pair's own constant-product check with the fee taken from the input, for every input and every pair of reserves; an empty input side, where the check passes anything, is quoted zero |
| Pricing.AeroQuoteIsLargestAccepted | bot/crates/mev-bot/src/dex.rs:286-305 | the volatile Aerodrome quote is the largest output the constant product of the input left after the floored fee allows, with the same exception |
| Pricing.V2SwapKeepsProduct | bot/crates/mev-bot/src/dex.rs:386-422 | a V2 quote never drains a pool and never shrinks the product of its reserves, empty reserves included |
| Pricing.AeroSwapKeepsProduct | bot/crates/mev-bot/src/dex.rs:263-305 | the same for volatile Aerodrome pools |
| Pricing.V2Monotone | bot/crates/mev-bot/src/dex.rs:410-422 | less input, a deeper input side or a shallower output side never raises the quote, unless an empty input side is filled |
| Pricing.V2AmountInBuysOutput | bot/crates/mev-bot/src/dex.rs:424-435 | paying `v2_amount_in(o)` buys at least `o` exactly when the input reserve is positive and the fee is below 100% |
| Pricing.V2AmountInIsTight | bot/crates/mev-bot/src/dex.rs:424-435 | any input two or more below the quoted one buys less than `o`; one below buys it only if it pays the exact price to the unit |
| Pricing.V2AmountInSentinel | bot/crates/mev-bot/src/dex.rs:424-433 | outside the pool's range the result is the maximum word; there no input buys `o`, except that an output of zero costs nothing |
| Pricing.SplittingNeverGains | bot/crates/mev-bot/src/dex.rs:386-422 | two swaps of x1 and x2 pay at most one swap of x1 + x2, all floors included, if the input reserve is positive |
| Pricing.SplittingGainsOnlyOnEmptyInputSide | bot/crates/mev-bot/src/dex.rs:386-422 | no split of any order gains if and only if the input reserve is positive, the output reserve is at most one, or the fee is 100% |
| Pricing.RoundTripLosesTheFee | bot/crates/mev-bot/src/dex.rs:978-985 | swapping there and back never returns more than was paid, and strictly less whenever there is a fee |
| Pricing.FeeLocationGap | bot/crates/mev-bot/src/dex.rs:276-305 | with equal positive reserves and fee Aerodrome never quotes less than V2, and (aero - v2 - 1) * reserve_in < reserve_out |
| Pricing.SmallAeroTradesAreFree | bot/crates/mev-bot/src/dex.rs:932-949 | the Aerodrome fee is zero exactly while amount times fee stays below 10000 |
| Pools.TradeKeeps | bot/crates/mev-bot/src/dex.rs:263-274 | one `with_swap`, either venue and direction: the product never shrinks, trader and pool together neither gain nor lose (so the saturating subtraction never saturates), and the pool left behind is the one the swap returned |
| Pools.V2SwapIs | bot/crates/mev-bot/src/dex.rs:386-397 | a V2 pool of two distinct tokens refuses exactly the tokens it does not hold; else, from either side, it adds the input there and pays from the other the largest output the product check with fee allows |
| Pools.AeroSwapIs | bot/crates/mev-bot/src/dex.rs:246-274 | a volatile Aerodrome pool does the same under its own check; a swap is refused exactly if the pool is stable, does not hold the token, or that largest output is zero |
| Pools.RunKeeps | bot/crates/mev-bot/src/dex.rs:386-397 | the same over every finite run of swaps, refused swaps included |
| Pools.NoRunGainsForFree | bot/crates/mev-bot/src/dex.rs:386-422 | no run of swaps leaves the trader with no less of both tokens and more of one |
| Pools.NoSplitGains | bot/crates/mev-bot/src/dex.rs:386-422 | however many parts an order is cut into, they never fetch more than the whole |
| Pools.PartsAreARun | bot/crates/mev-bot/src/dex.rs:386-397 | what an order sold in parts fetches is what that run of `with_swap` steps pays the trader |
| Pools.AeroSplitPaysIffFeeSaved | bot/crates/mev-bot/src/dex.rs:276-305 | two parts of given sizes beat the whole order on some Aerodrome pool of a given fee exactly if flooring their fees saves one unit of input |
| Pools.AeroSplitGainMeasured | bot/crates/mev-bot/src/dex.rs:276-305 | and then by less than the price of that unit at the reserves, and one output unit more |
| Pools.AeroPartsGainBounded | bot/crates/mev-bot/src/dex.rs:263-305 | any number of parts save at most one unit of input for every part but one, and gain only if they save some, less than its price at the reserves and one output unit more |
| Pools.AeroPartsAreARun | bot/crates/mev-bot/src/dex.rs:263-274 | what an Aerodrome order sold in parts fetches is what that run of `with_swap` steps pays, refused parts included |
| TernarySearch.TernarySearchMax | bot/crates/mev-bot/src/dex.rs:440-471 | the loops return the first maximum of the interval left by exactly the needed passes, within the given range, and count their evaluations |
| TernarySearch.SearchFindsPeak | bot/crates/mev-bot/src/dex.rs:437-471 | for every f strictly increasing up to some point and non-increasing after it, the search returns that point, a true argmax |
| TernarySearch.SearchIsDeterministic | bot/crates/mev-bot/src/dex.rs:440-471 | for every f the contract of the search admits one result only |
| TernarySearch.PassShrinks | bot/crates/mev-bot/src/dex.rs:449-456 | each pass satisfies 3*(span' - 2) <= 2*(span - 2), and 3*(span' + 3) >= 2*(span + 3) |
| TernarySearch.PassKeepsExactly | bot/crates/mev-bot/src/dex.rs:449-457 | with probes a third of the span, rounded down, from either end: a climb keeps exactly the points right of the left probe, anything else those up to the right probe |
| TernarySearch.SearchFindsNearPeak | bot/crates/mev-bot/src/dex.rs:437-471 | if f rises over every stretch of w points before some point and never rises over one after it, a search its guard does not cut short ends within 3w of that point |
| TernarySearch.PassesWithinIff | bot/crates/mev-bot/src/dex.rs:447-457 | every search of a range ends within k passes, k below the guard, if and only if the range is at most Reach(k), where Reach(0) = 2 and each pass adds half |
| TernarySearch.ReachGrowth | bot/crates/mev-bot/src/dex.rs:449-456 | n more passes multiply the reach by (3/2)^n, to within one unit of the start |
| TernarySearch.ReachOf120 | bot/crates/mev-bot/src/dex.rs:437-439 | 120 passes suffice exactly up to a range between 2^70 and 2^71 |
| TernarySearch.ReservesEndWithin191 | bot/crates/mev-bot/src/dex.rs:447-470 | over ranges below 2^112 the loop ends within 191 passes, the guard never binds, and at most three points are left to scan |
| NearOptimum.SearchIsNearlyOptimal | bot/crates/mev-bot/src/dex.rs:437-471 | for every f that stays within e below some curve concave up to its last positive value, no point of a range the search can narrow in k passes beats the returned one by more than (2k+1)e |
| NearOptimum.OverReserves | bot/crates/mev-bot/src/dex.rs:437-471 | over 112-bit reserves that is 383 times e |
| NearOptimum.FindsWhatIsWorthFinding | bot/crates/mev-bot/src/dex.rs:437-471 | if any point in reach is worth more than that, the returned one is worth something |
| Sizing.OptimalSandwichIn | bot/crates/mev-bot/src/dex.rs:480-541 | refuses exactly when a reserve or the victim is zero, the token is foreign, or the searched size earns nothing; otherwise returns that size, within the cap and the reserve, as a sound sizing; no admissible size earns more but for the rounding of the search, and one that earns more than that rounding is never declined; refuses wherever one of the three conditions on the victim holds |
| Sandwich.PositiveProfit | bot/crates/mev-bot/src/dex.rs:496-541 | wherever the profit curve is positive: min_out <= victim_out <= unsandwiched output, back_out - amount_in = profit < victim_in, and (r_in + victim_in - profit) * (r_out - victim_out) >= r_in * r_out |
| Sandwich.SizingReplays | bot/crates/mev-bot/src/dex.rs:386-397 | a sound sizing replayed as three `with_swap` steps yields exactly its amounts and leaves the stated reserves |
| Sandwich.ProfitIsReplayed | bot/crates/mev-bot/src/dex.rs:496-521 | for every size, profitable or not, the profit is what three `with_swap` steps return beyond it, if the front leg buys something and the victim gets something within its limit, and zero otherwise |
| Sandwich.NoOverpaymentNoProfit | bot/crates/mev-bot/src/dex.rs:509-516 | a victim that overpays by less than one unit at its limit can be taken for nothing at any size |
| Sandwich.FirstUnitNoProfit | bot/crates/mev-bot/src/dex.rs:509-516 | nor can one that misses its limit behind the smallest front leg that buys a unit |
| Sandwich.CheaperFrontEarnsMore | bot/crates/mev-bot/src/dex.rs:496-521 | of two sizes with the same front output the smaller earns at least as much |
| Sandwich.TrialsAreEnough | bot/crates/mev-bot/src/dex.rs:424-435 | if any size earns, so does `v2_amount_in` of its front output or one unit less |
| Sandwich.StrictVictimLosesNothing | bot/crates/mev-bot/src/dex.rs:509-516 | a victim that demands its unsandwiched output receives exactly that |
| Sandwich.StrictVictimLeavesDust | bot/crates/mev-bot/src/dex.rs:1009-1023 | in front of such a victim any profitable front leg buys less than 1 + r_in / (victim_in * (1 - fee)) units |
| Sandwich.StrictVictimIsSafeIff | bot/crates/mev-bot/src/dex.rs:1009-1023 | such a victim is safe at every size up to the cap if and only if the trials for that many units all earn nothing |
| Sandwich.StrictVictimCanBeSandwiched | bot/crates/mev-bot/src/dex.rs:1009-1023 | and on a concrete coarse pool the search returns a profitable size |
| SandwichCurve.SandwichIsConcave | bot/crates/mev-bot/src/dex.rs:496-521 | without rounding, the sandwich profit is concave over the sizes up to the input reserve at which it is positive, whatever the fee and the victim |
| SandwichRounding.BackNearCurve | bot/crates/mev-bot/src/dex.rs:496-521 | the floors of the three legs only cost, at most one unit and twice the price of an output unit at twice the reserve plus the victim's input |
| SandwichRounding.SandwichIsNearlyOptimal | bot/crates/mev-bot/src/dex.rs:523-526 | with no assumption on the curve, no size up to the cap earns more than the searched one but for the rounding of the search |
| Sizing.OptimalTwoLegArb | bot/crates/mev-bot/src/dex.rs:559-591 | returns (x, p) only with x within cap and reserve, p exactly what two `with_swap` steps return beyond x, and a price gap above both fees; declines exactly when the snapshots form no cycle or the searched size earns nothing; no admissible size returns more over the two steps but for the rounding of the search, and a cycle with one that earns more than that rounding is never declined |
| Sizing.CycleOfIs | bot/crates/mev-bot/src/dex.rs:565-573 | two snapshots form a cycle around a token exactly if they trade the same two tokens, in either order, the token is one of them and no reserve is zero; which reserve then plays which part |
| Sizing.RelabellingIsInvisible | bot/crates/mev-bot/src/dex.rs:565-591 | exchanging the two tokens and reserves of either snapshot changes neither the cycle nor any replay of it |
| Sizing.CycleIsNearlyOptimal | bot/crates/mev-bot/src/dex.rs:575-584 | that rounding is one unit and the marginal price of a middle unit, for each comparison of the search |
| Sizing.TwoPeaks | bot/crates/mev-bot/src/dex.rs:437-439 | by example: the floors can leave a profit curve with two peaks |
| Sizing.ProfitableCycleDeclined | bot/crates/mev-bot/src/dex.rs:559-591 | by example: the search finds nothing on two pools between which a size within the cap earns a unit |
| Sizing.ProfitableRouteDeclined | bot/crates/mev-bot/src/dex/graph.rs:309-341 | nor does it on the same cycle as a route |
| Sizing.ProfitableSandwichDeclined | bot/crates/mev-bot/src/dex.rs:480-541 | nor on a small pool with a victim, where a size within the cap earns a unit |
| Sizing.ProfitNeedsPriceGap | bot/crates/mev-bot/src/dex.rs:575-582 | no size is profitable unless ar_out*br_out*(10000-fa)*(10000-fb) > ar_in*br_in*10^8 |
| Sizing.SamePriceGap | bot/crates/mev-bot/src/dex/graph.rs:328-340 | and that gap is the one of the same cycle read as a route |
| Sizing.CycleReplays | bot/crates/mev-bot/src/dex.rs:386-397 | at every size the profit closure is what `with_swap` on the first pool followed by the second returns beyond it, and zero if that is less |
| Routes.Evaluate | bot/crates/mev-bot/src/dex/graph.rs:290-307 | the loop chains the hops, stops at a zero before looking further, and fails on the first unresolved hop it reaches |
| Routes.OutputChains | bot/crates/mev-bot/src/dex/graph.rs:290-307 | a route is its parts one after the other: the output of the first part goes into the rest, a zero ends it, an unresolved hop reached fails it |
| Routes.OutputOfOne | bot/crates/mev-bot/src/dex/graph.rs:298-301 | one hop is one quote, and no hop returns the input |
| Routes.ProfitIs | bot/crates/mev-bot/src/dex/graph.rs:328-332 | a size earns exactly what a resolved route returns beyond it |
| Routes.OptimalCycleIn | bot/crates/mev-bot/src/dex/graph.rs:314-341 | returns (x, p) only with x within cap and first reserve, p exactly the route's output less x, and a price gap; declines exactly when the cap is zero or the searched size earns nothing; no admissible size earns more but for the rounding of the search, and a route with one that earns more than that rounding is never declined |
| Routes.OutputNearUnrounded | bot/crates/mev-bot/src/dex/graph.rs:290-307 | over any number of hops the floors only cost, at most one unit a hop at the marginal rates of the hops after it |
| Routes.RouteIsNearlyOptimal | bot/crates/mev-bot/src/dex/graph.rs:328-340 | with no assumption on the curve, no size earns more than the searched one but for the rounding of the search |
| Routes.DeadRouteEarnsNothing | bot/crates/mev-bot/src/dex/graph.rs:290-307 | a route with an unresolved hop or an empty input side earns nothing at any size |
| Routes.OutputBelowMarginalPrices | bot/crates/mev-bot/src/dex/graph.rs:290-307 | over any number of hops a positive output stays strictly below the product of the marginal prices after fees |
| Routes.RouteProfitNeedsPriceGap | bot/crates/mev-bot/src/dex/graph.rs:328-340 | a cycle of any length is unprofitable at every size unless the marginal prices after fees multiply to more than one |
| Words.QuoteFits | bot/crates/mev-bot/src/dex.rs:410-422 | over 114-bit operands no intermediate of a quote reaches 2^256, and wrapping changes nothing |
| Words.WrapIsResidue | bot/crates/mev-bot/src/dex.rs:410-422 | a word has 256 bits, and what every operation keeps is its exact result less a multiple of 2^256 |
| Words.SandwichFits | bot/crates/mev-bot/src/dex.rs:496-521 | with 112-bit reserves and victim input the wrapping profit closure equals the unbounded one at every size searched |
| Words.CycleFits | bot/crates/mev-bot/src/dex.rs:575-582 | the same for the arbitrage closure |
| Words.RouteFits | bot/crates/mev-bot/src/dex/graph.rs:290-307 | over 112-bit reserves no hop of a route of any length wraps |
| Words.AeroQuoteFits | bot/crates/mev-bot/src/dex.rs:286-305 | over 114-bit operands the wrapping Aerodrome quote is the unbounded one |
| Words.AmountInFits | bot/crates/mev-bot/src/dex.rs:424-435 | over 114-bit reserves so is the exact-out quote, for any output asked for |
| Flashblocks.FlashblockParser.Parse | bot/crates/mev-bot/src/flashblocks.rs:191-406 | one call leaves exactly the state, result and counters of the step function |
| Flashblocks.FlashblockParser.TrackSequence | bot/crates/mev-bot/src/flashblocks.rs:256-284 | outcome and gap counter of the sequence tracking |
| Flashblocks.FlashblockParser.AbsorbEntries | bot/crates/mev-bot/src/flashblocks.rs:308-369 | the transaction loop emits, counts and remembers entry by entry |
| Flashblocks.FlashblockParser.Advance | bot/crates/mev-bot/src/flashblocks.rs:374-393 | when and how the last frame, payload and parent hash move |
| Flashblocks.FlashblockParser.Evict | bot/crates/mev-bot/src/flashblocks.rs:408-416 | the window loses exactly its front below the given block |
| EmittedStates.AcceptedIff | bot/crates/mev-bot/src/flashblocks.rs:210-246 | a frame is accepted exactly if it has an index, a diff, a state identity and names one block, in its metadata or its base; which reason is given otherwise |
| EmittedStates.RefusedFrameOnlyCounts | bot/crates/mev-bot/src/flashblocks.rs:195-206 | a refused frame emits nothing and changes nothing but the two frame counters |
| EmittedStates.StateIsTheFrames | bot/crates/mev-bot/src/flashblocks.rs:298-307 | an accepted frame's state carries its own block, index, state identity, payload and link, its feed and its arrival time |
| EmittedStates.ParentHashIs | bot/crates/mev-bot/src/flashblocks.rs:252-255 | over every run its parent hash is the one its own base names, else the one named last by an accepted frame that was no redelivery, else none |
| EmittedStates.EmitsTheUnseen | bot/crates/mev-bot/src/flashblocks.rs:308-369 | it emits exactly the hashes not seen under its state, in order and once each; result and counters agree on the rest |
| EmittedStates.WindowSlides | bot/crates/mev-bot/src/flashblocks.rs:354-416 | the new keys go to the end of the window under the frame's block, and exactly the front more than 32 blocks below it goes |
| EmittedStates.OutcomeIs | bot/crates/mev-bot/src/flashblocks.rs:256-284 | redelivered exactly if it repeats the last position under a state the window holds for its block; a new block exactly if no frame was accepted yet or the last was of another block |
| EmittedStates.GapIsCounted | bot/crates/mev-bot/src/flashblocks.rs:257-276 | the counter stays exactly for an index 0 at the start, a resend within the block, or a healthy successor with a true link |
| EmittedStates.MovesForward | bot/crates/mev-bot/src/flashblocks.rs:374-390 | the last position and payload follow exactly the accepted frames beyond it |
| EmittedStates.PositionsAgree | bot/crates/mev-bot/src/flashblocks.rs:526-538 | over every run of frames and seals, parser and tracker agree on the newest position |
| EmittedStates.EmittedStateIsCurrentIff | bot/crates/mev-bot/src/flashblocks.rs:565-575 | after every run through both objects, the state emitted for an accepted frame is current if and only if that frame has the block and the payload of the frame that first reached the largest position |
| FlashblockRuns.AbsorbPartitions | bot/crates/mev-bot/src/flashblocks.rs:308-369 | each entry is counted once as emitted, duplicate, malformed or deposit, the last two by their kind; the emitted hashes are exactly the unseen ones, once each, in frame order |
| FlashblockRuns.StepKeepsWindow | bot/crates/mev-bot/src/flashblocks.rs:339-371 | one parse keeps `seen` equal to the keys of `seen_order` and forgets only entries more than 32 blocks below the frame |
| FlashblockRuns.WindowAlwaysExact | bot/crates/mev-bot/src/flashblocks.rs:152-154 | after every run `seen` is exactly the duplicate-free keys of `seen_order` |
| FlashblockRuns.ReEmittedOnlyBeyondWindow | bot/crates/mev-bot/src/flashblocks.rs:339-416 | in every run a pair emitted under block b is emitted again only after an accepted frame above b + 32 in between |
| FlashblockRuns.GapMeansDiscontinuity | bot/crates/mev-bot/src/flashblocks.rs:441-476 | a gap is raised if and only if the frame is neither a resend within the current block nor the healthy successor with a true link |
| FlashblockRuns.GaplessIffChained | bot/crates/mev-bot/src/flashblocks.rs:256-287 | over every run `state_gaps` is zero if and only if the accepted positions chain from an index 0, each link naming the previous one, with no frame from another block in between |
| FlashblockRuns.ChainSkipsNothing | bot/crates/mev-bot/src/flashblocks.rs:24-27 | in a chained run every earlier index of a held block and index 0 of every block since the first was held too |
| FlashblockRuns.HeldAlwaysOk | bot/crates/mev-bot/src/flashblocks.rs:374-389 | over every run `last_frame` only moves forward and `blocks_seen` counts the distinct blocks it held |
| Tracker.PreconfirmedTracker.ObserveFrame | bot/crates/mev-bot/src/flashblocks.rs:526-557 | one observation leaves exactly the state of the step function, trimmed oldest first |
| Tracker.PreconfirmedTracker.ObserveSealed | bot/crates/mev-bot/src/flashblocks.rs:585-602 | the verdict compares the frames' concatenated hashes with the canonical sequence, the lead is measured from the newest frame, and the block is let go |
| Tracker.ObserveRecords | bot/crates/mev-bot/src/flashblocks.rs:539-550 | an observation appends to its block's list the frame with its identity, time and hashes, unless its index and state are held, and alters no other block kept |
| Tracker.LatestIsLargest | bot/crates/mev-bot/src/flashblocks.rs:526-538 | over every run the newest state is at the largest position ever observed |
| Tracker.LatestWasObserved | bot/crates/mev-bot/src/flashblocks.rs:536-538 | and is one of the states observed, unchanged |
| Tracker.SealForgetsOne | bot/crates/mev-bot/src/flashblocks.rs:591-592 | sealing forgets that block and nothing else |
| Tracker.NewestIsLatest | bot/crates/mev-bot/src/flashblocks.rs:594-598 | the lead starts from the largest observation time of the block |
| Tracker.CumulativeConcatenates | bot/crates/mev-bot/src/flashblocks.rs:595-596 | the hashes of a list of frames are those of its parts, in order |
| Tracker.TrimForgetsOldest | bot/crates/mev-bot/src/flashblocks.rs:551-556 | trimming keeps at most 48 blocks, unchanged, and forgets only older ones |
| Tracker.RunKeepsTracker | bot/crates/mev-bot/src/flashblocks.rs:526-557 | over every run at most 48 blocks are kept, none beyond the newest state, which never moves back |
| Tracker.LostForGoodIffBlockRolledOver | bot/crates/mev-bot/src/flashblocks.rs:565-575 | a pin is rejected under every continuation if and only if the newest state is of a later block |
| Tracker.CheckPinIs | bot/crates/mev-bot/src/flashblocks.rs:631-648 | a candidate passes if and only if it has no pin, or the clock is below both created + ttl and the 64-bit maximum (if it has a ttl) and the newest state equals the pin or has its feed, block and payload at an index at or above it; a passed deadline is the reason given first |
| Tracker.CheckPinStaysRejected | bot/crates/mev-bot/src/flashblocks.rs:631-648 | once any frame of a later block was observed, every later recheck of the pinned candidate rejects |
| Tracker.TtlIsPermanent | bot/crates/mev-bot/src/flashblocks.rs:639-643 | an expired TTL rejects at every later time, whatever the feed does |
| Tracker.PinnedTransactionsAreAPrefix | bot/crates/mev-bot/src/types.rs:70-78 | between two moments at which a pin is current, its block unsealed, the block's list only grows at the end; its part up to the pin is unchanged exactly if no frame at or below the pin came late, and is a prefix of the part up to a later index exactly if no frame between the two overtook one of it |
| Tracker.LateFrameBreaksThePrefix | bot/crates/mev-bot/src/types.rs:70-78 | a run whose late frame puts a transaction into the middle of what the pin promised |
| Redelivery.RedeliveryChangesNothing | bot/crates/mev-bot/src/flashblocks.rs:340-348 | a remembered frame delivered again emits nothing and leaves the tracker as it was; its malformed and deposit entries are counted again, and a gap exactly if a later block has begun |
| Redelivery.InflatesNothingIff | bot/crates/mev-bot/src/flashblocks.rs:20-22 | so it counts nothing but itself and duplicates if and only if it has no such entry and its block is the current one |
| Redelivery.InvisibleIff | bot/crates/mev-bot/src/flashblocks.rs:340-348 | any accepted frame emits nothing and leaves the tracker alone if and only if all its hashes were seen under its state, it is not newer, and the tracker holds it or is full of newer blocks |
| Redelivery.RedeliveryIsInvisible | bot/crates/mev-bot/src/flashblocks.rs:18-22 | over every run: a frame accepted once and redelivered while its block stayed tracked and inside the window emits nothing and leaves the tracker, hence every later verdict, unchanged |
| Redelivery.ObserveIsInert | bot/crates/mev-bot/src/flashblocks.rs:526-557 | exactly when an observation changes nothing at all |
| Redelivery.OpensBlockIff | bot/crates/mev-bot/src/flashblocks.rs:551-556 | a frame for an untracked block opens it, with what it emits, if and only if the tracker has room or holds an older block |
| Redelivery.RedeliveryAfterSealReopensBlock | bot/crates/mev-bot/src/flashblocks.rs:592-602 | any block sealed while it is tracked comes back with no transactions when its frame is delivered again |
| Redelivery.FirstFrameReopens | bot/crates/mev-bot/src/flashblocks.rs:819-820 | for instance the first frame any fresh parser and tracker accept |
| Redelivery.ReusedStateIdEmitsAgain | bot/crates/mev-bot/src/flashblocks.rs:339-348 | two blocks sharing a state identity make a resend inside the window emit again, by example |
| Inventory.Inventory.ReserveNonces | bot/crates/mev-bot/src/inventory.rs:63-65 | returns the old counter and adds the count, wrapping at 64 bits |
| Inventory.Inventory.ReleaseNonces | bot/crates/mev-bot/src/inventory.rs:70-79 | succeeds exactly when the counter is the saturating end of the reservation, and then resets it to the start |
| Inventory.Inventory.AdvanceChainNonce | bot/crates/mev-bot/src/inventory.rs:59-61 | the counter becomes the larger of itself and the chain nonce |
| Inventory.Inventory.BlockBroadcastUntil | bot/crates/mev-bot/src/inventory.rs:81-83 | the blocked height becomes the larger of itself and the new one, and the new one is recorded |
| Inventory.Inventory.BroadcastAvailable | bot/crates/mev-bot/src/inventory.rs:85-87 | open at a head exactly if it lies above zero and above every block recorded |
| Inventory.OpenAboveEveryBlock | bot/crates/mev-bot/src/inventory.rs:81-87 | after any run of blocks, broadcasting is open at a head exactly if it lies above every one of them |
| Inventory.Perform | bot/crates/mev-bot/src/inventory.rs:59-79 | each action of the transition system is the method of that name: the same counter, and the start handed out is the one kept and released |
| Inventory.EveryInterleavingKeepsLane | bot/crates/mev-bot/src/inventory.rs:59-79 | an interleaving of reserve, release and chain advance keeps unreleased reservations disjoint and below the counter throughout if and only if no reservation in it wraps the counter |
| Inventory.ReleaseFromTip | bot/crates/mev-bot/src/inventory.rs:67-79 | a non-empty reservation is released exactly from the tip, and then nothing else is held at or above its start |
| Inventory.WithdrawalReleasesAllIff | bot/crates/mev-bot/src/engine.rs:1278-1289 | in any state, releasing given reservations newest first frees all of them if and only if they reach down from the counter without a hole; then the counter is back at the oldest one's start |
| Inventory.NeverBehindChainIff | bot/crates/mev-bot/src/inventory.rs:59-79 | over every run the counter stays at or above the highest chain nonce seen if and only if no successful release starts below what the chain had reported by then, and no reservation wraps to below it |
| Inventory.WrappedCounterRepeats | bot/crates/mev-bot/src/inventory.rs:63-65 | a counter that wraps hands out a nonce that is still held, by example |
| Bundle.Legs | bot/crates/mev-bot/src/inventory.rs:103-112 | counts our own legs |
| Bundle.BuildBundle | bot/crates/mev-bot/src/bundle.rs:174-232 | pushes front leg, victims and back leg, threading the nonce |
| Bundle.BundleShape | bot/crates/mev-bot/src/bundle.rs:206-221 | a bundle signs exactly one consecutive nonce per leg from its start nonce, carries every victim once, in order and uninterrupted between the legs, and marks nothing as allowed to revert |
| Bundle.LegsCarryTheOpportunity | bot/crates/mev-bot/src/bundle.rs:73-124 | the call lists of our legs are the front calls, if any, then the back calls, if any; every leg carries the tag, token, deadline and fee cap; only the last asks for the profit, pays the bribe and borrows, and it borrows exactly the tokens and amounts named, if any are |
| NonceLane.SignsItsReservation | bot/crates/mev-bot/src/bundle.rs:181-221 | a bundle built from a reservation of one nonce per leg signs exactly those nonces |
| NonceLane.NoNonceSignedTwice | bot/crates/mev-bot/src/inventory.rs:63-79 | after any interleaving no two outstanding bundles sign the same nonce |
| Executor.BundleRunsIff | bot/crates/mev-bot/src/bundle.rs:79-123 | from any stored baselines, a built bundle passes the executor if and only if the block is within the limits, the retained profit covers the minimum, and the phases agree: two legs without flash funding under a free tag, a back leg alone on a leftover of its own block and token |
| Executor.RunsWithinItsGuard | contracts/src/MevExecutor.sol:229-275 | any call that runs meets its guard: an opening one asks for nothing and records where it began under a free tag; any other ends with what its calls left less the floored share, which covers the profit asked for over its entry or over the baseline of its tag, token and block, which it consumes |
| Executor.BundleKeepsItsProfit | contracts/src/MevExecutor.sol:229-259 | a bundle that runs ends with what its last leg left less the builder's floored share, at least the required profit over its opening balance, unless none is required; other tags keep their baselines and a bundle with a back leg leaves none |
| Executor.BribeIsExactFloor | contracts/src/MevExecutor.sol:457-461 | the overflow-safe split of the builder's share is the exact floor and never exceeds the profit |
| Alerts.EvaluateSignals | bot/crates/mev-bot/src/alerts.rs:78-154 | names exactly the rules whose conditions hold, in their order, with their severity and wording, each at most once, and the per-strategy one once for every collapsed strategy, in order |
| Alerts.NamedWhen | bot/crates/mev-bot/src/alerts.rs:80-127 | when each rule is named, in figures: half the drawdown limit, a silence of more than the configured seconds |
| Alerts.ReportedAs | bot/crates/mev-bot/src/alerts.rs:80-151 | which rules are critical and which informative, and what each message tells, stalls in whole seconds |
| Alerts.CollapsesSay | bot/crates/mev-bot/src/alerts.rs:128-142 | a strategy is reported exactly if it has enough candidates and 100 * submittable < min_pct * candidates |
| Alerts.CollapsesConcatenate | bot/crates/mev-bot/src/alerts.rs:128-142 | strategy by strategy, in order |
| AlertLifecycle.AlertBook.Evaluate | bot/crates/mev-bot/src/alerts.rs:200-255 | one pass leaves exactly the active set, events and history of the step functions |
| AlertLifecycle.LifecycleAlternates | bot/crates/mev-bot/src/alerts.rs:200-242 | over every run each rule's events strictly alternate, fired first; the active set has one entry per rule; a rule is active exactly if its last event was fired |
| AlertLifecycle.ActiveIsLatest | bot/crates/mev-bot/src/alerts.rs:223-229 | after a pass the active rules are exactly those its conditions name |
| AlertLifecycle.FiredAreFirst | bot/crates/mev-bot/src/alerts.rs:207-217 | fired events are for rules not active, with severity and wording of the first condition naming them and the time of the pass, in the order of those conditions |
| AlertLifecycle.EventsSay | bot/crates/mev-bot/src/alerts.rs:207-241 | every event of a pass has its time; a resolved one has the severity and wording of the alert that was active and is named no more |
| AlertLifecycle.FiredComeFirst | bot/crates/mev-bot/src/alerts.rs:207-241 | fired events come before resolved ones |
| AlertLifecycle.FireAppends | bot/crates/mev-bot/src/alerts.rs:216-221 | newly active alerts stand behind the others, with the latest wording of the pass |
| AlertLifecycle.ResolvesInOrder | bot/crates/mev-bot/src/alerts.rs:223-241 | resolving treats the active set alert by alert, in order |
| AlertLifecycle.ResolvesOne | bot/crates/mev-bot/src/alerts.rs:223-241 | an alert stays as it is if a condition names its rule, and otherwise leaves with one event |
| AlertLifecycle.OnlyTheWordingChanges | bot/crates/mev-bot/src/alerts.rs:218-221 | an alert that stays active keeps its severity and firing time and takes the latest wording |
| AlertLifecycle.HistoryIsTheTail | bot/crates/mev-bot/src/alerts.rs:243-251 | the history is exactly the last 200 events ever emitted |
| Attribution.WethDelta | bot/crates/mev-bot/src/attribution.rs:635-680 | the loop returns the clamped running sum of what each log moves into the entity |
| Attribution.DeltaIsNet | bot/crates/mev-bot/src/attribution.rs:635-680 | while no prefix leaves the signed range the result is the unclamped net movement |
| Attribution.SmallVolumeNeverSaturates | bot/crates/mev-bot/src/attribution.rs:649-650 | a log volume within the signed range rules saturation out for every entity |
| Attribution.DeltaIsAdditive | bot/crates/mev-bot/src/attribution.rs:635-680 | for disjoint entities and no saturation the delta of the union is the sum of the deltas |
| Attribution.SaturationBreaksAdditivity | bot/crates/mev-bot/src/attribution.rs:658-660 | with saturation it is not, by example |
| Attribution.TransfersCancelInside | bot/crates/mev-bot/src/attribution.rs:651-661 | over a set closed under the transfers only wrapping and unwrapping is left |
| Attribution.ReceiptsAddUp | bot/crates/mev-bot/src/attribution.rs:354-356 | the saturating fold over several receipts is the delta of all their logs, wherever neither a receipt nor the whole saturates |
| Attribution.NetIsBalanceChange | bot/crates/mev-bot/src/attribution.rs:651-677 | where no amount exceeds the signed range, the net movement of one address is its balance change on a ledger that applies the transfers, wraps and unwraps |
| Attribution.NetIsSumOfBalances | bot/crates/mev-bot/src/attribution.rs:626-628 | the net movement of an entity is the sum of its addresses' balance changes |

## Left out

- Machine widths: prices are unbounded naturals, and `Words` shows where that equals 256-bit arithmetic. The search is not modelled at arguments near 2^256, where `lo + 2` or `x += 1` wraps. Block numbers, frame indices and counters are unbounded too.
- Fees above 100% (`10_000 - fee_bps` underflows) and pools whose two tokens are equal (the lemmas on single swaps and replays take them distinct).
- Which profit curves keep a single peak after flooring, and which profits below its rounding the search finds: only the bound is proved.
- StrictVictimIsSafeIff: its condition is a finite number of trial sizes, about 1 + r_in / (victim_in * (1 - fee)); no closed form is given. Nor is the least reserve of a pool on which a given Aerodrome split pays.
- SearchIsNearlyOptimal: says nothing about ranges beyond Reach(255), about 2^150, where the guard may stop the search.
- NoNonceSignedTwice: assumes no reservation wraps the 64-bit counter; `EveryInterleavingKeepsLane` says that these are exactly the runs that keep the lane, and `WrappedCounterRepeats` shows one that does not.
- NetIsBalanceChange: assumes amounts within the signed range, as does NetIsSumOfBalances, since `to_i128` caps larger ones.
- `set_nonce` and balances.
- RedeliveryIsInvisible: assumes a state identity is used by one block, as the feed documents; `ReusedStateIdEmitsAgain` shows what happens otherwise, and `InvisibleIff` decides every single case.
- JSON, hex and RLP decoding, clocks and hashing: frames arrive decoded, and times and hashes are inputs. The parser's optional counters are always present, and the `last_*` gauges are not kept.
- Signing, gas and fee fields, ABI encoding and relay payloads: a leg is its calls, guard and entry point.
- The effect of a leg's calls, reverts inside them, and the flash loan itself: `Executor` sees only the profit-token balance before and after the calls.
- EvaluateSignals: percentages are exact rationals, so the rounding of `f64` at a threshold is not modelled; messages are their ingredients, not their text.
- Concurrent `evaluate` calls, the webhook, logging, and the head and pending clocks.
- Stable Aerodrome pools beyond refusing a quote, UniswapV3 quoting, RPC reads, cycle enumeration and ranking, and `price_1e18`.
- Receipt fetching, candidate selection and storage in `attribution.rs`; `engine.rs`, `store.rs`, `api.rs`, the risk and sniper modules, and the frontend.
