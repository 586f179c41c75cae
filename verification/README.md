# Verification model of the arbitrage engine

This project models the parts of the repository whose correctness is not visible from reading one body, and
proves what they promise. `dafny verify dfyconfig.toml` checks all of it.

The modules follow the source:

- **Arbitrage detection** (`dl-detect`). `PriceGraph` is the graph and its builder, `Cycles` the theory of walks,
  rotations and signatures, `Detector` the depth-limited search in its own imperative form, `LosslessFilter` what the
  linearised weights keep of the profitable cycles (with `AmGm` for the inequality), `FilterGaps` graphs on which search
  and profitability differ, and `Prune` the in-place removal of stale edges. Together: the search reports exactly one representative of each rotation class of simple negative
  cycles it can walk without overflow, every profitable cycle of at most ten legs is among them unless its total
  weight leaves the word, and pruning commutes with the search.
- **Fixed point** (`dl-core/fixed`). `Fixed` has the limb multiplication, the bitwise long division and the floored
  quotient, on 128-bit words with every overflow excluded by proof.
- **Randomness, hashing, decoding** (`dl-core/rng`, `dl-core/prob`, `dl-ledger/hash`, `dl-feed/ws_feed`). `Rng`,
  `LedgerHash` and `Base64`, over the word operations of `Bits`.
- **Framed files** (`dl-feed/capture`, `dl-ledger/reader` and `writer`). `Framing` is what both formats share,
  `Capture` and `Ledger` the two formats. The payload codec is a parameter with decode(encode(x)) = x.
- **State machines** (`dl-feed/staleness`, `dl-paper`, `dl-executor/killswitch`, `dl-signer/cap`, `dl-app/live`).
  `FeedGuard`, `PaperWallet`, `KillSwitch`, `CapState` and `SubmitPipeline`. The answers of the network, the bundle
  builder, the signer, the rate limiter and the clock during one call are the fields of an `Attempt`.

`Words` holds bounded integers and wrapper types, `State` the pool and cycle records.

## Where the code and its documentation differ

The model follows the code. Each difference that shows in results is a lemma or a method below.

- The detector is documented to drop no profitable cycle silently (`crates/dl-detect/src/graph.rs:30-38`). A
  profitable cycle of at most ten legs is reported exactly when its total weight is at least `i64::MIN`
  (`LosslessFilter.LosslessUnlessOverflow`); two legs with a rate of 6.0 each are dropped
  (`FilterGaps.DropsProfitableCycle`). Ten is the most: for every larger number of legs, up to the 2^31
  pools whose tokens surely fit 32-bit ids, a ring of pools has a profitable cycle that is missed because one weight is
  clamped (`FilterGaps.LongRingHidesProfit`, `FilterGaps.EscapeRingExists`).
- The same documentation says that a negative cycle still corresponds to a profitable round trip (line 28). What the
  search reports are the cycles whose rates, cut at the clamp, average above 1.0 and that can be walked without
  overflow (`LosslessFilter.ReportedIffMeanAbove`); profitable are those whose rates multiply to more than 1.0. The
  two differ where the arithmetic mean exceeds 1.0 and the geometric mean does not
  (`LosslessFilter.ReportedWithoutProfitIff`): rates of 3.0 and 0.1 through two pools (`FilterGaps.ReportsLosingCycle`), or out and back through one pool, which never gains and is reported
  exactly when its two rates add up to more than 2.0 and the weight fits (`FilterGaps.SamePoolRoundTrip`,
  `FilterGaps.ReportsRoundTrip`).
- The feed guard is documented to trip when every account is silent (`crates/dl-feed/src/staleness.rs:20-24`). It
  trips at exactly those events that leave an account too old which has already been updated at a nonzero slot
  (`FeedGuard.TripsExactlyWhenStale`), so a feed that is silent from the start never trips
  (`FeedGuard.SilenceFromTheStartNeverTrips`).
- `LedgerReader::read_entry` fetches the length with one `read`. An intact frame is reported as truncated exactly when
  that read comes back short (`Ledger.ShortReadMisreports`); reading then stops there, with the entries before it
  (`Ledger.ReadAll`).
- The kill switch is documented to count simulation rejections as losses (`crates/dl-executor/src/killswitch.rs:10-12`
  and `48-56`), and to ignore pending bundles. The pipeline never records a rejection
  (`SubmitPipeline.RejectionsNeverCount`), and records a bundle that is still pending as lost
  (`SubmitPipeline.LossRecordedIff`, `SubmitPipeline.PendingBundlesTrip`).
- `NotSubmitted` is documented as a bundle that was not submitted (`crates/dl-app/src/live.rs:83-86`). After a failed
  poll it is a bundle that was submitted, charged and counted as a loss (`SubmitPipeline.NotSubmittedYetCharged`),
  so the reported submissions understate the charge (`SubmitPipeline.ReportsUnderstateCharge`).
- The flow listed at `crates/dl-app/src/live.rs:101-108` puts cap, rate limit and kill switch after signing. The code
  checks them before building.

## Model

| member | source | states |
|---|---|---|
| Detector.FindNegativeCycles | crates/dl-detect/src/bellman_ford.rs:48-84 | The result holds only simple negative cycles of 2..=max_legs real edges whose running totals fit i64, each signature once, and some cycle with the signature of every such walk; every returned leg has the pool, direction and weight of its edge and the total is that of the legs |
| Detector.ReportedIsGenuine | crates/dl-detect/src/bellman_ford.rs:119-166 | Every returned cycle has one leg for each edge of a simple negative cycle, with its pool, direction and weight, and their total |
| Detector.SearchState.Dfs | crates/dl-detect/src/bellman_ford.rs:90-207 | Afterwards the signature of every target cycle that extends the current path is kept; path and path_nodes are as before; only target cycles were added; terminates on max_legs minus path length |
| Detector.SearchState.Follow | crates/dl-detect/src/bellman_ford.rs:103-205 | One edge of the loop: closes, skips or descends, and thereby accounts for every target cycle that goes on with this edge |
| Detector.SearchState.Descend | crates/dl-detect/src/bellman_ford.rs:184-204 | Push, search, pop: covers every target cycle beyond the pushed edge and restores both vectors |
| Detector.SearchState.CloseCycle | crates/dl-detect/src/bellman_ford.rs:109-174 | Closing the path leaves the signature of the closed walk among the kept ones |
| Detector.ClosedCycle | crates/dl-detect/src/bellman_ford.rs:119-154 | The legs of a path and its closing edge, summed again, are those of a negative target cycle with the signature of the walk |
| Detector.SearchState.Record | crates/dl-detect/src/bellman_ford.rs:155-169 | The output grows by exactly this cycle if its signature is new and is unchanged if it was seen, and the signature is seen afterwards |
| Detector.RebuildLegs | crates/dl-detect/src/bellman_ford.rs:119-154 | Summing the legs again with checked additions never fails; leg by leg they are the edges of the walk, and the total is theirs |
| Detector.Adjacency | crates/dl-detect/src/bellman_ford.rs:54-59 | Each node lists exactly the indices of its outgoing edges, in ascending order |
| Detector.ExtensionCases | crates/dl-detect/src/bellman_ford.rs:107-182 | A target cycle through the path and one more edge either closes there or goes on to an unvisited node with room left, so the three skips lose nothing |
| Detector.ClosedIsTarget | crates/dl-detect/src/bellman_ford.rs:107-118 | A simple path closed by an edge back to its start with a negative total is a target cycle |
| Detector.OneRepresentativePerClass | crates/dl-detect/src/bellman_ford.rs:48-207 | With distinct pool addresses a simple cycle is reported iff it is negative, has at most max_legs legs and some rotation has all running totals in i64; and at most one reported cycle represents it |
| Cycles.SignatureIsRotationClass | crates/dl-detect/src/bellman_ford.rs:155-166 | Two simple cycles have the same sorted signature iff one is a rotation of the other |
| Cycles.SameStartSameCycle | crates/dl-detect/src/bellman_ford.rs:155-166 | Simple cycles with the same signature that start with the same edge agree edge by edge |
| Cycles.RotationPrefix | crates/dl-detect/src/bellman_ford.rs:184-188 | The running totals seen when the cycle is walked from another of its nodes |
| Cycles.RotationKeepsSum | crates/dl-detect/src/bellman_ford.rs:114-118 | The total weight does not depend on the node the cycle is found from |
| Cycles.LegsDetermineWalk | crates/dl-detect/src/bellman_ford.rs:119-154 | The legs of a reported cycle determine the edges it came from |
| LosslessFilter.LosslessUnlessOverflow | crates/dl-detect/src/graph.rs:30-38 | A profitable simple cycle of at most ten legs (and max_legs) over a built graph is reported iff its total weight is at least i64::MIN |
| LosslessFilter.WeightFromRates | crates/dl-detect/src/graph.rs:186-189 | The total weight of a cycle of any length is what its clamped rates lack to an average of 1.0 |
| LosslessFilter.ClampHarmless | crates/dl-detect/src/graph.rs:186-189 | Up to ten legs, or with no rate above the cap, the clamp does not change whether the rates average above 1.0 |
| LosslessFilter.ProfitableIsNegative | crates/dl-detect/src/graph.rs:30-38 | AM-GM with the clamp: if the product of the rates exceeds 1.0, the sum of the clamped weights is negative, for at most ten legs or for any number of legs none of which is clamped |
| LosslessFilter.ReportedIffMeanAbove | crates/dl-detect/src/bellman_ford.rs:48-207 | A simple cycle of any length within max_legs over a built graph is reported iff its clamped rates average above 1.0 and it can be walked from some node without overflow |
| LosslessFilter.ReportedWithoutProfitIff | crates/dl-detect/src/graph.rs:24-28 | Up to ten legs: reported without profit iff the rates average above 1.0 but do not multiply to more than 1.0, and the weight fits i64 |
| LosslessFilter.ReportedUpToTenLegs | crates/dl-detect/src/bellman_ford.rs:48-207 | Up to ten legs: iff its rates average above 1.0 and its total weight is at least i64::MIN |
| LosslessFilter.RotationFitsIff | crates/dl-detect/src/bellman_ford.rs:184-188 | A losing cycle of at most ten legs can be walked from some node without a checked addition failing iff its total fits i64 |
| LosslessFilter.LowStartFits | crates/dl-detect/src/bellman_ford.rs:184-188 | Walked from where the running total is lowest, every running total fits |
| FilterGaps.DropsProfitableCycle | crates/dl-detect/src/bellman_ford.rs:48-118 | Building the graph of two fee-free pools of one pair that both quote 6.0 and searching it misses their profitable two-leg cycle |
| FilterGaps.TwoLegs | crates/dl-detect/src/bellman_ford.rs:48-118 | Two legs over a built graph are reported iff their rates add up to more than 2.0 and their clamped rates to at most 2.0 - i64::MIN, and gain iff the rates multiply to more than 1.0 |
| FilterGaps.TwoLegsMissedIff | crates/dl-detect/src/bellman_ford.rs:114-118 | Two profitable legs are missed iff their clamped rates add up to more than 2.0 - i64::MIN |
| FilterGaps.ElevenLegsEscape | crates/dl-detect/src/graph.rs:186-189 | Over a built graph, a cycle of eleven or more legs within max_legs with one rate at u64::MAX, ten at 0.05 and the rest at 1.0 is profitable, has a positive weight and is not reported |
| FilterGaps.LongRingHidesProfit | crates/dl-detect/src/graph.rs:186-189 | For every number of legs from eleven to 2^31: building the graph of a ring of that many pools with these rates and searching it misses the profitable way around |
| FilterGaps.EscapeRingExists | crates/dl-detect/src/graph.rs:186-189 | There is a ring with these rates for every number of pools from eleven to 2^31 |
| FilterGaps.RingsOfTwoExist | crates/dl-detect/src/graph.rs:24-38 | There are rings of two pools that quote 6.0 and 6.0, and 3.0 and 0.1 |
| FilterGaps.RingIsCycle | crates/dl-detect/src/graph.rs:134-242 | In the graph built from a ring of pools the base-to-quote edges form a simple cycle |
| FilterGaps.SamePoolRoundTrip | crates/dl-detect/src/graph.rs:24-28 | Over a built graph the way out and back through any pool is a simple cycle that never gains, and is reported iff its two rates add up to more than 2.0 and the weight fits |
| FilterGaps.ReportsRoundTrip | crates/dl-detect/src/graph.rs:24-28 | Building the graph of one fee-free pool with reserves 1:4 and searching it reports the round trip, which gains nothing |
| FilterGaps.ReportsLosingCycle | crates/dl-detect/src/graph.rs:24-28 | Building the graph of two fee-free pools that quote 3.0 and 0.1 around the pair and searching it reports that cycle, which loses |
| LosslessFilter.BuiltIsPriced | crates/dl-detect/src/graph.rs:134-242 | Every walk over a built graph consists of edges weighted by the rates of their pools |
| LosslessFilter.BuiltIsSearchable | crates/dl-detect/src/graph.rs:134-242 | In a built graph every endpoint is a listed token; distinct addresses make (pool, direction) unique |
| AmGm.MeanBoundsProduct | crates/dl-detect/src/graph.rs:32-34 | Numbers with mean at most s have a product of at most s to their number |
| PriceGraph.BuildFromPools | crates/dl-detect/src/graph.rs:210-242 | Succeeds iff the list is nonempty and every reserve nonzero, names the error otherwise; the graph is the one of the pools, edges 2i and 2i+1 being the two directions of pool i |
| PriceGraph.Graph.AddPool | crates/dl-detect/src/graph.rs:216-240 | One pool interns its two mints, keeps every id and appends its two edges; it fails, with DivByZero, iff a reserve is zero |
| PriceGraph.BuiltExtends | crates/dl-detect/src/graph.rs:216-240 | Such a step extends the graph of the pools so far to that of one pool more |
| PriceGraph.BuiltEdges | crates/dl-detect/src/graph.rs:216-240 | Edges 2i and 2i+1 of a built graph, field by field: ends, pool, direction, kind, and the weight from the reserves and the fee of pool i, floored twice and cut at i64::MIN |
| PriceGraph.TokensExact | crates/dl-detect/src/graph.rs:216-219 | The token list holds exactly the mints of the pools in the order of their first occurrence, base before quote |
| PriceGraph.Graph.InternToken | crates/dl-detect/src/graph.rs:134-142 | Returns the id of the mint, adding it at the end if it is new; every older id stays |
| PriceGraph.IndexIsInverse | crates/dl-detect/src/graph.rs:99-108 | Up to 2^32 tokens, token list and index are mutually inverse |
| PriceGraph.RateBrackets | crates/dl-detect/src/graph.rs:168-182 | With a nonzero reserve no overflow is reachable, and the twice floored rate is at most the exact one and less than two units below it |
| PriceGraph.RateOfPool | crates/dl-detect/src/graph.rs:219-223 | The rate in each direction is floor(floor(bought * 1e18 / sold) * (10000 - fee) / 10000) for the pool's own fee, and 0 from 10000 bps on |
| PriceGraph.PriceBrackets | crates/dl-detect/src/graph.rs:219-223 | It is at most the exact price less the fee and less than two units below it |
| PriceGraph.PoolRateExists | crates/dl-detect/src/graph.rs:168-182 | A rate is missing iff the reserve divided by is zero, and then the error is DivByZero |
| PriceGraph.OppositeRates | crates/dl-detect/src/graph.rs:222-223 | The rates of the two directions of a pool multiply to at most 1.0 |
| PriceGraph.FeeMultiplier | crates/dl-detect/src/graph.rs:154-159 | Exactly 1 - fee/10000 up to a fee of 10000, zero above |
| PriceGraph.WeightFromRate | crates/dl-detect/src/graph.rs:186-189 | 1.0 minus the rate, clamped at i64::MIN; negative iff the rate exceeds 1.0 and zero iff it is 1.0 |
| Prune.PruneStaleEdges | crates/dl-detect/src/staleness.rs:156-219 | With multiplicities, exactly the edges are gone whose pool (the last listed with that address) is more than a nonzero threshold behind; the report names each of them once, ascending, with pool, slot and age; the counter grows by their number |
| Prune.PoolIndexExact | crates/dl-detect/src/staleness.rs:171-172 | The index knows exactly the addresses listed and maps each to the last pool that has it |
| Prune.PruneIsExact | crates/dl-detect/src/staleness.rs:156-219 | What is kept and what is reported, in terms of the pool list, the clock and the threshold |
| Prune.RemoveDrops | crates/dl-detect/src/staleness.rs:200-206 | Reverse-order swap_remove removes exactly the listed edges |
| Prune.PruneStep | crates/dl-detect/src/staleness.rs:200-206 | Removing the highest remaining stale index keeps everything below it in place and everything above a permutation of the kept edges |
| Prune.SwapRemoveEffect | crates/dl-detect/src/staleness.rs:203 | swap_remove keeps what is before the index and drops only the element at it |
| Prune.DropsExact | crates/dl-detect/src/staleness.rs:176-197 | The report lists exactly the edges of known pools older than the threshold, ascending by index, with slot and age |
| Prune.KeptExact | crates/dl-detect/src/staleness.rs:156-219 | Each fresh edge keeps its multiplicity and no stale edge is left |
| Prune.SortedAlready | crates/dl-detect/src/staleness.rs:210-215 | The final sort changes nothing, the list is already in index order |
| Prune.PruneIdempotent | crates/dl-detect/src/staleness.rs:156-219 | Pruning again with the same arguments drops nothing |
| Prune.PruneCommutesWithDetection | crates/dl-detect/src/staleness.rs:156-219 | A cycle is reported after the prune iff it was reported before and uses no dropped edge, in whatever order swap_remove left the edges |
| Fixed.MulDivFloor | crates/dl-core/src/fixed.rs:57-68 | DivByZero iff the denominator is zero, Overflow iff the quotient does not fit u128, otherwise the exact floored quotient |
| Fixed.FullMul | crates/dl-core/src/fixed.rs:76-93 | hi * 2^128 + lo is the exact product |
| Fixed.Columns | crates/dl-core/src/fixed.rs:87-92 | Adding the limb products column by column loses no carry and overflows no word |
| Fixed.Div256By128 | crates/dl-core/src/fixed.rs:99-124 | No quotient iff the divisor is zero or the quotient does not fit, otherwise the exact one |
| Fixed.BringDown | crates/dl-core/src/fixed.rs:111-121 | One step keeps the division equation and the remainder below the divisor, also when the doubled remainder leaves the word |
| Fixed.DivisionStep | crates/dl-core/src/fixed.rs:111-121 | The invariant of the long division from one bit to the next, in both branches |
| Fixed.WideQuotientFits | crates/dl-core/src/fixed.rs:103-106 | hi >= d is exactly the case whose quotient does not fit 128 bits |
| Rng.SeededRng.NextU64 | crates/dl-core/src/rng.rs:40-47 | The state advances by the odd increment and the result is its mix |
| Rng.SeededRng.NextBelow | crates/dl-core/src/rng.rs:17-23 | A value below the bound, the scaled draw; a zero bound takes no draw |
| Rng.SeededRng.Trial | crates/dl-core/src/prob.rs:46-54 | Succeeds as the raw draw decides; a certain outcome takes no draw |
| Rng.SeededRng.NextProb | crates/dl-core/src/prob.rs:37-40 | A draw below 1e18 |
| Rng.Draws | crates/dl-core/src/rng.rs:40-47 | Drawing n times yields the first n draws of the seed |
| Rng.MixBijective | crates/dl-core/src/rng.rs:43-46 | The output mixer has a two-sided inverse on 64-bit words |
| Rng.MixEquations | crates/dl-core/src/rng.rs:43-46 | The mixer is that of the published equations, constant by constant |
| Rng.DrawEquation | crates/dl-core/src/rng.rs:42 | The n-th draw mixes the seed advanced by n increments |
| Rng.DrawsDistinct | crates/dl-core/src/rng.rs:39-48 | Any 2^64 consecutive draws from any seed are pairwise distinct |
| Rng.DrawsCover | crates/dl-core/src/rng.rs:39-48 | Every word is drawn within any 2^64 consecutive draws |
| Rng.FullPeriod | crates/dl-core/src/rng.rs:42 | Two states are equal only a multiple of 2^64 steps apart |
| Rng.BelowIsBalanced | crates/dl-core/src/rng.rs:17-23 | Each value below the bound has the floor or the ceiling of 2^64/bound raw draws mapped to it |
| Rng.TrialIsExact | crates/dl-core/src/prob.rs:42-54 | Exactly the ceiling of p * 2^64 / 1e18 of the 2^64 raw draws make a trial with probability p succeed |
| Rng.TrialDecides | crates/dl-core/src/prob.rs:46-54 | A trial succeeds iff draw / 2^64 is below p / 1e18 |
| Rng.TrialsOverAPeriod | crates/dl-core/src/prob.rs:42-54 | From any seed, exactly that many of any 2^64 consecutive draws of the generator do |
| Bits.ShrIsDivision | crates/dl-core/src/rng.rs:44-46 | The right shift divides by a power of two |
| Bits.XorBit | crates/dl-core/src/rng.rs:44-46 | A bit of the exclusive or is set iff it is set in exactly one of the two |
| Bits.XorShiftInverse | crates/dl-core/src/rng.rs:44-46 | A right xor-shift is undone by its inverse |
| Bits.InverseXorShift | crates/dl-core/src/rng.rs:44-46 | ... and on the other side |
| Bits.WrappingMulInverse | crates/dl-core/src/rng.rs:44-45 | A wrapping multiplication by an odd constant is undone by its inverse |
| LedgerHash.FromCycle | crates/dl-ledger/src/hash.rs:35-54 | The FNV-1a state of the whole byte stream of the cycle, 32 pool bytes and a direction byte per leg |
| LedgerHash.FnvEquations | crates/dl-ledger/src/hash.rs:37-44 | The hash of nothing is the offset basis; one byte more is xor-ed in and multiplied by the prime |
| LedgerHash.BytesLayout | crates/dl-ledger/src/hash.rs:41-52 | 33 bytes a leg: the address, then 0 from base to quote or 1 from quote to base |
| LedgerHash.StepInvertible | crates/dl-ledger/src/hash.rs:43-44 | The state before a step can be recovered from its result and the byte |
| LedgerHash.StepBijective | crates/dl-ledger/src/hash.rs:43-44 | For each byte the step has a two-sided inverse on 64-bit states |
| LedgerHash.StepInjectiveInByte | crates/dl-ledger/src/hash.rs:43-44 | Each step is injective in the byte |
| LedgerHash.SuffixKeepsStates | crates/dl-ledger/src/hash.rs:41-52 | Different states never meet over a common suffix |
| LedgerHash.OneByteApartCyclesDiffer | crates/dl-ledger/src/hash.rs:35-54 | Cycles of equal length whose byte streams differ in exactly one byte have different hashes |
| LedgerHash.BytesDetermineLegs | crates/dl-ledger/src/hash.rs:30-34 | The hashed stream determines every pool and direction |
| Base64.Base64Decode | crates/dl-feed/src/ws_feed.rs:432-458 | Equals the decoding with an exact remainder, although the u32 accumulator keeps old bits |
| Base64.AccumulatorStep | crates/dl-feed/src/ws_feed.rs:449-453 | The low bits and the emitted byte are right whatever older bits the accumulator holds |
| Base64.DecodeInvertsEncode | crates/dl-feed/src/ws_feed.rs:432-458 | Decoding inverts the encoding of section 4 of RFC 4648, padded or not, for every byte string |
| Base64.RejectsExactly | crates/dl-feed/src/ws_feed.rs:440-448 | Rejects exactly the strings with a character outside the alphabet and the padding |
| Base64.DecodedIsNumber | crates/dl-feed/src/ws_feed.rs:432-458 | Every accepted string decodes to the whole bytes its digits fill, and to the number its digits make above the bits left over |
| Base64.Alphabet | crates/dl-feed/src/ws_feed.rs:440-446 | The characters are those of table 1 of RFC 4648 |
| Base64.GroupDigits | crates/dl-feed/src/ws_feed.rs:449-453 | The four digits of a group are those of the 24-bit number of its bytes |
| Capture.CaptureWriter.WriteEvent | crates/dl-feed/src/capture.rs:102-111 | Appends one frame, or leaves the sink as it was and says why; the sink always is the header and the frames of the events written |
| Capture.CapturedFeed.NextEvent | crates/dl-feed/src/capture.rs:173-246 | Takes the next event off the unread bytes however the source splits them; once None, always None |
| Capture.Open | crates/dl-feed/src/capture.rs:138-159 | Opens iff the bytes start with the header, and for a source without read errors reports the wrong magic or version iff it is there |
| Capture.HeaderIs | crates/dl-feed/src/capture.rs:59-65 | The header is DLF-CAP1 and version 1 |
| Capture.Drain | crates/dl-feed/src/capture.rs:172-246 | Pulling until None yields exactly the replay of the unread bytes, or a prefix of it if a read fails |
| Capture.ReplayRecording | crates/dl-feed/src/capture.rs:84-246 | A recording cut anywhere behind its header replays as exactly the events of its complete frames, all of them if uncut, under any read chunking |
| Framing.ReplayFrames | crates/dl-feed/src/capture.rs:172-246 | Replaying frames followed by less than a frame yields exactly the written items |
| Framing.CutFrames | crates/dl-feed/src/capture.rs:200-246 | Any cut leaves the complete frames and a piece short of the next, empty iff the cut is on a boundary |
| Framing.ReplayCut | crates/dl-feed/src/capture.rs:172-246 | Replaying a cut file yields exactly the items of its complete frames |
| Framing.NextFrameStable | crates/dl-feed/src/capture.rs:177-188 | More bytes behind a complete frame never change how it is read |
| Framing.PrefixIncomplete | crates/dl-feed/src/capture.rs:177-188 | A proper prefix of a frame is never taken for one |
| Framing.LittleEndian | crates/dl-feed/src/capture.rs:107 | A length is written least significant byte first |
| Framing.TakeExact | crates/dl-feed/src/capture.rs:177-190 | An item is taken iff its length, all of its payload and a decoding are there |
| Framing.ReplayStopsAtBadFrame | crates/dl-feed/src/capture.rs:191-210 | Replay stops for good at the first frame whose payload does not decode |
| Ledger.LedgerWriter.WriteEntry | crates/dl-ledger/src/writer.rs:45-55 | Appends one frame or, for an entry over 16 MiB, writes nothing and says Truncated |
| Ledger.LedgerReader.ReadEntry | crates/dl-ledger/src/reader.rs:54-76 | Without read errors: None iff nothing was read; Truncated iff the length or the frame is cut; Bincode iff a whole frame does not decode; the entry iff it does |
| Ledger.VerdictMeans | crates/dl-ledger/src/reader.rs:54-76 | The same of the verdict on any bytes and any delivery of the length |
| Ledger.Open | crates/dl-ledger/src/reader.rs:30-49 | Opens iff the bytes start with the header, and for a source without read errors reports the wrong magic or version iff it is there |
| Ledger.HeaderIs | crates/dl-ledger/src/writer.rs:34-41 | The header is DLD-LDG1 and version 3 |
| Ledger.ReadAll | crates/dl-ledger/src/reader.rs:51-76 | Under any read chunking, and with read errors or without: the entries are the first ones there, and from exactly what they leave one more length read of `first` bytes gives the ending, by its verdict unless a read failed; a clean end is never wrong; without read errors entries and ending are right iff that read was full or met a frame cut short |
| Ledger.EndingOfFrames | crates/dl-ledger/src/reader.rs:51-76 | Frames followed by a piece end cleanly iff the piece is empty, otherwise with Truncated |
| Ledger.ReadBack | crates/dl-ledger/src/reader.rs:30-76 | A ledger cut anywhere behind its header reads back, from a source that fills the buffer, as exactly its complete entries, then Ok(None) on a frame boundary and Truncated otherwise; from any other as a prefix of them and the verdict of the length read that met the rest, which is all of them with that ending iff the read was full or met a frame cut short |
| Ledger.LastReadDecides | crates/dl-ledger/src/reader.rs:54-66 | Whatever was read before, the entries and the ending are right iff the last length read was full or met a frame cut short |
| Ledger.ShortReadMisreports | crates/dl-ledger/src/reader.rs:54-66 | The verdict is right iff the length read delivers four bytes or the frame is cut short anyway |
| FeedGuard.StalenessGuard.UpdateKey | crates/dl-feed/src/staleness.rs:106-115 | One update step of the guard, returning true iff it trips |
| FeedGuard.StalenessGuard.NotifySlotAdvance | crates/dl-feed/src/staleness.rs:121-129 | One clock step of the guard, returning true iff it trips |
| FeedGuard.StalenessGuard.RegisterKey | crates/dl-feed/src/staleness.rs:93-95 | Adds an account as never seen, also after a trip |
| FeedGuard.StalenessGuard.CheckInner | crates/dl-feed/src/staleness.rs:132-162 | Trips on the worst stale account, if there is one and the guard is on and untripped |
| FeedGuard.StalenessGuard.CheckAt | crates/dl-feed/src/staleness.rs:207-232 | The verdict for a given clock, changing nothing |
| FeedGuard.FindWorst | crates/dl-feed/src/staleness.rs:142-155 | The ordered scan finds the stale account seen longest ago, the smallest key on ties |
| FeedGuard.WorstUnique | crates/dl-feed/src/staleness.rs:142-155 | There is only one such account |
| FeedGuard.LessIsLexicographic | crates/dl-feed/src/staleness.rs:142 | Accounts are walked in the order of the first byte in which they differ |
| FeedGuard.VerdictMeans | crates/dl-feed/src/staleness.rs:207-232 | check_at is fresh iff no account seen lies more than the threshold behind; otherwise it names an account seen longest ago, its slot and how far it lies behind |
| FeedGuard.RunInvariant | crates/dl-feed/src/staleness.rs:93-162 | In every reachable untripped state the clock is the largest slot observed, every account holds its latest update, and with a nonzero threshold none already seen is too old |
| FeedGuard.TripsExactlyWhenStale | crates/dl-feed/src/staleness.rs:132-162 | An untripped guard trips at an event iff the threshold is nonzero and the history up to it leaves some updated account too old |
| FeedGuard.TripNamesTheOldest | crates/dl-feed/src/staleness.rs:164-170 | The trip names the worst account at the largest slot observed, is the first, and check_at of the clock agrees |
| FeedGuard.TripRecordMeans | crates/dl-feed/src/staleness.rs:164-170 | The trip record, from the history: the largest slot, and how far the latest update of the account lies behind it |
| FeedGuard.TripIsFinal | crates/dl-feed/src/staleness.rs:102-129 | After a trip the clock, the trip record and every check_at verdict stay the same for the rest of the run |
| FeedGuard.SilenceFromTheStartNeverTrips | crates/dl-feed/src/staleness.rs:90-95 | Without a single update the guard never trips |
| PaperWallet.Wallet.Execute | crates/dl-paper/src/lib.rs:93-127 | Refuses iff the loss exceeds the balance, changing nothing; otherwise appends a trade with every field of the fill, the next id and the new balance |
| PaperWallet.Wallet.Stats | crates/dl-paper/src/lib.rs:129-166 | Counts, saturated PnL, peak and largest drawdown of the whole history in one pass |
| PaperWallet.WinsCount | crates/dl-paper/src/lib.rs:137-138 | Wins are the number of trades with a profit above zero |
| PaperWallet.LossesCount | crates/dl-paper/src/lib.rs:139-140 | Losses are the number of trades with a profit below zero |
| PaperWallet.ReplayIsExact | crates/dl-paper/src/lib.rs:133-155 | The one-pass replay ends at the replayed balance and finds the peak and the maximum of balance_i - balance_j over all i <= j, the start included |
| PaperWallet.CurveIsExact | crates/dl-paper/src/lib.rs:147-154 | The running peak and drawdown are the maxima over all balances and all ordered pairs |
| PaperWallet.BookedEach | crates/dl-paper/src/lib.rs:104-124 | Every trade recorded carries its index and the balance the replay has there |
| PaperWallet.BookOne | crates/dl-paper/src/lib.rs:104-124 | Booking one more trade keeps all earlier records right |
| PaperWallet.BalanceIsExactIff | crates/dl-paper/src/lib.rs:105-109 | The balance is the start plus all profits iff that sum never passed u64::MAX on the way |
| PaperWallet.BalanceIsStartPlusPnl | crates/dl-paper/src/lib.rs:129-166 | Without saturation of either word, balance equals starting balance plus total PnL |
| KillSwitch.KillSwitch.Record | crates/dl-executor/src/killswitch.rs:106-124 | A loss counts with saturation and trips at the maximum, a landing clears, a pending bundle changes nothing |
| KillSwitch.KillSwitch.Check | crates/dl-executor/src/killswitch.rs:142-151 | Passes iff there is no stop file and fewer losses than the maximum |
| CapState.CapState.TryCharge | crates/dl-signer/src/cap.rs:190-209 | Charges iff both caps allow it after the day rolled over; a refusal names the cap, and keeps the rollover |
| CapState.CapState.Refund | crates/dl-signer/src/cap.rs:227-229 | Takes the amount back, not below zero |
| SubmitPipeline.SubmitOpportunity | crates/dl-app/src/live.rs:109-364 | The early-return pipeline has the net effect of one step: the tip stays charged and the breaker moves iff every gate passed, and the first refusing gate decides the outcome |
| SubmitPipeline.OutcomeOf | crates/dl-app/src/live.rs:109-364 | An outcome means an accepted bundle iff it is landed, lost or a failed poll |
| SubmitPipeline.EarlyRefusals | crates/dl-app/src/live.rs:147-213 | Each gate up to the cap gives its outcome iff it refuses and all before it passed |
| SubmitPipeline.LateRefusals | crates/dl-app/src/live.rs:216-319 | So does each gate behind the charge |
| SubmitPipeline.LandingDecides | crates/dl-app/src/live.rs:321-361 | For an accepted bundle: landed in the slot polled, lost iff lost or pending, not submitted iff polling failed |
| SubmitPipeline.OutcomeDecides | crates/dl-app/src/live.rs:109-364 | What is spent, the day, the breaker and the three counters after a call, from its outcome |
| SubmitPipeline.LandedCount | crates/dl-app/src/live.rs:322-323 | Over a run the landed counter holds the number of landed bundles |
| SubmitPipeline.FailedCount | crates/dl-app/src/live.rs:210-358 | Over a run the failed counter holds the number of calls that ended at the cap, the build, the submission, a lost bundle or a failed poll |
| SubmitPipeline.NetChargeIsAcceptedTips | crates/dl-app/src/live.rs:210-319 | Over any stretch within one day the cap grows by exactly the tips of the bundles Jito accepted |
| SubmitPipeline.DailyCapHolds | crates/dl-signer/src/cap.rs:190-219 | With a clock that never goes back, no day pays more than the daily cap and the cap state is what the current day paid |
| SubmitPipeline.LossesAreSubmissions | crates/dl-app/src/live.rs:321-362 | Over any stretch without a landing the breaker counts exactly the accepted bundles |
| SubmitPipeline.SubmissionsAfterLanding | crates/dl-app/src/live.rs:221-225 | After a landing at most max_consecutive_losses bundles are submitted before the next one |
| SubmitPipeline.OpenIsFinal | crates/dl-executor/src/killswitch.rs:142-151 | Once open the breaker stays open and nothing is submitted or charged any more |
| SubmitPipeline.OpenIffStreak | crates/dl-executor/src/killswitch.rs:106-151 | The breaker is open iff some stretch without a landing submitted max_consecutive_losses bundles |
| SubmitPipeline.RejectionsNeverCount | crates/dl-app/src/live.rs:262-287 | Any number of simulation rejections leaves the breaker where it was |
| SubmitPipeline.LossRecordedIff | crates/dl-app/src/live.rs:345-361 | A call counts a loss iff Jito accepted the bundle and it did not land: lost, still pending or unknown |
| SubmitPipeline.PendingBundlesTrip | crates/dl-app/src/live.rs:345-354 | A run of accepted bundles that are all still pending counts each as a loss, and max_consecutive_losses of them stop all submissions |
| SubmitPipeline.NotSubmittedYetCharged | crates/dl-app/src/live.rs:355-361 | An outcome NotSubmitted means a submitted, charged and counted bundle iff polling failed |
| SubmitPipeline.ReportsUnderstateCharge | crates/dl-app/src/live.rs:321-362 | Over any stretch within one day the cap grows by the tips of the bundles reported landed or lost plus exactly those of the failed polls |

## Left out

- Network, files and async code: the WebSocket task, the HTTP clients, RPC simulation, the pollers, the metrics server and atomic JSON writes. In `SubmitPipeline` their answers are inputs.
- Solana types, signing, address derivation and bundle assembly: library calls or single comparisons.
- bincode, serde and JSON: the payload codec is any pair with decode(encode(x)) = x.
- Configuration, command line, calibration capture, report rendering, niche classification: they would only add easy members.
- Floating point: latency percentiles, landing multipliers, the token bucket of the rate limiter, which is one boolean per call.
- Cap snapshots on disk, the mainnet floors and wallet files: loading can bring in any state, and the theorems about runs start from a fresh one.
- `Cycle.seq` and `expected_profit_bps`: a cycle is its legs and its total weight, which is what the search decides on.
- The sorted signature vector is the multiset it lists, and the hash-ordered containers are sets and maps; iteration order is modelled where it matters (`FeedGuard.NextKey`).
- Debug assertions: `fee_multiplier_1e18` panics above 10000 bps in debug builds only; the model has the release behaviour.
- Counters of frames, events, entries, trades and metrics are unbounded; the pruned-edge counter wraps as the atomic does.
- Write errors of the sinks: a write of the capture or ledger writer always succeeds. Read errors are modelled.
- The bodies of `build_from_pools`, `dfs`, `prune_stale_edges`, `div_256_by_128` and `from_cycle` are split into several methods, one per loop body or phase; the order of effects is the source's.
- Fixed.OrDisjoint: the bitwise or in `full_mul` and in the quotient is addition of parts proved to share no bit, so bit patterns as such are not modelled.
- Rng.SeededRng.NextBelow: the draw behind it is `SeededRng`; other implementations of the trait are not modelled.
- SubmitPipeline.DailyCapHolds: says nothing about a clock that goes back to an earlier day, where the source starts that day's budget afresh.
