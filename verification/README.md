# Seth, modelled in Dafny

Seth is an Ethereum client wrapper. This project models the parts of it that hold state, recursion or
arithmetic of their own, and proves what they keep over every input, every run or every interleaving.
`dafny verify dfyconfig.toml` checks everything.

| files | part of Seth |
|---|---|
| `CallTrace`, `TraceDecoder` | the two walks of `DecodeTrace` over a call tree, and the check for calls only the 4byte tracer saw |
| `CallGraph`, `DotGraph`, `TraceGraph` | the breadth-first search for the highlighted path, the numbering and linking of nodes, and what the decoder guarantees to both |
| `KeyPool`, `KeyNonces`, `NonceManager` | the pool of synced keys as a protocol of atomic steps, and the object whose methods are those steps |
| `BumpStrategy`, `GasBump` | the gas bumping strategies with their float64 rounding, and the wait-and-replace loops of `Decode` and `DeployContract` |
| `Congestion`, `Metric`, `Fees` | collecting and sorting headers, the two congestion averages, and the suggested EIP-1559 fees |
| `HeaderCache` | the least-frequently-used header cache |
| `AbiFinder` | the ABI finder, the contract map and the contract store |
| `Funding` | splitting the root key's funds and returning them |
| `Pragma` | the compiler version in the bytecode's metadata trailer |

The main results, one per part:

- The decoded list mirrors the call tree **if and only if** no undecodable call has children; when everything
  decodes, the printed depths alone restore the tree. The "method counter exceeds" error cannot occur.
- The breadth-first search returns a shortest, repetition-free path, or nothing exactly when the end is
  unreachable, and it terminates although a signature may be queued and expanded many times. On what the
  decoder produces, the path exists **if and only if** its end was decoded, and however selectors are spelled the
  drawing is a forest.
- No key of the pool is ever lost or doubled in any interleaving; `UpdateNonces` keeps that **if and only if**
  no goroutine is out with a key. Later hand-outs of a key carry later nonces, and after a refill with no key out
  some key and nonce may be handed out a second time **if and only if** a hand-out was still to be mined (a key given
  up while its transaction is pending gets there).
- The j-th replacement is the same call with the strategy applied j times to its prices, never above the cap, and none follows
  a refusal for price. Every replacement is waited for **if and only if** the last turn of the loop submits none.
  A bump lowers no price **if and only if** the price fits into int64 (or the strategy is not a float one), raises it
  **if and only if** also its percentage is worth a wei, and no number of bumps lifts the tip above the fee cap.
- Chebyshev's sum inequality: the newest-first metric is ahead of the plain average while congestion rises and
  behind it while it falls. Neither depends on the order in which headers arrive. A suggested tip is negative
  **if and only if** the tip it comes from wraps to a negative int64 (the slow priority rounds a wrapped -1 away).
- The cache never disagrees with the chain, evicts nothing while there is room, and then the entry with the fewest
  uses since insertion.
- From any contract map on, an address is sure to end up mapped to its contract **if and only if** it was so at the
  start, or the contract is deployed there through Seth, or some call made there has a selector that no other ABI has.
- Splitting gives every key exactly its share and leaves the root key its buffer in every order of transfers; when each transfer costs what gas
  price and gas limit say, **if and only if** that cost fits into int64. No wei is created or lost.
- A version is decoded **if and only if** the bytecode ends in a metadata trailer for it, and the inputs on which
  the Go code would panic are exactly those with fewer than four characters or a length that almost fits.

Where the code and its documentation disagree the model follows the code:

- `docs/abi_finder_contract_map.md:21` expects the contract map to become right given diverse enough calls.
  `AbiFinder.DiverseCallsMayNeverSettle` shows calls that rule out every other ABI one by one, after which the
  finder may still be wrong.
- The comment at `retry.go:64` says the remaining priorities do nothing; `degen` doubles the price.
- `client.go:475` replaces the awaited transaction after the last failed wait as well. A replacement is submitted and
  never waited for exactly when that last turn submits one (`GasBump.AwaitedExactlyUnlessLastTurnSubmits`), which
  happens whenever nothing is mined in time and nothing is refused (`GasBump.LastReplacementIsNotAwaited`).
- For a chain shorter than the requested number of blocks the loop bound of `gas_adjuster.go:103` wraps around, no
  block is fetched, and the request ends in "failed to fetch enough block headers"
  (`Congestion.EnoughHeadersExactlyOnLongChains`).

Chain answers, RPC failures, the iteration order of Go maps, the arrival order of goroutines, hashes and the outcome
of each ABI decoding are parameters or arbitrary choices. Big integers are `int`; floats are `real`, except in the
bumping strategies, where rounding decides the result and is modelled exactly, and in the newest-first metric, which
can be infinite or undefined.

## Model

| member | source | states |
|---|---|---|
| `CallTrace.NormHexFixpoint` | tracing.go:388 | a selector survives decoding to bytes and printing unchanged exactly when it is even-length lower-case hex |
| `CallTrace.NormHexKeepsDigits` | tracing.go:388 | decoding and printing keeps the digits up to the first bad pair, capitals in lower case |
| `CallTrace.SelectorIsWritten` | tracing.go:256-268 | the selector is what stands between the two-character prefix and the arguments; shorter inputs have none |
| `CallTrace.GatherLists` | tracing.go:277-294 | the first walk collects one selector per call, in preorder |
| `CallTrace.CountsEveryCall` | tracing.go:317-342 | the second walk counts every call of the tree exactly when no undecodable call has children |
| `CallTrace.WalkAppends` | tracing.go:319-345 | the second walk appends one entry for each call it counts and changes none before |
| `CallTrace.WalkMirrors` | tracing.go:317-356 | with failures only at leaves the appended entries carry own selector, depth and real parent |
| `CallTrace.AlignedExactlyWhenFailuresAreLeaves` | tracing.go:312-361 | the decoded list mirrors the call tree if and only if every undecodable call is a leaf |
| `CallTrace.TraceIsDescribed` | tracing.go:312-361 | with failures only at leaves every entry carries the selector written in its input and the one written in its caller's input |
| `CallTrace.SkippedChildIsBorrowed` | tracing.go:327-341 | wherever the walks are still aligned, a failing call with children makes its next sibling borrow the first child's selector |
| `CallTrace.SkippedChildInTrace` | tracing.go:312-361 | the same in the list of a whole trace |
| `CallTrace.SkippedChildMisnames` | tracing.go:327-341 | the sibling's address then stands beside the wrong method |
| `CallTrace.SkippedChildrenMisalign` | tracing.go:327-341 | a concrete tree on which the decoded list names the wrong method |
| `CallTrace.RebuildMirrored` | tracing.go:343-353 | nesting levels tell where a forest ends, so it can be parsed back |
| `CallTrace.TreeSurvivesFlattening` | tracing.go:312-361 | when every call decodes, the call tree is restored from the flat list |
| `TraceDecoder.CountAllTracedCalls` | tracing.go:500-508 | the recursive count is the previous count plus the size of the forest |
| `TraceDecoder.FindSignature` | tracing.go:532-545 | true exactly when some call of the forest mentions the selector |
| `TraceDecoder.CheckForMissingCalls` | tracing.go:494-600 | nothing when the tracers agree on the number of calls, else one entry per selector no call mentions |
| `TraceDecoder.Unseen` | tracing.go:546-556 | the missing selectors are those of the 4byte trace that no call of the tree mentions |
| `TraceDecoder.TotalAppend` | tracing.go:494-498 | the expected number of calls is the sum of the counts of the 4byte rows |
| `TraceDecoder.OneRowPerCallAddsNothing` | tracing.go:510-513 | nothing is added when the 4byte tracer saw each call once |
| `TraceDecoder.MissingAreListed` | tracing.go:546-600 | when the numbers differ, exactly the selectors around which no input is written are added, each with its known address or none |
| `TraceDecoder.Run.constructor` | tracing.go:245-315 | the walk starts with empty lists, counter 0 and level 1 |
| `TraceDecoder.Run.GatherAllMethods` | tracing.go:277-294 | fails exactly when some input is too short for a selector, else appends the preorder selectors |
| `TraceDecoder.Run.ProcessCalls` | tracing.go:316-356 | never fails while the counter can stay in range; restores the level; the new state is the walk of the forest |
| `TraceDecoder.Run.ProcessCall` | tracing.go:318-354 | one turn of the range loop, with the same guarantees |
| `TraceDecoder.DecodeCallTree` | tracing.go:271-361 | success exactly for complete selectors and a decodable main call; the counter error is unreachable |
| `TraceDecoder.DecodeTrace` | tracing.go:244-368 | success exactly when no input is shorter than ten characters and the main call decodes; the described tree, then the missing calls |
| `CallGraph.PathStaysInBall` | dot_graph.go:66-70 | a path of n nodes ends within n levels of the root |
| `CallGraph.Expand` | dot_graph.go:66-72 | queues exactly the unvisited children, each with the path extended by it |
| `CallGraph.CoverStep` | dot_graph.go:53-73 | everything within the current level is expanded or waiting at the front of the queue |
| `CallGraph.SoundStep` | dot_graph.go:64-71 | queued paths are real, repeat nothing and consist of expanded nodes but for their end |
| `CallGraph.LayerStep` | dot_graph.go:54-71 | path lengths in the queue differ by at most one and never decrease |
| `CallGraph.PathFits` | dot_graph.go:50-73 | a queued path is no longer than the number of signatures, which bounds the search |
| `CallGraph.FirstFoundIsShortest` | dot_graph.go:60-62 | the first path that reaches the end is a shortest one |
| `CallGraph.NothingLeft` | dot_graph.go:75 | an empty queue means the end is unreachable |
| `CallGraph.BreadthFirst` | dot_graph.go:50-76 | terminates; a shortest path without repetition, or none exactly when there is none |
| `CallGraph.FindShortestPath` | dot_graph.go:16-76 | the same between the first root and the last failing (or last) call; none without a root |
| `DotGraph.First` | dot_graph.go:192-193 | the first call that carries the signature |
| `DotGraph.DrawnIsNumbered` | dot_graph.go:113-121 | the hashes seen so far are numbered 1, 2, ... without gaps or repetition |
| `DotGraph.DrawnInOrder` | dot_graph.go:113-121 | ids follow the order in which hashes first occur |
| `DotGraph.NewLink` | dot_graph.go:191-195 | a link points forward when the parent comes first, and with distinct hashes only then |
| `DotGraph.DrawnLinksBelong` | dot_graph.go:191-212 | every link leads to a call of the list from the first call that carries its parent's signature |
| `DotGraph.DrawnCallsAreLinked` | dot_graph.go:191-212 | every newly hashed call whose parent's signature is carried has such a link |
| `DotGraph.DrawnForest` | dot_graph.go:113-212 | parents that come first make the drawing a forest |
| `DotGraph.ForestNeedsParentsFirst` | dot_graph.go:113-212 | with distinct hashes a forest needs parents that come first |
| `DotGraph.Draw` | dot_graph.go:87-222 | ids are 1 to the number of distinct hashes, in order of first occurrence; when parents come first the links are the right ones and form a forest, and with distinct hashes only then |
| `TraceGraph.WalkGrows` | tracing.go:343-353 | every decoded entry was made by an earlier decoded one, whatever fails to decode |
| `TraceGraph.DecodedTraceGrows` | tracing.go:312-367 | the same for the whole list, failures and missing calls included |
| `TraceGraph.PathExactlyToDecodedCalls` | dot_graph.go:16-76 | an entry is reachable from the main call if and only if it was decoded; parents come first |
| `TraceGraph.DecodedTraceHasParentsFirst` | tracing.go:312-367 | parents come first in every decoded trace, however its selectors are spelled |
| `TraceGraph.TraceAndDraw` | tracing.go:172-184 | a decoded trace draws as a forest, and with lower-case selectors its path exists if and only if its end was decoded |
| `KeyPool.TakeKeepsBag` | nonce.go:103-109 | handing a key out moves it from the channel to a goroutine |
| `KeyPool.AttemptKeepsBag` | nonce.go:111-141 | an attempt returns the key or keeps it with the goroutine |
| `KeyPool.RefillBag` | nonce.go:72-78 | a refilled channel holds each key but the root once |
| `KeyPool.ConservedStep` | nonce.go:60-151 | no step loses or doubles a key, if the channel is replaced only while no key is out |
| `KeyPool.RunConservesKeys` | nonce.go:60-151 | the same for every state of every such run |
| `KeyPool.KeysArePartitioned` | nonce.go:55-151 | pooled, in-flight and given-up keys are disjoint and together 1..n-1; returning a key never blocks |
| `KeyPool.UpdateIsSafeExactlyWhenQuiet` | nonce.go:72-127 | replacing the channel keeps the keys if and only if no goroutine is out |
| `KeyPool.NextNonceCountsUp` | nonce.go:85-91 | between updates the recorded nonce of an address goes up by one for each call of `NextNonce` |
| `KeyPool.ErrorsOnlyGrow` | nonce.go:101-146 | recorded errors are never dropped |
| `KeyPool.FailuresStopDecoding` | client.go:430-432 | after a time-out or an abandoned key every later `Decode` is refused |
| `KeyPool.GivenUpKeysAreReported` | nonce.go:145-147 | every given-up key has an error of its own |
| `KeyNonces.NoncesStep` | nonce.go:60-151 | every step keeps pool, goroutines and chain in agreement on nonces |
| `KeyNonces.RunKeepsNonces` | nonce.go:60-151 | with distinct addresses and settled updates this holds in every state of every run |
| `KeyNonces.NeverTheSameNonceTwice` | nonce.go:103-131 | in every state of every settled run later hand-outs of a key carry later nonces, so none is shared |
| `KeyNonces.RefillMayRepeatExactlyWhenOwed` | nonce.go:64-78 | after a refill with no key out, some interleaving hands out a key and nonce twice if and only if a hand-out was still to be mined |
| `KeyNonces.StuckTransactionIsRepeated` | nonce.go:60-147 | whatever the retries, a run reaches such a refill by giving a key up while its transaction is pending |
| `NonceManager.Manager.constructor` | nonce.go:43-57 | all nonces zero, empty channel |
| `NonceManager.Manager.UpdateNonces` | nonce.go:60-80 | succeeds exactly when every answer arrives and then refills; otherwise the channel is untouched |
| `NonceManager.Manager.NextNonce` | nonce.go:85-91 | returns the recorded nonce and moves it by one |
| `NonceManager.Manager.AnySyncedKey` | nonce.go:93-149 | hands out the oldest pooled key and starts its goroutine, or times out and records an error |
| `NonceManager.Manager.SyncRound` | nonce.go:110-147 | returns the key after exactly one new nonce, retries, or records an error and stops |
| `BumpStrategy.SplitMonotone` | retry.go:75-77 | splitting off excess bits keeps the order of prices |
| `BumpStrategy.RoundMonotone` | retry.go:75-77 | rounding to 53 bits keeps the order of prices |
| `BumpStrategy.RoundError` | retry.go:75-77 | rounding to 53 bits is off by at most one part in 2^53 |
| `BumpStrategy.RoundIsNearestEven` | retry.go:75-77 | of all numbers with 53 significant bits the rounded price is the nearest one, ties to even |
| `BumpStrategy.RoundIsFloat` | retry.go:75-77 | the rounded price has 53 significant bits |
| `BumpStrategy.BumpMonotone` | retry.go:65-101 | every strategy keeps the order of prices, rounding and saturation included |
| `BumpStrategy.BumpRaisesExactlyWithinInt64` | retry.go:65-101 | a bump never lowers a price if and only if the strategy is exact or the price fits into int64 |
| `BumpStrategy.BumpStrictlyRaisesExactly` | retry.go:65-101 | a bump raises a price if and only if its percentage is worth a wei and, for a float strategy, the price is below the largest int64 |
| `BumpStrategy.BumpPercentage` | retry.go:63-95 | below saturation the bump is the documented percentage, within one wei and 2^-40 of the price |
| `GasBump.PrepareReplacementTransaction` | retry.go:105-248 | the bumped transaction, or the first reason against it; the key search is a membership test |
| `GasBump.PreparesExactly` | retry.go:105-248 | a replacement at the strategy's price exactly when pending, ours, below the cap, signed and accepted; else the first failure in that order |
| `GasBump.WaitWithBumps` | client.go:459-489 | the loop ends in the state of the retry machine, and reports success exactly after a mined wait |
| `GasBump.TurnInOrder` | client.go:467-476 | each turn awaits the latest submission and keeps every recorded event at the right number of bumps |
| `GasBump.RunInOrder` | client.go:459-489 | in every run the j-th submission is the j-th bump of the original, and each wait is for the latest one |
| `GasBump.EventsCarryIterates` | client.go:459-489 | in every run the j-th submission carries the strategy applied j times to every original price |
| `GasBump.RunBounded` | client.go:477-489 | waits and replacement attempts never exceed the turns; none is attempted with bumping disabled |
| `GasBump.TurnCounts` | client.go:459-489 | one wait per turn, and one callback exactly after a retryable time-out |
| `GasBump.WaitsExactly` | client.go:459-489 | the loop waits up to the first outcome that is not a retryable time-out or, when deploying, missing code; at most Retries times (without retries once when decoding, ten times when deploying) |
| `GasBump.FailingLoopWaits` | client.go:1181-1191 | a loop that never succeeds waits Retries times (ten when deploying without retries), with a callback after each time-out, the last included |
| `GasBump.ReplacementsAreTheSameCall` | retry.go:142-188 | every submission keeps nonce, recipient, value, gas and data, and respects the cap; attempts at most Retries |
| `GasBump.NothingAfterTheCap` | retry.go:148-150 | after a refusal for price nothing is submitted any more |
| `GasBump.FeeCapCoversTip` | retry.go:171-186 | no number of bumps lifts the tip above the fee cap |
| `GasBump.PricesNeverFall` | retry.go:155-188 | each replacement pays at least as much as the one before |
| `GasBump.RepeatedBumpsRise` | retry.go:65-101 | j bumps add at least j wei, or end at the largest int64, if the percentage is worth a wei at the start |
| `GasBump.AwaitedExactlyUnlessLastTurnSubmits` | client.go:459-489 | directly after every submission comes a wait for it, if and only if the last turn does not submit |
| `GasBump.LastReplacementIsNotAwaited` | client.go:467-489 | when nothing is mined in time and nothing is refused, the last replacement is never waited for |
| `Congestion.EnoughHeadersExactlyOnLongChains` | gas_adjuster.go:103-129 | with every fetch successful, enough headers arrive if and only if the chain is as long as the request (or at most two blocks are asked for) |
| `Congestion.AskedFor` | gas_adjuster.go:103-108 | newest first, the requested blocks but block 1; none on a shorter chain |
| `Congestion.Collect` | gas_adjuster.go:88-121 | whatever the arrival order, the newest header and each block of the range, the newest one twice |
| `Congestion.CompareOrders` | gas_adjuster.go:149-151 | below 2^63 the wrapped difference orders block numbers |
| `Congestion.SortAscending` | gas_adjuster.go:148-151 | sorting yields ascending block numbers |
| `Congestion.AscendingIsUnique` | gas_adjuster.go:148-151 | the headers of one chain have one ascending order only |
| `Congestion.ArrivalOrderDoesNotMatter` | gas_adjuster.go:94-151 | any two arrival orders sort to the same sequence |
| `Metric.CalculateGasUsedRatio` | gas_adjuster.go:495-510 | the average of the ratios, blocks without a gas limit counting zero |
| `Metric.CalculateNewestFirst` | gas_adjuster.go:147-172 | the weighted average over the sorted headers; infinite or undefined exactly when some block has no gas limit |
| `Metric.PlainAverageGrows` | gas_adjuster.go:495-510 | each block adds its used share of the limit to the average, or nothing without a limit |
| `Metric.NewestFirstBlockByBlock` | gas_adjuster.go:147-172 | times the sum of the weights, the metric is the sum over ascending blocks of used share times the weight of the distance from the newest |
| `Metric.Chebyshev` | gas_adjuster.go:153-171 | values that move with the weights gain, values that move against them lose |
| `Metric.NewestFirstFollowsTheTrend` | gas_adjuster.go:142-172 | over blocks with gas limits, newest-first is at least the plain average when congestion rises, at most when it falls |
| `Metric.NewestFirstLeadsTheTrend` | gas_adjuster.go:147-172 | strictly ahead, or behind, as soon as the oldest and the newest block and their weights differ |
| `Metric.MetricsStayInRange` | gas_adjuster.go:142-172 | both metrics lie between the smallest and the largest block ratio, the newest-first one when every block has a gas limit |
| `Metric.MetricsIgnoreArrivalOrder` | gas_adjuster.go:88-172 | neither metric depends on the arrival order, infinite and undefined values included |
| `Fees.GetSuggestedEIP1559Fees` | gas_adjuster.go:205-306 | the fee pair or the error that applies; the fee cap is at least the tip |
| `Fees.SuggestionFollowsTheLargerTip` | gas_adjuster.go:206-306 | to the wei: the larger tip and the base fee times the documented factors, at the documented thresholds, without a buffer when too few headers arrive |
| `Fees.SuggestionFailsExactly` | gas_adjuster.go:175-296 | unknown priority, then zero base fee, then a failed metric |
| `Fees.FeesAreTheAdjustedHistory` | gas_adjuster.go:258-306 | both fees are base and int64 tip times priority and congestion factor, within 2.4 wei; the int64 tip is the tip exactly below 2^63 |
| `Fees.NegativeTipExactlyWhenItWraps` | gas_adjuster.go:258-260 | the suggested tip is negative if and only if the larger tip wraps to a negative int64 (below -1 for slow) |
| `Fees.LargeTipsWrap` | gas_adjuster.go:258-260 | a tip of 2^63 wei is suggested as a negative one |
| `Fees.FeesFollowPriorityAndCongestion` | gas_adjuster.go:415-484 | a higher priority with its own, higher history, or a fuller chain, never lowers either fee |
| `Fees.SuggestedFeesSurviveBumps` | retry.go:171-186 | suggested fees, unless the tip wrapped, are valid under EIP-1559 and stay so after any number of bumps |
| `HeaderCache.LFUHeaderCache.constructor` | header_cache.go:23-29 | an empty cache |
| `HeaderCache.LFUHeaderCache.Lookup` | header_cache.go:32-42 | the cached header, if any, whose counter goes up by one |
| `HeaderCache.LFUHeaderCache.Store` | header_cache.go:45-65 | nil is refused; else updates, inserts, or evicts the least entry and inserts |
| `HeaderCache.LFUHeaderCache.Evict` | header_cache.go:68-85 | in any order of iteration removes the least entry by frequency, then block number; nothing from an empty cache |
| `HeaderCache.LeastIsUnique` | header_cache.go:72-82 | there is only one least entry, so the order of iteration does not matter |
| `HeaderCache.StepExactly` | header_cache.go:32-65 | a hit counts one more use; a store replaces the header of its block and, while there is room, removes nothing |
| `HeaderCache.LeavesOnlyAsLeast` | header_cache.go:57-85 | an entry leaves only a full cache, for a block not cached, with the least frequency and then block number |
| `HeaderCache.GetHeaderData` | gas_adjuster.go:47-72 | the cached lookup answers what the chain would |
| `HeaderCache.RunAgreesWithChain` | header_cache.go:32-65 | in every interleaving cached headers are the chain's, keys are block numbers, and the size is at most max(1, capacity) |
| `HeaderCache.FrequencyCountsUses` | header_cache.go:36-62 | a counter is one plus the hits and updates since insertion |
| `HeaderCache.LeastUsedLeaves` | header_cache.go:68-85 | in every run what leaves has the fewest uses since insertion, and of those the smallest block number |
| `AbiFinder.ContractStore.GetABI` | contract_store.go:29-39 | lookup under the name with the `.abi` suffix |
| `AbiFinder.ContractStore.AddABI` | contract_store.go:41-50 | stores under the name with the `.abi` suffix |
| `AbiFinder.TrimsExactlyTheSuffix` | contract_map.go:68 | a name loses one `.abi` at its end and nothing else; the store's key is the trimmed name with `.abi` |
| `AbiFinder.SameKeyExactlyForSameAddress` | contract_map.go:36-72 | two addresses share an entry if and only if they differ at most in the case of letters |
| `AbiFinder.ContractMap.IsKnownAddress` | contract_map.go:36-40 | true exactly for addresses with a non-empty name, ignoring case |
| `AbiFinder.ContractMap.GetContractName` | contract_map.go:42-46 | the name stored for the lower-case address |
| `AbiFinder.ContractMap.AddContract` | contract_map.go:63-72 | every spelling of the address now has the trimmed name, every other address what it had; the unknown address is ignored |
| `AbiFinder.Finder.GetDuplicateCount` | abi_finder.go:136-146 | one less than the number of ABIs with the selector |
| `AbiFinder.Finder.AnyHaving` | abi_finder.go:108-126 | some ABI with the selector in any order of iteration, none exactly when there is none |
| `AbiFinder.Finder.FindABIByMethod` | abi_finder.go:38-134 | answers and updates the map as the finder's rules allow |
| `AbiFinder.FailsExactlyWhenNoAbiHasIt` | abi_finder.go:45-131 | a lookup fails if and only if no ABI has the selector, and then changes nothing |
| `AbiFinder.EndsExactlyWith` | abi_finder.go:38-134 | which error or which contract a lookup ends with, for any store and map |
| `AbiFinder.RegisterDeployment` | client.go:1134-1138 | a deployment records its address, and its ABI unless the name is taken |
| `AbiFinder.DeployedIsFound` | client.go:1134-1138 | a deployed contract is found by every method of its ABI, however address and name are spelled |
| `AbiFinder.SuccessRepeats` | abi_finder.go:95-100 | a successful lookup repeats with the same contract and no duplicates |
| `AbiFinder.RightStaysRight` | abi_finder.go:45-100 | in every run an address once mapped to its contract stays mapped to it |
| `AbiFinder.TellingActionSettles` | abi_finder.go:59-83 | after its deployment, or a selector unique to the contract, an address stays mapped to it, in every order of iteration |
| `AbiFinder.RunAway` | abi_finder.go:65-126 | without either, some run from a wrong or missing entry ends with another contract |
| `AbiFinder.SettlesExactlyWithATellingAction` | abi_finder.go:38-134 | from any map the address is sure to become right if and only if it was right, or is deployed to, or some call has a unique selector |
| `AbiFinder.DiverseCallsMayNeverSettle` | docs/abi_finder_contract_map.md:21 | calls that rule out each other ABI may leave the map wrong after any number of them |
| `Funding.FundingDistributesEverything` | util.go:67-95 | the second balance check never fires and less than one wei per key stays undistributed |
| `Funding.SplitsExactlyWhenCovered` | util.go:67-95 | the split is possible if and only if the balance covers the buffer and one int64 fee per key; the shares add up to the rest |
| `Funding.SplitFunds` | client.go:341-349 | after the concurrent transfers, in any order, each key has the funding for each transfer to it and the root has lost that and the fees |
| `Funding.FundsArrive` | client.go:341-349 | a key gains the funding once per transfer to it |
| `Funding.FundsLeaveRoot` | client.go:341-349 | the root loses the funding and the fee of every transfer |
| `Funding.EveryKeyGetsItsShare` | client.go:331-349 | with one transfer per key each ends with exactly its share, and the root with its buffer and the remainder |
| `Funding.ReturnFunds` | keyfile.go:52-99 | the ledger after the returns, for any int64 reserve; keys that cannot pay it are skipped |
| `Funding.MoneyIsConserved` | client.go:341-349 | any sequence of transfers changes the total by exactly the fees |
| `Funding.RootKeepsItsBuffer` | client.go:331-349 | in every order and after every transfer the root key holds at least its buffer |
| `Funding.BufferSurvivesExactlyWithoutOverflow` | util.go:67-70 | the split leaves the buffer alone if and only if the transfer fee fits into int64 |
| `Funding.ReturnIsCovered` | keyfile.go:69-80 | a return overdraws no key if and only if the reserve covers the fee, and empties it when the fee was foreseen exactly |
| `Funding.EveryKeyReturnsItsRest` | keyfile.go:52-99 | with one return per key, in any order, what is above the reserve goes back and a poorer key keeps what it has |
| `Funding.SubsStayCovered` | keyfile.go:52-99 | no ephemeral key is ever overdrawn while fees stay within the reserve |
| `Funding.SplitThenReturn` | keyfile.go:52-99 | after splitting and returning the root has everything but fees and what the keys kept; with affordable fees no key is overdrawn on the way |
| `Pragma.DigitsAreNumbered` | util.go:373-378 | hexadecimal digits of either case have the values 0 to 15 |
| `Pragma.ValueIsPositional` | util.go:373-378 | each digit more makes the value sixteen times as large, plus the digit |
| `Pragma.TrailerIsRead` | util.go:369-434 | a metadata trailer for a version is always decoded to it |
| `Pragma.ReadMeansTrailer` | util.go:369-434 | success implies the trailer, with the version inside the metadata |
| `Pragma.DecodesExactlyTrailers` | util.go:369-434 | a version is decoded if and only if the bytecode ends in a trailer for it |
| `Pragma.RejectsExactly` | util.go:369-434 | which rejection an input ends with: length, marker, compiler, version, in that order |
| `Pragma.RejectsLongLength` | util.go:384-386 | a length beyond the bytecode is reported as missing metadata |
| `Pragma.PanicsExactly` | util.go:370-400 | the inputs on which slicing leaves the string |
| `Pragma.DecodeUndoesEncode` | util.go:369-434 | decoding undoes the compiler's trailer for every prefix, metadata and version |

## Left out

- RPC, signing, key generation, HTTP transport, logging, configuration, the CLI and generated bindings: foreign calls and I/O.
- ABI unpacking and event parsing: library code; whether the n-th `decodeCall` succeeds is an arbitrary input. `DecodeTrace` without a contract store returns an empty list and is not modelled.
- `findShortestPath` also fills a map it never reads (dot_graph.go:17-20); labels, colours, the start, end and revert nodes of the drawing would only add easy members.
- `TraceDecoder.Run.ProcessCall`: the loop body of `processCallsFn` as a method of its own; the source has it inline.
- `CallTrace`: a slice of calls is a list read from the front; indexing into it does not occur in the source.
- `TraceGraph.PathExactlyToDecodedCalls`: assumes selectors in lower-case hex and 4byte rows that do not look like bare selectors, as nodes report them; for other selectors `NormHexFixpoint` says when a parent's signature is no longer found. `TraceAndDraw` needs the lower case for its path only.
- `KeyPool`: appends to `Client.Errors` are atomic steps here, although goroutines append without the lock (nonce.go:146); int64 and uint64 nonces do not wrap.
- `KeyNonces.RunKeepsNonces`: assumes that each hand-out uses at most one nonce and that nothing else sends from a pooled key; `ReturnFunds` does send from them through `NextNonce`.
- `KeyNonces.RefillMayRepeatExactlyWhenOwed`: speaks of the nonce the pool records with a key; a transaction is sent with the pending nonce the node reports (client.go:858), and pending-nonce protection (client.go:920) may refuse it.
- `GasBump`: access-list and blob transactions. The access-list case drops the bumped price (retry.go:221-228) and the blob case truncates to 64 bits (retry.go:204-208). The dynamic-fee case does not copy the access list, so that field is not among the preserved ones.
- `GasBump.NothingAfterTheCap`: for strategies whose result depends on the old price alone; a strategy that asks an oracle may be accepted again later.
- `Congestion.Collect`: runs in which every fetch succeeds; a failed fetch returns without marking the wait group done (gas_adjuster.go:110-117).
- `Congestion.SortAscending`: block numbers below 2^63; above, the comparison wraps around and is no order.
- `Metric.CalculateNewestFirst`: weights are any positive numbers that never favour an older block, which 1 / log10(distance + 10) is one of; finite sums are exact.
- `Fees.GetSuggestedEIP1559Fees`: the fee-equalizer experiment, and float rounding of the factors; historical fees are not negative, and one of 2^63 or more, whose conversion Go leaves open, becomes the smallest int64 as on amd64.
- `Fees.FeesFollowPriorityAndCongestion`: tips below 2^63; a larger one may wrap, as `LargeTipsWrap` shows.
- `HeaderCache.LFUHeaderCache.Store`: requires counters below the largest int and keys that are block numbers, which `FrequencyCountsUses` and `RunAgreesWithChain` show for every run of fewer than 2^63 - 2 operations.
- `AbiFinder`: contract maps loaded from a file, whose keys are checksummed while lookups lower-case (contract_map.go:113-116); names with an empty base; looking up an address by name. Over a run the store is fixed and already holds the ABIs that deployments add, and addresses are not spelled like the placeholder `unknown`.
- `Funding.RootKeepsItsBuffer`: at least one key, and no overflow of the fee; with overflow `BufferSurvivesExactlyWithoutOverflow` shows the buffer is lost.
- `EtherToWei` and `WeiToEther`, block statistics, legacy fee suggestion, deployment-error rewriting and the client builder: easy, or decided by library formatting.
