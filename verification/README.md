# Verified models of the ZEAM node's stateful cores

ZEAM is a node that gossips forks, prices and content over Ethereum's peer-to-peer layer, schedules
arbitrage, and manages identities with delegations, rotations and recoveries. This project models the
parts of it whose correctness depends on an invariant that has to survive every run, one module per
component, and proves those invariants and what follows from them.

| file | component |
|---|---|
| Delegations.dfy | the delegation tree: sub-delegation, cascading revocation, use, chain verification |
| PriorityHeap.dfy, ExpirySweep.dfy, OpportunityQueue.dfy | the opportunity scheduler: `container/heap` on a slice with back-pointers, eviction, expiry sweep |
| Pong.dfy | the step function of the game: 16-bit arithmetic, walls, paddles, scoring |
| Positions.dfy, LockBrackets.dfy | the position ledger, the greedy rebalance planner, and workers locking positions concurrently |
| Merkle.dfy, Membership.dfy | building and checking Merkle membership proofs, and which strings have one |
| ForkSync.dfy | the block encoding and the request/answer exchange that synchronises a fork |
| Prices.dfy | one verified price report per signer and their median |
| ContentDag.dfy | content-addressed chunks, missing chunks, and fetching them from providers |
| Engrams.dfy, Pathways.dfy | associative memory and its inverted indexes |
| Flow.dfy | the mempool entropy pool, ring and byte stream |
| Rotation.dfy | continuity proofs, key rotation, time-locked recovery, chain verification |
| Recovery.dfy | social, time-locked and phrase recovery of ownership |
| Presigned.dfy | the nonces and the cache of pre-signed transactions |
| Calldata.dfy | the V2 and V3 swap calldata builders against the mempool parser |
| Bytes.dfy, Common.dfy | big-endian numbers; Option and Result |

Conventions. A method that holds a mutex is one atomic step. The clock is a parameter, read once per
call. `big.Int` is `int`; fixed-width integers are reduced explicitly where the code depends on their
width. Signatures are ideal: recovering the signer succeeds only for the message that was signed.
Hashes are function parameters; freedom from collisions is assumed only of the strings a statement
talks about. Identifiers that the code obtains by hashing a record are represented by that record.
Map iteration takes an arbitrary order. A run-time panic is a value of the result (`Panic`, `crashed`,
`None`, `ok == false`), and a loop or recursion that would not end is excluded by a precondition, with
an exact condition for it beside.

Some properties that the code suggests turn out not to hold. Each is kept as the code has it, with a
concrete instance first and the exact condition under which it does hold after it:

- Identifiers of delegations omit the parent, so two hand-overs between the same parties in one second
  share one. A parent cycle can result (`SameSecondCycle`, `WalksStopIff`), and a child can outlive
  what it hangs from (`OverwriteBreaksChain`, `RootKeepsInvIff`, `SubKeepsInvIff`).
- A negative expiry escapes the cap that a bounded parent imposes (`NegativeExpiryEscapes`,
  `ExpiryCappedIff`).
- The expiry sweep of the scheduler can take a live item in place of an expired one
  (`SweepTakesLiveItem`, `SweepLeavesLiveIff`).
- The Merkle checker looks at no length and the tree is padded, so strings that are not members are
  provable (`PairIsProvable`, `PrefixIsProvable`, `EmptyIsProvable`, `ProvableIff`).
- Removing an engram whose concept hashes repeat can abort (`RepeatedConceptAborts`, `StrikesSafeIff`,
  `AnyOrderSafeIff`).
- An executed or cancelled recovery can be opened again (`SocialExecutesTwice`, `ReopensIff`).
- The nonce counter wraps around, and then nonces can repeat (`TwoWithOneNonce`, `RepeatsIff`,
  `RepeatNeedsWrap`).
- The calldata parser truncates offsets to 64 bits and accepts what the ABI refuses
  (`TruncatedOffsetAccepted`, `AcceptedIsAbiIff`).
- Block encodings lose long payloads and signatures to truncated length fields (`LongSignatureLost`,
  `BlockRoundTripIff`, `DeliveredIff`).

## Model

| member | source | states |
|---|---|---|
| `Delegations.LocalValidityImpliesChain` | identity/delegation.go:137-153 | in every state the manager keeps, a delegation that passes its own validity check has an ancestor chain that is valid, linked and unbroken from the root on |
| `Delegations.ChainVerifiesIffLocal` | identity/delegation.go:461-484 | verifying the whole chain accepts exactly when the local check of its last member does, at every instant |
| `Delegations.ChainIsAncestors` | identity/delegation.go:442-459 | the chain of a delegation contains exactly the delegations it descends from |
| `Delegations.CanRevokeIffAncestor` | identity/delegation.go:354-368 | the upward walk authorises exactly the delegators of some member of the chain |
| `Delegations.ExpiryCappedIff` | identity/delegation.go:171-205 | a child's validity window lies inside its parent's exactly if a bounded parent is not given a negative expiry |
| `Delegations.NegativeExpiryEscapes` | identity/delegation.go:176-178 | a child of a delegation bounded for ten seconds that never expires |
| `Delegations.RootKeepsInvIff` | identity/delegation.go:247-292 | storing a root keeps the tree, the child lists, downward-closed revocation, signatures and rate limits consistent exactly if its identifier is fresh, or was that of a root whose children lie within the new one |
| `Delegations.SubKeepsInvIff` | identity/delegation.go:294-332 | storing a sub-delegation keeps all of that exactly if its expiry is within the cap's reach and its identifier is fresh, or hung nowhere else and its children lie within the new record; depth and expiry only shrink along the tree |
| `Delegations.OverwriteBreaksChain` | identity/delegation.go:247-292 | a root replaced within its second leaves a child that passes its own check below a root that does not |
| `Delegations.MarkedKeepsInv` | identity/delegation.go:334-378 | marking a whole subtree as revoked keeps all of that |
| `Delegations.MarkedTerms` | identity/delegation.go:207-212 | marking changes exactly the records of the set, and in them only the mark, its time and who set it |
| `Delegations.RootTerms` | identity/delegation.go:247-292 | the fields of a root, and that it is valid exactly from now to its expiry |
| `Delegations.SubTerms` | identity/delegation.go:171-205 | the fields of a sub-delegation: signed by the parent's delegate, one level down, on the parent's right, stream and scope, capped by a bounded parent, with the parent's policy or an empty one |
| `Delegations.RevokedTerms` | identity/delegation.go:207-212 | a revoked record is never valid and otherwise unchanged |
| `Delegations.TriedCounters` | identity/delegation.go:405-426 | within its hour or day a counter goes on from its old value, at the end and not before it starts again, and a use is refused exactly if a counter that holds now has reached a positive limit |
| `Delegations.PeriodBudget` | identity/delegation.go:405-426 | however often it is tried, before the end of an hour or day no more uses are admitted than its limit leaves |
| `Delegations.RunBudget` | identity/delegation.go:405-426 | over any run at most one limit per hour or day begun is admitted |
| `Delegations.SubtreeViaChildren` | identity/delegation.go:370-378 | a subtree is its root together with the subtrees listed for its children |
| `Delegations.TreeBottomed` | identity/delegation.go:370-378 | in a valid registry following the child lists down ends within the delegation depth |
| `Delegations.ListingIsSubtrees` | identity/delegation.go:370-378 | and what is listed, level by level, is exactly the subtrees |
| `Delegations.WalksStopIff` | identity/delegation.go:81-91 | storing a child under an identifier keeps every chain walk terminating exactly if that identifier is not already on its parent's chain |
| `Delegations.SameSecondCycle` | identity/delegation.go:81-91 | four permitted calls in one second create a parent cycle on which the chain walk never ends |
| `Delegations.DelegationManager.constructor` | identity/delegation.go:236-245 | a new manager satisfies the invariant |
| `Delegations.DelegationManager.CreateDelegation` | identity/delegation.go:247-292 | in any state, stores the signed root and its tracker; a valid registry stays valid exactly if the root fits |
| `Delegations.DelegationManager.CreateSubDelegation` | identity/delegation.go:294-332 | in any state, the three refusals, the new registry, child list and tracker; a valid registry stays valid exactly if the sub-delegation fits |
| `Delegations.DelegationManager.RevokeDelegation` | identity/delegation.go:334-352 | succeeds exactly for the delegator of the delegation or of something above it, and then revokes exactly what is listed below, which in a valid registry is the subtree; called where the walks up and down end, as they do in a valid registry |
| `Delegations.DelegationManager.GivenBy` | identity/delegation.go:354-368 | the recursion up the parent links finds exactly the delegators above |
| `Delegations.DelegationManager.RevokeSubDelegations` | identity/delegation.go:370-378 | in any registry whose child lists end, the recursive cascade marks exactly what is listed below |
| `Delegations.DelegationManager.CheckAndUse` | identity/delegation.go:380-427 | in any state, the refusals in order, each exactly when it applies, and the counters and reset times after an admitted or refused use, in field terms; in a valid registry limits are never exceeded and success implies a valid ancestor chain |
| `Delegations.DelegationManager.GetDelegationChain` | identity/delegation.go:442-459 | where the walk ends, as it always does in a valid registry, returns the records met from the root down, or nothing for an unknown identifier |
| `Delegations.DelegationManager.VerifyDelegationChain` | identity/delegation.go:461-484 | accepts exactly if the records met on the walk verify as a chain |
| `PriorityHeap.RemoveAtKeepsHeap` | arb/opportunity_queue.go:43-73 | removing a slot with sift-down or sift-up leaves a heap of exactly the other items |
| `PriorityHeap.PushKeepsHeap` | arb/opportunity_queue.go:58-63 | pushing leaves a heap of the items and the new one |
| `PriorityHeap.FixKeepsHeap` | arb/opportunity_queue.go:294-307 | restoring order after a changed priority leaves a heap with that one item replaced |
| `PriorityHeap.RootIsBest` | arb/opportunity_queue.go:43-50 | every item of a heap has a lower priority than its root, or the same and was detected no earlier |
| `ExpirySweep.SlotBound` | arb/opportunity_queue.go:222-228 | a collected slot is still inside the heap when its turn comes |
| `ExpirySweep.SweepKeepsHeap` | arb/opportunity_queue.go:215-228 | the sweep leaves a heap and loses only what it takes out |
| `ExpirySweep.SweptTerms` | arb/opportunity_queue.go:215-228 | the slots collected are those past their expiry, and as many items are removed |
| `ExpirySweep.Origin` | arb/opportunity_queue.go:222-228 | where the item comes from that each slot holds after a removal |
| `ExpirySweep.SlotDisturbedIff` | arb/opportunity_queue.go:222-228 | emptying a slot changes the item of a lower slot exactly if that slot is above it and the moved item precedes it |
| `ExpirySweep.SweepExactIff` | arb/opportunity_queue.go:215-228 | the sweep takes out exactly the items it collected, as a multiset, if and only if no removal disturbs a slot still waiting |
| `ExpirySweep.SweepLeavesLiveIff` | arb/opportunity_queue.go:215-228 | no expired item is left behind, and equally no live one is taken, if and only if no removal disturbs a slot still waiting |
| `ExpirySweep.TrapTakesUnmarked` | arb/opportunity_queue.go:222-228 | once a live item stands in a waiting slot, before every expired item that does not, later removals keep it so until a live item is taken |
| `ExpirySweep.SweepTakesLiveItem` | arb/opportunity_queue.go:215-228 | a heap of seven on which a live item is taken instead of an expired one |
| `OpportunityQueues.OpportunityQueue.constructor` | arb/opportunity_queue.go:91-110 | a new queue is empty and consistent |
| `OpportunityQueues.OpportunityQueue.Enqueue` | arb/opportunity_queue.go:112-154 | the exact refusals; an evicted item has strictly lower priority than its replacement; heap, indexes, identifier map, size bound and the count of items are kept |
| `OpportunityQueues.OpportunityQueue.Dequeue` | arb/opportunity_queue.go:156-177 | after time-outs and sweep, hands out an item such that every remaining one has lower priority, or the same and was detected no earlier; records it as executing, never beyond the concurrency bound |
| `OpportunityQueues.OpportunityQueue.RemoveExpired` | arb/opportunity_queue.go:204-229 | which executions time out, by their starting times; the swept heap, as many removals as items past their expiry, and exactly when none of these is left |
| `OpportunityQueues.OpportunityQueue.TimeOut` | arb/opportunity_queue.go:207-213 | ends exactly the executions that have run longer than the timeout and starts their cooldown |
| `OpportunityQueues.OpportunityQueue.MarkComplete` | arb/opportunity_queue.go:190-202 | the execution ends and its cooldown starts, the invariant is kept |
| `OpportunityQueues.OpportunityQueue.UpdatePriority` | arb/opportunity_queue.go:294-307 | exactly the named item changes priority and the heap, back-pointers and identifier map stay consistent |
| `OpportunityQueues.OpportunityQueue.Remove` | arb/opportunity_queue.go:309-322 | exactly the named item leaves; enqueued equals queued plus dequeued plus expired plus removed |
| `OpportunityQueues.OpportunityQueue.SiftDown` | arb/opportunity_queue.go:43-56 | the in-place loop, with its back-pointer updates, computes the functional sift-down |
| `OpportunityQueues.OpportunityQueue.SiftUp` | arb/opportunity_queue.go:43-56 | the in-place loop computes the functional sift-up |
| `OpportunityQueues.OpportunityQueue.HeapRemove` | arb/opportunity_queue.go:52-73 | removal by slot returns that slot's item and keeps every item's back-pointer right |
| `Pong.EveryGameKeepsInv` | pong/pong.go:100-204 | in every game: horizontal speed 1 to 8, ball on the field, in front of the side it leaves, vertical position 0 to 124, vertical speed at most 100, paddles on the field, game over exactly at one score of 11 |
| `Pong.StepKeepsInv` | pong/pong.go:100-190 | each tick keeps that invariant for all inputs and hashes |
| `Pong.BounceAffordable` | pong/pong.go:139-146 | a wall bounce that speeds the ball up has been paid for by horizontal progress |
| `Pong.SpeedBound` | pong/pong.go:139-146 | one crossing of the field is too short for a vertical speed above 100 |
| `Pong.NoTunnelling` | pong/pong.go:148-173 | a step to or past a paddle's edge lands in the zone where the hit test runs |
| `Pong.ScoringStep` | pong/pong.go:175-190 | a point exactly when the ball leaves the field, at most one per tick, none after the game |
| `Pong.NextState` | pong/pong.go:100-204 | the field-by-field update computes the staged step and keeps legal states legal |
| `Pong.GoArithmetic` | pong/pong.go:127-155 | 16-bit results are congruent and in range, and division leaves a remainder of the dividend's sign |
| `Pong.PaddleTick` | pong/pong.go:110-125 | up and down move a paddle by six, the hash by at most one, and the field stops it |
| `Pong.PaddlesTick` | pong/pong.go:110-125 | each paddle follows its own player and its own byte of the hash |
| `Pong.FlightTick` | pong/pong.go:127-146 | the ball moves by its speed, which changes by at most one across the field, and is reflected by the walls |
| `Pong.LeftHit` | pong/pong.go:148-160 | exactly where a ball is hit by the left paddle, and where it goes, how fast and with what spin |
| `Pong.RightHit` | pong/pong.go:162-175 | likewise for the right paddle |
| `Pong.ServeTick` | pong/pong.go:192-204 | the serve from the middle towards the scorer, never level |
| `Positions.PlanTransfers` | arb/positions.go:289-323 | for every order of imbalances: no deviation passes zero, totals per token are conserved, trades account exactly for the change, each is at least the minimum and from a chain that held too much to one that held too little, no improvable pair is left, and fewer trades than imbalances per token |
| `Positions.TransferKeepsPlanning` | arb/positions.go:294-322 | one transfer keeps all of that and settles its pair |
| `Positions.PositionManager.GetRebalancePlan` | arb/positions.go:255-326 | plans for exactly the positions that deviate by at least the minimum, with those guarantees |
| `Positions.PositionManager.constructor` | arb/positions.go:42-72 | everything available, nothing locked, targets equal to the initial amounts |
| `Positions.PositionManager.Lock` | arb/positions.go:126-143 | succeeds exactly if the position exists with enough available and moves the amount to locked |
| `Positions.PositionManager.Unlock` | arb/positions.go:145-156 | moves the amount back, or does nothing for an unknown position |
| `Positions.PositionManager.AdjustAfterTrade` | arb/positions.go:167-195 | the ledger after a trade, including the creation of a missing output position |
| `Positions.UnlockUndoesLock` | arb/positions.go:126-156 | unlocking after locking restores the ledger |
| `Positions.TradedKeepsBalance` | arb/positions.go:167-195 | a trade keeps amount equal to available plus locked |
| `Positions.TradedSolventIff` | arb/positions.go:167-195 | it keeps the parts non-negative exactly if its input was locked beforehand |
| `Positions.TradedTotals` | arb/positions.go:167-195 | over all chains, a trade lowers the total of its input token by the input, if a position is there to pay it, and raises that of its output token by the output |
| `Positions.LockedTotals` | arb/positions.go:126-156 | locks and unlocks leave every total alone |
| `LockBrackets.StepKeepsInv` | arb/executor.go:230-333 | every atomic step of every worker keeps the ledger exact and the amounts unchanged |
| `LockBrackets.EveryRunKeepsInv` | arb/executor.go:230-333 | for any number of workers and any interleaving, locked is exactly the sum of outstanding locks |
| `LockBrackets.EveryRunSolvent` | arb/executor.go:230-333 | amount equals available plus locked and neither is negative, at every moment |
| `LockBrackets.ExecutingHoldsItsLocks` | arb/executor.go:230-333 | in every run a worker that executes holds exactly one lock on its buying position, and for a cross-chain job a second of the same amount on its selling position |
| `LockBrackets.StepLedger` | arb/executor.go:230-333 | what each step does to the ledger: a lock that fits, one that does not, an unlock, and nothing otherwise |
| `LockBrackets.StepPhases` | arb/executor.go:230-333 | the amount a worker asks for, when it does nothing, and the order of its locks, execution and unlocks |
| `LockBrackets.FinishedRunReleasesAll` | arb/executor.go:230-333 | once all workers have finished, by whatever exit, the ledger is what it was |
| `LockBrackets.UnwindFinishes` | arb/executor.go:230-333 | a worker that leaves by any path gives all its locks back in as many steps as it holds locks, plus one |
| `Merkle.PathLeadsToRoot` | identity/disclosure.go:372-440 | for every leaf, folding its path leads to the root |
| `Merkle.RootOfHalves` | identity/disclosure.go:391-416 | seen from the top, the root is the hash of the roots of the left and the right half |
| `Merkle.FoldStep` | identity/disclosure.go:419-430 | the checker joins a sibling on the right for true and on the left for false |
| `Merkle.DirectionAt` | identity/disclosure.go:394-407 | step k has its sibling on the right exactly if bit k of the leaf number is zero |
| `Merkle.PadMinimal` | identity/disclosure.go:377-383 | the leaves are padded to less than twice their number |
| `Merkle.AcceptedIsLeaf` | identity/disclosure.go:419-440 | without collisions, an accepted full-length proof has the very leaf at the position its directions encode and the very path of that leaf |
| `Membership.AcceptedIsNode` | identity/disclosure.go:419-440 | an accepted proof of any length up to the height of the tree has the very node its directions point at, that many steps below the root, and its path |
| `Merkle.PositionOfDirections` | identity/disclosure.go:394-407 | directions encode the leaf number |
| `Merkle.DirectionsOfPosition` | identity/disclosure.go:394-407 | and every direction list of full length encodes one |
| `Membership.ProvableIff` | identity/disclosure.go:419-440 | exactly these have an accepted proof of whatever length: the members, the empty string when the set size is not a power of two, every concatenation of two neighbouring nodes, and what folds to a digest that a member begins or ends with |
| `Membership.FullLengthProvableIff` | identity/disclosure.go:306-370 | with the length checked only the first two remain |
| `Membership.PairIsProvable` | identity/disclosure.go:419-440 | of two members, the concatenation of their hashes is accepted with the empty proof |
| `Membership.PrefixIsProvable` | identity/disclosure.go:419-440 | a member that begins with the hash of a string makes that string provable |
| `Membership.EmptyIsProvable` | identity/disclosure.go:377-383 | among three members the empty string is provable |
| `Merkle.ComputeMerkleProof` | identity/disclosure.go:372-417 | the level-by-level loop returns root, path and directions of the padded tree, of logarithmic length |
| `Merkle.VerifyMerkleProof` | identity/disclosure.go:419-440 | accepts exactly if the running digest ends at the root, and panics exactly with fewer directions than path elements |
| `Membership.CreateMembershipProof` | identity/disclosure.go:306-336 | fails exactly for non-members; its proof is that of the first occurrence and is accepted |
| `ForkSync.BlockRoundTripIff` | node/transport_p2p.go:448-524 | an encoded block followed by anything parses back to itself and its length exactly if payload and signature lengths fit their fields and the parser's 32-bit sum |
| `ForkSync.LongSignatureLost` | node/transport_p2p.go:471-474 | a block with a signature of 2^16 bytes does not survive |
| `ForkSync.ParsedIsEncodable` | node/transport_p2p.go:481-524 | whatever the parser returns has such lengths |
| `ForkSync.ParsedReencodes` | node/transport_p2p.go:448-524 | encoding what was parsed gives back exactly the bytes that were read |
| `ForkSync.ParseOutcome` | node/transport_p2p.go:481-524 | which data is parsed, which rejected, and which payload lengths make the parser panic |
| `ForkSync.BlocksRoundTrip` | node/transport_p2p.go:274-333 | concatenated encodings parse back to the same list |
| `ForkSync.BlocksBelowExact` | node/transport_p2p.go:97-120 | exactly the cached blocks of a fork, in strictly increasing height |
| `ForkSync.InsertAllLookup` | node/transport_p2p.go:77-95 | what caching a list of blocks does to each entry |
| `ForkSync.SyncRoundTrip` | node/transport_p2p.go:406-422 | a block list put into a sync message is taken out unchanged |
| `ForkSync.RequestLayout` | node/transport_p2p.go:395-404 | the bytes of a request: magic, version, type, fork and height |
| `ForkSync.SyncLayout` | node/transport_p2p.go:406-422 | the bytes of an answer: magic, version, type, fork, number of blocks, blocks |
| `ForkSync.ServeIff` | node/transport_p2p.go:274-302 | a message is answered exactly if it is a whole request and a block is cached at or above its height; the answer holds exactly those blocks by increasing height |
| `ForkSync.SyncDelivers` | node/transport_p2p.go:274-333 | a peer answers exactly if it has a block at or above the height, and if the blocks it sends are encodable the requester then holds each of them unchanged and everything else as before |
| `ForkSync.DeliveredIff` | node/transport_p2p.go:274-333 | a requester that held nothing ends up with all those blocks exactly if they are encodable and fewer than 2^32 |
| `ForkSync.EncodeForkBlockForSync` | node/transport_p2p.go:448-479 | the buffer filled by index loops is the block's encoding, with every field at its offset and the two lengths modulo 2^32 and 2^16 |
| `ForkSync.ForkCache.constructor` | node/transport_p2p.go:71-75 | an empty cache |
| `ForkSync.ForkCache.Add` | node/transport_p2p.go:77-85 | the block is stored under its fork and height and every other entry is as before |
| `ForkSync.ScanEndsIff` | node/transport_p2p.go:106-118 | the loop over heights ends exactly if no block is cached at height 2^64-1 |
| `ForkSync.ForkCache.GetForkBlocks` | node/transport_p2p.go:97-120 | where that loop ends, the two loops return the cached blocks by increasing height |
| `ForkSync.ForkCache.HandleForkRequest` | node/transport_p2p.go:274-302 | the answer sent, and exactly when there is one |
| `ForkSync.ForkCache.HandleForkSync` | node/transport_p2p.go:303-333 | the cache after a sync message, including malformed ones and a panic half-way |
| `Prices.MajorityRules` | node/price_gossip.go:401-419 | values of a strict majority in a range pull the median into it, for odd and even counts |
| `Prices.HalfIsNotEnough` | node/price_gossip.go:401-419 | half of the values is not enough |
| `Prices.MedianOrderFree` | node/price_gossip.go:401-419 | the median does not depend on the order of the values |
| `Prices.MedianOfSorted` | node/price_gossip.go:401-419 | the median is the middle of the sorted values, or the floored mean of the two in the middle |
| `Prices.ByBlockKeeps` | node/price_gossip.go:317-366 | sorting by block keeps the reports and puts the newest first |
| `Prices.AggregateRobust` | node/price_gossip.go:317-366 | whenever more than half of the fresh reports lie in a range, so does the aggregate; the block number is the newest |
| `Prices.AggregateTerms` | node/price_gossip.go:317-366 | there is an aggregate exactly if a report is younger than the maximum age, and its sources are the signers of those reports |
| `Prices.SignersRule` | node/price_gossip.go:317-366 | in a list with one report per signer, whenever more than half of the signers with a fresh report put a reserve into a range, so does the aggregate |
| `Prices.ReplaceKeepsPool` | node/price_gossip.go:296-304 | replacing a signer's report keeps one verified report per signer |
| `Prices.ReplacedMembers` | node/price_gossip.go:296-304 | after a report the list has it and the old reports of the other signers |
| `Prices.PriceAggregator.constructor` | node/price_gossip.go:262-272 | an empty aggregator |
| `Prices.PriceAggregator.AddUpdate` | node/price_gossip.go:274-315 | the two rejections, the new pool list, and what is published |
| `Prices.PriceAggregator.GetPrice` | node/price_gossip.go:421-435 | none exactly if no stored report is younger than the maximum age; otherwise its sources are the signers of those that are, and it agrees with every majority of them |
| `Prices.PriceAggregator.Prune` | node/price_gossip.go:437-459 | every pool keeps exactly its reports younger than twice the maximum age, and the number of the others is returned |
| `ContentDag.NodeRoundTrip` | content/dag.go:132-182 | leaves and internal nodes decode to what they were built from |
| `ContentDag.NodeLayout` | content/dag.go:132-148 | the bytes of a leaf and of an internal node: type, size, a child every 32 bytes |
| `ContentDag.DecodedReencodes` | content/dag.go:150-182 | which bytes decode, with which error the others are refused, and that a node is the encoding of what it decodes to |
| `ContentDag.FlattenPieces` | content/dag.go:49-59 | the pieces of the data concatenate to the data |
| `ContentDag.PieceAt` | content/dag.go:49-59 | piece i starts at i times the chunk size and is that long, or reaches to the end |
| `ContentDag.NodesTerms` | content/dag.go:37-63 | the nodes of some content byte by byte: a single leaf, or the leaves of its pieces and a root with the size and the identifiers of the leaves in order |
| `ContentDag.ReadableIffNothingMissing` | content/dag.go:65-130 | for the root of some content in a store that may hold only part of it, nothing is missing exactly if reading succeeds, and reading then returns the content |
| `ContentDag.EveryRootReadsBack` | content/dag.go:37-89 | after any run of additions, without collisions, every earlier root reads back its bytes |
| `ContentDag.PutAllElse` | content/dag.go:37-63 | adding content changes no identifier but those of its nodes |
| `ContentDag.FetchReturnsContent` | content/protocol.go:193-235 | with honest providers a fetch returns nothing but the content, and does return it exactly if every node is at hand or offered |
| `ContentDag.FetchGains` | content/protocol.go:193-235 | whoever the providers are, a fetch replaces nothing in the store, and what it adds is the first answer for its identifier |
| `ContentDag.MissingAreNodes` | content/dag.go:108-130 | what is missing are nodes of the content, and with the root at hand every absent node is named |
| `ContentDag.DepthFree` | content/dag.go:65-89 | a read that does not hit the depth bound gives the same result for every greater bound, hence that of the unbounded recursion |
| `ContentDag.FetchDepthFree` | content/protocol.go:193-235 | so does a fetch whose reads do not hit it |
| `ContentDag.DAGBuilder.constructor` | content/dag.go:27-35 | the default chunk size for a non-positive one |
| `ContentDag.DAGBuilder.Put` | content/store.go:66-72 | stores under the hash |
| `ContentDag.DAGBuilder.Add` | content/dag.go:37-63 | refuses empty content; otherwise stores exactly the content's nodes and returns its root |
| `ContentDag.DAGBuilder.FetchContent` | content/protocol.go:193-235 | the nested loops over chunks and providers compute the fetch, with all its failures |
| `Engrams.CountMatches` | memory/engrams.go:193-198 | the table built from the inverted index equals a full scan of every engram's hash positions, and names only stored engrams |
| `Engrams.ScanOneMore` | memory/engrams.go:193-198 | one more input hash adds as many matches as its occurrences |
| `Engrams.ScanExtremes` | memory/engrams.go:184-226 | an engram matches in full exactly if every hash of it is asked for, and at all exactly if one is |
| `Engrams.OwnConceptsMatch` | memory/engrams.go:150-157 | asking for a concept of an engram matches it, asking for all of them matches it in full |
| `Engrams.AddKeepsAgreement` | memory/engrams.go:151-173 | storing an engram keeps index and engrams in agreement |
| `Engrams.RemoveKeepsAgreement` | memory/engrams.go:347-367 | so does removing one |
| `Engrams.FadeKeepsAgreement` | memory/engrams.go:376-384 | so does fading all of them |
| `Engrams.StrikesSafeIff` | memory/engrams.go:347-367 | taking an engram off the index does not abort exactly if no hash it repeats is its alone |
| `Engrams.RepeatedConceptAborts` | memory/engrams.go:353-360 | a memory whose only engram repeats a hash cannot drop it |
| `Engrams.AnyOrderSafeIff` | memory/engrams.go:386-389 | removing a set of engrams aborts in no order exactly if each of them is removable last |
| `Engrams.NoRepeatsSafe` | memory/engrams.go:386-389 | which holds whenever no engram repeats a concept |
| `Engrams.WeakestFirst` | memory/engrams.go:333-344 | the pruned engrams are none stronger than a kept one |
| `Engrams.EngramMemory.constructor` | memory/engrams.go:51-64 | an empty, consistent memory |
| `Engrams.EngramMemory.Store` | memory/engrams.go:119-182 | reinforces or creates and indexes, field by field; a new engram that is kept answers to each of its concepts and in full to all of them; the size never exceeds the maximum, what is pruned scores no more than what is kept, and pruning aborts exactly if the order of equal scores makes a removal abort |
| `Engrams.EngramMemory.PruneWeakest` | memory/engrams.go:319-345 | removes a tenth, at least one, the weakest by decayed strength, and aborts exactly if its order makes a removal abort |
| `Engrams.EngramMemory.RemoveEngram` | memory/engrams.go:347-367 | removes the engram and all its listings, or aborts exactly if it is not removable |
| `Engrams.EngramMemory.Resonate` | memory/engrams.go:184-226 | exactly the engrams with enough matches and score, best first, each with its scan count |
| `Engrams.EngramMemory.Decay` | memory/engrams.go:369-392 | fades every engram, keeps exactly those whose faded strength reaches the minimum, and counts the others; aborts exactly if the order they come up in makes a removal abort, and in no order if each is removable last |
| `Pathways.KeyInjective` | memory/pathways.go:98-105 | pathway keys of fixed-length hashes are unambiguous |
| `Pathways.NoDuplicates` | memory/pathways.go:107-139 | no key is listed twice under a source |
| `Pathways.AddKeepsAgreement` | memory/pathways.go:116-127 | creating a pathway keeps every source listing exactly its live pathways, each once |
| `Pathways.RemoveKeepsAgreement` | memory/pathways.go:264-279 | so does removing one, whose list is never empty |
| `Pathways.PathwayMemory.constructor` | memory/pathways.go:44-57 | an empty, consistent memory |
| `Pathways.PathwayMemory.Strengthen` | memory/pathways.go:107-139 | creates or reinforces exactly the pathway of the two words, field by field, up to the maximum strength |
| `Pathways.PathwayMemory.GetOutgoingPathways` | memory/pathways.go:166-187 | exactly the live pathways of the word, each once, with faded strengths; the lookup never misses |
| `Pathways.PathwayMemory.Decay` | memory/pathways.go:247-282 | fades every pathway, removes exactly those below the minimum, and counts them |
| `Flow.PackXor` | node/flow_harvester.go:50-72 | byte by byte, folding packed little-endian words is the exclusive or of the bytes |
| `Flow.XorConcat` | node/flow_harvester.go:40-91 | the pool of two batches is the exclusive or of their pools: order and batching do not matter, and a hash seen twice leaves no trace |
| `Flow.MixPool` | node/flow_harvester.go:50-72 | the word-wise loop folds a hash into the pool bytewise |
| `Flow.SlotOf` | node/flow_harvester.go:124-127 | the backward index arithmetic finds the slot of the k-th newest hash |
| `Flow.MempoolFlow.constructor` | node/flow_harvester.go:29-38 | an empty history and a ring of at least 32 |
| `Flow.MempoolFlow.Ingest` | node/flow_harvester.go:40-91 | the pool is the exclusive or of all hashes since the last harvest and the ring holds the latest ones |
| `Flow.MempoolFlow.Harvest` | node/flow_harvester.go:101-111 | returns the hash of that pool and clears it, leaving the history |
| `Flow.MempoolFlow.RecentHashes` | node/flow_harvester.go:113-130 | the last n ingested hashes, newest first, as far as ring and history reach |
| `Flow.FlowCompute.constructor` | node/flow_harvester.go:148-154 | an empty buffer |
| `Flow.FlowCompute.RefillBuffer` | node/flow_harvester.go:156-159 | appends one hash of the pool to the stream |
| `Flow.FlowCompute.NextBytes` | node/flow_harvester.go:161-193 | whatever is ingested or harvested between its refills, results concatenate to a prefix of the refill stream, each piece of which is the hash of the pool at that moment; the refill limit and the short read are unreachable |
| `Rotation.EveryRunVerifies` | identity/rotation.go:274-432 | after any sequence of calls the chain verifies from the genesis address and from no other, and every recovery in it served its lock |
| `Rotation.StepKeepsInv` | identity/rotation.go:274-398 | every call, successful or not, keeps the chain verifiable |
| `Rotation.AddressChanges` | identity/rotation.go:274-398 | the address changes only by a rotation with the current key, or by completing a recovery that an earlier call opened towards it at least the full lock before; history only grows |
| `Rotation.AddressIsLastMove` | identity/rotation.go:274-398 | the address is that of the new key of the last rotation or completed recovery that moved it, or the genesis address |
| `Rotation.ChainIsAuthorised` | identity/rotation.go:400-432 | in any chain that verifies, each ordinary hop is signed over its own fields by the address reached so far and countersigned by the next |
| `Rotation.BothSignedVerifiesIff` | identity/rotation.go:93-228 | a proof signed by both keys verifies exactly if it is not marked as a recovery |
| `Rotation.AcceptedIsSigned` | identity/rotation.go:141-228 | what an accepted proof is signed by |
| `Rotation.KeyRotationManager.constructor` | identity/rotation.go:263-272 | a new manager verifies from its own address |
| `Rotation.KeyRotationManager.Rotate` | identity/rotation.go:274-315 | fails exactly for a wrong old key or the recovery reason, changing nothing; otherwise the address is that of the new key and the proof, with both addresses, the reason and the end of the grace period, is appended |
| `Rotation.KeyRotationManager.SetupSocialRecovery` | identity/rotation.go:317-331 | accepts exactly thresholds between one and the number of guardians |
| `Rotation.KeyRotationManager.InitiateTimeLockRecovery` | identity/rotation.go:333-349 | opens a recovery exactly if none is pending |
| `Rotation.KeyRotationManager.CompleteTimeLockRecovery` | identity/rotation.go:351-398 | succeeds exactly for the pending address after the lock; then the address is that of the new key, nothing is pending and a verifying proof is appended |
| `Rotation.KeyRotationManager.VerifyChain` | identity/rotation.go:400-432 | succeeds exactly for a well-linked, verifying chain, and otherwise reports the first bad hop |
| `Recovery.OwnerChanges` | identity/recovery.go:352-606 | over every run the owner changes only by executing a recovery initiated earlier towards the new owner: social with at least the quorum then in force of valid approvals by distinct guardians then configured, a time lock after its full duration, or a phrase that matched |
| `Recovery.EveryRunKeepsInv` | identity/recovery.go:352-606 | in every run approvals are valid, distinct and by guardians, quorums are at least one, and lock expiries are the initiation plus the duration |
| `Recovery.ReopensIff` | identity/recovery.go:190-192 | a call opens an executed or cancelled recovery again exactly if it re-initiates the same identifier or, for social ones, completes the quorum with a new guardian |
| `Recovery.ClosedForGood` | identity/recovery.go:197-251 | from the second after its initiation on, a closed time-lock or phrase recovery stays closed |
| `Recovery.ExecutesOnce` | identity/recovery.go:237-251 | so a time lock is executed at most once, and a phrase recovery at most once after that second |
| `Recovery.SocialExecutesTwice` | identity/recovery.go:190-192 | a social recovery executed twice |
| `Recovery.SocialExecutableIff` | identity/recovery.go:146-195 | an open social recovery can still be executed exactly if its guardian list has as many distinct members as its quorum |
| `Recovery.ExecutableIff` | identity/recovery.go:197-235 | a stored recovery can be executed exactly if it is not closed and its lock has run seven days since the initiation, or its approvals reach the quorum, or it is by phrase |
| `Recovery.TimeLockOpens` | identity/recovery.go:374-404 | a time lock opened now can be executed exactly from seven days on, and then the target is the owner |
| `Recovery.ClosingSteps` | identity/recovery.go:237-251 | executing hands over the ownership and closes, cancelling closes and does not, and nothing else changes |
| `Recovery.AddApproval` | identity/recovery.go:146-195 | the two search loops decide the refusals and the new phase |
| `Recovery.RecoveryManager.constructor` | identity/recovery.go:340-350 | a new manager satisfies the invariant |
| `Recovery.RecoveryManager.SetupSocialRecovery` | identity/recovery.go:352-366 | accepts exactly quorums between one and the number of guardians |
| `Recovery.RecoveryManager.SetRecoveryPhrase` | identity/recovery.go:368-372 | replaces the phrase hash |
| `Recovery.RecoveryManager.InitiateTimeLockRecovery` | identity/recovery.go:374-404 | succeeds exactly with the target's key, and the new recovery is locked |
| `Recovery.RecoveryManager.InitiateSocialRecovery` | identity/recovery.go:406-442 | succeeds exactly with guardians configured and the target's key, and the new recovery lacks approvals |
| `Recovery.RecoveryManager.InitiatePhraseRecovery` | identity/recovery.go:444-489 | succeeds exactly with the configured phrase and the target's key, and the new recovery is executable |
| `Recovery.RecoveryManager.AddGuardianApproval` | identity/recovery.go:491-523 | when an approval counts, and the state after it |
| `Recovery.RecoveryManager.ExecuteRecovery` | identity/recovery.go:590-606 | succeeds exactly for a stored recovery that is not closed and whose lock, quorum or phrase admits it, and then the target is the owner and the recovery executed; otherwise nothing changes |
| `Presigned.NoncesDistinct` | arb/presigned.go:156-248 | on a chain on which no nonce was issued twice, none occurs twice among all cached and handed-out transactions; cached ones are below a counter that has not wrapped around |
| `Presigned.IssueKeeps` | arb/presigned.go:200-248 | issuing a nonce, with or without a transaction to show for it, keeps that |
| `Presigned.RepeatsIff` | arb/presigned.go:202-203 | issuing a nonce makes a chain repeat exactly if it did before or that nonce was issued on it before |
| `Presigned.RepeatNeedsWrap` | arb/presigned.go:202-203 | the next nonce of a chain is one issued before only if 2^64-1 was issued on it |
| `Presigned.TwoWithOneNonce` | arb/presigned.go:99-107 | a run that hands out two transactions with one nonce |
| `Presigned.HandOutKeeps` | arb/presigned.go:323-330 | handing out keeps it |
| `Presigned.PreSignedCache.constructor` | arb/presigned.go:83-97 | an empty cache |
| `Presigned.PreSignedCache.SetNonce` | arb/presigned.go:99-107 | sets the current nonce and never lowers the counter |
| `Presigned.PreSignedCache.SignInto` | arb/presigned.go:190-248 | consumes exactly the next nonce, even if signing fails, and appends exactly what was signed |
| `Presigned.PreSignedCache.EnsureCacheDepth` | arb/presigned.go:179-198 | fills a list up to the depth of unexpired transactions and no further, with consecutive nonces modulo 2^64, touching no other list |
| `Presigned.PreSignedCache.PopulateCache` | arb/presigned.go:156-177 | every configured list is filled as far as signing works, and no list shrinks |
| `Presigned.PreSignedCache.GetPreSignedTx` | arb/presigned.go:308-333 | succeeds exactly if the list for the closest amount has a usable transaction, hands out the first and removes only it; its nonce was never handed out before on a chain without repeats, and is the lowest usable one before the counter wraps around |
| `Presigned.PreSignedCache.FindClosestAmount` | arb/presigned.go:335-350 | the first amount at the least distance, or none if none is configured |
| `Presigned.PreSignedCache.PruneExpired` | arb/presigned.go:352-370 | every list keeps exactly its unexpired transactions in order |
| `Presigned.PreSignedCache.MarkNonceUsed` | arb/presigned.go:372-391 | advances the current nonce and drops exactly the transactions of that chain with the used nonce |
| `Calldata.V2RoundTripIff` | arb/presigned.go:417-444 | parsing the V2 builder's output recovers both tokens, and the amount exactly if it is below 2^256 and not negative |
| `Calldata.V3RoundTripIff` | arb/presigned.go:446-483 | likewise for the V3 builder |
| `Calldata.V2Fields` | arb/presigned.go:417-444 | what stands at each offset of the V2 calldata, and that it is the ABI encoding |
| `Calldata.V3Fields` | arb/presigned.go:446-483 | what stands at each offset of the V3 calldata |
| `Calldata.V3Outcome` | arb/mempool_parser.go:304-322 | what the V3 parser reads, when it refuses and when it panics |
| `Calldata.DispatchV2` | arb/mempool_parser.go:170-209 | exactly which selectors lead to the V2 parsers |
| `Calldata.DispatchOthers` | arb/mempool_parser.go:170-209 | and which to the others |
| `Calldata.V2ParsesFirstAndLast` | arb/mempool_parser.go:170-239 | well-formed V2 calldata with a path of any length of at least two, under either selector, gives the first and last path element |
| `Calldata.V2ParserIsAbiDecoder` | arb/mempool_parser.go:211-239 | as long as no 64-bit sum wraps, the parser is the ABI's decoder, except for a panic on data that ends four bytes short |
| `Calldata.AcceptedIsAbiIff` | arb/mempool_parser.go:211-239 | what the parser accepts is valid exactly if offset and length fit |
| `Calldata.TruncatedOffsetAccepted` | arb/mempool_parser.go:219-222 | an offset of 2^64 + 160 is accepted |
| `Calldata.NumberWordIff` | arb/presigned.go:427-429 | a number survives its 32-byte field exactly if it is not negative and below 2^256 |
| `Calldata.BuildV2SwapCalldata` | arb/presigned.go:417-444 | the buffer filled by offset is the ABI encoding of the call; selector, amount, recipient, deadline and tokens stand at their offsets |
| `Calldata.BuildV3SwapCalldata` | arb/presigned.go:446-483 | likewise, with the fee |

## Left out

- Networking, HTTP, IPC, websockets, RPC, command line, rendering, statistics getters and logging: input and output only.
- Floating-point scoring, decay factors, confidence and resonance formulas: they enter as function parameters; strengths are `real`.
- Cryptographic primitives, JSON encoding, key files and passkeys: ideal functions.
- identity/fork_state.go, identity/consent.go, quantum/, grammar/, ngac/, embed/, attention/ and the arbitrage strategies and detectors.
- Aliasing: a caller that keeps a pointer to a queued opportunity, delegation, recovery, proof or engram and changes its fields directly; continuity proofs and recoveries are values here, not objects.
- Counters (`enqueued`, `hashCount`, `updatesReceived` and the like) and Unix times are unbounded, not 64-bit.
- Delegations: the lists of delegations given and received, and export.
- Delegations.DelegationManager.RevokeDelegation: requires that the walk up and the cascade down end, which every valid registry grants; after a collision that closes a cycle the code recurses without end.
- Delegations.DelegationManager.RevokeSubDelegations: requires that the child lists end, for the same reason.
- Delegations.DelegationManager.GetDelegationChain: requires that the walk up ends, which by `WalksStopIff` only a cycle prevents.
- Delegations.DelegationManager.VerifyDelegationChain: likewise.
- OpportunityQueue: Peek, CleanCompleted, GetAll and the size getters.
- Positions: NeedsRebalance and the maximum trade size, which use floating point; targets set later.
- LockBrackets: an executor without a position manager locks nothing and is not modelled; AdjustAfterTrade is not called by the executor and takes no part in its runs.
- Merkle.ComputeMerkleProof: requires a valid leaf index, as its only caller provides; the commitments and signature around a membership proof.
- ForkSync.ForkCache.GetForkBlocks: requires that no block of the fork is cached at height 2^64-1; by `ScanEndsIff` the code's loop would not end.
- ForkSync.ForkCache.HandleForkRequest: requires the same of the requested fork.
- Prices: the wire format of price updates and the confidence value; a signature covers the whole report, although the code signs whole seconds and magnitudes only; reports of equal block number keep their order, which the code's sort does not promise.
- ContentDag.Get: reads to a given depth, because a store filled by peers may contain cycles on which the code's recursion does not end; `DepthFree` and `FetchDepthFree` show that the bound does not matter where it is not hit, and roots made by Add need depth one. The capacity the code reserves from a node's size field is not modelled.
- ContentDag.DAGBuilder.FetchContent: takes that depth as a parameter.
- Engrams: contexts, pressures and timestamps are not stored; the order in which a map yields equal scores or weak engrams is a ghost result.
- Flow: the flow rate.
- Rotation: the check of a verified chain does not look into the recovery proof, and no statement is made that it does; grace periods are computed and not used.
- Recovery: the target's signature over the whole recovery record, checkpoints and export.
- Presigned: router tables and gas settings, which decide only whether signing succeeds.
- Calldata: the parsers for ETH swaps, V3 paths, multicalls and the universal router; the Solidly builder, which produces the V2 layout.
