# Verification of the block-building core of Proof-of-Builder

Proof-of-Builder builds blocks from *lanes*. Each lane keeps its transactions in a mempool ordered by
priority and sender nonce, selects from it for a proposal, and later checks its own part of a proposed
block. The first lane usually runs an auction: a bid transaction pays for a bundle of transactions at the
top of the block. This project models that core and proves properties of it. It has five parts.

**The priority-nonce mempool** (`SkipList`, `PriorityIndices`, `GreedyMerge`, `IterationProof`,
`PriorityNonceMempool`, `MempoolRuns`). One logical set of transactions lives in four structures that are
updated in place: a priority list, a list per sender, a score map and counts per priority. The class
invariant says that they describe one map from (sender, nonce) to transactions. Iterating walks the priority
list with two mutually recursive methods that skip, revisit and drain senders. The walk is proved to be a
greedy merge of the sender lists: every step hands out a sender's lowest waiting nonce, no other sender's
lowest waiting transaction has a higher priority (or the same priority and a higher tie weight), and nothing
is lost or repeated.

**The lanes and the registry** (`ConstructorMempool`, `Registry`). The hash cache beside the index never
lacks a stored transaction, and the exact condition under which a step keeps it equal to the index is
proved. With mutual ignore lists a lane gets exactly what its own handler matches and no earlier handler
does, and no transaction is stored in two lanes.

**The proposal protocol** (`Proposal`, `Lanes`, `Chain`, `Segments`, `Agreement`, `HonestProposals`,
`Examples`, `Selections`, `Drops`, `Space`, `Duplicates`). The recovering, continuation-passing prepare chain over mutable, cached
state equals a left fold that skips failed lanes. An accepted block is exactly one that splits into one
verified part per lane. A validator in any state accepts a proposal exactly when every lane's contribution
is in the order that lane checks and replaying the contributions from that state verifies them, whatever the
ante handlers write before they fail. Mempools whose senders do not raise their priority with the nonce and
clean bundles give contributions in order; failure-neutral ante handlers make the replay follow the proposer;
three concrete proposals that honest validators reject show what happens otherwise. Which transactions are
picked and which are dropped is stated one by one. Byte limits, reserved space and absence of repeats are
proved for all chains.

**The auction** (`Bundles`, `Ladder`, `BidSplit`). The destructive single pass over signer maps is
characterised exactly, and compared with its documentation. Admitted bids climb a ladder, with the exact
condition for a raising bid to become the top one. A bid is split without losing a coin, over runs of bids
and whichever accounts coincide.

**The wire codec** (`Integers`, `Varint`, `Codec`, `Messages`, `Wire`). The backward writer of `MsgAuctionBid`
fills a buffer of exactly the computed size, the reader terminates on every input and merges concatenated
messages, whole fields of the wire grammar with all their nested groups are skipped, and reading undoes writing. It follows the Protocol Buffers encoding
specification, sections "Base 128 Varints" and "Message Structure".

Methods carry the state changes and loops of the source and are proved against functions on values;
lemmas state what those functions mean.

## How the model reads the source

- Skip lists are sequences in iteration order. The library is not part of this model; its `Set` is taken to
  overwrite the node with an equal key, as the comment at `blockbuster/priority_nonce.go:258-259` relies on.
- Priorities are integers (any strict total order with a minimum), and sender addresses are integers that
  stand for their rank in string order. `minValue` and the zero value of the priority type are free.
- The comment on `senderWeight` (`blockbuster/priority_nonce.go:387-390`) speaks of the first transaction with a
  different priority; the loop returns the priority of the sender's last transaction. The loop is modelled.
- `Select` is documented as read-only (`blockbuster/priority_nonce.go:337-339`); it rewrites weights, and so does
  the model.
- The application state is a value threaded through an arbitrary ante handler; a cached context is a copy and
  committing it copies it back. Errors of the ante handler carry the state they leave, because the default
  prepare handler keeps it (`blockbuster/lane_handlers.go:74`). Agreement is stated for all ante handlers, and that
  failures leave the state alone only where the replay is to follow the proposer; an example shows the need.
- Matching and priorities depend on the transaction only, and a lane's priority is an integer. Encoders,
  decoders and the transaction hash are arbitrary functions; encoders and decoders may fail.
- A lane in the chain has one of three handler sets: the default, the auction's, or an application's own,
  which may fail or panic in any way. A lane offers the sequence of transactions that iterating its mempool
  yields; `HonestProposals.DrainsMempool` ties that sequence to a greedy merge.
- The comment on the bid split (`x/builder/keeper/msg_server.go:69-70`) says that a decimal remainder stays with
  the bidder. There is none: escrow gets all that the proposer does not.
- The wire reader collects a varint's bits by addition where the source uses a bitwise or of disjoint bits. Data
  shorter than 2^63 bytes is what a Go slice can hold.

## Model

| member | source | states |
|---|---|---|
| PriorityNonce.PriorityNonceMempool.constructor | blockbuster/priority_nonce.go:158-168 | a new mempool is consistent and empty |
| PriorityNonce.PriorityNonceMempool.Insert | blockbuster/priority_nonce.go:197-266 | the result and the new contents for a new, replacing, refused, unsigned, over-capacity or ignored transaction; the four indices stay consistent |
| PriorityNonce.PriorityNonceMempool.Put | blockbuster/priority_nonce.go:235-263 | writing a transaction under its id replaces exactly what was stored there, in all four indices |
| PriorityNonce.PriorityNonceMempool.Remove | blockbuster/priority_nonce.go:417-448 | the result and the new contents; the four indices stay consistent |
| PriorityNonce.PriorityNonceMempool.CountTx | blockbuster/priority_nonce.go:411-413 | the length of the priority list is the number of stored transactions |
| PriorityNonce.PriorityNonceMempool.IsEmpty | blockbuster/priority_nonce.go:450-479 | succeeds exactly when nothing is stored |
| PriorityNonce.PriorityNonceMempool.SenderWeight | blockbuster/priority_nonce.go:391-408 | the loop returns the priority of the sender's highest nonce, or the minimum for a nil cursor |
| PriorityNonce.PriorityNonceMempool.CollectTies | blockbuster/priority_nonce.go:365-377 | the keys collected are those of shared priorities, with their new weights |
| PriorityNonce.PriorityNonceMempool.Rekey | blockbuster/priority_nonce.go:379-384 | moving one key keeps all four indices consistent and changes one weight |
| PriorityNonce.PriorityNonceMempool.ReorderPriorityTies | blockbuster/priority_nonce.go:364-408 | no transaction is lost or added, the list stays sorted, every transaction that shares its priority with another one gets as weight the priority of its sender's highest stored nonce, and the others keep theirs |
| PriorityNonce.PriorityNonceMempool.Select | blockbuster/priority_nonce.go:343-356 | returns nothing exactly on an empty mempool, otherwise an iterator that has handed out the first transaction of a greedy merge |
| PriorityNonce.PriorityNonceMempool.Drain | blockbuster/priority_nonce.go:268-356 | select and next, repeated, terminate and yield a greedy merge of the sender lists |
| PriorityNonce.PriorityNonceIterator.IteratePriority | blockbuster/priority_nonce.go:268-291 | moving to the next priority node hands out one more greedy choice or ends a complete greedy merge; terminates |
| PriorityNonce.PriorityNonceIterator.Next | blockbuster/priority_nonce.go:293-331 | every step hands out one more greedy choice or ends a complete greedy merge; terminates |
| PriorityNonce.PriorityNonceIterator.Tx | blockbuster/priority_nonce.go:333-335 | the transaction handed out last |
| PriorityNonce.InsertedUnless | blockbuster/priority_nonce.go:197-245 | which insertions are refused, and why; all others are inserted |
| PriorityNonce.InsertedIsStored | blockbuster/priority_nonce.go:197-266 | below capacity a signed transaction with a free id, or without a replacement rule, is inserted and stored under its id, and nothing else changes |
| PriorityNonce.RemovedIsGone | blockbuster/priority_nonce.go:417-448 | removing finds exactly what is stored under the id and takes out nothing else |
| PriorityIndices.IndicesAreOrdered | blockbuster/priority_nonce.go:122-154 | the priority list descends in priority, weight, sender and nonce, and a sender list ascends in nonce |
| PriorityIndices.AddKeepsConsistent | blockbuster/priority_nonce.go:256-263 | adding a new transaction to the four indices keeps them describing one set |
| PriorityIndices.ReplaceKeepsConsistent | blockbuster/priority_nonce.go:236-263 | replacing one does, with the old key taken out of the priority list and its count |
| PriorityIndices.RemoveKeepsConsistent | blockbuster/priority_nonce.go:442-445 | removing one does |
| PriorityIndices.ReweighKeepsConsistent | blockbuster/priority_nonce.go:379-384 | moving a key to a new weight does, without touching counts or sender lists |
| PriorityIndices.PriorityIndexSize | blockbuster/priority_nonce.go:411-413 | consistent priority lists have one node per transaction |
| IterationProof.ReweighReordersTies | blockbuster/priority_nonce.go:364-408 | after the reordering every shared priority carries tie weights |
| IterationProof.ReweighWeighsTies | blockbuster/priority_nonce.go:364-408 | stated on the stored transactions alone: ties weigh what their sender's highest nonce pays, the others what they did |
| GreedyMerge.LastPriorityIsOfTheHighestNonce | blockbuster/priority_nonce.go:391-408 | the tie weight is the priority of the highest nonce in the sender list |
| IterationProof.TieKeysAreTheTies | blockbuster/priority_nonce.go:365-377 | the collected keys are exactly the tied transactions, each once |
| IterationProof.HandedOutIsGreedy | blockbuster/priority_nonce.go:312-330 | a transaction that passes the comparison with the next node is a greedy choice |
| IterationProof.SkipOutranked | blockbuster/priority_nonce.go:314-327 | skipping an outranked sender leaves it waiting beyond the next node |
| IterationProof.SkipDrained | blockbuster/priority_nonce.go:307-310 | skipping a drained sender loses nothing |
| IterationProof.MergeEnds | blockbuster/priority_nonce.go:276-279 | past the last node no sender has anything left |
| MempoolRuns.RunsAreWellStored | blockbuster/priority_nonce.go:197-266 | over all runs a positive capacity is never exceeded, a negative one admits nothing, and every transaction is stored under its own id with its own priority |
| GreedyMerge.MergeIsComplete | blockbuster/priority_nonce.go:268-331 | an iteration hands out every stored transaction at exactly one position, and nothing else |
| GreedyMerge.MergeDrainsEveryQueue | blockbuster/priority_nonce.go:293-331 | each sender's transactions are handed out whole and in nonce order |
| GreedyMerge.MergeIsOrderedIffSendersAre | blockbuster/lane_handlers.go:125-147 | an iteration passes the adjacency test of the order check if and only if every sender's priorities are non-increasing in nonce |
| GreedyMerge.FirstPickIsHighest | blockbuster/priority_nonce.go:343-356 | with one nonce per sender the first transaction handed out has the highest priority |
| LaneMempool.ConstructorMempool.Insert | blockbuster/lane_mempool.go:98-112 | the new index and cache, including the removal after an encoding failure |
| LaneMempool.ConstructorMempool.Remove | blockbuster/lane_mempool.go:115-128 | the new index and cache; a missing transaction is still uncached |
| LaneMempool.ConstructorMempool.Contains | blockbuster/lane_mempool.go:144-152 | membership is looked up in the cache only |
| LaneMempool.RemoveTxsFromLane | blockbuster/utils/utils.go:43-51 | removes one after the other and stops after the first removal that fails |
| LaneMempool.RemovedByIds | blockbuster/utils/utils.go:43-51 | the index loses exactly what is stored under the ids of the removals attempted |
| LaneMempool.TakenIsFound | blockbuster/lane_mempool.go:98-152 | what is inserted is stored and found, and what is removed is neither, whatever the cache held |
| LaneMempool.NoFalseNegatives | blockbuster/lane_mempool.go:98-152 | over all runs every stored transaction is found by `Contains` |
| LaneMempool.InsertKeepsExactIff | blockbuster/lane_mempool.go:98-112 | when exactly an insertion keeps the cache equal to the index |
| LaneMempool.RemoveKeepsExactIff | blockbuster/lane_mempool.go:115-128 | a removal does so exactly when it displaces no other bytes |
| LaneMempool.CacheIsExactOnCleanRuns | blockbuster/lane_mempool.go:98-152 | on runs with one encoding per id and no negative cap, cache and index agree throughout |
| Registry.NewMempool | blockbuster/mempool.go:57-78 | panics exactly on invalid shares; otherwise the lanes are empty, and with the mutex every lane but the first ignores exactly the lanes before it |
| Registry.BBMempool.Insert | blockbuster/mempool.go:104-131 | inserts into exactly the matching lanes; succeeds if none of them fails |
| Registry.BBMempool.Remove | blockbuster/mempool.go:144-179 | removes from exactly the lanes whose cache has the transaction; fails exactly when one of these removals does |
| Registry.MatchLooksThroughTheList | blockbuster/lane_constructor.go:146-161 | with any ignore lists a lane matches what its own handler does and no lane on its list does |
| Registry.MatchIsFirstOwnMatch | blockbuster/lane_constructor.go:146-161 | in the exclusive configuration a lane matches if and only if its own handler does and no earlier handler does |
| Registry.RegistryLanesAreExclusive | blockbuster/mempool.go:67-75 | lanes so configured are mutually exclusive, and with a catch-all last lane everything has a lane |
| Registry.StepKeepsEachItsOwn | blockbuster/mempool.go:104-179 | insertions and removals leave in every lane only transactions that match it |
| Registry.RunsKeepEachItsOwn | blockbuster/mempool.go:104-179 | over all runs from an empty registry every lane holds only transactions that match it |
| Registry.NoTransactionInTwoLanes | blockbuster/mempool.go:67-75 | over all runs in the exclusive configuration no transaction is in two lanes |
| Proposals.Proposal.UpdateProposal | blockbuster/proposals.go:101-159 | takes all of a lane's transactions or none, exactly when they fit the lane's limit and the block; byte total and hash cache stay exact |
| Proposals.Proposal.Contains | blockbuster/proposals.go:198-204 | looks the hash up among those of the transactions taken |
| Proposals.ContainsIsMembership | blockbuster/proposals.go:198-204 | with a collision-free hash that is membership |
| Proposals.ValidateBasic | blockbuster/mempool.go:208-232 | the loop accepts exactly shares that sum to one, or to less with an unlimited lane |
| Proposals.RefusedShares | blockbuster/mempool.go:221-229 | which sums of shares are refused: more than the block, or less of it without an unlimited lane |
| Proposals.LimitIsAtMostShare | blockbuster/utils/utils.go:55-71 | a truncated limit never exceeds the lane's share |
| Proposals.LimitIsTheFloor | blockbuster/utils/utils.go:55-71 | a limited lane's limit is the floor of its share, an unlimited lane's what is left |
| Lanes.DefaultPrepareLaneHandler | blockbuster/lane_handlers.go:14-91 | the loop selects, drops and verifies as the recursive selection says |
| Lanes.DefaultProcessLaneHandler | blockbuster/lane_handlers.go:98-116 | verifies the leading matching transactions and hands on the rest |
| Lanes.DefaultCheckOrderHandler | blockbuster/lane_handlers.go:125-147 | accepts exactly the sequences whose matching transactions come first, in order of priority |
| Lanes.AuctionPrepareLaneHandler | blockbuster/lanes/auction/abci.go:17-146 | the loop selects the first bid that passes every check, with its bundle, and drops those that cannot |
| Lanes.VerifyBidTx | blockbuster/lanes/auction/abci.go:244-267 | verifies a bid and its bundle in order |
| Lanes.WrapBundledTxs | blockbuster/lanes/auction/abci.go:81-121 | re-encodes a bundle as the recursive wrapping does |
| Selections.WrapsIff | blockbuster/lanes/auction/abci.go:81-121 | a bundle wraps if and only if all of it decodes, can be encoded again and is new |
| Selections.FailsToWrap | blockbuster/lanes/auction/abci.go:84-116 | the first transaction that is malformed or already included decides, and which of the two it is |
| Selections.BidVerifiesIff | blockbuster/lanes/auction/abci.go:244-267 | a bid verifies if and only if it is one, its bundle decodes, and bid and bundle pass the ante handler in order |
| Selections.VerifiesIff | blockbuster/lane_handlers.go:103-107 | transactions verify if and only if there are states the ante handler leads through, one after the other |
| Lanes.AuctionProcessLaneHandler | blockbuster/lanes/auction/abci.go:150-172 | verifies a leading bid with its bundle and hands on the rest |
| Lanes.AuctionCheckOrderHandler | blockbuster/lanes/auction/abci.go:181-239 | accepts exactly blocks without bids, or with one bid in front followed by its bundle, byte for byte |
| Chain.RunPrepareHandler | blockbuster/lane_abci.go:18-21 | a lane runs the handler it is configured with |
| Chain.PrepareLane | blockbuster/lane_abci.go:12-38 | handler, transactions to drop, update and rest of the chain; a failure leaves the proposal untouched |
| Chain.PrepareChain | blockbuster/abci/abci.go:127-179 | the recovering continuation chain equals a left fold that skips failed lanes, on transactions, state and what is to be dropped, and runs every lane's handler exactly once |
| Chain.ChainPrepareLanes | blockbuster/abci/abci.go:117-125 | the same for a chain without terminator |
| Drops.LaneInChain | blockbuster/abci/abci.go:117-180 | the fold: each lane takes up where those before it ended, and the chain drops what its lanes drop, in order |
| Drops.DefaultLaneDrops | blockbuster/lane_handlers.go:24-87 | a default lane in the chain drops exactly what it reaches that cannot be encoded, does not match or fails the ante handler, whether or not the proposal takes its selection |
| Drops.AuctionLaneDrops | blockbuster/lanes/auction/abci.go:29-142 | an auction lane in the chain drops exactly its losing bids, whether or not the proposal takes the winner |
| Drops.OwnHandlerDrops | blockbuster/lane_abci.go:18-37 | a lane with its own handler drops and adds what that returns, the latter if it fits, and nothing after an error or a panic |
| Drops.AllLanesRun | blockbuster/abci/abci.go:117-125 | a chain without terminator runs all its lanes |
| Chain.ProcessChain | blockbuster/abci/abci.go:195-209 | the recursive check equals a fold that stops at the first rejection |
| Chain.GetDecodedTxs | blockbuster/utils/utils.go:28-40 | decodes all transactions or fails at the first malformed one, as the recursive decoding does |
| Chain.ProcessProposal | blockbuster/abci/abci.go:82-109 | the verdict on a block of bytes: empty blocks are accepted, malformed ones rejected |
| Selections.DecodesIff | blockbuster/utils/utils.go:28-40 | a block decodes if and only if each of its transactions does, to the same transaction |
| Drops.MalformedBlockIsRejected | blockbuster/abci/abci.go:92-97 | one malformed transaction anywhere rejects the block, whatever its lanes |
| Drops.DecodedBlockIsProcessed | blockbuster/abci/abci.go:99-108 | otherwise the lanes decide |
| Drops.OwnHandlersDecide | blockbuster/abci/abci.go:195-209 | how a lane with handlers of its own accepts, rejects and hands on |
| Segments.CheckOrderIffInOrder | blockbuster/lanes/auction/abci.go:181-239 | a lane's order check on the rest of a block depends on the lane's own part only |
| Segments.ProcessOfSegment | blockbuster/lane_handlers.go:98-116 | a lane verifies exactly its own part, in order, and hands on exactly the rest |
| Segments.AcceptedBlockSplits | blockbuster/abci/abci.go:185-210 | an accepted block splits into one contiguous verified part per lane, in registry order |
| Segments.AcceptedIffSplits | blockbuster/abci/abci.go:185-210 | a block is accepted with a given state if and only if it splits into parts that lead there |
| Segments.LeftoverMatchesNoLane | blockbuster/lanes/terminator/lane.go:52-54 | what the terminator accepts unverified belongs to no lane |
| Segments.AcceptedBlockIsFullyVerified | blockbuster/abci/abci.go:185-210 | with a lane for everything the terminator is left nothing: every transaction passed an ante handler, once, in block order |
| Selections.DefaultSelectionFates | blockbuster/lane_handlers.go:24-87 | transaction by transaction: every candidate up to the end fits after what was picked before it, the first that does not ends the selection, and picked and dropped are exactly those that should be |
| Selections.AuctionSelectionFates | blockbuster/lanes/auction/abci.go:27-142 | the first bid that wins is picked, and dropped are exactly the losing bids before it that cannot be encoded, do not verify or have a malformed bundle |
| Agreement.DefaultSelectionFits | blockbuster/lane_handlers.go:14-91 | a default selection is encoded by its bytes, matches its lane and keeps to the limit, whatever the ante handler does |
| Agreement.DefaultSelectionIsVerified | blockbuster/lane_handlers.go:73-86 | if failed verifications leave the state alone, verifying the selection leads to the state the proposer kept |
| Agreement.SelectionKeepsOrder | blockbuster/lane_handlers.go:24-87 | whatever is picked from an ordered iteration is ordered |
| Agreement.AuctionSelectionIsVerified | blockbuster/lanes/auction/abci.go:17-146 | an auction selection is a verified bid followed by its decoded bundle |
| Agreement.ProposalIsItsContributions | blockbuster/abci/abci.go:117-180 | a proposal is the encoded contributions of its lanes, in registry order |
| Agreement.ProposalIsAcceptedIff | blockbuster/abci/abci.go:117-210 | a validator in any state accepts a proposal, with the state of the replay, if and only if every contribution is in order and replaying them from that state verifies; otherwise it rejects |
| Agreement.ProposerAndValidatorAgreeIff | blockbuster/abci/abci.go:117-210 | from the proposer's state a validator arrives where the proposer did if and only if the contributions are in order and their replay leads there |
| Agreement.ReplayFollowsTheProposer | blockbuster/lane_handlers.go:73-86 | with failure-neutral ante handlers the replay leads to the proposer's state |
| Agreement.ProposalIsAcceptedIffInOrder | blockbuster/abci/abci.go:117-210 | with failure-neutral ante handlers order alone decides |
| HonestProposals.MempoolOrderIsPairwise | blockbuster/lane_handlers.go:135-139 | iterations over senders with non-increasing priorities are ordered throughout |
| HonestProposals.OrderlyProposalIsAcceptedIffReplayed | blockbuster/abci/abci.go:117-210 | with such senders and clean bundles a proposal is accepted, from any state, if and only if its replay verifies |
| HonestProposals.HonestProposalIsAccepted | blockbuster/abci/abci.go:117-210 | with failure-neutral ante handlers as well, every proposal is accepted and leads to the proposer's state |
| Examples.RisingSenderIsRejected | blockbuster/lane_handlers.go:135-139 | a sender whose later nonce pays more makes honest proposals fail |
| Examples.NestedBidIsRejected | blockbuster/lanes/auction/abci.go:214-218 | a bundle that contains a bid is selected by the proposer and refused by the validator |
| Examples.LeakyAnteIsRejected | blockbuster/lane_handlers.go:73-83 | keeping the context of a failed verification makes an honest proposal fail: it is in order, but its replay does not verify |
| Space.LimitedLanesFillAtMostTheirShares | blockbuster/utils/utils.go:55-71 | a chain of limited lanes fills at most the sum of its shares, whatever its handlers do |
| Space.ProposalsFitTheBlock | blockbuster/proposals.go:111-131 | no chain exceeds the block |
| Space.OnlyTheOwnLimitRefuses | blockbuster/proposals.go:111-131 | with unlimited lanes last, a lane is refused if and only if it exceeds its own limit |
| Space.DefaultSelectionIsNeverRefused | blockbuster/proposals.go:111-131 | what the default handler selects is never refused |
| Space.UnlimitedLaneFirstTakesTheSpace | blockbuster/utils/utils.go:55-71 | an unlimited lane ahead of a limited one can take its space |
| Duplicates.ProposalHasNoRepeats | blockbuster/lane_handlers.go:47-56 | no byte string appears twice in a proposal if no lane offers one twice and no bid repeats one |
| Bundles.FilterSigners | x/builder/keeper/auction.go:144-150 | deleting one by one leaves the intersection |
| Bundles.ValidateAuctionBundle | x/builder/keeper/auction.go:107-141 | accepts exactly the fair bundles; only the first signer map changes, and it only shrinks |
| Bundles.NarrowOne | x/builder/keeper/auction.go:119-138 | each step of the pass narrows the shared signers, hands over to the bidder, or proves the bundle unfair |
| Bundles.FairIffDocumentedAndNotSeen | x/builder/keeper/auction.go:97-107 | the code is the documented rule except for handovers to a bidder who signed the first transaction |
| Bundles.UnsignedFirst | x/builder/keeper/auction.go:119-138 | when nobody signed the first transaction the bidder must have signed all the others |
| Bundles.DocumentedButRefused | x/builder/keeper/auction.go:97-107 | a bundle that the documentation allows and the code refuses |
| Ladder.ValidateBidInfo | x/builder/keeper/auction.go:11-40 | the bundle size (in 32 bits), the bid and, if enabled, the bundle decide |
| Ladder.GetTopAuctionTx | blockbuster/lanes/auction/mempool.go:55-62 | the first transaction of a greedy merge: a sender's first, and no other sender's first bids more |
| Ladder.TopIsHighestIff | blockbuster/lanes/auction/mempool.go:55-62 | the top bid is the highest stored bid if and only if a highest bid is the first one of its sender |
| Ladder.TopIsHighest | blockbuster/lanes/auction/mempool.go:55-62 | so it is with one nonce per sender |
| Ladder.AnteHandle | x/builder/ante/ante.go:49-104 | exactly when the decorator passes a transaction on, always against the top bid of the mempool once it compares bids; only weights change |
| Ladder.ValidateBidTx | blockbuster/lanes/auction/check_tx.go:200-232 | a bid passes exactly if it verifies against the top bid, with its whole bundle, free of bids, in order |
| Ladder.CheckTx | blockbuster/lanes/auction/check_tx.go:88-196 | exactly the bids that verify against the top bid are inserted, and admitted if the mempool takes them; what that does to the mempool |
| Ladder.BidPassesIff | x/builder/keeper/auction.go:11-95 | when the decorator passes a bid: timeout, bundle, denomination, reserve, funds and increment, each spelled out |
| Ladder.BundleVerifiesIff | blockbuster/lanes/auction/check_tx.go:213-229 | a bundle verifies if and only if it decodes to transactions without bids that pass one after the other |
| Ladder.AdmittedIsFunded | x/builder/keeper/auction.go:55-92 | an admitted bid is in the reserve's denomination, at least the reserve, and covered by its bidder's balance |
| Ladder.EveryAdmissionIsFunded | x/builder/keeper/auction.go:55-92 | so is every admission of a run |
| Ladder.LadderClimbs | x/builder/keeper/auction.go:65-86 | over every run, after k raising admissions that do not wait behind a lower nonce of their sender, the top bid is at least the reserve fee plus k - 1 increments |
| Ladder.OneNoncePerSenderClimbs | x/builder/keeper/auction.go:65-86 | with one nonce per sender every run of admissions climbs |
| Ladder.RaisingBidIsTopIffFirst | x/builder/ante/ante.go:74-95 | a raising bid becomes the top bid if and only if no lower nonce of its sender waits |
| PinnedLadder.TwoNoncesPinTheTop | x/builder/ante/ante.go:74-95 | a sender with two nonces pins the top bid below the ladder |
| BidSplit.SharesAddUp | x/builder/keeper/msg_server.go:61-72 | the proposer gets the floor of bid times fee, escrow exactly the rest |
| BidSplit.AuctionBid | x/builder/keeper/msg_server.go:26-77 | when a bid can be paid, its effect on every account whichever roles coincide, and what a failure leaves |
| BidSplit.TransfersPay | x/builder/keeper/msg_server.go:65-76 | the two transfers together move every balance by the bid's effect |
| BidSplit.TotalIsConserved | x/builder/keeper/msg_server.go:47-77 | over any run of bids the total balance is conserved |
| BidSplit.RecipientsGainTheBids | x/builder/keeper/msg_server.go:47-77 | over any run the recipients gain exactly the sum of the successful bids |
| BidSplit.EscrowIsTheFallback | x/builder/keeper/msg_server.go:48-59 | without a fee or a rewards address escrow gets the whole bid |
| BidSplit.EachGetsItsShare | x/builder/keeper/msg_server.go:54-76 | with three different accounts the rewards address gains the floor of bid times fee, escrow the rest, and the bidder's balance decides |
| BidSplit.CoincidingRoles | x/builder/keeper/msg_server.go:65-76 | what a bidder must cover who is rewarded for the own bid, or is the escrow account |
| Varint.SovIsTheSize | x/builder/types/tx.pb.go:603-605 | the size from the bit length is the number of bytes written |
| Varint.EncodeIsBase128 | x/builder/types/tx.pb.go:538-548 | seven bits a byte, low bits first, all bytes but the last marked, and no more of them than needed |
| Varint.ReadIs | x/builder/types/tx.pb.go:614-628 | what reading any bytes gives: digits up to the first unmarked byte in 64 bits, overflow after ten marked ones, or truncation |
| Varint.EncodeVarintTx | x/builder/types/tx.pb.go:538-548 | writes the varint so that it ends at the offset, and touches nothing else |
| Varint.DecodeVarint | x/builder/types/tx.pb.go:614-628 | the reading loop: overflow after ten bytes, truncation, or a 64-bit value |
| Varint.VarintRoundTrip | x/builder/types/tx.pb.go:538-628 | every 64-bit number is read back, whatever follows |
| Messages.PutField | x/builder/types/tx.pb.go:425-429 | content, length and key written backwards form the field |
| Messages.MsgAuctionBid.Size | x/builder/types/tx.pb.go:549-568 | is the length of the encoding |
| Messages.MsgAuctionBid.MarshalToSizedBuffer | x/builder/types/tx.pb.go:418-450 | fills the end of the buffer with the encoding and nothing else |
| Messages.MsgAuctionBid.Marshal | x/builder/types/tx.pb.go:403-411 | the buffer of the computed size is exactly the encoding: the backward index ends at zero |
| Messages.MsgAuctionBid.UnmarshalField | x/builder/types/tx.pb.go:613-748 | one round of the reader, with every error condition |
| Messages.MsgAuctionBid.Unmarshal | x/builder/types/tx.pb.go:609-755 | reads fields to the end of any input, merging them in, and terminates |
| Messages.SkipTx | x/builder/types/tx.pb.go:971-1048 | skips at least one byte and a whole field with its nested groups, or fails; terminates |
| Codec.SkipIsPrefix | x/builder/types/tx.pb.go:971-1048 | how much is skipped does not depend on what follows |
| Codec.FieldRoundTrip | x/builder/types/tx.pb.go:609-748 | a written field is read back, whatever follows |
| Codec.RoundTrip | x/builder/types/tx.pb.go:403-755 | unmarshalling what was marshalled restores bidder, bid and bundle |
| Wire.MessageIsWire | x/builder/types/tx.pb.go:418-450 | what is written are the fields 1, 2 and 3 of the wire grammar for bidder, bid and transactions |
| Codec.EncodingMerges | x/builder/types/tx.pb.go:403-755 | unmarshalling into an existing message overwrites the bidder, merges the bid and appends the bundle |
| Codec.ConcatenationMerges | x/builder/types/tx.pb.go:609-755 | reading a concatenation is reading the second part into the result of the first |
| Codec.UnknownFieldsAreIgnored | x/builder/types/tx.pb.go:735-748 | whatever the skipper takes whole, anywhere between fields, changes nothing |
| Wire.WholeFieldSkips | x/builder/types/tx.pb.go:971-1048 | the skipper takes exactly one whole field of the wire grammar, with all the groups nested in it, whatever follows |
| Wire.NestedFieldSkips | x/builder/types/tx.pb.go:1028-1045 | inside a group a whole field is passed over at the same depth |
| Wire.OtherFieldsAreIgnored | x/builder/types/tx.pb.go:735-748 | every wire field with another number, anywhere between the fields of a message, changes nothing |
| Wire.RefusedTags | x/builder/types/tx.pb.go:613-641 | tags the reader refuses, and with which error |
| Wire.RefusedLengths | x/builder/types/tx.pb.go:657-667 | lengths the reader refuses: negative in 64 bits, or past the end |
| Wire.RefusedBySkipper | x/builder/types/tx.pb.go:1030-1039 | fields the skipper refuses: meaningless wire types, and groups that end without having begun |

## Left out

- Multi-denomination bids and priorities: `IsAllGT` and `IsAllLT` are only a partial order. One denomination is modelled; bids in another are refused as in the source.
- Matching and priorities that depend on the context.
- The skip-list library, SHA-256, bech32, coin parsing, the multistore and the concrete ante decorators (fees, signatures): arbitrary functions or contracts stand for them.
- The chain lists the transactions to drop; that the lane's own mempool then loses them is `LaneMempool.RemoveTxsFromLane`, whose failure the source only logs.
- Concurrent changes to a lane's mempool while a proposal is built: iterating is materialised before the handler's loop.
- Lanes other than those built from `ConstructorMempool`, and different encoders for different lanes of one registry.
- Ignore lists that refer to later lanes or in circles: the match test of the source would not end on them.
- Aliased signer maps: the maps of a bundle are distinct objects, as the auction factory makes them.
- Registry checks for duplicate lane names or nil handlers, `NextSenderTx`, `GetTxDistribution` and `BBMempool.Select`, which always returns nil.
- Vote extensions of a proposal, which no handler adds, and overflow of 64-bit byte totals.
- The rollback of a failed message is the application's and is modelled in runs only; the event that lists the bundle's hashes is not modelled.
- The codec of the coin inside the message is a parameter; its size and its bytes are taken to agree.
- Logging, gas metering, the other messages, queries, genesis and module wiring.
