# The tamper-evident audit log and its on-chain anchoring, modelled and proved in Dafny

Every tenant's audit events form a hash chain. A scheduled cycle groups them into time windows, puts a Merkle
root over each window into an anchor row, and publishes the roots to a contract. Proofs that an event lies
under a published root are served to clients, and a background verifier looks for breaks. This project models
those parts and proves what they promise together: what a root binds and a proof proves, that windows cover
every event once while no reverted row comes back, and keep up with any backlog unless one stands in the way,
that in every interleaving of batch publishers, reconcilers and crashes, and of single publishers as long as
none of them writes a stale "reverted" over a confirmed row, a row is confirmed exactly when its transaction
hash is set and that hash then names the transaction that published its root, that a batch, a single publish and
a reconcile cycle settle exactly the rows they should, that clean checks mean one linear history, and that
deleted history is caught by the anchors although the other checks stay clean. Three smaller parts are included:
the paged event list, the deployed-code check and the SDK's token manager.

`dafny verify dfyconfig.toml` checks everything.

How things are modelled:

- Hash functions (keccak256, sha256) are parameters with 32-byte results. No injectivity is assumed: a result
  that needs collision resistance says "or these byte strings, which the code really hashed, collide"
  (`Bytes.Collision`). For the event hash the corresponding alternatives are a collision of two stored records
  and a circle of stored records of one tenant, each naming the next one's hash as its predecessor;
  `ChainConsistency.CleanChecksAreOneChain` shows that both disappear for a hash that is the record itself.
- Times are integer milliseconds (seconds, as reals, in the token manager). Event and anchor ids are numbers
  standing for their rank in text order. Tables are sequences, sets or maps, and one SQL statement is one
  atomic operation on them. The 32-byte tenant identifier on chain is identified with the tenant.
- Classes model what the program updates in place (`Scheduler`, `AnchorRows`, `VerifierTables`,
  `AgentTokenManager`, and arrays in `Merkle`, `Broadcaster`, `Bytecode`); each method is tied to a function
  of the old state, and the results about whole runs are proved about those functions.
- The network, the chain and the node are answers given as inputs, so results hold for every sequence of
  answers. The contract is a log of published (tenant, root) pairs: a mined `anchor` succeeds exactly when it
  newly publishes; `anchorBatch` reverts as a whole or publishes and emits each pair not yet published.

Findings, each stated as a lemma:

- A cycle that meets a reverted row with the root of its window changes nothing. If the window had already
  ended at its maximal length no event can join it any more, and the tenant's coverage stops for good, however
  many cycles follow (`AnchorProgress.CycleAdvances`, `StuckForEver`, `StuckIsReachable`). The comment at
  services/audit/src/publisher.ts:246-252 says this of every reverted window; a shorter window ends at the time
  of the cycle, so a new event gives it another root, and the model follows the code.
- The write of a transaction hash carries no condition on the row's status, so a reverted row can be confirmed
  later (`RevertedRows.RevertedRowReturns`). If its events were anchored again meanwhile, two live windows hold
  them (`AnchorAnomalies.TwoLiveWindowsHappen`); live windows stay disjoint exactly if such a row comes back
  only where it still fits between its neighbours (`AnchorCoverage.DisjointAlongIff`).
- An event stamped at or before what is covered changes the root of any window it falls into
  (`AnchorAnomalies.LateEventChangesRoot`); between the windows it is never anchored
  (`AnchorAnomalies.LateEventNeverAnchored`).
- The single broadcaster checks the chain again after a revert before mining, but not after its own
  transaction was mined as failed. A root that another transaction published in between is then recorded as
  reverted (`Broadcaster.RevertedThoughPublishedIff`, `RevertedThoughPublishedHappens`;
  `RevertedRows.PublishedButReverted`, `RevertedWriteHitsPublishedIff` for the row), and stays so although it is
  published once no job holds it (`RevertedRows.RevertedForGood`).
- The single publisher's "reverted" write carries no condition on the row. If a reconcile cycle confirms the
  row between the publisher's read and that write, the row ends reverted with a transaction hash
  (`RevertedRows.LateRevertHappens`); nothing else can break the invariant (`PublishProtocol.InvKeptIff`), and
  without single publishes it cannot happen (`PublishProtocol.BatchesNeverRevert`).
- Zero forks, gaps and invalid genesis counts do not make a chain: events that name each other in a circle
  pass. `ChainConsistency.CleanCountsMissExactlyDetached` gives the exact condition. The content check rules the
  circle out only if it covers all of its rows; one row of an older hash version is enough to hide it
  (`ChainConsistency.OldRowHidesCircle`).
- Without distinct event hashes a root does not bind how often a hash occurs
  (`MerkleTheorems.RepetitionsNotBound`), and without keeping count leaves out of the event hashes it does not
  bind the count (`MerkleTheorems.CountLeafAmongEventsNotBound`).
- The anchor-root result's `currentPassFailureCount` is documented as reset to 0 at each wrap
  (services/audit/src/audit-consistency.ts:471-472); the returned value is the count before that reset, so
  the two differ exactly at the end of a failed pass (`VerifierTheorems.ReportedFailuresIff`, `ReportDiffers`).
  The model follows the code.
- The example verifier strips only a lower-case 0x. Before an event hash or a proof element, 0X is read as one more
  zero byte, and a root written with it is never accepted (`SdkVerifier.WrittenTextReadsBack`).

## Model

| member | source | states |
|---|---|---|
| Merkle.MakeCountLeaf | services/audit/src/merkle.ts:47-51 | the count leaf is the hash of the label's hash and a 32-byte word that, read from its most significant byte on, is the count |
| Merkle.WriteBigEndian | services/audit/src/merkle.ts:47-51 | the in-place write leaves every byte before the field alone; read from its most significant byte on, the field is the value |
| Merkle.LabelSpells | services/audit/src/merkle.ts:38-40 | the bytes of the label spell its text |
| Merkle.PairIsSorted | services/audit/src/merkle.ts:54-57 | two nodes are hashed under the tag 1 with the smaller one in dictionary order first, in whichever order they are given |
| Bytes.BigEndianReadsBack | services/audit/src/merkle.ts:47-51 | a number that fits its field is read back from the most significant byte on, whatever zeros stand before it |
| Bytes.CompareIsLexicographic | services/audit/src/merkle.ts:54-57 | the comparison of buffers is the order of a dictionary |
| Merkle.BuildLayers | services/audit/src/merkle.ts:70-93 | the loop over odd and even layers builds exactly the layers of the recursive definition, down to one node |
| Merkle.BuildTree | services/audit/src/merkle.ts:70-93 | root, leaf count and layers are those of the tree over the count leaf followed by the events, every layer computed from the one below; no events give the zero root and no layers |
| Merkle.ProofForNode | services/audit/src/merkle.ts:111-123 | collects the sibling of the node and of each of its ancestors, a last odd node being its own sibling |
| Merkle.MakeProof | services/audit/src/merkle.ts:99-101 | the proof of event i is the sibling path of node i + 1 |
| Merkle.MakeCountProof | services/audit/src/merkle.ts:107-109 | the count proof is the sibling path of node 0 |
| Merkle.VerifyProof | services/audit/src/merkle.ts:125-131 | accepts exactly if folding the proof over the leaf's hash gives the root |
| MerkleTheorems.RootBindsShape | services/audit/src/merkle.ts:54-93 | two non-empty lists have one root exactly if their trees are equal up to swapping children, or a collision is shown |
| MerkleTheorems.CountLeafInjective | services/audit/src/merkle.ts:47-51 | different counts have different count leaves, or a collision is shown |
| MerkleTheorems.RootBindsCountAndSet | services/audit/src/merkle.ts:47-93 | the same root means the same number of events and the same set of hashes, or a collision is shown |
| MerkleTheorems.RootBindsPermutation | services/audit/src/merkle.ts:47-93 | for pairwise distinct hashes the same root means the same multiset, or a collision is shown |
| MerkleTheorems.RepetitionsNotBound | services/audit/src/merkle.ts:54-93 | [x,y,z,a,a,b] and [x,y,z,b,b,a] share a root: repetitions are not bound |
| MerkleTheorems.CountLeafAmongEventsNotBound | services/audit/src/merkle.ts:47-93 | a count leaf among the event hashes lets lists of different lengths share a root |
| MerkleTheorems.NonEmptyRootIsNotZero | services/audit/src/merkle.ts:70-93 | the root of a non-empty list differs from the zero root of the empty one, or an input hashing to zero is shown |
| MerkleTheorems.AcceptsExactlyPaths | services/audit/src/merkle.ts:70-131 | a proof of any length is accepted exactly if it is the sibling list on a way from a leaf with that data to the root, or a collision is shown |
| MerkleTheorems.AcceptedLeafIsMember | services/audit/src/merkle.ts:70-131 | an accepted leaf is an event hash or the true count leaf, or a collision is shown |
| MerkleTheorems.AcceptedCountIsTrue | services/audit/src/merkle.ts:70-131 | no accepted proof shows a count other than the true one, or a collision is shown |
| MerkleTheorems.NodeProofAccepted | services/audit/src/merkle.ts:111-131 | the sibling path of every bottom node, the count leaf included, is accepted against the root |
| MerkleTheorems.MadeProofsAccepted | services/audit/src/merkle.ts:99-131 | every made event proof and every made count proof is accepted |
| MerkleTheorems.MadeProofLength | services/audit/src/merkle.ts:111-123 | every made proof has the length h with 2^(h-1) < n + 1 <= 2^h |
| MerkleTheorems.HeightBounds | services/audit/src/merkle.ts:82-90 | the number of layers above n nodes is the h with 2^(h-1) < n <= 2^h |
| AnchorWindow.WindowStartsAtBacklog | services/audit/src/anchorWindow.ts:32-53 | the next window starts at the oldest unanchored event, ends at now or after the maximal length, and holds every event in between |
| AnchorTables.ListEvents | services/audit/src/repository.ts:146-158 | the listed events are exactly those with both window ends included |
| AnchorTables.CoveredTo | services/api/src/main.ts:3817-3836 | the latest window end of the rows that are not reverted, none if there are none |
| AnchorTables.OldestIsMinimum | services/api/src/main.ts:3817-3836 | the oldest unanchored time is the earliest event time after what is covered, none if there is no such event |
| AnchorTables.FindAnchorByRoot | services/audit/src/repository.ts:266-275 | a row with that root, or none if no row has it |
| AnchorTables.ListEventsInsertOutside | services/audit/src/repository.ts:146-158 | an event stamped outside a window does not change what the window lists |
| AnchorCoverage.StepKeepsGood | services/api/src/main.ts:3747-3891 | emitting, a cycle and any status change each keep: rows match their windows, and every event up to the end of any window lies in a window |
| AnchorCoverage.RunKeepsGood | services/api/src/main.ts:3747-3891 | so does every serial run |
| AnchorCoverage.StatusKeepsDisjointIff | services/audit/src/repository.ts:277-310 | a status change keeps live windows disjoint exactly if it does not bring back a reverted row where it no longer fits |
| AnchorCoverage.DisjointAlongIff | services/audit/src/repository.ts:277-310 | live windows are disjoint and increasing all along a run exactly if every reverted row that comes back fits |
| AnchorCoverage.EveryCoveredEventInOneWindow | services/api/src/main.ts:3817-3891 | after any run an event up to the covered time lies in a window; if every reverted row that came back fitted, in at most one live one, and in exactly one if nothing is reverted |
| AnchorAnomalies.TwoLiveWindowsHappen | services/audit/src/repository.ts:277-299 | a run of six steps that leaves two live windows holding one event and no reverted row, or a collision is shown |
| AnchorAnomalies.LateEventChangesRoot | services/audit/src/repository.ts:146-158 | an event stamped inside a row's window changes the root the window gives, or a collision is shown |
| AnchorAnomalies.LateEventNeverAnchored | services/audit/src/anchorWindow.ts:32-53 | a covered time that no window holds is never anchored by any run that takes nothing back |
| AnchorProgress.MetRowIsReverted | services/audit/src/publisher.ts:240-279 | an existing row met for the next window's root is a reverted one, or a collision is shown |
| AnchorProgress.CycleAdvances | services/audit/src/publisher.ts:232-291 | a cycle with a backlog records a window holding the oldest unanchored event and moves the covered time to its end exactly if no reverted row has the window's root; otherwise it changes nothing; or a collision is shown |
| AnchorProgress.WindowsToReachIsQuotient | services/audit/src/anchorWindow.ts:32-53 | the number of windows to a time is floor(span / (max + 1)) + 1 |
| AnchorProgress.CaughtUpWithinBound | services/audit/src/anchorWindow.ts:32-53 | after that many cycles, none of which meets a reverted row, interleaved with new events and status changes that take nothing back, everything up to the given time is covered, or a collision is shown |
| AnchorProgress.ConfirmationsTakeNothingBack | services/audit/src/repository.ts:277-299 | confirming rows, reverted ones included, takes nothing back |
| AnchorProgress.StuckForEver | services/audit/src/publisher.ts:244-266 | once a window that can no longer change meets an existing row, no run of events, cycles and status changes that leave the covered time where it is adds a row or covers more |
| AnchorProgress.StuckIsReachable | services/audit/src/publisher.ts:244-266 | one event, a cycle, its row reverted and a late cycle lead there |
| AnchorProgress.OnDemandIsACycle | services/audit/src/routes.ts:306-336 | the on-demand route does to the tables what a scheduled cycle at that time does, and has no row to answer with exactly if every event up to now is covered |
| AnchorScheduler.Scheduler.CreatePending | services/audit/src/publisher.ts:232-291 | over the tenant's tables before and after: nothing for an empty window, the existing row for a known root, one new pending row otherwise, and the answer is that row; other tenants untouched |
| AnchorTables.CreatePendingRecords | services/audit/src/publisher.ts:232-291 | so does the function behind it |
| AnchorScheduler.Scheduler.RunTenant | services/api/src/main.ts:3853-3891 | one tenant's turn is one cycle of that tenant, or nothing if its transaction throws |
| AnchorScheduler.Scheduler.RunTenants | services/api/src/main.ts:3853-3891 | the loop gives every tenant with a backlog exactly its own turn, whatever the order and whichever others throw |
| AnchorScheduler.Scheduler.RunAnchor | services/api/src/main.ts:3747-3891 | a cycle already running or a degraded RPC makes this one do nothing; otherwise, over the tables before and after, each on-chain tenant with a backlog has its window's anchor recorded, and the row handed on is its new last row, or one it had with that root, or none for an empty window; other tenants are unchanged and hand on nothing |
| AnchorScheduler.ChunkRows | services/api/src/main.ts:4230-4237 | the chunks are the rows in order, none empty or too large, only the last smaller |
| ProofServing.FindAnchorForEvent | services/audit/src/repository.ts:251-264 | a live row whose window holds the time, with the earliest end |
| ProofServing.ServeEvent | services/audit/src/routes.ts:95-141 | not found exactly if no event has the id; otherwise the event with the root and proof recomputed from its window and the anchor's transaction and block, if an anchor covers it |
| ProofServing.ServedProofVerifies | services/audit/src/routes.ts:95-141 | a served proof verifies against the stored root exactly if the window's rows still give that root |
| ProofServing.EveryAnchoredEventProvable | services/audit/src/routes.ts:95-141 | after any serial run the proof served for an event in a live window verifies against the stored root of the live row it is served with, which is the only one while live windows are disjoint |
| Chain.AnchorBatchKeepsGoodLog | contracts/src/BrainAuditAnchor.sol:102-130 | a batch leaves every pair published once and blocks in order |
| Chain.AnchorBatchPublishesAll | contracts/src/BrainAuditAnchor.sol:102-130 | a batch publishes exactly its pairs, the new ones under its own transaction |
| Chain.PublishedOnce | contracts/src/BrainAuditAnchor.sol:84-130 | there is one publishing transaction per pair |
| EventScan.ScanRangesPartition | services/api/src/anchorBroadcaster.ts:673-717 | the scanned block ranges hold every block of the whole range once and no other, none longer than the span |
| EventScan.ScanSplits | services/api/src/anchorBroadcaster.ts:673-717 | in chain order the events of a range are those of its two halves one after the other |
| EventScan.FindPublishedAnchorTx | services/api/src/anchorBroadcaster.ts:673-717 | the chunked scan ends and finds what one scan of the whole range finds, asking for a prefix of the ranges |
| EventScan.ScanFindsPublisher | services/api/src/anchorBroadcaster.ts:673-717 | the scan finds a transaction exactly if it published the pair in a block of the range |
| EventScan.ResolvedScanFindsPublisher | services/api/src/anchorBroadcaster.ts:719-734 | with a configured start the publisher is found exactly if its block is not before it; with the default start exactly if it is at most the lookback old, block 0 left out in production |
| Broadcaster.AnchorPairsEmittedByReceiptLogs | services/api/src/anchorBroadcaster.ts:583-615 | the set of pairs in decodable logs of this contract |
| Broadcaster.CheckPublished | services/api/src/anchorBroadcaster.ts:413-519 | the first loop fills exactly the slots already published and collects the others, or throws if a check throws |
| Broadcaster.MarkBatchRevertOrRace | services/api/src/anchorBroadcaster.ts:530-554 | after a revert every remaining slot is filled: resolved if published meanwhile, unresolved otherwise |
| Broadcaster.FillFromReceipt | services/api/src/anchorBroadcaster.ts:413-519 | every remaining slot is filled from the receipt |
| Broadcaster.BroadcastAnchorBatch | services/api/src/anchorBroadcaster.ts:413-519 | throws exactly in the listed cases; otherwise slot i carries input i and its result on every branch |
| Broadcaster.SlotsCarryPublishers | services/api/src/anchorBroadcaster.ts:413-554 | no slot is reverted, and a landed slot carries the transaction that published its own pair |
| Broadcaster.LandedIffPublished | services/api/src/anchorBroadcaster.ts:413-554 | if nothing fails on the way a slot lands exactly if its pair is published in the end, except a pair another transaction published while this batch was mined as failed |
| Broadcaster.FailedLookupIsIsolated | services/api/src/anchorBroadcaster.ts:241-256 | a failing event lookup changes no other slot and not whether the broadcast returns; its own slot is unresolved exactly if it would have been resolved by the lookup |
| Broadcaster.BatchReturnsIff | services/api/src/anchorBroadcaster.ts:413-554 | a batch returns exactly if it is not too large, every first check is answered, and the call for the rows not yet published goes through or reverts with every recheck answered |
| Broadcaster.SingleBroadcastSettles | services/api/src/anchorBroadcaster.ts:324-411 | unless it throws, the single broadcast lands or reverts: it lands on a successful receipt, with its own transaction, or on a pair found published, with the transaction its lookup gave |
| Broadcaster.RevertedThoughPublishedIff | services/api/src/anchorBroadcaster.ts:324-411 | the single broadcast says reverted of a published pair exactly if its own transaction was mined as failed |
| Broadcaster.RevertedThoughPublishedHappens | services/api/src/anchorBroadcaster.ts:324-411 | and that can happen |
| Publisher.AnchorRows.PublishPendingAnchor | services/audit/src/publisher.ts:293-331 | a settled row is handed back, a throw writes nothing, any other result is written to its row |
| Publisher.AnchorRows.PublishPendingAnchorBatch | services/audit/src/publisher.ts:333-412 | writes the attemptable rows' results in order and counts them: for distinct rows, each attemptable row ends as the result at the place given by the attemptable rows before it leaves it, up to the first write that throws, and every other row as it was; writes nothing when the broadcast throws or has the wrong length |
| Publisher.FilterAttemptable | services/audit/src/publisher.ts:333-344 | the rows that are neither confirmed nor reverted, in order |
| Publisher.AttemptableInOrder | services/audit/src/publisher.ts:339-341 | an attemptable row's place is the number of attemptable rows before it |
| Publisher.BatchWritesRows | services/audit/src/publisher.ts:369-408 | for distinct rows the first n results are written each to its own row, and all other rows are as they were |
| Publisher.StatusCounted | services/audit/src/publisher.ts:374-412 | each count is the number of results with that status |
| Publisher.StatusesAddUp | services/audit/src/publisher.ts:374-412 | the four counts add up to the attempted rows; no more transactions than landed rows |
| Publisher.BatchAccounting | services/audit/src/publisher.ts:126-133 | attempted and skipped add up to the rows; an error is reported exactly if something was attempted and nothing landed, an info exactly if everything attempted landed |
| PublishProtocol.EarlierAnswersStayEnabled | services/api/src/anchorBroadcaster.ts:413-519 | answers a batch read at one moment can be acted on at any later one, whatever others did in between |
| PublishProtocol.StepKeepsInv | services/audit/src/publisher.ts:293-412 | each step of any publisher, reconciler or chain, other than a late reverted write, keeps the invariant and moves rows and log only forward |
| PublishProtocol.WriteKeepsRows | services/audit/src/repository.ts:277-310 | a result that names the publishing transaction, or reverted for a row not confirmed, keeps every row consistent and moves rows only forward |
| PublishProtocol.InvKeptIff | services/audit/src/publisher.ts:293-412 | an interleaving keeps the invariant all the way exactly if no reverted result is written to a row confirmed meanwhile |
| PublishProtocol.BatchesNeverRevert | services/audit/src/publisher.ts:333-412 | interleavings of batches and reconcile cycles have no such write |
| PublishProtocol.BehaviourMovesForward | services/audit/src/repository.ts:277-299 | along every interleaving without such a write confirmed rows keep status, hash and block |
| PublishProtocol.ConfirmedForGood | services/audit/src/publisher.ts:293-412 | in every interleaving without such a write a row is confirmed exactly if its hash is set, that hash is the one publishing transaction, and the row stays so |
| PublishOutcomes.BatchConfirmsIff | services/audit/src/publisher.ts:333-412 | inside any interleaving, once a batch has written back once for each row, a row is confirmed exactly if a slot of it landed (published at the check, at the recheck after a revert, or by the batch's own transaction, with the lookup answered unless the receipt shows the pair) or somebody else confirmed it since it was read; the recorded transaction is the publishing one; without a landed slot no step of the batch changed the row |
| PublishOutcomes.BatchConfirmsIffPublished | services/audit/src/publisher.ts:333-412 | where nothing fails on the way, that is exactly if the pair is published when the batch has its results, except one another transaction published while this one was mined as failed, or somebody else confirmed the row |
| PublishOutcomes.BatchLeavesRow | services/audit/src/publisher.ts:369-408 | a batch changes no row but those of its slots that land |
| PublishOutcomes.BroadcastEnabledIff | services/audit/src/publisher.ts:354-362 | from its start on a batch can go on with exactly the answers the chain can give about its rows |
| PublishOutcomes.WriteBackEnabledIff | services/audit/src/publisher.ts:369-408 | a batch can write back exactly as long as it has written fewer times than it has rows |
| PublishOutcomes.SingleSettlesRow | services/audit/src/publisher.ts:293-331 | inside any interleaving, a single publish that does not throw leaves its row confirmed, with the publishing transaction and its contract, if it landed, and reverted if not |
| PublishOutcomes.SingleEnabledIff | services/audit/src/publisher.ts:293-331 | from its start on it can go on with exactly the answers the chain can give about its row |
| PublishOutcomes.EarlyEndLosesNothing | services/audit/src/publisher.ts:333-412 | a crash or a throwing call ends a job without touching rows or log, and what is still unsettled can be read again; nothing else ends one |
| PublishOutcomes.AnybodyCanPublish | contracts/src/BrainAuditAnchor.sol:102-130 | any new transaction in a block not behind the log can publish any pairs at any time, and then exactly these are published in addition |
| PublishOutcomes.NewRowCanBePublished | services/audit/src/publisher.ts:281-289 | a recorded row is pending and can be read by any job that is not running |
| RevertedRows.LateRevertHappens | services/audit/src/publisher.ts:301-316 | a behaviour from the empty state, with the other publication before the failed transaction, in which such a write leaves a reverted row with a transaction hash |
| RevertedRows.RevertedWriteHitsPublishedIff | services/api/src/anchorBroadcaster.ts:324-411 | inside any behaviour a reverted result is written to a published pair exactly if the publisher's own transaction was mined as failed or another one published the pair after the chain had been asked again |
| RevertedRows.RevertedRowReturns | services/audit/src/repository.ts:277-299 | a behaviour from the empty state without a late reverted write in which a reverted row is confirmed later |
| RevertedRows.RevertedForGood | services/audit/src/publisher.ts:333-344 | a reverted row stays reverted once no job looks at it or holds a landed result for it |
| RevertedRows.PublishedButReverted | services/api/src/anchorBroadcaster.ts:398-411 | a behaviour from the empty state that ends there: the pair was published by another transaction while the publisher's own was mined as failed |
| Reconciler.ReconcileConfirmsIffPublished | services/audit/src/reconciler.ts:57-122 | inside any interleaving, a reconcile cycle's write leaves an orphaned row confirmed exactly if its pair was published at the lookup or somebody else had confirmed it; in the first case it stays confirmed |
| Reconciler.CycleConfirmsIffPublished | services/audit/src/reconciler.ts:78-90 | inside any interleaving, the n-th lookup of a cycle is about its n-th orphan, and the write after it leaves the row confirmed exactly if its pair was published at the lookup or somebody else had confirmed it |
| Reconciler.LookUpsGoOn | services/audit/src/reconciler.ts:78-90 | a cycle can look up until it has done so once for each orphan, and write exactly what it has looked up and not yet written |
| Reconciler.LookUpCanAnswer | services/audit/src/reconciler.ts:81-87 | the scan's answer is always one the chain can give |
| Reconciler.ReconcileOrphanedAnchors | services/audit/src/reconciler.ts:57-122 | writes back what is found, counts it, reports what is missing past the grace period, stops at the first lookup, write or report that throws |
| Reconciler.FoundIsRecovered | services/audit/src/reconciler.ts:84-90 | a found orphan's row ends confirmed with the found transaction and block, everything else in it as it was |
| Reconciler.NotFoundIsUntouched | services/audit/src/reconciler.ts:84-90 | a row no orphan is found for is as it was |
| Reconciler.FoundCounted | services/audit/src/reconciler.ts:75-88 | the recovered count is the number of orphans found |
| Reconciler.OverdueReported | services/audit/src/reconciler.ts:92-118 | the reported ids are those of the orphans missing past the grace period, in order |
| ChainConsistency.CountsZeroIffClean | services/audit/src/audit-consistency.ts:75-129 | the three counts are zero exactly if no predecessor is shared, every predecessor exists and each tenant has one genesis event |
| ChainConsistency.CountsTellDefects | services/audit/src/audit-consistency.ts:75-129 | forks, gaps and invalid genesis are each positive exactly if two events of a tenant follow the same one, an event names a predecessor its tenant does not have, or a tenant has no or two events without a predecessor |
| ChainConsistency.CleanCountsMissExactlyDetached | services/audit/src/audit-consistency.ts:75-129 | with zero counts a tenant's events form one chain exactly if none are detached |
| ChainConsistency.CountsMissADetachedCircle | services/audit/src/audit-consistency.ts:75-129 | and detached events do occur with zero counts |
| ChainConsistency.LinearOrderUnique | services/audit/src/audit-consistency.ts:75-129 | there is at most one such chain |
| ChainConsistency.CleanChecksMeanOneChain | services/audit/src/audit-consistency.ts:272-298 | zero counts and clean content of the rows checked mean one chain per tenant, or stored events of the tenant are shown whose links run in a circle, and their hashes too if all of them were checked |
| ChainConsistency.OldRowHidesCircle | services/audit/src/audit-consistency.ts:190-200 | whatever the hash function, a row of an older version hides such a circle among three events |
| ChainConsistency.OneChainMeansCleanCounts | services/audit/src/audit-consistency.ts:75-129 | one chain per tenant and clean content mean zero counts, or two stored records collide |
| ChainConsistency.RankedHasNoCycle | services/audit/src/audit-consistency.ts:272-298 | no circle under a hash that a measure grows with |
| ChainConsistency.CleanChecksAreOneChain | services/audit/src/audit-consistency.ts:75-129 | for the free hash: clean checks exactly if each tenant has one chain, in one possible order |
| ChainConsistency.TruncationGoesUnseen | services/audit/src/audit-consistency.ts:478-483 | deleting a tenant's newest events, all but at least one, leaves both checks clean |
| Keyset.RestAfterPage | services/audit/src/audit-consistency.ts:260-270 | moving the cursor to the last row of a page takes away exactly that page |
| Keyset.PassVisitsEachRowOnce | services/audit/src/audit-consistency.ts:219-371 | a completed pass over a growing table visits rows in strictly increasing order and every row present at its start |
| Keyset.StaticPass | services/audit/src/audit-consistency.ts:322-371 | over an unchanging table a pass is exactly floor(rows / page) + 1 queries and visits the table in order |
| VerifierCursor.FlagAllCounts | services/audit/src/audit-consistency.ts:299-318 | a page leaves one open finding for each mismatching row without one and touches no other row's |
| VerifierCursor.PassIsOneSweep | services/audit/src/audit-consistency.ts:319-371 | the cycles of a pass do together what one sweep over the visited rows would, and end with the cursor cleared and the status of the whole pass |
| VerifierCursor.PassFindings | services/audit/src/audit-consistency.ts:219-371 | after a pass over a growing table each row wrong throughout has exactly one open finding, rows never wrong none, and the pass is clean exactly if no visited row was wrong |
| VerifierCursor.UnfinishedPass | services/audit/src/audit-consistency.ts:319-371 | before a pass is complete its cycles move the position to the last row visited and add up its wrong rows, and the outcome of the last complete pass stands |
| VerifierCursor.MismatchesCounted | services/audit/src/audit-consistency.ts:272-318 | the mismatch count is the number of wrong rows |
| ConsistencyVerifier.VerifierTables.InsertOnConflictDoNothing | services/audit/src/audit-consistency.ts:302-317 | a finding is inserted unless one for the same verifier and row is open |
| ConsistencyVerifier.VerifierTables.VerifyContentHashCursor | services/audit/src/audit-consistency.ts:202-418 | one content cycle, with the restart after a version change, the version counts and the reported figures |
| ConsistencyVerifier.VersionsShareTable | services/audit/src/audit-consistency.ts:180-208 | version 4 rows are verified, newer and older ones only counted, and the three make up the table |
| ConsistencyVerifier.OpenCounted | services/audit/src/audit-consistency.ts:373-418 | the reported open findings are the number of open ones |
| ConsistencyVerifier.VerifierTables.VerifyPage | services/audit/src/audit-consistency.ts:558-598 | each anchor of a page is compared with the root recomputed from its tenant's window |
| ConsistencyVerifier.VerifierTables.VerifyAnchorRoots | services/audit/src/audit-consistency.ts:508-654 | one anchor cycle over the confirmed anchors, its checkpoint and its findings; the other verifier's checkpoint untouched |
| VerifierTheorems.ContentPassDecides | services/audit/src/audit-consistency.ts:202-371 | over all stored events: a full content pass, also one after a version change, is recorded clean exactly if every version 4 row's hash is the recomputed one; each wrong one ends with one open finding; rows of other versions, right rows and the other verifier get none; and every new finding names a wrong row's tenant, recomputed and stored hash |
| VerifierTheorems.ContentCyclesAreOneRun | services/audit/src/audit-consistency.ts:219-245 | successive calls are one run of the cursor: a checkpoint of another hash version starts over without position and failures, and no later call does |
| VerifierTheorems.CleanVerifiersMeanOneChain | services/audit/src/audit-consistency.ts:75-129 | zero counts and a full content pass recorded clean mean one chain per tenant, or a circle of stored events whose hashes run in a circle too if all of its rows are stored with version 4 |
| VerifierTheorems.ReportedFailuresIff | services/audit/src/audit-consistency.ts:603-645 | the reported failure count differs from the checkpoint's exactly at the end of a failed pass |
| VerifierTheorems.ReportDiffers | services/audit/src/audit-consistency.ts:603-645 | one anchor over an empty window makes them differ |
| VerifierTheorems.AnchorPassDecides | services/audit/src/audit-consistency.ts:549-598 | over all stored anchors: after a full anchor pass every confirmed anchor with a transaction whose window no longer gives its root has one open finding, no other row and no other verifier a new one, every new finding names a wrong anchor's tenant, recomputed and stored root, and the pass is recorded clean exactly if there is none |
| VerifierTheorems.ChangedWindowChangesRoot | services/audit/src/audit-consistency.ts:558-598 | a changed count or set of hashes changes the root, or a collision or an input hashing to zero is shown |
| VerifierTheorems.OnlyAnchorsSeeTruncation | services/audit/src/audit-consistency.ts:478-483 | after deleting a tenant's newest events structure and content stay clean; every on-chain anchor of the tenant with a deleted event in its window is flagged once; its other anchors, and other tenants' anchors whose windows still give their roots, are not |
| EventPaging.PageShowsNewest | services/audit/src/routes.ts:64-90 | a page shows the newest rows before the cursor, and hands on a cursor exactly if more than the limit were left |
| EventPaging.NewerRowsUnseen | services/audit/src/repository.ts:39-69 | rows newer than a cursor do not change what lies before it |
| EventPaging.PagesNeededIsCeiling | services/audit/src/routes.ts:64-90 | the number of pages is max(1, ceil(n / limit)) |
| EventPaging.FollowingYieldsEachEventOnce | services/audit/src/routes.ts:64-90 | following next_cursor yields each matching event once, newest first, in that many pages, whatever newer events arrive |
| EventPaging.CursorRoundTrip | shared/src/pagination.ts:8-32 | a cursor decodes to what was encoded exactly if neither part is empty |
| EventPaging.DecodesOnlyCursors | shared/src/pagination.ts:8-32 | only an object with two non-empty strings is read as a cursor, of just these strings |
| TokenManager.AgentTokenManager.GetAccessToken | clients/sdk/src/agent-api-key.ts:74-79 | a token is served from the cache exactly if it has more than 60 s left; otherwise the caller joins the exchange in flight or starts one |
| TokenManager.AgentTokenManager.RefreshAfterUnauthorized | clients/sdk/src/agent-api-key.ts:81-90 | a token is served from the cache exactly if it is not the refused one and has more than 60 s left |
| TokenManager.NewTokenIsServed | clients/sdk/src/agent-api-key.ts:189-192 | in every reachable state, once an exchange brings a token, whoever asks while it is fresh gets it and starts nothing |
| TokenManager.LateClearKeepsRunningExchange | clients/sdk/src/agent-api-key.ts:96-99 | in every reachable state the reaction of a finished exchange leaves one that is running in flight, so callers keep joining it |
| TokenManager.AtMostOneUnsettled | clients/sdk/src/agent-api-key.ts:92-101 | in every reachable state at most one exchange is unsettled, and every waiting caller waits for one that runs or has a result |
| TokenManager.OneExchangeForAll | clients/sdk/src/agent-api-key.ts:200-229 | any number of callers refused one token cause at most one successful exchange while its differing replacement stays fresh |
| TokenManager.NoMoreExchanges | clients/sdk/src/agent-api-key.ts:81-90 | once it has succeeded no further exchange is started |
| TokenManager.RefusedOnceTriesAgain | clients/sdk/src/agent-api-key.ts:219-227 | a first attempt refused with a 401 is tried again, with a fresh cached token that is not the refused one or with what the exchange in flight brings |
| TokenManager.ResumedCallerSends | clients/sdk/src/agent-api-key.ts:206-226 | whoever waited for an exchange sends the token it brought, or is rejected if it failed |
| TokenManager.SentAtMostTwice | clients/sdk/src/agent-api-key.ts:200-229 | in every run a call is sent at most twice, and is done after one attempt exactly if that was not refused |
| Bytecode.MaskImmutables | shared/src/bytecode.ts:80-91 | a range error exactly if some range is out of bounds; otherwise the written text reads as the code with every byte inside a range zero and every other byte as it was |
| Bytecode.MaskedEqualIff | shared/src/bytecode.ts:80-91 | two codes mask equally exactly if they have one length and agree outside the union of the ranges |
| Bytecode.OnlyTheUnionMatters | shared/src/bytecode.ts:80-91 | order and overlaps of the ranges do not matter |
| Bytecode.MaskedRuntimeSha256 | shared/src/bytecode.ts:94-98 | the hash of the masked bytes as hex text |
| Bytecode.DeployedRuntimeMatches | shared/src/bytecode.ts:105-129 | matches exactly if there is code, the ranges fit and the masked hash is the expected one |
| Bytecode.MatchMeansAgreement | shared/src/bytecode.ts:105-129 | deployed code matches an artifact's recorded hash exactly if it agrees with it outside the ranges, or the hash collides on the two |
| Bytecode.PrefixIsStripped | shared/src/bytecode.ts:38-41 | well-formed text reads as its bytes with or without 0x or 0X |
| Bytecode.WrittenCodeMatches | shared/src/bytecode.ts:105-129 | the same for code given as 0x and its bytes in hex, against the artifact's own masked hash |
| Hex.TextOrderIsByteOrder | clients/sdk/examples/verify-proof.ts:60-63 | comparing hex text compares the bytes |
| Hex.ReadsBack | clients/sdk/examples/verify-proof.ts:42-46 | hex text reads back to the bytes it was written from |
| Hex.WritesBack | clients/sdk/examples/verify-proof.ts:42-46 | well-formed hex text comes back in lower case |
| Hex.ReadsLongestBeginning | shared/src/bytecode.ts:80-81 | of any text the longest well-formed beginning is read |
| SdkVerifier.NodeHash | clients/sdk/examples/verify-proof.ts:60-63 | ordering the children by hex text gives the service's inner hash |
| SdkVerifier.VerifyInclusion | clients/sdk/examples/verify-proof.ts:66-70 | accepts exactly what the service's verifier accepts for the bytes read from event and proof text of any form, and never a root text that is not well-formed |
| SdkVerifier.BothReadAlike | clients/sdk/examples/verify-proof.ts:42-46 | from well-formed text those are the bytes the service reads |
| SdkVerifier.WrittenTextReadsBack | clients/sdk/examples/verify-proof.ts:42-46 | bytes written in hex are read back with or without 0x; an upper-case 0X is read as one more zero byte and makes a root ill-formed |

## Left out

- MerkleTheorems.RootBindsCountAndSet: counts of 2^64 and more, which the eight-byte count cannot hold, are excluded.
- AnchorCoverage.EveryCoveredEventInOneWindow: runs are serial for one tenant and new events are stamped after earlier cycle times; two cycles of one tenant at the same time are not covered, and `AnchorAnomalies` says what becomes of a late-stamped event.
- AnchorProgress.CaughtUpWithinBound: the runs contain no status change that takes back what is covered (such as reverting the latest live row), because the events it uncovers need cycles of their own.
- AnchorScheduler.Scheduler.RunAnchor: the two publishing parts of the cycle are not inside this method; they are `Publisher.AnchorRows` over `AnchorScheduler.ChunkRows`. Coverage runs do not track a row's transaction columns.
- EventScan.FindPublishedAnchorTx: a scan bounded by the lookback finds only what lies in its range; that it reaches back far enough is a hypothesis where it matters (`Reconciler.ReconcileConfirmsIffPublished`).
- VerifierTheorems.OnlyAnchorsSeeTruncation: stated for one full pass over tables that do not change during it; `VerifierCursor.PassFindings` is the form for growing tables.
- VerifierTheorems.ContentPassDecides: judges rows of version 4, as the verifier does (older and newer ones are only counted), and is stated for events that do not change during the pass; `VerifierCursor.PassFindings` is the form for growing tables.
- VerifierTheorems.AnchorPassDecides: stated for tables that do not change during the pass, likewise.
- SdkVerifier.VerifyInclusion: a character outside the basic multilingual plane counts as one here and as two code units in the source.
- TokenManager.OneExchangeForAll: which token responses and claims are valid is an input, not modelled; a failed exchange is a result without a token.
- EventPaging.CursorRoundTrip: base64url and JSON text are library calls; the cursor is modelled as the parsed JSON value.
- ConsistencyVerifier.VerifierTables.VerifyContentHashCursor: a page size of zero, with which both verifiers throw, is excluded by the precondition; a cycle that throws is rolled back and appears as no cycle at all.
- Cycle timer, interval and the audit_anchor_mode query, fee estimation, balance figures, receipt waiting, retries of RPC calls: only their outcomes appear.
- SQL text, connection pools, row-level security, roles, metrics and log lines.
- The verifier's timestamps (last clean pass, last failure), the health snapshot and the resolving of findings by an operator.
- The backlog drain script, whose own finalizing code has no branch for unresolved rows, so that the protocol's invariant is not claimed over it.
- Fairness of the oldest-first retry query, which the code does not give.
- Webhooks, agent routing, configuration and the other routes: no part of the audit trail's guarantees.
