# Sarafu settlement core: a formal model

A Dafny model of a stake-weighted BFT settlement chain: how votes become
certificates and certificates become finality, how validators are ranked,
bonded, slashed and rewarded, how accounts move value, how the mempool selects a
block, how the genesis state is handed over, how blocks travel on the wire, and
how governance changes parameters.

The classes of the modelled components that update their fields in place are
classes here, and the methods that are modelled are proved to take the abstract
state to the value of a specification function. What the program promises is then
proved about those functions, over every run, in terms of what was delivered or
called and of the state before it: the lemmas named `...Exact`, most of them in the
modules `...History`, `...Steps`, `...Runs` and `...Effects`, say for each component
exactly when it does something and exactly what.

| files | what they hold |
|---|---|
| `Types`, `Sums`, `Sorting`, `KeyOrder`, `Places` | shared vocabulary, sums over maps, uniqueness of a sorted arrangement, ordered iteration, picking from lists |
| `StakeWeight`, `VoteAggregation`, `QcVerification`, `Certification` | quorums, vote counting, what the certificate checks decide |
| `ConsensusEngine`, `BlockStore`, `NodeHistory`, `VoteHistory` | one node: its steps, and its state against its whole history |
| `Agreement`, `Safety`, `Finality`, `AgreementBound` | many nodes |
| `SlashingDetection`, `SlashingHistory`, `Slashing`, `SlashingConservation`, `SlashingEffects`, `Shares` | equivocation, its evidence, and what a slash or a reward does to stake |
| `ValidatorRegistry`, `RegistryRuns`, `RegistrySteps`, `EpochSelection`, `DowntimeRuns`, `StakingLedger`, `SnapshotStake`, `Checkpoints` | the registry, its two copies of stake, epoch selection, downtime, the staking books, checkpoints |
| `MerkleTree` | trees and proofs |
| `Accounts`, `Execution`, `StateMachine`, `Settlement`, `ChainHistory` | accounts, transactions, blocks, conservation, replay protection, authorisation |
| `Genesis`, `GenesisHandover`, `GenesisSteps` | the genesis builder and its hand-over |
| `Mempool`, `PoolIndexes`, `PoolHistory`, `BlockSelection` | the pool, its three containers, its history, block selection |
| `WireFormat`, `Readers`, `Codecs`, `BlockCodec`, `WireBytes`, `WireMethods` | byte-level formats |
| `Governance`, `GovernanceRuns`, `GovernanceSteps` | proposals and their life cycle |

`dafny verify dfyconfig.toml` checks the whole project.

## Conventions

- 64-bit and 32-bit integers are subset types; wherever the program's arithmetic
  can wrap around, `Wrap` says so. Address, digest, key and signature are numbers
  (the big-endian reading of their bytes), so lexicographic order is `<`; the
  codecs state their widths.
- Hash functions and the BLS and Ed25519 libraries are function-valued
  parameters. Injectivity of a hash, or completeness of aggregation, is a
  hypothesis where a theorem needs it. Floating-point results (the slashing
  penalty, the signing-rate comparison, the genesis percentages, the validity of a
  governance value) are parameters too; the governance thresholds are the exact
  rationals 667/1000 and 1/10.
- Time and block heights that the program reads from a clock or a caller are
  parameters.
- A thrown exception is `None`, `Err`, `Throws` or `false`, as each contract says.
- Loops of the program that do one separable thing are sometimes methods of
  their own, called where the loop stands.

## Hypotheses worth knowing

- Agreement is over one validator set. An honest validator casts votes for one
  digest per height (nothing in `create_vote` enforces it), and only cast votes are
  delivered. The quorum bound needs `2 * total + 2 < 2^64`: `RequiredStakeExact`
  shows the threshold is wrong beyond it.
- Epoch selection, tombstones and the staking books hold in every run whatever. The
  cached total and the snapshot's dominance assume that bonded sums fit in 64 bits
  and that status writes are those the code compensates for
  (`UpdateKeepsInvariantExactly` says which); the books are off by 2^64 for each bond
  that wraps, and by nothing else (`LedgerExact`, `LedgerBalances`).
- Supply conservation assumes `amount + fee < 2^64` per transaction
  (`ConservesExactly` shows it is needed) and an initial total below 2^64.
- The gas sum of block selection is a 64-bit one; `BudgetExact` says when the real sum
  keeps to the budget.
- A slash is stated for a cached total that, with what is taken, fits in 64 bits.
- The exact history of the pool assumes a per-account limit of at least 1.
- The genesis hand-over assumes `supply + cap < 2^64`. Acceptance is proved for
  distinct addresses; `HandOverBalances` covers every list.
- Governance assumes fewer than 2^64 calls. `DeadlineExact` says when a deadline
  computed in 64 bits is the real one.
- A checkpoint's signers, and a proposal's backers, are assumed to have stakes that
  sum to less than 2^64 where their claimed stake is compared with the real one.

## Where the code differs from its documentation, or from what one would expect

- Governance approval is described as two thirds; the code compares with 0.667, so
  exactly two thirds is rejected (`TwoThirdsTurnedDown`).
- The proposal threshold sums a repeated backer repeatedly: it is the distinct
  backers' stake if and only if no backer with stake is listed twice
  (`BackingExact`), and a submission can pass that way (`RepeatedBackerAccepted`).
- A tombstone is described as permanent; a full unbond lifts it
  (`TombstoneEscapes`, `TombstoneStepExact`).
- A comment says tombstoned validators are not added to the new epoch's set; the
  code adds them, with their status (`EpochSnapshot`).
- A jail term set during an epoch transition ends in the same transition
  (`FirstJailIsLifted`).
- Unbonding lowers the registry stake at once but not the snapshot that quorums
  count by, and bonding raises both: unbonding and bonding again within one epoch
  inflates the snapshot stake and the quorum total (`SnapshotStakeExact`,
  `RebondInflates`).
- A checkpoint counts signers of any status, unlike a block certificate: its claimed
  stake is Active stake if and only if every known signer is Active or has no stake
  (`CheckpointStakeExact`, `StandbyAloneSuffices`).
- Merkle roots identify leaf lists only of known length, and a repeated genesis
  allocation can pass unnoticed (`RepeatedTailKeepsRoot`,
  `RepeatedAllocationAccepted`); the balances are the allocated total if and only if
  every overwritten allocation is empty (`BalancesExact`).
- The block reader checks `offset + size` in 64 bits. A size below 2^64 minus the
  offset is checked as meant; a larger one passes the check and makes a range that
  ends before it begins. Exactly then (`SizeCheckExact`, `BlockUndefined`) the
  program's behaviour is undefined; the specification refuses such bytes
  (`AcceptedIsDefined`).
- With a per-account limit of 0 the mempool leaves empty queues
  (`AddKeepsIndexesExactly`).

## Model

| member | source | states |
|---|---|---|
| VoteAggregation.VoteAggregator.AddVote | src/consensus/vote_aggregator.cpp:13-39 | counts a vote exactly when the voter is active and has not voted for this block, and adds its stake to the running total; nothing else changes |
| VoteAggregation.VoteAggregator.AggregateVotes | src/consensus/vote_aggregator.cpp:41-88 | returns a certificate exactly when the tallied stake reaches the quorum, naming all collected voters and the tallied stake |
| VoteAggregation.VoteAggregator.ClearVotesUpToHeight | src/consensus/vote_aggregator.cpp:119-129 | removes exactly the entries at or below the height |
| VoteAggregation.WithVoteKeepsBook | src/consensus/vote_aggregator.cpp:13-39 | every entry keeps distinct active voters for its own block, and its running total stays exactly their stake |
| VoteAggregation.ClearKeepsBook | src/consensus/vote_aggregator.cpp:119-129 | clearing keeps that invariant |
| VoteHistory.CountedExactly | src/consensus/vote_aggregator.cpp:13-39 | over every run of a node, counted for a block are exactly the validators whose vote for it was delivered while they were Active and has not been cleared since |
| VoteHistory.CertificateOverRun | src/consensus/vote_aggregator.cpp:41-103 | over every run under one set, a delivered vote completes a certificate if and only if it is a first delivery of an Active validator and those counted, with it, hold two thirds of the stake; the certificate is for that block, signed by them, and claims exactly their stake |
| StakeWeight.RequiredStakeExact | src/consensus/vote_aggregator.cpp:90-103 | the 64-bit threshold expression is the least integer at or above two thirds of the total if and only if its numerator does not wrap around |
| StakeWeight.QuorumsOverlap | src/consensus/vote_aggregator.cpp:90-103 | two quorums of one set share at least a third of its stake |
| StakeWeight.GetActiveValidators | src/consensus/validator.cpp:257-265 | the Active validators, in set order |
| QcVerification.VerifySignersInSet | src/consensus/qc_verifier.cpp:65-77 | accepts exactly when every signer is in the set |
| QcVerification.VerifyAggregatedSignature | src/consensus/qc_verifier.cpp:40-63 | collects the keys of the listed signers and delegates to the signature library; an unknown signer rejects, an empty list throws |
| QcVerification.CalculateSignerStake | src/consensus/qc_verifier.cpp:79-94 | the 64-bit sum of the listed stakes, or 0 if a signer is unknown |
| QcVerification.RequireEpochTransitionQc | src/consensus/validator_registry.cpp:267-284 | accepts exactly when the active signers’ stake reaches the quorum |
| QcVerification.SignerSumsAreWeight | src/consensus/qc_verifier.cpp:79-94 | for distinct active signers both recomputed sums equal the stake they hold |
| QcVerification.CarriedIsAccepted | src/consensus/qc_verifier.cpp:7-38 | a certificate of distinct active signers with a quorum and valid signatures passes every check, and its claimed stake is the recomputed one |
| Certification.VerifyQcExact | src/consensus/qc_verifier.cpp:7-63 | a certificate is accepted if and only if its claimed stake is two thirds of the total (in 64-bit arithmetic), it has signers, all in the set, and the library verifies the aggregate on its digest under exactly their keys in order; it throws exactly on enough claimed stake and no signer |
| Certification.EpochQuorumExact | src/consensus/validator_registry.cpp:267-284 | the epoch-transition check passes if and only if the Active stake of the listed signers, modulo 2^64, is two thirds |
| Consensus.ConsensusEngine.VerifyQcNow | src/consensus/qc_verifier.cpp:7-27 | quorum on the claimed stake, then known signers, then the aggregate signature |
| Consensus.ConsensusEngine.MarkFinalized | src/consensus/consensus_engine.cpp:46-63 | finalises a block only under an accepted certificate and raises the highest certificate only to a greater height |
| Consensus.ConsensusEngine.OnReceiveVote | src/consensus/consensus_engine.cpp:155-174 | counts the vote, returns the certificate if the quorum is reached, and then marks the block final; the whole new state is stated |
| Consensus.ConsensusEngine.TriggerViewChange | src/consensus/consensus_engine.cpp:176-192 | advances the view by one, modulo 2^64 |
| Consensus.ConsensusEngine.IsCurrentLeader | src/consensus/consensus_engine.cpp:311-345 | the leader is the active validator at position view mod count |
| Consensus.ConsensusEngine.ExtendsHighest | src/consensus/consensus_engine.cpp:287-309 | the four guards on the justifying certificate’s height |
| Consensus.ConsensusEngine.VerifyBlock | src/consensus/consensus_engine.cpp:243-285 | accepts exactly when the block extends the highest certificate, comes from the leader, follows a stored parent in height and time, and is justified |
| Consensus.ConsensusEngine.OnReceiveBlock | src/consensus/consensus_engine.cpp:136-153 | stores exactly the accepted blocks and raises the current height |
| Consensus.ConsensusEngine.SetGenesisBlock | src/consensus/consensus_engine.cpp:198-219 | refuses a non-zero height; otherwise stores the block and resets finality to it |
| BlockStore.RunInvariants | src/consensus/consensus_engine.cpp:46-63 | over every run of genesis, blocks, votes, view changes, pruning and new sets, the finalised height is the height of the highest accepted certificate, and the store stays linked |
| BlockStore.Ancestry | src/consensus/consensus_engine.cpp:237-285 | from any stored block of height h, following the previous digest reaches height 0 in exactly h stored links with strictly decreasing timestamps |
| BlockStore.StoreIsForest | src/consensus/consensus_engine.cpp:229-241 | in every run each stored block has such an ancestry, and the height index returns a block of the height asked for |
| BlockStore.FinalityAdvances | src/consensus/consensus_engine.cpp:46-63 | without a new genesis, the finalised height never falls and no finalised or stored block is lost |
| NodeHistory.LeaderExact | src/consensus/consensus_engine.cpp:311-345 | the leader is the validator at place view modulo n among the n Active entries, in set order |
| NodeHistory.AdmitsExact | src/consensus/consensus_engine.cpp:243-309 | a block is accepted if and only if its proposer leads the view and is Active at its first entry, and above height 0 it extends the highest certificate and a stored, older parent one lower under a certified certificate |
| NodeHistory.StepExact | src/consensus/consensus_engine.cpp:46-219 | any step at a node: an accepted block is stored under its digest and height and raises the current height, a certified certificate finalises its digest and becomes the highest if strictly higher, a genesis resets height and finality to itself, only a view change moves the view, and anything else leaves all of that as it was |
| NodeHistory.RunHistory | src/consensus/consensus_engine.cpp:46-241 | over every run: digest and height lookups give the last genesis or accepted block with that digest or height; the current height is the greatest one accepted since the last genesis, the finalised height that of a highest certified certificate since then |
| NodeHistory.StoredExactly | src/consensus/consensus_engine.cpp:136-241 | over every run no accepted header is lost, everything stored was accepted or a genesis, and lookup by height returns the last block stored at it |
| NodeHistory.FinalizedExactly | src/consensus/consensus_engine.cpp:46-63 | over every run a digest is finalised if and only if it was a genesis block or a vote for it completed a certificate with two thirds of the stake claimed, every signer in the set and the aggregate verified on that digest under exactly their keys |
| NodeHistory.StoredIsCertified | src/consensus/consensus_engine.cpp:243-285 | over every run each stored block above height 0 was received with a certificate certified, in that sense, under the set it was received under |
| Agreement.ReachableInvariant | src/consensus/consensus_engine.cpp:155-174 | in every reachable state of many nodes, every certificate was cut from cast votes of distinct active validators holding a quorum |
| Safety.AccountableSafety | src/consensus/slashing_detector.cpp:150-195 | with no assumption on who is honest: behind two certificates for different blocks at one height stand validators with at least a third of the stake, each convicted by two of its own cast votes, one for each block at that height; none of them voted once per height |
| Safety.NoConflictingCertificates | src/consensus/vote_aggregator.cpp:13-88 | with less than a third of the stake Byzantine, no two nodes ever obtain certificates for different blocks at one height |
| Safety.HighestCertificatesAgree | src/consensus/consensus_engine.cpp:46-63 | two nodes whose highest certificates have one positive height finalised the same block there |
| Finality.CertificatesAcceptedEverywhere | src/consensus/qc_verifier.cpp:7-94 | a certificate obtained anywhere has distinct active signers and exact stake, passes every verifier at every node, and its block is finalised where it was obtained |
| Finality.FinalizedIsJustified | src/consensus/consensus_engine.cpp:46-63 | a digest a node finalised is that of a genesis block it was given or of a certificate issued there |
| Finality.FinalityAgrees | src/consensus/consensus_engine.cpp:155-174 | what two nodes finalised beyond genesis was certified at each, and certificates for it at one height name one block |
| AgreementBound.OneThirdByzantineConflicts | src/consensus/vote_aggregator.cpp:41-103 | the bound is tight: with exactly a third Byzantine, a concrete run ends in two conflicting certificates |
| SlashingDetection.DoubleSignExact | src/consensus/slashing_detector.cpp:118-148 | a validator signs at most one digest per height if and only if no pair of its records is ever flagged |
| SlashingDetection.DoubleSignEvent | src/consensus/slashing_detector.cpp:118-148 | two records are flagged if and only if they are one validator’s, at one height, with two digests; the event names it, the height and the reason that tombstones, with no penalty yet |
| SlashingDetection.SurroundVoteEvent | src/consensus/slashing_detector.cpp:150-195 | two votes are flagged if and only if they are one validator’s, for two digests, at one height or in one view; the event names the greater height |
| SlashingDetection.SurroundVoteExact | src/consensus/slashing_detector.cpp:150-195 | of a validator that votes once per height, exactly the pairs for two heights in one view are flagged, in either order |
| SlashingHistory.SlashingDetector.RecordSignature | src/consensus/slashing_detector.cpp:233-244 | appends to the signer’s history and keeps its newest records up to the limit |
| SlashingHistory.SlashingDetector.RecordVote | src/consensus/slashing_detector.cpp:246-257 | the same for votes |
| SlashingHistory.SlashingDetector.PruneOldSignatures | src/consensus/slashing_detector.cpp:279-304 | removes exactly the records below the cutoff, and nothing while the chain is younger than the retention period |
| SlashingHistory.SlashingDetector.PruneOldVotes | src/consensus/slashing_detector.cpp:306-331 | the same for votes |
| SlashingHistory.EvidenceKept | src/consensus/slashing_detector.cpp:233-331 | over any run a record stays in its validator’s history while fewer than the limit of newer ones arrive and no pruning reaches its height |
| SlashingHistory.HistoryBounded | src/consensus/slashing_detector.cpp:233-331 | histories hold only what was recorded for the validator, never more than the limit |
| SlashingHistory.PruneExact | src/consensus/slashing_detector.cpp:279-331 | pruning keeps, in order, exactly the records within the retention |
| SlashingHistory.RecordExact | src/consensus/slashing_detector.cpp:233-257 | the new record is last, and only what exceeds the limit is dropped, oldest first |
| MerkleTree.MerkleTree.BuildTree | src/crypto/merkle_tree.cpp:10-28 | the levels and the root are those of the leaf list; an empty list gives the zero digest |
| MerkleTree.MerkleTree.BuildInternalTree | src/crypto/merkle_tree.cpp:30-62 | level by level up to one node, an odd last node paired with itself |
| MerkleTree.MerkleTree.GenerateProof | src/crypto/merkle_tree.cpp:68-102 | the sibling path of the leaf, or nothing past the last leaf |
| MerkleTree.MerkleTree.VerifyProof | src/crypto/merkle_tree.cpp:104-131 | folds the leaf with its siblings and compares with the root |
| MerkleTree.Completeness | src/crypto/merkle_tree.cpp:68-131 | every generated proof verifies, for every hash, leaf count and index |
| MerkleTree.Soundness | src/crypto/merkle_tree.cpp:104-165 | with a collision-free pair hash, a proof of the tree’s depth below the leaf count verifies if and only if it is the generated one |
| MerkleTree.Binding | src/crypto/merkle_tree.cpp:30-62 | leaf lists of one length have equal roots if and only if they are equal |
| MerkleTree.RootExact | src/crypto/merkle_tree.cpp:10-62 | the root in terms of the leaves: nothing for none, the leaf for one, else the root of the level whose k-th node hashes leaves 2k and 2k + 1 in this order, or an odd last leaf with itself |
| MerkleTree.RepeatedTailKeepsRoot | src/crypto/merkle_tree.cpp:30-62 | repeating the last leaf of an odd tree keeps the root, so the length must be known |
| Checkpoints.CollectSigners | src/consensus/checkpoint_manager.cpp:220-267 | the known signers in key order, their signatures, and their stake |
| Checkpoints.AggregateSignatures | src/consensus/checkpoint_manager.cpp:220-267 | signs the checkpoint exactly when the known signers’ stake reaches the quorum |
| Checkpoints.VerifyCheckpointLoop | src/consensus/checkpoint_manager.cpp:275-318 | claimed quorum, known signers, recomputed stake equal to the claim, then the signature |
| Checkpoints.AggregatedIsAccepted | src/consensus/checkpoint_manager.cpp:220-318 | whatever aggregation of valid signatures returns, verification accepts; with a positive total nothing throws |
| Checkpoints.StandbyAloneSuffices | src/consensus/checkpoint_manager.cpp:220-267 | for every set and every validator of it that is not Active: its signature alone reaches the quorum if and only if its stake does, and no Active stake stands behind it |
| Checkpoints.CheckpointStakeExact | src/consensus/checkpoint_manager.cpp:220-267 | the stake a signed checkpoint claims is the Active stake of its signers if and only if every known signer is Active or has no stake |
| Checkpoints.ActiveSignersAreQuorum | src/consensus/checkpoint_manager.cpp:220-267 | signatures of Active validators only make a real quorum of a well-formed set |
| Certification.VerifyCheckpointExact | src/consensus/checkpoint_manager.cpp:275-318 | a checkpoint is accepted if and only if its claimed stake is two thirds and is the listed signers’, all in the set, and the library verifies the aggregate on the digest of its data under exactly their keys |
| Certification.AggregationExact | src/consensus/checkpoint_manager.cpp:220-267 | aggregation signs if and only if the known signers’ stake, modulo 2^64, is two thirds and there is one; it then lists exactly them in key order, with that stake and the aggregate of their signatures in that order |
| ValidatorRegistry.ValidatorRegistry.AddValidator | src/consensus/validator_registry.cpp:25-42 | adds a Standby validator unless the id is taken |
| ValidatorRegistry.ValidatorRegistry.UpdateValidator | src/consensus/validator_registry.cpp:44-92 | rewrites keys and status in both copies and lowers the cached total only from Active to Tombstoned |
| ValidatorRegistry.ValidatorRegistry.BondStake | src/consensus/validator_registry.cpp:94-115 | adds the stake to both copies and, if Active, to the cached total |
| ValidatorRegistry.ValidatorRegistry.UnbondStake | src/consensus/validator_registry.cpp:117-151 | refuses to leave a remainder below the minimum; otherwise lowers the stake and queues one request |
| ValidatorRegistry.ValidatorRegistry.ProcessUnbonding | src/consensus/validator_registry.cpp:153-168 | returns exactly the requests due and keeps the others in order |
| ValidatorRegistry.ValidatorRegistry.RankByStake | src/consensus/validator_registry.cpp:170-183 | all validators by falling stake, then id |
| ValidatorRegistry.ValidatorRegistry.TransitionEpoch | src/consensus/validator_registry.cpp:185-244 | downtime, ranking, placement, the new snapshot with its total and Merkle root |
| ValidatorRegistry.ValidatorRegistry.CheckDowntime | src/consensus/validator_registry.cpp:296-368 | penalises exactly the active violators in the registry and returns them; what the counter counts and what each violation costs is CounterExact and PenaltyByRun |
| ValidatorRegistry.ValidatorRegistry.SlashValidator | src/consensus/validator_registry.cpp:370-412 | takes at most the stake from both copies and the cached total |
| ValidatorRegistry.ValidatorRegistry.DistributeRewardsProportional | src/consensus/validator_registry.cpp:414-455 | floors of proportional shares, the remainder to the last active validator |
| RegistryRuns.SaturationUnreachable | src/consensus/validator_registry.cpp:76-84 | under the invariant no saturating subtraction ever saturates |
| RegistryRuns.StructureKept | src/consensus/validator_registry.cpp:25-412 | every step, with any arguments, keeps validators under their ids and one snapshot entry per validator |
| RegistryRuns.UpdateKeepsInvariantExactly | src/consensus/validator_registry.cpp:44-92 | a status write keeps the cached total right if and only if it does not move a staked snapshot entry into Active, or out of Active to anything but Tombstoned |
| RegistryRuns.CachedStakeExact | src/consensus/validator_registry.cpp:44-412 | over every admissible run the cached total is the sum of Active stakes, and no snapshot stake is below the registry’s |
| RegistryRuns.EpochSnapshot | src/consensus/validator_registry.cpp:185-244 | in any registry keyed by id: after a transition the snapshot holds every validator once, exactly as the registry does, under the new epoch and with the Merkle root of its entries |
| RegistryRuns.RankedLists | src/consensus/validator.cpp:213-221 | ranking lists every validator once, by falling stake and among equal stakes by id |
| RegistrySteps.UnbondExact | src/consensus/validator_registry.cpp:117-151 | unbonding changes anything if and only if the amount is there and leaves nothing or at least the minimum; then the stake falls by it, a validator left with nothing is on Standby, and one request falls due a period later |
| RegistrySteps.ProcessExact | src/consensus/validator_registry.cpp:153-168 | due and remaining requests are those of the queue by completion height, each list in queue order |
| RegistrySteps.BondExact | src/consensus/validator_registry.cpp:94-115 | a bond raises exactly this validator’s stake in both copies, and the total if its entry is Active |
| RegistrySteps.SlashExact | src/consensus/validator_registry.cpp:370-412 | a slash takes the amount, or all there is, from exactly this validator in both copies, and from the total if its entry is Active |
| RegistrySteps.UpdateExact | src/consensus/validator_registry.cpp:44-92 | an update writes what it is given, in both copies of exactly this validator |
| RegistrySteps.KeysExact | src/consensus/validator_registry.cpp:44-92 | over every run the registry and the snapshot hold the same keys for a validator: those it was last given |
| DowntimeRuns.CounterExact | src/consensus/validator_registry.cpp:296-368 | over every run the downtime counter is the length of the validator’s current unbroken run of violations, modulo 2^64: checks while not Active and repeated checks of the epoch that jailed it do not count, a good check starts anew |
| DowntimeRuns.PenaltyByRun | src/consensus/validator_registry.cpp:185-368 | after every run, the first violation of a run jails for an epoch at no cost, the second takes half a percent, each later one one percent of the stake and puts the validator on Standby; any other check costs nothing; then a transition clears the signing counters, lifts ended jail terms and places by rank |
| DowntimeRuns.ViolatorsExact | src/consensus/validator_registry.cpp:296-368 | a check reports, ascending, exactly the Active validators below the signing threshold |
| DowntimeRuns.SignedExact | src/consensus/validator_registry.cpp:185-294 | over every run the signing counter is the number of signatures recorded since the last transition, modulo 2^64, and nothing is recorded as missed |
| DowntimeRuns.NewcomerExact | src/consensus/validator_registry.cpp:25-42 | adding is the only way in, and a newcomer is on Standby with every counter at 0 |
| EpochSelection.SelectionExact | src/consensus/validator_registry.cpp:185-244 | in any registry keyed by id: a validator is Active in the new epoch if and only if it is eligible and fewer than N validators outrank it |
| EpochSelection.AtMostNActive | src/consensus/validator_registry.cpp:209-231 | at most N validators are Active |
| EpochSelection.ActiveOutrankEligible | src/consensus/validator_registry.cpp:170-244 | every Active validator outranks every eligible one that is not |
| EpochSelection.FirstJailIsLifted | src/consensus/validator_registry.cpp:190-213 | a first violation a transition finds jails until this epoch, and the transition releases: the validator is Active again exactly if rank and bond allow, else Standby |
| EpochSelection.TombstoneStepExact | src/consensus/validator_registry.cpp:44-151 | one step keeps a tombstone if and only if it is neither a full unbond nor another status write |
| EpochSelection.TombstoneIsPermanent | src/consensus/validator_registry.cpp:185-244 | over any run without those two steps, whatever else is written, bonded or slashed, a tombstoned validator stays so and never becomes Active |
| EpochSelection.RunAgrees | src/consensus/validator_registry.cpp:44-92 | in every run registry and snapshot agree on tombstones |
| EpochSelection.TombstoneEscapes | src/consensus/validator_registry.cpp:146-148 | after a full unbond and a bond of the minimum, a tombstoned validator is Active at the next transition if and only if its rank allows |
| StakingLedger.LedgerBalances | src/consensus/validator_registry.cpp:94-168 | over every run, bonded plus pending plus released plus slashed equals what was bonded in if and only if no bond wrapped a stake |
| StakingLedger.LedgerExact | src/consensus/validator_registry.cpp:94-168 | over every run the books are off by exactly 2^64 per wrapped bond |
| StakingLedger.ReleasedExactlyOnce | src/consensus/validator_registry.cpp:117-168 | over any run each unbonding request is pending or was released, exactly once |
| StakingLedger.ReleasedWhenDue | src/consensus/validator_registry.cpp:153-168 | processing releases a request if and only if its completion height has come |
| SnapshotStake.SnapshotStakeExact | src/consensus/validator_registry.cpp:94-151 | over every run a validator’s snapshot stake is its registry stake plus what it unbonded and lost to downtime since the last transition |
| SnapshotStake.RebondInflates | src/consensus/validator_registry.cpp:94-151 | unbonding and bonding again within an epoch leaves the registry stake and raises the snapshot stake and the quorum total by the amount |
| Shares.SharesExact | src/consensus/validator_registry.cpp:428-452 | the split pays exactly the amount; each share but the last is the floor of its part, and the last exceeds its floor by less than the number of recipients |
| SlashingConservation.RewardsExact | src/consensus/validator_registry.cpp:414-455 | the rewards of a well-formed set add up to exactly the amount |
| Slashing.ApplySlashing | src/consensus/slashing_detector.cpp:333-427 | caps the penalty at the stake, bonds the undestroyed half to the other active validators, slashes, tombstones a safety violation, and burns from the supply; it does so exactly for a known validator and a positive penalty |
| SlashingConservation.SlashingConserves | src/consensus/slashing_detector.cpp:333-427 | the offender keeps its stake less the event’s penalty, or nothing; total bonded stake falls by exactly half of what is taken if and only if another active validator has stake (or nothing is taken), and the supply by the same, down to 0 |
| SlashingEffects.SlashExact | src/consensus/slashing_detector.cpp:333-427 | everything a slash does to both copies, on the event: the offender loses the event’s penalty or all it has, and a safety violation tombstones it; half, rounded up, goes to the other Active validators by stake, each the floor of its part and the last the rest; nobody else changes |
| SlashingEffects.SlashSupply | src/consensus/slashing_detector.cpp:402-410 | the supply falls by the other half of what is taken, down to 0 |
| SlashingEffects.NoSlash | src/consensus/slashing_detector.cpp:338-347 | an unknown validator or a zero penalty changes nothing |
| SlashingEffects.DoubleSignTombstones | src/consensus/slashing_detector.cpp:118-148 | two signatures for two blocks at one height lead to a tombstone in both copies, whatever positive penalty is set |
| Accounts.AccountManager.CreateAccount | src/state/account_manager.cpp:20-24 | writes a fresh account, replacing any old one |
| Accounts.AccountManager.IncrementNonce | src/state/account_manager.cpp:35-39 | nonce plus one modulo 2^64, only for this account |
| Accounts.AccountManager.DeductBalance | src/state/account_manager.cpp:46-50 | balance minus the amount modulo 2^64 |
| Accounts.AccountManager.AddBalance | src/state/account_manager.cpp:52-56 | balance plus the amount modulo 2^64 |
| Execution.ValidateTransaction | src/state/transaction_validator.cpp:20-74 | the gate: the first failing check in order, or none |
| Execution.TransactionExecutor.ExecuteTransaction | src/state/transaction_executor.cpp:14-69 | transfer, burn and priority fee in this order, with the receipt |
| Settlement.ExecutionConserves | src/state/transaction_executor.cpp:14-93 | balances plus burned fees are unchanged for every aliasing of sender, recipient and proposer, and no addition overflows |
| Settlement.ExecutionMoves | src/state/transaction_executor.cpp:14-93 | who gets what: each account’s balance change, and a burn of min(fee, base fee times gas modulo 2^64) |
| Settlement.ConservesExactly | src/state/transaction_executor.cpp:23-36 | a transaction conserves the supply on every ledger if and only if amount plus fee fits in 64 bits |
| Settlement.RunConserves | src/state/state_machine.cpp:58-127 | balances plus burned fees are invariant over every run |
| Settlement.FailureIsNoChange | src/state/state_machine.cpp:95-127 | a transaction fails if and only if it leaves the ledger as it was |
| Settlement.NoncesConsecutive | src/state/transaction_validator.cpp:54-61 | over every run each sender’s successful nonces count up by one from its starting nonce |
| Settlement.NoReplay | src/state/transaction_validator.cpp:54-61 | no (sender, nonce) pair succeeds twice if and only if the sender has at most 2^64 successes |
| Settlement.ChainIsSafe | src/state/state_machine.cpp:58-93 | both hold over whole chains of blocks |
| Settlement.StateRootBinds | src/state/state_machine.cpp:129-155 | states with the same number of accounts have equal roots if and only if they are equal |
| ChainHistory.MovesExactly | src/state/transaction_validator.cpp:20-74 | the ledger moves if and only if the transaction is authorised: two non-zero addresses, the chain’s id, a valid signature, the sender’s nonce, and a balance of at least the 64-bit cost |
| ChainHistory.ChainMovesExactly | src/state/state_machine.cpp:58-127 | over a whole chain of blocks each transaction in turn moves the ledger if and only if it is authorised on the accounts it meets, and then by exactly its amount and its fee, the base burned and the rest to the proposer |
| ChainHistory.NothingTakenUnsigned | src/state/state_machine.cpp:58-127 | over a whole chain of blocks no balance falls and no nonce moves without a validly signed, in-order transaction of that account which its balance covered |
| ChainHistory.ReceiptReports | src/state/state_machine.cpp:95-127 | a receipt reports success if and only if the transaction was authorised, and otherwise names the first check that failed |
| ChainHistory.BlockRecords | src/state/state_machine.cpp:58-93 | a block leaves its height, the root before it under the height before it, and for each digest the receipt of the last transaction with it |
| StateMachine.StateMachine.ExecuteBlock | src/state/state_machine.cpp:58-93 | snapshots the root, executes every transaction in order, stores the receipts, sets the height and returns the new root |
| StateMachine.StateMachine.ExecuteTransaction | src/state/state_machine.cpp:95-127 | a refused transaction leaves the ledger alone; the receipt says which check failed |
| StateMachine.StateMachine.ComputeStateRoot | src/state/state_machine.cpp:129-155 | the Merkle root of the sorted account digests, zero for no accounts |
| StateMachine.StateMachine.InitializeFromGenesis | src/state/state_machine.cpp:20-56 | accepts exactly a height-0 epoch-0 block with the allocations’ root; otherwise nothing or everything is cleared |
| Genesis.GenesisBuilder.AddAllocation | src/consensus/genesis_builder.cpp:283-309 | refuses above the cap or the supply; above the vesting threshold a schedule is attached |
| Genesis.GenesisBuilder.AddVestingAllocation | src/consensus/genesis_builder.cpp:311-339 | the same with the given duration |
| Genesis.GenesisBuilder.CreateGenesisValidatorSet | src/consensus/genesis_builder.cpp:341-404 | the ranked set with the first N Active, or no change if one of them has too little stake |
| Genesis.GenesisBuilder.Validate | src/consensus/genesis_builder.cpp:476-497 | total within supply, every amount within the cap, vesting where required |
| Genesis.GenesisBuilder.Build | src/consensus/genesis_builder.cpp:406-452 | the genesis block, or none where the program throws |
| GenesisHandover.ConstructedIsValid | src/consensus/genesis_builder.cpp:283-339 | after any calls the running total is exact and the builder’s own validation passes |
| GenesisHandover.RootsAgree | src/consensus/genesis_builder.cpp:509-531 | for distinct addresses the root over the allocation list is the root over the account map |
| GenesisHandover.HandOver | src/state/state_machine.cpp:20-56 | after any calls with distinct addresses, the built block is accepted if and only if the initial epoch is 0, and the balances are the allocations and sum to the allocated total, within the supply |
| GenesisHandover.BalancesExact | src/state/state_machine.cpp:34-40 | the accounts hold the allocated sum if and only if every allocation overwritten by a later one at its address has amount 0, and less otherwise |
| GenesisHandover.HandOverBalances | src/state/state_machine.cpp:20-56 | after any calls, an accepted block leaves the allocated total under exactly that condition |
| GenesisHandover.RepeatedAllocationAccepted | src/consensus/genesis_builder.cpp:509-531 | allocating again to the last of an odd number of distinct addresses whose digest sorts last: the block then built is accepted if and only if the initial epoch is 0, and its balances fall short by that amount |
| GenesisHandover.GenesisSetWellFormed | src/consensus/genesis_builder.cpp:341-404 | the genesis set, of any size, is well formed, holds every given validator, in rank order, exactly the first N Active and with enough stake |
| GenesisHandover.GenesisSetOrderFree | src/consensus/genesis_builder.cpp:346-355 | the set does not depend on the order the validators are given in |
| GenesisHandover.VestingProgress | src/consensus/genesis_builder.cpp:30-45 | vesting never goes back and reaches the total exactly when the duration is over |
| GenesisSteps.AllocationsExact | src/consensus/genesis_builder.cpp:283-339 | after any calls the allocations are exactly those granted, in order: within the cap and, with those before, within the supply, and with a schedule where asked for or above the threshold |
| GenesisSteps.GenesisSetExact | src/consensus/genesis_builder.cpp:341-404 | the set exists if and only if there are validators and those with a place among the first N have bonded the minimum; it seats every validator at its place by stake and id, Active within the first N, with cleared counters, under the initial epoch and the Merkle root of its entries |
| GenesisSteps.BuiltExact | src/consensus/genesis_builder.cpp:406-452 | after any calls a block is built if and only if a set was created; it has height 0, the configured time and epoch, the set’s root, and nothing else |
| GenesisSteps.StartExact | src/state/state_machine.cpp:20-56 | a block of another height or epoch changes nothing; otherwise the state is the allocations’ (each address with its last one, nonce 0) if their root is the block’s, and empty if not |
| GenesisSteps.VestingExact | src/consensus/genesis_builder.cpp:30-45 | nothing before the start, then linearly, rounded down, and everything at the end |
| Mempool.Mempool.AddTransaction | src/state/mempool.cpp:18-76 | takes a transaction exactly when it is new, admissible and the queue has room; all three containers are stated |
| Mempool.Mempool.InsertInNonceOrder | src/state/mempool.cpp:78-85 | inserts before the first entry whose nonce is not smaller |
| Mempool.Mempool.RemoveTransactions | src/state/mempool.cpp:144-187 | removes each listed transaction from all three containers, dropping emptied queues |
| Mempool.Mempool.PruneOldTransactions | src/state/mempool.cpp:207-218 | removes what is older than the maximum age, the age being a 64-bit difference |
| Mempool.Mempool.GetAccountTransactions | src/state/mempool.cpp:193-205 | the sender’s queued transactions in order, none without a queue |
| Mempool.Mempool.GetTransactionsForBlock | src/state/mempool.cpp:87-142 | the selection loop over the fee index from the highest fee down |
| PoolIndexes.AddKeepsIndexesExactly | src/state/mempool.cpp:18-76 | adding keeps the three containers in step if and only if the per-account limit is at least 1 or balance or nonce rule the transaction out |
| PoolIndexes.RemoveKeepsIndexes | src/state/mempool.cpp:144-187 | removal keeps them in step and takes out exactly the named transactions |
| PoolIndexes.PruneKeepsIndexes | src/state/mempool.cpp:207-218 | pruning keeps them in step and removes exactly those whose age, modulo 2^64, is above the limit |
| PoolIndexes.IndexesAgree | src/state/mempool.cpp:18-224 | over any run lookup, fee index and queues hold the same transactions, each once, queues non-empty, within the limit and in nonce order |
| PoolIndexes.SameCount | src/state/mempool.cpp:189-191 | the fee index has as many entries as the lookup |
| PoolHistory.AddExact | src/state/mempool.cpp:18-76 | a transaction is pooled if and only if it is new, its sender has fewer than the limit pooled and, with an account manager, its balance covers the 64-bit cost and its nonce is in the window from the account’s |
| PoolHistory.PooledExactly | src/state/mempool.cpp:18-224 | after any run pooled are exactly the transactions some step admitted and no later step removed, expired or cleared |
| PoolHistory.EntersAt | src/state/mempool.cpp:55-85 | equal fees keep the order of arrival; a queued transaction goes before the first of no smaller nonce |
| BlockSelection.GreedyExact | src/state/mempool.cpp:104-140 | the greedy choice (fee at least the minimum, 64-bit gas sum within the budget and, with an account manager, next nonce of its sender) exists and is unique |
| BlockSelection.SelectionIsGreedy | src/state/mempool.cpp:87-142 | with or without an account manager, the loop returns a list if and only if it is that greedy choice |
| BlockSelection.BlockIsValid | src/state/mempool.cpp:87-142 | for every pool: distinct members in non-increasing fee order, a 64-bit gas sum within the budget (a real one if no gas limit carries the budget past 2^64) and, with an account manager, each sender’s nonces running on from its current nonce |
| BlockSelection.BudgetExact | src/state/mempool.cpp:118-121 | blocks keep to the gas budget for every pool with gas limits up to a bound if and only if budget plus bound is below 2^64 |
| WireFormat.WriteLittle | src/consensus/block.cpp:43-46 | the byte loop writes the little-endian digits |
| WireFormat.ReadLittle | src/consensus/block.cpp:88-92 | the byte loop reads the little-endian number |
| WireFormat.FieldsExact | src/consensus/block.cpp:194-287 | reading a table of fields returns given values if and only if they fit and the bytes are what writing them gives |
| Codecs.HeaderExact | src/consensus/block.cpp:194-287 | a header is read exactly from its 184-byte encoding |
| Codecs.HeaderBytes | src/consensus/block.cpp:194-234 | where each header field lies and in which byte order |
| Codecs.TransactionExact | src/state/transaction.cpp:87-197 | a byte string is read as a transaction if and only if it is its 164-byte encoding |
| Codecs.TransactionBytes | src/state/transaction.cpp:87-132 | where each transaction field lies and in which byte order |
| Codecs.ValidatorExact | src/consensus/validator.cpp:64-190 | a validator is read exactly from its 153-byte encoding; a bad status is refused |
| Codecs.ValidatorSetExact | src/consensus/validator.cpp:291-372 | a byte string is read as a set if and only if it starts with the set’s encoding |
| Codecs.SetRoundTripExactly | src/consensus/validator.cpp:308-312 | a set’s round trip holds if and only if it has fewer than 2^32 members |
| BlockCodec.CertificateExact | src/consensus/block.cpp:39-138 | a byte string is read as a certificate if and only if it starts with the certificate’s encoding |
| BlockCodec.BlockExact | src/consensus/block.cpp:330-409 | a byte string is read as a block, with any number of transactions and signers, if and only if it starts with the block’s encoding |
| BlockCodec.BlockRoundTrip | src/consensus/block.cpp:330-409 | deserializing a serialized block gives the block |
| WireBytes.LittleDigits | src/consensus/block.cpp:43-46 | byte i of a little-endian number is its digit i to the base 256 |
| WireBytes.BigDigits | src/crypto/blake3_hash.cpp:52-58 | a digest or address is the number its bytes spell in order: byte i from the end is digit i to the base 256 |
| WireBytes.ValidatorBytes | src/consensus/validator.cpp:64-112 | where each of a validator’s 153 bytes belongs |
| WireBytes.SetBytes | src/consensus/validator.cpp:291-321 | where a set’s fields and its members lie |
| WireBytes.CertificateBytes | src/consensus/block.cpp:39-79 | where a certificate’s fields, signers and claimed stake lie |
| WireBytes.BlockBytes | src/consensus/block.cpp:330-359 | where a block’s header, transaction count, framed transactions and certificate lie |
| WireMethods.SerializeBlock | src/consensus/block.cpp:330-359 | header, count, framed transactions, certificate |
| WireMethods.SerializeTransaction | src/state/transaction.cpp:87-132 | the fields in order |
| WireMethods.DeserializeTransaction | src/state/transaction.cpp:134-197 | refuses any length but 164, then reads the fields |
| WireMethods.SerializeValidator | src/consensus/validator.cpp:64-112 | the fields in order |
| WireMethods.DeserializeValidator | src/consensus/validator.cpp:114-190 | refuses short data and a bad status, then reads the fields |
| WireMethods.DeserializeBlock | src/consensus/block.cpp:361-409 | the reading loop with its size checks in 64-bit arithmetic: the specified result, or undefined behaviour exactly when a size wraps |
| WireMethods.ReadFramesAt | src/consensus/block.cpp:383-403 | the loop over framed transactions, with offsets and the wrapping check |
| WireMethods.SizeCheckExact | src/consensus/block.cpp:395-398 | the check of offset plus size is right if and only if the sum is below 2^64 |
| WireMethods.AcceptedIsDefined | src/consensus/block.cpp:361-409 | bytes whose reading is undefined are none the specification accepts |
| WireMethods.DeserializeQc | src/consensus/block.cpp:81-138 | the reading loop with its size checks |
| WireMethods.SerializeSet | src/consensus/validator.cpp:291-321 | fields, count, members |
| WireMethods.DeserializeSet | src/consensus/validator.cpp:323-372 | the reading loop with its size checks |
| Governance.GovernanceModule.SubmitProposal | src/state/governance_module.cpp:13-63 | accepts exactly valid values with enough backing, in 64-bit arithmetic, under the next id |
| Governance.GovernanceModule.Vote | src/state/governance_module.cpp:65-111 | counts one vote per voter with stake while voting is open |
| Governance.GovernanceModule.FinalizeVoting | src/state/governance_module.cpp:113-159 | after the period: rejects below quorum or below the approval rate, else approves and starts the timelock |
| Governance.GovernanceModule.ExecuteProposal | src/state/governance_module.cpp:161-192 | executes only an approved proposal past its timelock whose value is still valid |
| GovernanceRuns.RunTracks | src/state/governance_module.cpp:13-192 | over any calls at any heights, tallies are the summed stakes of the distinct recorded voters, and status agrees with when it was approved and executed |
| GovernanceRuns.ExecutedInTime | src/state/governance_module.cpp:113-192 | an executed proposal was approved at or after creation plus 7 days, and executed at or after that plus 14, 7 or 3 days by its parameter, each if that deadline is below 2^64 |
| GovernanceRuns.DeadlineExact | src/state/governance_module.cpp:52-153 | a deadline computed in 64 bits is never passed early if and only if the real one is below 2^64 |
| GovernanceRuns.ApprovedByTwoThirds | src/state/governance_module.cpp:140-154 | an approved or executed proposal had at least two thirds of the recorded stake in favour |
| GovernanceRuns.StatusMoves | src/state/governance_module.cpp:65-192 | status only moves from active to approved or rejected and from approved to executed; closed tallies are frozen |
| GovernanceRuns.FinalizedExactly | src/state/governance_module.cpp:134-158 | approved if and only if some stake is in favour, a tenth of the total voted, and those in favour outweigh those against by 667 to 333; the timelock then runs from the finalising height |
| GovernanceRuns.TwoThirdsTurnedDown | src/state/governance_module.cpp:145-151 | a two-thirds majority is rejected if and only if its rate is below 0.667; exactly two thirds always is |
| GovernanceRuns.RepeatedBackerCounts | src/state/governance_module.cpp:28-35 | a backer listed k times backs with k times its stake |
| GovernanceRuns.BackingExact | src/state/governance_module.cpp:28-35 | the computed backing is the distinct backers’ stake if and only if no backer with stake is listed twice; it is never below it |
| GovernanceRuns.SubmissionExact | src/state/governance_module.cpp:23-43 | without such a repetition a submission is accepted if and only if the value is valid and the distinct backers hold a thousandth of the total |
| GovernanceRuns.RepeatedBackerAccepted | src/state/governance_module.cpp:28-43 | a submission is accepted that the distinct backers could not make |
| GovernanceSteps.SubmitExact | src/state/governance_module.cpp:13-63 | a submission opens the next proposal, with the fields given and seven days to vote, if and only if the value is valid and a thousand times its backing, modulo 2^64, reaches the total; else nothing changes |
| GovernanceSteps.CastExact | src/state/governance_module.cpp:65-111 | a vote is counted, on its side and with its stake, if and only if the proposal is open, its end not reached, the voter new and the stake positive; else nothing changes |
| GovernanceSteps.CloseExact | src/state/governance_module.cpp:113-159 | voting closes if and only if the proposal is open and its end reached; it is approved on a tenth of the total voting and 0.667 in favour, locked for 14, 7 or 3 days by its parameter |
| GovernanceSteps.ExecuteExact | src/state/governance_module.cpp:161-192 | a proposal is executed if and only if it is approved, its timelock is over and its value still valid |
| GovernanceSteps.VotersExact | src/state/governance_module.cpp:65-111 | over any calls the voters of a proposal are exactly those whose vote with stake came while it was open and before its end |

## Left out

- Networking, RPC, REST, WebSocket, CLI, configuration, logging, metrics, storage and the rate limiter: input and output around the core.
- Hash, BLS12-381 and Ed25519 internals: parameters, as said above; so is which signatures verify against the blank key the state machine passes.
- Floating-point formulas (`calculate_penalty`, fee market, monetary policy, allocation percentages, bounds of floating-point governance values): parameters. The penalty of a slashing event is the event's own.
- `propose_block` and `create_vote`: driven by the clock and by private keys; at height 0 the former links to the zero digest.
- `revert_to_height` and any use of the snapshots: the program only clears the accounts. Receipt permanence: a later receipt under the same digest overwrites.
- `SyncManager`, `LightClient`, `reject_chain_without_checkpoint`, checkpoint age and interval checks, plain getters: isolated, easier members.
- Codecs of receipts, checkpoints, Merkle proofs and genesis structures: the same field tables again.
- Threads, timeouts and the view-change timer.
- VoteAggregation.VoteAggregator.AggregateVotes: the signature list is never empty by the book's invariant, so the library's exception on an empty list is not modelled there.
- SlashingDetection.SurroundVoteExact: says that votes at two heights in one view are flagged, not that they are a fault; an honest validator can cast them.
- What happens when a block's transaction size wraps the 64-bit offset check is undefined behaviour of the program; the model only says exactly when (`WireMethods.BlockUndefined`).
- BlockCodec.CertificateExact: memory reserved for a huge declared signer count is not modelled; such input is refused as too short.
- The mempool's search of its fee index starts at the front rather than at the first entry of the fee: in a sorted index both find the same entry.
