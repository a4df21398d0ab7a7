# Verified model of the terminal's chains, caches and sync protocols

This project models the stateful logic of the Mobius civic terminal in Dafny and proves what that
logic keeps over every input, every run and every interleaving. `dafny verify dfyconfig.toml` checks
the whole project.

| module | models |
|---|---|
| `Hashing`, `Merkle`, `MicBlock`, `MicViews`, `MicChain` | the MIC hash chain: Merkle folding, proof of work, validation, overlapping appends, balances and holders |
| `Wallet`, `MintGate` | earning and burning on captured chains, and the mint-gate effect that feeds the wallet |
| `DatVerifier`, `DatWriter` | the reserve-block `.dat` verifier, and the export it reads back |
| `Text`, `DurabilitySync` | the Track R review registry and its receipts |
| `StringOrder`, `SortedSet`, `Timeline` | the trimmed Redis timeline, its feed and the bounded lists |
| `SnapshotCache` | the single-flight snapshot cache |
| `Savepoints` | the browser savepoint of a chamber |
| `GithubState` | the sha-conditioned GitHub write with one retry |
| `LedgerMerge` | the prioritised ledger merge and the EPICON list |
| `Sequences`, `FanOut` | the bounded fan-out queues |

## How it is modelled

- SHA-256 (section 6.2 of FIPS 180-4) is an arbitrary function on strings. A binding theorem never
  supposes it injective: it concludes "equal, or two different texts among those actually hashed share
  a digest". Such a collision must lie between two finite, named sets of texts, so the second
  alternative does not hold merely because digests are shorter than texts.
- JSON encodings, JSON parsing and ISO dates are parameters. Where a theorem needs it, its
  hypotheses (`Faithful`) say that different modelled values encode differently and that a transaction
  is encoded as an object. Separators, decimal
  numbers, line splitting and the receipt's regular expression are written out.
- Amounts on the chain are whole micro-MIC. `Math.round` (section 21.3.2.28 of ECMA-262) is
  round-half-up on reals.
- Objects the source updates in place are classes whose methods are specified by functions on their
  old state; loops are loops. Runs and interleavings are sequences of events folded by the same
  functions, so a lemma about all event sequences is a statement about the class.
- A React closure's captured state is an explicit argument: the index of any chain stored earlier.

## What the code does that its comments do not say

- `validateChain` does not recompute the first block's hash or check any index, so genesis contents
  are not bound (`MicBlock.GenesisContentsUnbound`) and the tip hash alone does not bind the length
  (`MicBlock.LengthUnbound`). It does bind it among chains of two or more blocks that hold block i at
  index i (`MicBlock.TipHashBindsIndexedChain`), and started from such a chain the hook stores only
  such chains while its searches meet the prefix (`MicChain.EveryStoredChainIsValid`).
- At its cap, `mineBlock` pairs the hash of one nonce with the next nonce. The resulting block is
  rejected unless those two nonces hash alike (`MicBlock.AppendValidExactly`).
- A separator in any hashed text field lets another accepted chain have the same tip hash
  (`MicBlock.SeparatorBreaksBinding`), hence the hypothesis of the binding theorems.
- A Merkle root does not bind the number of transactions. Lists share one exactly when the same tree
  is built for them, barring a collision (`MicBlock.RootsShareExactly`).
- Overlapping appends lose blocks: only those of the last chain's lineage survive, and none is lost
  exactly when no calls overlap (`MicChain.NoBlockLostExactly`).
- A mint authorised while the chain is still loading is dropped. Its cycle is minted again only once
  another cycle has qualified in between (`MintGate.MintReachesChainExactly`).
- A review verdict is kept by run id. It stands for another packet exactly when a superseded row names
  one (`DurabilitySync.VerdictCarriedExactly`).
- A sync is idempotent exactly when its candidate is not also listed as superseded
  (`DurabilitySync.SyncIdempotentExactly`).
- The `.dat` verifier's header promises exit 2 on a parse error; a record that does not parse ends it
  with exit 1. Only the manifest gives 2 (`DatVerifier.VerifyDirectory`).
- File names of the `.dat` export are padded to four digits, so beyond ten thousand files they no longer
  sort in the order they are written, which the verifier relies on (`DatWriter.NamesAscendExactly`).
- The GitHub write documents a retry on 409; it retries after every first PUT that was answered with a
  failure (`GithubState.RetriedExactly`). So a first PUT that took effect and was answered with an
  error is followed by a second one.
- The GitHub write also documents that a transport error returns false; the second PUT is returned without `await`,
  so its transport error rejects the call (`GithubState.ThrowsExactly`).
- Trimming a sorted set early loses a member exactly when a kept member's score is lowered below the
  first member left out (`SortedSet.TrimCommutesExactly`).
- A feed limit of zero or less still returns one event (`Timeline.FeedLimitBelowOne`).
- A successful response that is no object clears the chamber, whatever is saved, until the next load
  (`Savepoints.ShownCountIsSavedCountExactly`).

## Model

| member | source | states |
|---|---|---|
| Merkle.ComputeMerkleRoot | hooks/useMICBlockchain.ts:58-74 | the level-by-level loop ends and returns the root of the perfect tree read top-down, where an empty right half copies the left; the empty list gives the digest of 'empty' |
| Merkle.FoldIsTreeRoot | hooks/useMICBlockchain.ts:64-73 | folding pairs level by level equals the tree defined from its root, at the least height with room for all leaves |
| Merkle.SmallRoots | hooks/useMICBlockchain.ts:58-74 | the roots of the lists of up to three items, written out: neighbours joined left before right, an odd last one with itself |
| Merkle.EqualRootsOneTree | hooks/useMICBlockchain.ts:67-71 | two trees of any depths whose top texts have the same digest are one tree, or texts hashed for them collide |
| MicBlock.RootsShareExactly | hooks/useMICBlockchain.ts:58-74 | transaction lists of any lengths have the same root if one tree is built for them, and only if so or texts the loop hashes collide; then the shorter is the start of the longer |
| MicBlock.MerkleRootBindsTransactions | hooks/useMICBlockchain.ts:58-74 | so equally long transaction lists with the same root are equal, or the texts hashed for them collide |
| MicBlock.MerkleRootDoesNotBindLength | hooks/useMICBlockchain.ts:66-70 | every list of more than 2^j transactions that ends with a single block of 2^j shares tree and root with the list that repeats that block; for j = 0 every list of odd length three or more |
| MicBlock.HashTextFaithful | hooks/useMICBlockchain.ts:76-86 | the '\|'-joined block text determines every header field and the nonce when the leading text fields hold no '\|' |
| Hashing.DigitsReadBack | hooks/useMICBlockchain.ts:77-84 | a printed number is its decimal digits, most significant first, without a leading zero |
| MicBlock.SeparatorBreaksBinding | hooks/useMICBlockchain.ts:77-84 | every accepted chain with a '\|' in the genesis hash, or in a timestamp or Merkle root after genesis, has a rival: accepted, same tip hash, no further hashed text, but another block at the same distance from the tip |
| MicBlock.SeparatorFreeHasNoRival | hooks/useMICBlockchain.ts:77-131 | a chain without them is rivalled by no such chain unless two texts hashed for it collide |
| MicBlock.MineBlock | hooks/useMICBlockchain.ts:92-108 | returns the least nonce up to 500000 whose hash meets the prefix, or, when there is none, the hash of 500000 with nonce 500001 |
| MicBlock.MiningMetExactly | hooks/useMICBlockchain.ts:92-108 | the search meets the prefix if and only if some nonce from 0 to 500000 gives a hash that starts with 00 |
| MicBlock.MinedHashMeetsPrefix | hooks/useMICBlockchain.ts:92-108 | a stored block whose search met the prefix has a hash that starts with 00, at the least nonce from 0 to 500000 for which that is so |
| MicBlock.ValidateChain | hooks/useMICBlockchain.ts:112-131 | true exactly for a chain that is empty, or whose first link is zero and whose every later block is linked and hashed right |
| MicBlock.RejectedExactly | hooks/useMICBlockchain.ts:112-131 | a chain is rejected if and only if its first link is not 64 zeros, or a later block misnames the hash before it or does not carry the digest of its joined fields |
| MicBlock.TipHashBindsSuffix | hooks/useMICBlockchain.ts:112-131 | accepted chains of any lengths with the same tip hash agree, counted from the tip, on every block after the shorter one's first and on the hash that block is linked to, or validation hashed a collision |
| MicBlock.TipHashBindsIndexedChain | hooks/useMICBlockchain.ts:76-131 | accepted chains with block i at index i and more than one block, with the same tip hash, have equal length, equal blocks after genesis and equal genesis hashes, or validation hashed a collision |
| MicBlock.TipHashBindsChain | hooks/useMICBlockchain.ts:112-131 | so do equally long accepted chains, indexed or not |
| MicBlock.GenesisContentsUnbound | hooks/useMICBlockchain.ts:114-116 | replacing genesis by any zero-linked block of the same hash keeps an accepted chain accepted |
| MicBlock.LengthUnbound | hooks/useMICBlockchain.ts:114-130 | cutting k leading blocks and zeroing the next link keeps an accepted chain accepted, with the same tip hash; of an indexed chain the result is indexed if and only if k is zero |
| MicBlock.AppendValidExactly | hooks/useMICBlockchain.ts:98-107 | appending a mined block keeps the chain valid if and only if it was valid and the search met the prefix, or the two cap nonces hash alike |
| MicBlock.CapTextsDiffer | hooks/useMICBlockchain.ts:103-106 | the two texts that would have to hash alike at the cap are different, so that case is a collision |
| MicViews.ComputeTotals | hooks/useMICBlockchain.ts:176-185 | the sum of all amounts and the number of all transactions of the chain |
| MicViews.GetBalance | hooks/useMICBlockchain.ts:260-271 | the recipient's sum rounded to a cent |
| MicViews.GetTransactions | hooks/useMICBlockchain.ts:273-286 | the recipient's transactions with their blocks, newest first |
| MicViews.TransactionsNewestFirst | hooks/useMICBlockchain.ts:273-286 | the list holds exactly the recipient's entries of the chain, each before all that stand earlier in it |
| MicViews.BalanceIsSumOfTransactions | hooks/useMICBlockchain.ts:260-286 | the displayed balance is the rounded sum of the amounts the transaction list shows |
| MicViews.GetAllHolders | hooks/useMICBlockchain.ts:288-305 | one row per recipient other than mobius-system, with rounded sum and count, stably sorted by balance |
| MicViews.RecipientsByFirstAppearance | hooks/useMICBlockchain.ts:290-297 | before sorting, holders stand in the order in which a transaction first names them, each once, the system account left out |
| MicViews.HoldersShowBalances | hooks/useMICBlockchain.ts:260-305 | there is a row for exactly the other recipients, with the balance the recipient is shown and the length of its transaction list |
| MicViews.SortIsStable | hooks/useMICBlockchain.ts:298-304 | rows of equal balance keep their order |
| MicViews.HoldersSorted | hooks/useMICBlockchain.ts:298-304 | the sort is descending and loses no row |
| MicViews.HoldersPartitionEntries | hooks/useMICBlockchain.ts:290-297 | the sums (and the counts) of all holders and of mobius-system add up to those of the chain |
| MicViews.HoldersConserve | hooks/useMICBlockchain.ts:176-192 | holder counts plus mobius-system's equal the total; rounded balances are within half a cent per row, plus half a cent, of the displayed total when mobius-system's sum is zero |
| MicChain.MicBlockchain.Initialise | hooks/useMICBlockchain.ts:216-233 | the state becomes the saved chain, or a mined genesis when none is saved, with its statistics |
| MicChain.MicBlockchain.AddBlock | hooks/useMICBlockchain.ts:235-258 | from any captured chain: nothing when it is empty, else state, storage and statistics of that chain with one mined block more |
| MicChain.AddMovesEverything | hooks/useMICBlockchain.ts:176-258 | one call leaves state, saved copy and result on the one block more, and moves length, totals, validity, times and latest hash by it |
| MicChain.StoredTipsHold | hooks/useMICBlockchain.ts:239-248 | however calls overlap, the block each call stores carries that call's transactions, their Merkle root and its time |
| MicChain.GenesisHolds | hooks/useMICBlockchain.ts:135-149 | the genesis block is zero-linked at index 0 and carries the root of its one transaction of zero MIC for mobius-system |
| MicChain.EveryStoredChainIsValid | hooks/useMICBlockchain.ts:235-258 | in every interleaving of overlapping calls, every chain ever stored is valid and has block i at index i, when searches met the prefix |
| MicChain.CapBlockInvalidatesChain | hooks/useMICBlockchain.ts:103-106 | a call whose search gave up stores an invalid chain, barring a collision of the cap nonces |
| MicChain.SequentialCallsOnlyExtend | hooks/useMICBlockchain.ts:235-258 | when calls do not overlap each stored chain extends every earlier one, by one block a call |
| MicChain.NoBlockLostExactly | hooks/useMICBlockchain.ts:235-258 | for any run of overlapping calls: the last stored chain has one block more for every call if and only if each call captured the chain stored just before it, and otherwise only those of its lineage |
| MicChain.LastChainIsLineage | hooks/useMICBlockchain.ts:250-254 | what survives is the initial chain and then, in order, the blocks of the calls on the line of captures that ends in the last stored chain |
| Wallet.WalletContext.EarnMIC | contexts/WalletContext.tsx:51-63 | non-positive amounts do nothing; others append the amount rounded to a micro-MIC for the operator |
| Wallet.EarnIsNearest | contexts/WalletContext.tsx:51-63 | earning goes through if and only if the amount is positive, under the caller's source and record, and is within half a micro-MIC of the amount, halves upward |
| Wallet.WalletContext.BurnMIC | contexts/WalletContext.tsx:65-79 | rounds to a cent, refuses non-positive or uncovered burns of the captured chain, else appends the negative amount |
| Wallet.BurnIsNearest | contexts/WalletContext.tsx:65-79 | burning goes through if and only if the whole cents nearest to the amount are positive and at most what is displayed, and takes exactly those cents under the caller's source |
| Wallet.RecordedIsTip | contexts/WalletContext.tsx:51-79 | the block a call returns is the tip of the chain it leaves and holds its one transaction; without a transaction or a loaded chain nothing changes |
| Wallet.BurnIsMarked | contexts/WalletContext.tsx:69-74 | a burn's record is the caller's with burn set to true, whatever the caller gave |
| Wallet.SetFieldKeepsOrder | contexts/WalletContext.tsx:69-74 | a field that is set keeps its place in the record, and a new one comes last |
| Wallet.EveryStoredChainIsSolvent | contexts/WalletContext.tsx:51-79 | in every interleaving of earns and burns no stored chain shows a negative balance or holds less than -0.005 |
| Wallet.BurnLowersDisplayExactly | contexts/WalletContext.tsx:65-79 | a burn lowers the displayed balance of its captured chain by exactly the burned cents, to no less than zero |
| Wallet.WholeCentsShift | hooks/useMICBlockchain.ts:268-268 | rounding to a cent commutes with adding whole cents |
| Wallet.EngineHoldsLastChain | contexts/WalletContext.tsx:51-79 | the engine's chain is the last stored one of the run, before and after every call, whichever chain the call captured |
| Wallet.GenesisStart | hooks/useMICBlockchain.ts:135-149 | a freshly mined genesis chain is valid, indexed and shows the operator zero |
| Wallet.WalletStoresValidChains | contexts/WalletContext.tsx:51-79 | wallet runs store only valid, indexed chains when searches meet the prefix |
| MintGate.Gate.RunEffect | hooks/useTerminalData.ts:284-302 | one run of the effect sends exactly the mint its four guards let through, with the provisional value and the record of what was shown, and remembers its cycle even when the wallet stores nothing |
| MintGate.FiresExactly | hooks/useTerminalData.ts:284-294 | a render mints if and only if it shows a cycle other than the last minted, a positive provisional value, or minted value if there is no provisional one, and a score of at least 0.95 |
| MintGate.MintRecordReads | hooks/useTerminalData.ts:295-301 | the record of a mint reads, field by field, what the render showed |
| MintGate.MintsAuthorisedAndAlternating | hooks/useTerminalData.ts:284-302 | over any renders every mint had GI at least 0.95 and positive value, and consecutive mints differ in cycle |
| MintGate.EveryMintWasShown | hooks/useTerminalData.ts:286-301 | every mint is for the cycle, provisional value, score and record that one render showed together |
| MintGate.NonRecurringCycleMintsOnce | hooks/useTerminalData.ts:288-294 | a cycle that does not come back after another one mints at most once |
| MintGate.QualifyingRenderMintsExactly | hooks/useTerminalData.ts:288-294 | a qualifying render mints its cycle once more if and only if it is not the last one minted |
| MintGate.RecoveredCycleIsMinted | hooks/useTerminalData.ts:290-294 | a cycle blocked by low GI is minted as soon as a render shows it with the threshold met |
| MintGate.MintedInRunExactly | hooks/useTerminalData.ts:284-302 | a run mints a cycle if and only if a render qualifies for it and, if it was the last cycle minted before the run, another cycle has qualified earlier in the run |
| MintGate.MintReachesChainExactly | hooks/useTerminalData.ts:294-301 | an authorised mint reaches the chain if and only if the captured chain is not empty, and its cycle is minted again if and only if another cycle qualifies first and then this one |
| MintGate.EarningsKeptInTurn | contexts/WalletContext.tsx:51-79 | when no calls overlap, whatever is earned and burned in between, the latest chain lists every successful earning of a source, in call order, after those it held at the start |
| MintGate.ChainGainNearProvisional | hooks/useTerminalData.ts:284-302 | in such a run, with other earns and burns and any timestamps, every mint is on the chain with its record, and the gain from the mint source is within half a micro-MIC per mint of the provisional sum |
| DatVerifier.VerifyRecords | scripts/verify-dat-chain.js:69-95 | from a sound start, a file's lines pass exactly when they continue one hash-linked chain, carrying hash and count |
| DatVerifier.VerifyFile | scripts/verify-dat-chain.js:43-95 | a listed file passes exactly when it exists, matches hash and count, and continues the chain |
| DatVerifier.VerifyDirectory | scripts/verify-dat-chain.js:17-135 | exit 2 without a readable manifest, 0 exactly when all files match, all records in listing order form one chain from genesis, and tip and length match; else 1 |
| DatVerifier.SplitLinesJoins | scripts/verify-dat-chain.js:62-62 | joining the split lines with line breaks gives the text back, and no line holds one |
| DatVerifier.RecordLinesAreLinesWithText | scripts/verify-dat-chain.js:62-62 | the records of a file are, in order, exactly the lines that are not only white space |
| DatVerifier.ChainedRecordsLink | scripts/verify-dat-chain.js:69-95 | in an accepted list every record names the hash of the one before, or 64 zeros, and its own hash is that of its text with it |
| DatVerifier.AcceptedFilesMatch | scripts/verify-dat-chain.js:45-67 | an accepted directory has every listed file, with the listed digest of its content and number of records |
| DatVerifier.ManifestBindsFiles | scripts/verify-dat-chain.js:52-60 | one manifest accepts one content for each listed file, or the contents collide |
| DatVerifier.ListedCountsAddUp | scripts/verify-dat-chain.js:62-111 | the record counts an accepted manifest lists add up to its total |
| DatWriter.Export | lib/dat/canonize.ts:170-279 | the export loop writes a file for every 100 records and for the rest, with its hash and count, linking each record to the one before |
| DatWriter.ExportIsAccepted | scripts/verify-dat-chain.js:17-135 | the verifier's condition for exit 0 holds of every full export of at most a million blocks |
| DatWriter.NamesAscendExactly | lib/dat/hashDatRecord.ts:119-121 | the files sort by name in the order they are written if and only if there are at most ten thousand |
| DatVerifier.NotAccepted | scripts/verify-dat-chain.js:41-116 | a defect in the first k files is never masked by later ones |
| DatVerifier.LastBraceSplits | scripts/verify-dat-chain.js:82-84 | the hashed text of a record determines the record text and the previous hash appended to it |
| DatVerifier.TipBindsLines | scripts/verify-dat-chain.js:69-95 | chained record lists of any lengths with the same final hash are equal, or the hashed texts collide |
| DatVerifier.TipBindsDirectory | scripts/verify-dat-chain.js:37-111 | accepted directories with the same manifest tip hold the same records, however split into files, or the hashed texts collide |
| StringOrder.AscendingUnique | scripts/verify-dat-chain.js:41-41 | a set of file names has one sorted listing |
| StringOrder.LessExactly | scripts/verify-dat-chain.js:41-41 | a name sorts before another if and only if at the first difference it ends or has the smaller code unit |
| Text.CaptureFindsToken | scripts/track-r-p3-review-durability-sync.ts:175-175 | the expression captures the token after the first label |
| Text.CapturesExactly | scripts/track-r-p3-review-durability-sync.ts:175-175 | there is a match if and only if some label is followed by anything but white space |
| Text.SpacesByCodePoint | scripts/verify-dat-chain.js:62-62 | white space is exactly what trim removes, by code point |
| DurabilitySync.Checkout.Sync | scripts/track-r-p3-review-durability-sync.ts:210-274 | exit 1 and no change when intake, an expected binding or the registry fails; else the folded registry and both receipts, writing exactly the stale ones |
| DurabilitySync.GoesThroughExactly | scripts/track-r-p3-review-durability-sync.ts:210-241 | a sync goes through if and only if intake and registry are readable and each expected binding is absent, empty or met |
| DurabilitySync.Checkout.SyncEntries | scripts/track-r-p3-review-durability-sync.ts:243-257 | the loop leaves the registry with the candidate's entry and every superseded row folded in |
| DurabilitySync.Checkout.WriteReceipt | scripts/track-r-p3-review-durability-sync.ts:259-274 | a lane's receipt is written exactly when it is not up to date |
| DurabilitySync.UpsertThenFind | lib/watchdog/batchRepair/p3PacketReviewRegistry.ts:85-105 | after an upsert, its run id finds the new entry and every other run id what it found before |
| DurabilitySync.UpsertAppendsNew | lib/watchdog/batchRepair/p3PacketReviewRegistry.ts:85-105 | an entry of an unknown run is appended |
| DurabilitySync.SyncIsPerRun | scripts/track-r-p3-review-durability-sync.ts:245-257 | what a sync leaves for a run depends only on that run's own entry before, although rows may repeat a run: the last row decides |
| DurabilitySync.LastRowIsLast | scripts/track-r-p3-review-durability-sync.ts:251-257 | the row that decides is the last superseded one that names the run |
| DurabilitySync.SyncWritesExactlyItsRuns | scripts/track-r-p3-review-durability-sync.ts:115-167 | one sync binds the candidate's and each superseded run's entry to the committed evidence, issued identity first, keeps their discovery times, and leaves every other run's entry alone |
| DurabilitySync.VerdictIsRecorded | scripts/track-r-p3-review-durability-sync.ts:81-99 | a sync records each lane's validated verdict for its candidate, unless that lane already has a terminal status for this packet, which stays; without either the lane is awaited |
| DurabilitySync.HumanDecisionIsAwaited | scripts/track-r-p3-review-durability-sync.ts:85-101 | a human decision on this packet stays; otherwise one is awaited |
| DurabilitySync.IntakeIsStampedExactly | scripts/track-r-p3-review-durability-sync.ts:103-132 | the intake is stamped with the current time if and only if it was not yet complete for this packet or a status moved; first verification and artifact places are recorded |
| DurabilitySync.SupersededRunKeepsRecord | scripts/track-r-p3-review-durability-sync.ts:136-167 | a superseded run keeps lanes, human status, capture, completion and intake time, and its identity when none is issued; what was never known is unknown |
| DurabilitySync.SyncsNeverAuthorise | scripts/track-r-p3-review-durability-sync.ts:123-158 | no sequence of syncs ever sets execution_authorized |
| DurabilitySync.SyncIdempotentExactly | scripts/track-r-p3-review-durability-sync.ts:107-132 | syncing again on unchanged evidence returns the identical registry at every later time if and only if the candidate is not also listed as superseded |
| DurabilitySync.UpToDateExactly | scripts/track-r-p3-review-durability-sync.ts:185-208 | a receipt is skipped if and only if it is byte for byte this packet's rendering at some timestamp |
| DurabilitySync.SecondSyncWritesNoReceipt | scripts/track-r-p3-review-durability-sync.ts:261-274 | after a sync both receipts are current, so a second one writes none |
| DurabilitySync.ReceiptsAfterSync | scripts/track-r-p3-review-durability-sync.ts:259-274 | each lane's file is as it was when current and else this packet's receipt with the current time; no other file changes |
| DurabilitySync.TerminalStatusIsStable | scripts/track-r-p3-review-durability-sync.ts:81-101 | over any syncs, while a run keeps its packet hash, a terminal ZEUS, EVE or human status never changes |
| DurabilitySync.EveryVerdictIsJustified | scripts/track-r-p3-review-durability-sync.ts:90-99 | every terminal lane status stood in the initial registry or was validated for that run; every human decision stood in the initial registry |
| DurabilitySync.ValidatedVerdictStays | scripts/track-r-p3-review-durability-sync.ts:81-163 | a verdict validated for a packet without a terminal status of its lane is on record from then on, while the run is a candidate only for the packet named last |
| DurabilitySync.VerdictCarriedExactly | scripts/track-r-p3-review-durability-sync.ts:147-163 | a sync gives a terminal ZEUS, EVE or human status to another packet, with the run not being its candidate, if and only if the run's last superseded row names that packet |
| DurabilitySync.VerdictFollowsNamedPacket | scripts/track-r-p3-review-durability-sync.ts:81-163 | over any syncs a terminal status is kept, for the packet the rows named last, when the run is a candidate only for that packet; otherwise it is gone unless validated again |
| DurabilitySync.HumanDecisionKeptExactly | scripts/track-r-p3-review-durability-sync.ts:85-101 | a human decision survives any syncs if and only if the run is a candidate only for the packet named last |
| DurabilitySync.KnownJournalStaysKnown | scripts/track-r-p3-review-durability-sync.ts:150-155 | a run's known journal id never becomes 'unknown' again |
| SortedSet.TrimKeepsTop | api/redis_bridge.py:369-369 | removing ranks 0 to -(k+1) keeps exactly the k greatest members |
| SortedSet.TrimCommutesWithInsert | api/redis_bridge.py:368-369 | inserting into the trimmed set and trimming equals trimming the untrimmed set with that insertion, when the score does not drop |
| SortedSet.TrimCommutesExactly | api/redis_bridge.py:368-369 | for any scores that equality holds if and only if no first member left out overtakes a kept member whose score is lowered, ties broken by member |
| SortedSet.OvertakerIsLost | api/redis_bridge.py:368-369 | a member that overtakes so belongs among the k greatest, and the earlier trim has lost it |
| SortedSet.TopListsPrefix | api/redis_bridge.py:143-143 | the k greatest, listed, are the first k of the listing of all |
| SortedSet.DescendingIsOrdered | api/redis_bridge.py:143-143 | the listing holds every member, each above all later ones |
| SortedSet.ScoresFall | api/redis_bridge.py:143-143 | along the listing scores fall, and members of one score follow in falling dictionary order |
| Timeline.Redis.PublishEpicon | api/redis_bridge.py:360-373 | a publish that meets no other is its commands in turn: one insertion, one trim, and a push and a trim per traced agent |
| Timeline.PublishReaches | api/redis_bridge.py:360-373 | such a publish leaves the 1000 greatest of the timeline with the event in it, the event first in the list of every agent it traces, and every other list as it was |
| Timeline.ScoreMeansTime | api/redis_bridge.py:56-67 | an event ranks by its own timestamp if that parses, and otherwise by the clock at its last addition |
| Timeline.Redis.PublishSignal | api/redis_bridge.py:391-401 | a publish that meets no other is its two commands in turn, a push on the signal stream and a trim |
| Timeline.SignalReaches | api/redis_bridge.py:391-401 | such a signal stands first in a stream of at most 1000, and nothing else changes |
| Timeline.Redis.GetEpiconFeed | api/redis_bridge.py:139-153 | the decodable events of the first max(1, limit) rows, in order, that the agent filter lets through |
| Timeline.FilterSelectsExactly | api/redis_bridge.py:145-153 | the feed is, in order, the events of exactly those rows that decode and trace the agent, if one is given that is not empty |
| Timeline.TimelineRepresentsHistory | api/redis_bridge.py:360-369 | in every interleaving of the commands of overlapping publishes, at every moment, the 1000 greatest stored members are the 1000 greatest of everything ever added, if an event without usable timestamp is not added again with an earlier clock reading |
| Timeline.TimelineIsTopOfHistory | api/redis_bridge.py:360-369 | whenever the last timeline command was a trim the stored set is exactly those 1000 |
| Timeline.HandlersInTurnTrim | api/redis_bridge.py:368-369 | that is so whenever publishes run one after the other and none is under way |
| Timeline.FeedIsPrefixOfHistory | api/redis_bridge.py:139-163 | the unfiltered feed is the start of the ranking of all history: for a limit from 1 to 1000 at every moment, for a greater one whenever the timeline is trimmed |
| Timeline.FeedIsNewestFirst | api/redis_bridge.py:139-163 | the unfiltered feed lists later events first, and no event of the history later than a listed one is missing |
| Timeline.FeedLimitBelowOne | api/redis_bridge.py:143-143 | a limit below one still reads one row |
| Timeline.RepublishingNeverLowers | api/redis_bridge.py:56-67 | publishing an event again never lowers its score, under the same condition |
| Timeline.ListsAreNewest | api/redis_bridge.py:371-401 | however publishes overlap, the first 100 items of an agent's list, and the first 1000 of the signal stream, are at every moment the newest ever pushed on it, and after its trim it holds no others |
| Timeline.PushedInOrder | api/redis_bridge.py:371-401 | what was ever pushed on a list is, read from its end, the items of exactly the pushes on it, in their order |
| SnapshotCache.Module.Notify | hooks/useTerminalSnapshot.ts:74-82 | every subscriber gets the notice once, nobody else |
| SnapshotCache.Module.LoadSnapshot | hooks/useTerminalSnapshot.ts:99-137 | a fresh cache is returned, a flight in progress is joined, otherwise one request starts |
| SnapshotCache.Module.Answered | hooks/useTerminalSnapshot.ts:114-132 | a full body fills and stamps the cache, clears the error and is told to all; a lite body only settles its promise; a failure keeps the cache and tells the error with what is cached |
| SnapshotCache.Module.Finally | hooks/useTerminalSnapshot.ts:133-135 | the flight is cleared |
| SnapshotCache.Module.Tick | hooks/useTerminalSnapshot.ts:145-154 | a timer tick or visibility change loads unless nobody listens or the page is hidden |
| SnapshotCache.SingleFlightAlways | hooks/useTerminalSnapshot.ts:101-137 | in every run at most one request is running, and it is the one in flight |
| SnapshotCache.CacheStaysFull | hooks/useTerminalSnapshot.ts:94-122 | the cache and every snapshot handed to a subscriber are full ones, and the cache never empties again |
| SnapshotCache.NoEarlyRefetch | hooks/useTerminalSnapshot.ts:99-102 | a request starts only with none in flight and at least 60 s after the last full success |
| SnapshotCache.LastFetchIsLastSuccess | hooks/useTerminalSnapshot.ts:117-122 | the cache is filled exactly when a full snapshot has landed, and its time is that of the last one |
| SnapshotCache.CacheIsLastFullBody | hooks/useTerminalSnapshot.ts:114-122 | the cache is the body of the last full answer, no longer marked as lite |
| SnapshotCache.LoadIsServedExactly | hooks/useTerminalSnapshot.ts:99-104 | a load is served from the cache if and only if the last full success is less than 60 s old; otherwise it gets the one promise in flight, new if there was none |
| SnapshotCache.TickLoadsExactly | hooks/useTerminalSnapshot.ts:139-154 | a tick does what a load does if and only if a timer runs, somebody listens and the page is visible |
| SnapshotCache.BodyReachesAll | hooks/useTerminalSnapshot.ts:114-123 | a body resolves its promise; a full one clears the error and is told to every subscriber, any other one changes and tells nothing else |
| SnapshotCache.FailureFallsBackToCache | hooks/useTerminalSnapshot.ts:124-132 | after a failure subscribers get the cached snapshot with the error, sharers the snapshot instead of the error, when there is one |
| SnapshotCache.SettledOnce | hooks/useTerminalSnapshot.ts:102-104 | a settled promise keeps its outcome, so sharers see the same |
| Savepoints.Chamber.Load | hooks/useChamberHydration.ts:153-221 | a thinner response yields to a kept savepoint, any other response worth saving replaces it, a failure shows what is saved; with the note, flag and error each case sets |
| Savepoints.NoteTellsTruth | hooks/useChamberHydration.ts:161-199 | a response yields exactly to a fuller kept savepoint worth showing; what is shown, its note with both counts, the flag and the storage are as that decides |
| Savepoints.OtherEndsKeepStorage | hooks/useChamberHydration.ts:161-213 | a non-object response clears the screen; a failure keeps the storage, says why and shows the savepoint if worth showing |
| Savepoints.SavedCountIsMaximumExactly | hooks/useChamberHydration.ts:165-193 | one unfiltered load leaves the greater of saved and live count if and only if not (nothing saved, and a negative count is at least the minimum) |
| Savepoints.SavedCountIsRunningMaximum | hooks/useChamberHydration.ts:165-193 | the saved count is the maximum of the initial count and all live counts |
| Savepoints.StoredIsLatestMaximum | hooks/useChamberHydration.ts:183-185 | the stored payload is the latest response attaining the maximum, or the initial one if none does |
| Savepoints.ShownCountIsSavedCountExactly | hooks/useChamberHydration.ts:161-213 | when the saved count is at least the minimum, the screen shows that many if and only if the last event was no non-object response |
| Savepoints.ShownNeverThinnerExactly | hooks/useChamberHydration.ts:161-213 | whatever was shown at any earlier moment, once worth saving, something at least as full is shown now if and only if the last event was no non-object response |
| Savepoints.RunStaysConsistent | hooks/useChamberHydration.ts:170-213 | over any unfiltered run the stored count is its payload's count, and nothing fuller than what is saved is on screen |
| Savepoints.SavedCountIsMaximumOfItsCycle | hooks/useLedgerChamber.ts:167-168 | with the cycle filter, over any run, the saved count is the running maximum over the responses of the stored cycle since that cycle was last stored anew |
| Savepoints.CycleChangesExactly | hooks/useLedgerChamber.ts:167-168 | a response stores another cycle if and only if it is of one and is worth saving or not thinner than what is saved |
| Savepoints.DropNeedsAnotherCycle | hooks/useLedgerChamber.ts:167-168 | so the saved count drops only on a response of another cycle than the stored one |
| Savepoints.LoadShowsResponseCycle | hooks/useLedgerChamber.ts:167-168 | with the cycle filter a successful load shows only the response's cycle |
| GithubState.Attempt | lib/github-state-cache.ts:131-135 | one read and one conditional PUT take the call through the same two steps as the protocol |
| GithubState.WriteJson | lib/github-state-cache.ts:80-144 | without configuration nothing happens; otherwise the call ends as the protocol does, false, true or with a rejection, against any interference before each request |
| GithubState.TurnsAreARun | lib/github-state-cache.ts:130-139 | the call's turns are one of the protocol's interleavings |
| GithubState.NoSilentOverwrite | lib/github-state-cache.ts:110-139 | at most two PUTs, and each that takes effect replaced the content last read or created a missing file, barring a sha collision |
| GithubState.EffectLeavesData | lib/github-state-cache.ts:110-129 | a request changes the file only by an effect of the call, which leaves the call's data there and records what it replaced |
| GithubState.EffectsAddUp | lib/github-state-cache.ts:110-143 | from any state, over any steps, the effects that come about are those hidden by an answer and the one a returned true reports |
| GithubState.ResultTellsEffectsExactly | lib/github-state-cache.ts:110-143 | the result tells the number of effects rightly if and only if no applied PUT lost its answer or was answered with an error; true means applied, and any other end means not applied exactly when none was hidden |
| GithubState.FailureNeedsTwoConflicts | lib/github-state-cache.ts:135-139 | on a working network the call fails only after two PUTs each met a file changed since its read |
| GithubState.SucceedsExactly | lib/github-state-cache.ts:130-139 | on a working network the call returns true if and only if in one of its two attempts the sha did not change between read and PUT |
| GithubState.RetriedExactly | lib/github-state-cache.ts:123-138 | a second PUT is sent if and only if both reads were answered and the first PUT was answered with a failure of any kind |
| GithubState.ThrowsExactly | lib/github-state-cache.ts:136-143 | the call rejects if and only if both reads were answered, the first PUT was answered with a failure and the second PUT's fetch throws |
| LedgerMerge.PushUnique | hooks/useTerminalData.ts:123-129 | appends, in order, the rows whose ids are new |
| LedgerMerge.MergeLedger | hooks/useTerminalData.ts:120-135 | the first row of every id over feed, echo, backfill and mock, in that order |
| LedgerMerge.MergeListsFirsts | hooks/useTerminalData.ts:121-134 | the merge lists exactly the first occurrences, once each, at ascending places |
| LedgerMerge.HigherSourceWins | hooks/useTerminalData.ts:130-133 | an id a higher source holds shows that source's own first row |
| LedgerMerge.StreamKeepsDistinctIds | hooks/useTerminalData.ts:219-222 | a stream message keeps ids distinct, at most 20 items, and stands first |
| LedgerMerge.EchoKeepsDistinctIds | hooks/useTerminalData.ts:242-247 | an ECHO feed keeps ids distinct, at most 30 items, and stands first |
| LedgerMerge.WithoutSelects | hooks/useTerminalData.ts:220-246 | dropping ids keeps exactly the other items, in their order |
| LedgerMerge.ListIsStartOfRecency | hooks/useTerminalData.ts:219-264 | over any stream messages, ECHO feeds and promotion updates the list is the start of all items ever received, most recently touched first |
| LedgerMerge.ListIsMostRecent | hooks/useTerminalData.ts:219-264 | while feeds name each id once, its first 20 items are at every moment the 20 most recently touched of all history, and after a stream message it holds no others |
| FanOut.Queue.PutNowait | api/routes/stream.py:38-43 | the event is queued, or dropped and counted when 256 are waiting |
| FanOut.Queue.Get | api/routes/stream.py:86-93 | the oldest waiting event is taken |
| FanOut.Hub.Register | api/routes/stream.py:25-28 | the registration step of the run: a new empty queue joins the subscribers |
| FanOut.Hub.Unregister | api/routes/stream.py:31-35 | the removal step of the run: exactly that queue leaves, or nothing changes |
| FanOut.Hub.Broadcast | api/routes/stream.py:38-43 | the broadcast step of the run: every subscriber is offered the event once, no other queue changes |
| FanOut.Hub.Deliver | api/routes/stream.py:86-93 | the consumer step of the run: the oldest waiting event leaves its queue, or nothing changes |
| FanOut.ConsumerReceivesOldest | api/routes/stream.py:86-93 | a consumer that finds something waiting receives the oldest event, which leaves its queue; no other queue moves |
| FanOut.EveryQueueIsSound | api/routes/stream.py:25-43 | at most 256 waiting; received then queued is an ordered part of the broadcasts since registration; received, queued and dropped add up to them |
| FanOut.ActiveExactly | api/routes/stream.py:25-35 | a subscriber is offered broadcasts if and only if it has registered and has not been removed since |
| FanOut.DropsOnlyWhenFull | api/routes/stream.py:39-43 | a drop happens exactly at a broadcast to an active subscriber with 256 waiting |
| FanOut.NoInterference | api/routes/stream.py:38-43 | removing every step of all other subscribers leaves a subscriber's queue as it was |

## Left out

- MicBlock.TipHashBindsSuffix: supposes that the genesis hash, and the timestamps and Merkle roots after genesis, hold no '|', because every chain with one has a rival (`MicBlock.SeparatorBreaksBinding`); the previous hashes of later blocks then hold none either.
- Wallet.WalletContext.EarnMIC: amounts are finite reals; NaN and infinities, and binary floating-point error in the sums, are not modelled; arrays and objects inside a record stand as their JSON text.
- Wallet.WalletContext.BurnMIC: as for earning; the finiteness guard has nothing to refuse here.
- MintGate.ChainGainNearProvisional: for calls that do not overlap and a mint source nobody else earns from; overlapping calls lose blocks as `MicChain.NoBlockLostExactly` says.
- MicViews.GetAllHolders: rows with equal balance follow first appearance; JavaScript's reordering of integer-like recipient names is not modelled.
- DatVerifier.VerifyDirectory: takes the sorted listing of the manifest's files as given, and supposes every manifest entry has its printed range and every parsed record is an object.
- DatWriter.Export: the full export only; the incremental one, block fetching and validation, failed writes, anchors and the manifest's other fields are not modelled.
- DatWriter.ExportIsAccepted: up to a million blocks; beyond that the files are read in another order than they are written (`DatWriter.NamesAscendExactly`).
- DurabilitySync.Checkout.Sync: the wording of a receipt, the intake and the verdict resolver are parameters; the registry's note and schema version are not modelled.
- Timeline.TimelineRepresentsHistory: supposes that an event whose timestamp is missing or unreadable is not added again with an earlier clock reading; which lowered scores would break it is `SortedSet.TrimCommutesExactly`.
- Timeline.Redis.PublishEpicon: scores are integer microseconds, events always carry string timestamps when they carry any, and the published notifications are not modelled.
- SnapshotCache.Module.Notify: subscribers do not subscribe or leave while being notified, and a subscriber's own exception has no effect.
- Savepoints.Chamber.Load: counting and payload extraction are parameters, a load that ends after unmounting is not modelled, and polling delays and backoff are left out.
- getBlock, verifyChain, chain explorer, rendering, timers, transport and storage failures other than a failed savepoint write: thin or environmental.
- The journal watcher of api/routes/stream.py: its duplicate check depends on an order the store does not promise, so "each entry once" does not hold of it.
- The integrity signal hooks, preview freshness, tripwires and promotion counters: short branch logic that would only add easy members.
- The other Track R scripts, gateway proxies, mock data and SDK wrappers: plumbing around code that is not part of this model.
