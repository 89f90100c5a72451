# Quyn node: a verified model

Quyn is a proof-of-stake chain node. This project models five of its parts in Dafny and proves what
they keep, over whole runs where the property is about runs:

1. **Block store and fork choice** (`BlockStore`, `Chain`, `ChainRuns`, `Finality`,
   `Checkpoints`,
   `FinalityFailure`, `IndexLaws`, `ForkChoice`, `Ghost`, `GhostLaws`, `RunWitnesses`). Blocks by hash, the by-number
   index, the (validator, height) index, the children index, the head and the finalized checkpoint,
   with `accept_block` as the step; common ancestors, reorganisation paths and the GHOST head.
2. **Mempool** (`PoolState`, `PoolLaws`, `Mempool`). Two maps over one set of transactions, with
   replacement, eviction of whole senders and a capacity.
3. **Transaction codec** (`Rlp`, `Transactions`, `CodecLaws`, `CodecVectors`). The RLP of Appendix B of the Ethereum
   Yellow Paper, the two printers, the parser of raw legacy transactions, and the signing list and
   `v` of the section "Specification" of EIP-155.
4. **Block production and money** (`Money`, `CandidateLaws`, `Payments`, `Production`,
   `Settlement`, `ProductionRuns`, `ProductionFailure`, `Node`, `StateStore`). The candidate loop,
   the fee burn, the new block, its acceptance, and the state root.
5. **Choice of the proposer** (`Proposer`, `ValidatorSet`). The cumulative-weight walk and the set it
   walks over.

What the source changes in place is a class or a method with loops (`ChainDB`, `StateDB`, `Mempool`,
`ValidatorSet`, `RlpStream`, `produce_block`); each is proved against a function on values, and the
theorems are about those functions. Hash functions and signature recovery are function values in
`Crypto` (or `View`), of which nothing is assumed, so every theorem holds for any choice of them. The
block hash alone is an inductive datatype (`Zero | Of(header)`), which makes it injective.

A run starts as the node does, with `put_block(genesis)` and `set_head`. Every run of `accept_block`
is the `History` of the blocks it accepted (`ChainRuns.RunIsHistory`), so laws of valid histories are
laws of runs above the genesis. `accept_block` keeps few of the promises made for it against arbitrary
blocks; over runs of `produce_block`, its only caller in the node, they do hold
(`ProductionRuns.ProductionIsSafe`).

## Findings

Where the code does not have a property it is meant to have, a lemma gives the failing run or input;
where there is a condition under which it does, another one gives that condition exactly.

- **Finality.** `docs/EXTERNAL_AUDIT_REPORT.md:148-150` says that a reorganisation past the checkpoint
  is rejected and that no two blocks are finalized at one height. Neither holds.
  - One accepted block can leave any checkpoint behind (`FinalityFailure.CheckpointEscaped`). No block
    leaves the checkpoint it finds exactly when each passes the code's own guard, asked of its parent
    instead of itself (`Checkpoints.NoneEscapesIff`); every block ever finalized stays an ancestor of
    the head exactly when that holds against every checkpoint so far
    (`Checkpoints.EveryCheckpointKeptIff`).
  - For every height above 0 there is a run in which two different blocks are finalized there
    (`FinalityFailure.TwoBlocksFinalized`). It never happens exactly when each accepted block of number
    100 or more finds its height unused or used by a block with the same ancestor 100 below
    (`Checkpoints.NeverTwoIff`).
  - The finalized height never falls exactly when each accepted block is numbered below 100 or the
    height above it is unused (`Finality.HeightNeverFallsIff`).
- **The reorganisation guard** looks up a block that is not stored yet, so it never rejects a new block
  (`ChainRuns.NewBlockAcceptedIff`, `ForkChoice.ReorgGuardIff`).
- **A second block of number 0** is accepted whatever parent it names (`ChainRuns.SecondGenesisIff`),
  and can begin a second tree, with no common ancestor and no reorganisation path to the first
  (`RunWitnesses.SecondTreeBegins`). The stored blocks are one tree over the genesis exactly when no
  other block of number 0 was accepted (`ChainRuns.HistoryRootedIff`).
- **A block accepted again** is counted again by GHOST: `RunWitnesses.RepeatIsAccepted` is the run,
  `ForkChoice.StoredBlockAcceptedIff` says when a stored block is accepted, and every block is counted
  once exactly when no accepted block was stored already (`GhostLaws.HistoryIsTreeIff`).
- **The by-number index** can leave the line of the head once the head has fallen back
  (`RunWitnesses.GapBreaksIndex`). It is the line of the head after a block exactly when all index
  entries below the block are linked (`IndexLaws.AgreementIff`), and at every point of a history
  exactly when every accepted block finds them so (`IndexLaws.AlwaysAgreesIff`).
- **Stale hashes.** Eviction stops removing hashes when enough transactions are gone but drops the
  whole sender, so a hash can stay behind. Its transaction is then refused as a duplicate and not
  found (`PoolLaws.EvictionLosesTheLast`), or another one is found and removed for it
  (`PoolLaws.StaleHashLeadsElsewhere`). It cannot happen exactly when, at every overflow, all
  cheapest senders hold a single transaction (`PoolLaws.OverflowExactIff`, `PoolLaws.RunExactIff`).
- **The proposer** is always the active validator of lowest address, because the minimum stake (10^22)
  exceeds every 64-bit seed (`ValidatorSet.ProposerIsLowest`); `docs/SECURITY.md:16` and
  `docs/EXTERNAL_AUDIT_REPORT.md:179` call the choice stake-weighted. The walk itself is
  proportional (`Proposer.RoundIsProportional`).
- **Two transactions of one sender** with the account's nonce and the next one, in this order among the
  candidates, can both be executed and put in one block, which validation then rejects; the accounts
  stay changed (`ProductionFailure.PairIsIncluded`, an instance: `ProductionFailure.FreePairIsStuck`).
  If every such pair can pay, a call of a run succeeds whatever the virtual machine and the fraud check
  answer exactly when there is no such pair and the clock has moved on (`ProductionRuns.CallOfRunIff`).
- **A slow call.** `produce_block` reads the clock at its start and again when it builds the block. If
  the candidates take more than three seconds to run, the block is rejected although they have been
  paid for, and none of them can be included again (`Settlement.SlowCallIsStuck`).
- **A stored zero balance** changes the state root although it reads like no entry
  (`StateStore.StoredZeroChangesPreimage`).
- **Print then parse** loses `v` and the chain id unless `v` is 0, 1, 27 or 28 and the printed `v` does
  not wrap (`CodecLaws.RoundTripIff`); a transaction hash does not fix the chain id
  (`CodecLaws.HashCommitsIff`).

## Model

| member | source | states |
|---|---|---|
| `Chain.ChainDB.PutBlock` | core/src/chain.rs:64-91 | one write per index; the children list is extended, never deduplicated |
| `Chain.ChainDB.UpdateFinalized` | core/src/chain.rs:131-152 | the bounded upward walk sets the checkpoint to the block it finds, leaves it when it runs out, and fails on a gap |
| `Chain.ChainDB.GetBlockByNumber` | core/src/chain.rs:171-179 | follows the by-number index to a stored block, or none |
| `Chain.ChainDB.SetHead` | core/src/chain.rs:181-186 | moves the head and nothing else |
| `Chain.CommonAncestor` | core/src/fork.rs:50-71 | the two loops compute the first hash above `b` that is on `a`'s line |
| `Chain.CheckReorg` | core/src/chain.rs:255-273 | the guard against reorganisations below the checkpoint, its three outcomes |
| `Chain.AcceptBlock` | core/src/chain.rs:241-293 | checks in order, then the writes; the state root is saved exactly on success |
| `ChainRuns.AllOrNothing` | core/src/chain.rs:241-293 | an error leaves every index unchanged; success gives the closed form with head and checkpoint set; well-formedness is kept |
| `ChainRuns.UpdateFinalizedFinds` | core/src/chain.rs:131-152 | in a parent-closed store the walk always finds its ancestor within its 101 iterations |
| `ChainRuns.RunWellFormed` | core/src/chain.rs:64-102 | in every run, whatever is offered: parents stored, one lower and earlier; number, signer and children indexes agree with the blocks; head and checkpoint stored |
| `ChainRuns.NoEquivocation` | core/src/chain.rs:275-288 | no validator ever has two stored blocks at one height, across forks and head moves |
| `ChainRuns.RunIsHistory` | core/src/chain.rs:241-293 | a run leaves exactly the history of the blocks it accepted, further blocks of number 0 included; above the genesis that history is valid |
| `ChainRuns.HistoryRootedIff` | node/src/main.rs:157-176 | the stored blocks of a history are one tree over the genesis iff no other block of number 0 was accepted |
| `RunWitnesses.SecondTreeBegins` | core/src/chain.rs:248-253 | right after the genesis a block of number 0 is accepted that has no common ancestor with it |
| `ChainRuns.NewBlockAcceptedIff` | core/src/chain.rs:255-286 | a block not stored yet is accepted iff its body passes, its signer is free at that height, and it extends the indexed block below in time; the guard has no say |
| `ChainRuns.TimeBoundIff` | core/src/validation.rs:24-29 | a new block is accepted iff it is sound, extends the indexed block below, and is stamped after it and at most three seconds ahead |
| `ChainRuns.DoubleSignIff` | core/src/chain.rs:275-286 | a double sign is reported iff the block passes all else and its validator has another stored block at that height; both are named |
| `ChainRuns.FinalizesHundredBelow` | core/src/chain.rs:130-152 | acceptance sets the checkpoint to the block's stored ancestor exactly 100 below, and leaves it below number 100 |
| `ChainRuns.SecondGenesisIff` | core/src/chain.rs:248-253 | a further block of number 0 is accepted iff its body passes and its signer has none, whatever its parent |
| `Finality.HeightNeverFallsIff` | core/src/chain.rs:131-152 | over a whole history the finalized height never falls iff every accepted block passed the guard "below 100, or next height unused" |
| `Finality.GuardedExtends` | core/src/chain.rs:130-152 | under that guard every earlier checkpoint is an ancestor of every later one and no higher |
| `Finality.GuardedAgrees` | core/src/chain.rs:104-118 | under that guard no two different blocks are finalized at one height (the exact condition: `Checkpoints.NeverTwoIff`) |
| `Finality.HeadIsTop` | core/src/chain.rs:248-253 | if no accepted block is below the head, the guard holds throughout and the head is the highest indexed block |
| `Finality.FinalizedUnderHead` | core/src/chain.rs:131-152 | then every block ever finalized is an ancestor of every later head |
| `Checkpoints.StaysBelowIff` | core/src/fork.rs:50-71 | a stored block descends from an ancestor of the head iff its common ancestor with the head is no lower than that ancestor |
| `Checkpoints.NoneEscapesIff` | core/src/chain.rs:255-273 | over a whole history, each block stays below the checkpoint it finds iff each passes the guard asked of its parent |
| `Checkpoints.EveryCheckpointKeptIff` | core/src/chain.rs:255-273 | over a whole history, every block ever finalized is an ancestor of every later head iff each block passes that guard against every checkpoint so far |
| `Checkpoints.NeverTwoIff` | core/src/chain.rs:130-152 | over a whole history, no two different blocks are finalized at one height iff each block of number 100 or more finds its height unused or used by a block with the same ancestor 100 below |
| `FinalityFailure.CheckpointEscaped` | core/src/chain.rs:255-292 | for every height above 0, a run that finalizes a block there and then accepts, as head, a block that does not descend from it |
| `FinalityFailure.TwoBlocksFinalized` | core/src/chain.rs:255-292 | for every height above 0, a run of accepted blocks, offered on a clock that never goes back, that finalizes two different blocks at that height |
| `IndexLaws.AgreementIff` | core/src/chain.rs:171-179 | after a block the by-number index equals the head's line iff all entries below the block are linked, whatever the index was before |
| `IndexLaws.AlwaysAgreesIff` | core/src/chain.rs:171-179 | over a whole history the index equals the head's line at every point iff every accepted block finds all entries below it linked |
| `IndexLaws.IndexIsAncestorLine` | core/src/chain.rs:171-179 | if no block is more than one above the head, lookup by number up to the head is the head's ancestor at that height, at every point of the history |
| `RunWitnesses.GapBreaksIndex` | core/src/chain.rs:171-179 | four accepted blocks, the last two above the head: height 1 leads to a block that is no ancestor of the head |
| `ForkChoice.CommonAncestorIsDeepest` | core/src/fork.rs:50-71 | any two stored blocks of a tree have a common ancestor, it is stored, and every other common ancestor is above it |
| `ForkChoice.CommonAncestorSymmetric` | core/src/fork.rs:50-71 | the result is the same with the arguments swapped |
| `ForkChoice.CommonAncestorIff` | core/src/fork.rs:50-71 | there is a result iff both blocks are stored |
| `ForkChoice.ReorgGuardIff` | core/src/chain.rs:255-273 | the guard rejects iff the block is already stored and its common ancestor with the head lies below the checkpoint |
| `ForkChoice.StoredBlockAcceptedIff` | core/src/chain.rs:241-293 | a block stored already is accepted iff its body passes, it extends the indexed block below in time, and its line meets the head's no lower than the checkpoint |
| `ForkChoice.StoredInTime` | core/src/validation.rs:24-29 | a stored block is accepted only if it is stamped at most three seconds ahead |
| `ForkChoice.ReorgBlocks` | core/src/fork.rs:75-102 | the loops return the two paths or the missing-ancestor error, and end in every store |
| `ForkChoice.ReorgLeadsAcross` | core/src/fork.rs:73-102 | reverting then applying leads from the old head to the new one; lengths are height differences; the lists share no block and not the ancestor |
| `ForkChoice.ReorgSwapped` | core/src/fork.rs:75-102 | swapping the heads swaps and reverses the lists |
| `Ghost.StakeIsCappedTotal` | core/src/fork.rs:34-47 | nested saturating sums equal min(2^128 - 1, total balance over the block and all its descendants); the recursion ends |
| `Ghost.CanonicalHead` | core/src/fork.rs:14-32 | the loop ends at the GHOST head, or returns the stored head without a genesis |
| `Ghost.FindHeaviest` | core/src/fork.rs:26-29 | the last of the heaviest children wins |
| `GhostLaws.LeafChangesAncestors` | core/src/fork.rs:35-47 | a fresh leaf adds its validator's balance to exactly its own ancestors' weights |
| `GhostLaws.GhostHeadFollows` | core/src/fork.rs:14-47 | a block put under the GHOST head becomes the GHOST head, ties included |
| `GhostLaws.GhostIsGreedy` | core/src/fork.rs:19-31 | at every ancestor of the GHOST head the child on its line is the last of the heaviest |
| `GhostLaws.GhostHeadIs` | core/src/fork.rs:14-32 | the stored head without a block 0; else a stored descendant of it without children, reached through the last heaviest child everywhere |
| `GhostLaws.HistoryIsTreeIff` | core/src/chain.rs:85-89 | a history leaves a tree with every block once in the children index iff no accepted block was stored already |
| `RunWitnesses.RepeatIsAccepted` | core/src/chain.rs:277-289 | a run in which one block is accepted twice, and the genesis gains its weight twice |
| `GhostLaws.RepeatCountsTwice` | core/src/chain.rs:85-89 | in any tree, a stored block put again adds its whole weight to its parent again |
| `Blocks.ComputeTransactionsRoot` | core/src/block.rs:73-82 | zero for no transactions, else the hash of all transaction hashes in order |
| `Blocks.RootPreimageIff` | core/src/block.rs:73-82 | the bytes behind two roots agree iff the sequences of transaction hashes agree, in number and order |
| `Blocks.RootIs` | core/src/block.rs:73-82 | the root is zero for no transactions, else the digest of all their hashes in block order |
| `Blocks.RootCommitsIff` | core/src/block.rs:73-82 | two bodies have one root under all hash functions iff their transaction hashes agree, in number and order |
| `Blocks.ExchangedBodyIsRefused` | core/src/block.rs:99-107 | under some hash function a header made for one body is refused with any other body of different hashes |
| `Blocks.ValidateBlock` | core/src/validation.rs:77-89 | the loop returns the first fault in block order |
| `Blocks.BlockFaultIff` | core/src/validation.rs:75-89 | a block passes iff its root matches and its senders are recovered and pairwise distinct |
| `Mempool.Mempool.Insert` | core/src/mempool.rs:40-78 | the pool becomes a possible outcome of the insertion, for every tie break, and the report names the evicted number or the error |
| `Mempool.Mempool.EvictBySender` | core/src/mempool.rs:81-113 | the loop ends, evicts cheapest senders one after another, and returns exactly the number asked for |
| `Mempool.Mempool.Remove` | core/src/mempool.rs:116-130 | the transaction leaves both maps, and an emptied sender leaves too |
| `Mempool.Mempool.GetByHash` | core/src/mempool.rs:133-141 | lookup through both maps |
| `Mempool.Mempool.GetBest` | core/src/mempool.rs:144-152 | the `limit` dearest pooled transactions or all of them, each once, dearest first, equally priced ones of a sender by nonce |
| `Mempool.SortSorts` | core/src/mempool.rs:150 | the sort orders by price, dearest first, and only rearranges |
| `Mempool.SortIsStable` | core/src/mempool.rs:150 | transactions of one price keep their order |
| `Mempool.Mempool.Len` | core/src/mempool.rs:155-158 | the sum of the senders' counts |
| `PoolLaws.RunKeeps` | core/src/mempool.rs:40-130 | in every run of inserts and removals: every pooled transaction is filed under its sender and nonce and found under its hash, and the pool stays within capacity |
| `PoolLaws.OverflowExactIff` | core/src/mempool.rs:81-113 | making one place leaves no stale hash, however ties are broken, iff every cheapest sender holds one transaction |
| `PoolLaws.RunExactIff` | core/src/mempool.rs:101-111 | for any operations, the two maps stay inverse in all runs iff at every overflow of every run all cheapest senders hold one transaction |
| `PoolLaws.AdmitIff` | core/src/mempool.rs:40-60 | an insert is admitted iff the sender is recovered, the hash is new, and the sender has nothing pooled or a nonce at most 10 below; a duplicate iff the hash is known |
| `PoolLaws.AdmitEffect` | core/src/mempool.rs:61-69 | the transaction takes its place and is found; the one it replaces is found no more; every other place and hash is as before |
| `PoolLaws.AdmitSizeIs` | core/src/mempool.rs:61-69 | the size grows by one, or not at all for a replacement |
| `PoolLaws.ReplacementIsTaken` | core/src/mempool.rs:40-78 | a new transaction for a pooled nonce always replaces the old one and is never evicted by its own insertion |
| `PoolLaws.RunReplaces` | core/src/mempool.rs:40-78 | so at any point of any run |
| `PoolLaws.TotalFeesIsCapped` | core/src/mempool.rs:81-95 | the fees senders are compared by are the sum of gas price times gas limit, capped once |
| `Mempool.ReportTells` | core/src/mempool.rs:39-78 | from within capacity: an error iff the sender or the nonce is bad, and the number 1 iff a sender was evicted |
| `PoolLaws.EvictionEffect` | core/src/mempool.rs:81-113 | whatever the tie breaks: the asked-for number is reported, senders stay whole or go whole, and at least that many go |
| `PoolLaws.EvictionStaleIff` | core/src/mempool.rs:101-111 | an eviction leaves no stale hash iff there was none and exactly the asked-for number left |
| `PoolLaws.EvictedAreCheapest` | core/src/mempool.rs:81-100 | no sender that stays has lower total fees than one that goes |
| `PoolLaws.OverflowDropsOneSender` | core/src/mempool.rs:70-78 | an overflowing insert into a pool within capacity drops one sender of least total fees; the maps stay inverse iff it held one transaction |
| `PoolLaws.InsertKeeps` | core/src/mempool.rs:40-78 | an insert keeps the invariant and the capacity |
| `PoolLaws.RemoveKeeps` | core/src/mempool.rs:116-130 | a removal keeps the invariant, and leaves no stale hash if there was none |
| `PoolLaws.RemoveMembers` | core/src/mempool.rs:116-130 | a removal takes out exactly the transaction its hash leads to and keeps all others as they were |
| `PoolLaws.FoundIff` | core/src/mempool.rs:133-141 | without stale hashes, lookup returns a transaction iff it is pooled with that hash |
| `PoolLaws.PooledIsFound` | core/src/mempool.rs:133-141 | a pooled transaction is returned for its own hash, stale hashes or not |
| `PoolLaws.EvictionLosesTheLast` | core/src/mempool.rs:101-111 | a pool for one transaction, two of one sender: both leave, the second is then a duplicate that cannot be found |
| `PoolLaws.StaleHashLeadsElsewhere` | core/src/mempool.rs:116-141 | from there, another transaction of the sender with that nonce is returned and removed for the evicted one's hash, and leaves its own hash behind |
| `Rlp.ItemsOfEncodedStrings` | rpc/src/server.rs:210-235 | a printed list of strings is read back field by field |
| `Rlp.DecodedItemWasEncoded` | rpc/src/server.rs:210-235 | what the Yellow Paper's decoder reads is exactly the encoding of what it returns |
| `CodecVectors.SigningExample` | core/src/transaction.rs:33-47 | the signing data of the example in EIP-155, byte for byte |
| `CodecVectors.SignedExample` | core/src/transaction.rs:138-154 | the signed transaction of that example, byte for byte, for v 0 and 27 |
| `CodecVectors.LongStrings` | core/src/transaction.rs:138-154 | strings of 55, 56 and 1024 bytes are prefixed as in the examples of the RLP format |
| `CodecVectors.Lists` | core/src/transaction.rs:138-154 | so are lists |
| `Transactions.U256ToRlpBytes` | core/src/transaction.rs:13-17 | big-endian bytes without leading zeros |
| `Transactions.SigningHash` | core/src/transaction.rs:34-47 | the appends hash the EIP-155 list of the fields |
| `Transactions.ToLegacyRlp` | core/src/transaction.rs:139-154 | the appends print the list of the nine fields with the EIP-155 `v` |
| `Transactions.Hash` | core/src/transaction.rs:83-101 | the override, else the hash of the nine fields with `v` as 27 plus the recovery id |
| `Transactions.RlpBytesToU256` | rpc/src/server.rs:200-206 | the value of the last 32 bytes |
| `CodecLaws.ParsePrinted` | rpc/src/server.rs:210-264 | parsing a printed transaction gives all fields back, with the chain id and recovery byte of the printed `v` |
| `CodecLaws.RoundTripIff` | core/src/transaction.rs:138-154 | seven fields, r, s survive and `v` comes back as the same id in its form above 27 iff `v` is 0, 1, 27 or 28 and the printed `v` fits 64 bits |
| `CodecLaws.ParitySurvives` | core/src/transaction.rs:138-154 | 0 and 27 come back as 27, 1 and 28 as 28, with all else as it was |
| `CodecLaws.ParityIsPrinted` | core/src/transaction.rs:141 | the printed `v` is 35 + 2 * chain id, plus 1 for 1 and 28 |
| `CodecLaws.RecoveredWithParity` | core/src/transaction.rs:51-64 | recovery is asked for 0 for 0 and 27, and for 1 for 1 and 28 |
| `CodecLaws.SenderCommitsIff` | core/src/transaction.rs:51-64 | two transactions have one sender under all hash functions and schemes iff all fields, r, s agree and `v` up to 27 |
| `CodecLaws.ParsesIff` | rpc/src/server.rs:210-235 | the parser takes exactly lists of nine or more items with the first nine strings, short numbers, and a recipient of 0 or 20 bytes |
| `CodecLaws.ParsedReadsAs` | rpc/src/server.rs:220-263 | what it reads: big-endian numbers, the long ones modulo 2^256, chain id and recovery byte out of `v` |
| `CodecLaws.SenderSurvives` | core/src/transaction.rs:104-108 | the recovered sender is the same after the round trip |
| `CodecLaws.PrintParsedIff` | rpc/src/server.rs:210-264 | a raw transaction that the Yellow Paper's decoder reads is reproduced byte for byte iff it is canonical |
| `CodecLaws.SigningPayloadInjective` | core/src/transaction.rs:33-47 | equal signing payloads mean equal transactions, recipient and chain id included |
| `CodecLaws.PayloadIsNotATransaction` | core/src/transaction.rs:33-47 | a signing payload is never a printed signed transaction |
| `CodecLaws.HashBytesIff` | core/src/transaction.rs:83-101 | the hashed bytes agree iff all fields but the chain id, r and s agree, and `v` up to 27 |
| `CodecLaws.HashIs` | core/src/transaction.rs:83-101 | the hashed list is the printed one with `v`, or 27 + `v`, in place of the EIP-155 number |
| `CodecLaws.HashCommitsIff` | core/src/transaction.rs:83-101 | so do the hashes under all hash functions; an override is the hash |
| `StateStore.KeyOrder` | core/src/state.rs:142-169 | the byte order of balance keys and of nonce keys is the numeric order of addresses |
| `StateStore.KeySpelling` | core/src/state.rs:41-87 | keys are `balance:` or `nonce:` and lower-case hexadecimal |
| `StateStore.PreimageIs` | core/src/state.rs:142-169 | the hashed bytes are the balance records and then the nonce records, each in ascending order of addresses |
| `StateStore.PreimageIff` | core/src/state.rs:142-169 | two states have the same root preimage iff they store the same balance and nonce entries |
| `StateStore.StoredZeroChangesPreimage` | core/src/state.rs:56-63 | a stored zero reads like no entry but changes the preimage |
| `StateStore.StateDB.ComputeStateRoot` | core/src/state.rs:143-169 | the two loops hash the records in key order, a function of the entries alone |
| `Money.MoveIsExact` | core/src/state.rs:41-63 | a covered transfer under a representable supply saturates nothing, also to oneself |
| `Money.ExecuteIsExact` | core/src/validation.rs:50-73 | a validated transaction is paid in full: supply kept, every account changed by exactly its part |
| `Payments.IncludableIff` | core/src/validation.rs:36-73 | a candidate is valid iff it is for this chain, its sender is recovered, can pay value + price * limit, and its nonce is the account's |
| `Payments.RoundIs` | node/src/main.rs:266-317 | one round: nothing, a removal from the pool, or the sender pays the address the transaction names, and the proposer for the gas used |
| `Payments.LoopBalances` | node/src/main.rs:266-317 | after the loop every account holds what it held, less what it sent and paid for gas, plus what named it, plus the fees for the proposer |
| `Money.LoopAccounts` | node/src/main.rs:266-317 | the candidate loop keeps the supply, and a proposer that sends nothing gains all fees and what was sent to it |
| `Money.SplitFees` | core/src/genesis.rs:86-90 | the two halves add up, and the proposer's is larger by at most one |
| `Money.BlockBurnsHalfTheFees` | node/src/main.rs:266-330 | if the proposer sends nothing, supply falls by floor(fees / 2), the proposer keeps the rest, and no sum saturates |
| `Money.BlockSupplyFalls` | node/src/main.rs:321-330 | whoever sends, supply falls by the burn or by all the proposer has left |
| `Settlement.OthersAreSettled` | node/src/main.rs:266-330 | a call leaves everybody but the proposer with exactly that |
| `Settlement.ProposerIsSettled` | node/src/main.rs:266-330 | and a proposer that sends nothing with its income and the fees less half; that half leaves the supply |
| `Settlement.DoubleSignIsPunished` | node/src/main.rs:344-366 | a double sign takes all the validator has, short of a wrap-around, and nothing from others |
| `Settlement.ProducedHeader` | node/src/main.rs:331-343 | every header field of the produced block, the state root being the digest of the settled accounts |
| `Settlement.HundredCandidates` | node/src/main.rs:255 | at most 100 candidates, all pooled ones if there are fewer |
| `Settlement.PoolAfterCall` | node/src/main.rs:282-292 | a call takes exactly the rejected candidates out of the pool, and those that ran if the block is accepted |
| `Settlement.SlowCallIsStuck` | node/src/main.rs:250-344 | a block stamped more than three seconds after the call began is rejected, and what ran cannot be included again |
| `Settlement.OnHeadIff` | core/src/validation.rs:24-29 | a block on the head is accepted iff senders are distinct, it is stamped at most three seconds ahead, and it is no double sign |
| `Production.ProducedIff` | core/src/chain.rs:241-293 | a block built on the head is accepted iff its senders are distinct, its time is within bounds, and its validator signed no other block there |
| `Production.ProducedIsAccepted` | node/src/main.rs:224-344 | with no account-nonce and next-nonce pair of one sender among the candidates, a head that never fell and a time after the parent's and at most a block time ahead, the produced block is accepted |
| `Production.FirstBlockIsAccepted` | node/src/main.rs:157-176 | right after the genesis, with an empty pool, the empty block is produced and accepted and no nonce changes |
| `Production.ProducedExtendsHistory` | node/src/main.rs:331-344 | and the longer history is valid with a head that still never fell |
| `ProductionRuns.ProductionIsSafe` | node/src/main.rs:217-376 | over any run of `produce_block` from the genesis, whatever the pools, clocks and verdicts: head and finalized height never fall, no two blocks are finalized at one height, checkpoints lie on one line under every later head, the supply never rises |
| `ProductionRuns.CallOfRunIff` | node/src/main.rs:255-366 | in such a run no call ends in a double sign; where all pairs can pay, a call succeeds whatever the answers iff its candidates hold no pair and its time is within bounds |
| `ProductionRuns.AttemptSucceedsIff` | node/src/main.rs:331-366 | for given answers a call on a history whose head never fell succeeds iff the included senders are distinct and its time is within bounds |
| `CandidateLaws.AlwaysDifferIff` | node/src/main.rs:266-317 | where all pairs can pay, no sender runs twice whatever the answers iff the candidates hold no pair |
| `CandidateLaws.NoPairDiffers` | node/src/main.rs:266-317 | without such a pair no sender runs twice, whatever the answers, paid or not |
| `CandidateLaws.OnePerSenderHasNoPair` | core/src/mempool.rs:144-152 | a pool with one transaction per sender yields no such pair |
| `ProductionFailure.PairIsIncluded` | node/src/main.rs:266-366 | in any call, a pair that can pay is executed together under some answers, whatever the gas used: block rejected, store unchanged, nonce two further, neither includable again |
| `ProductionFailure.FreePairIsStuck` | node/src/main.rs:266-366 | such a call exists: two payments at price zero right after the genesis |
| `Production.PairIsRejectedAndStuck` | node/src/main.rs:266-366 | whenever a sender ran twice: block rejected, store unchanged, and nothing that ran can be included again |
| `Production.ExecutedIsGone` | node/src/main.rs:266-330 | nothing that ran can be included again, and each nonce has moved on by the sender's count |
| `CandidateLaws.CandidatesApart` | core/src/mempool.rs:144-152 | with one pooled transaction per sender the candidates have distinct senders |
| `Production.TwiceIsRejected` | core/src/validation.rs:79-87 | a block with two transactions of one sender is rejected and changes nothing |
| `Node.RunCandidates` | node/src/main.rs:266-317 | the loop computes the fold of single rounds over store, executed list and pool |
| `Node.BurnFees` | node/src/main.rs:321-330 | the burn is taken from the proposer, as far as it can pay |
| `Node.Conclude` | node/src/main.rs:344-373 | offers the block; takes its transactions out of the pool on success, the penalty out of the balance on a double sign (all of it unless balance * 10000 wraps) |
| `Node.ProduceBlock` | node/src/main.rs:217-376 | the whole call: nothing is attempted iff there is no head or it is another validator's turn, and then nothing changes; else chain, accounts and pool are as one production step leaves them |
| `Proposer.SelectProposer` | consensus/src/validator_set.rs:128-153 | the loop finds the place the walk finds |
| `Proposer.SeedIsTop` | consensus/src/validator_set.rs:132-143 | the seed is the top 64 bits of the digest of epoch of 32 blocks, parent and number |
| `Proposer.ChosenIs` | consensus/src/validator_set.rs:128-153 | nobody of nobody, the first if stakes sum to nothing, else the validator in whose interval of stake the seed falls modulo the sum |
| `Proposer.WalkIff` | consensus/src/validator_set.rs:144-152 | below the total, a place is found iff `idx` lies in its interval; so the last resort is never used |
| `Proposer.WinnerCount` | consensus/src/validator_set.rs:138-152 | the exact number of seeds below n that choose a validator, for sums that wrap too |
| `Proposer.RoundIsProportional` | consensus/src/validator_set.rs:138-152 | over one round of indices a validator is chosen once per unit of stake that the 128-bit sum reaches, all of it unless the sum wraps |
| `Proposer.CountBounds` | consensus/src/validator_set.rs:142-152 | over n seeds, 2^64 included, between q*w and (q+1)*w times, with q = n / total and w that reachable stake |
| `Proposer.ReachableIff` | consensus/src/validator_set.rs:142-152 | some 64-bit seed chooses a validator iff the sum reaches its stake and the stakes before it stay below 2^64 |
| `Proposer.FirstIsAlwaysChosen` | consensus/src/validator_set.rs:8-9 | among validators with the minimum stake the first one is always chosen |
| `ValidatorSet.ValidatorSet.Register` | consensus/src/validator_set.rs:54-81 | the three outcomes; delegations made before are summed up |
| `ValidatorSet.ValidatorSet.Delegate` | consensus/src/validator_set.rs:83-101 | the delegation is recorded and added, or refused |
| `ValidatorSet.ValidatorSet.Slash` | consensus/src/validator_set.rs:116-123 | stake falls, not below zero; a deactivated validator stays inactive |
| `ValidatorSet.ValidatorSet.ActiveValidators` | consensus/src/validator_set.rs:107-113 | exactly the active validators, lowest address first |
| `ValidatorSet.ActiveIff` | consensus/src/validator_set.rs:8-9 | active iff flagged so and own and delegated stake reach 10,000 * 10^18 |
| `ValidatorSet.RegistrationIs` | consensus/src/validator_set.rs:54-81 | accepted iff the stake suffices and there is room among 1000 or the validator is known; then it is active with all ever delegated to it |
| `ValidatorSet.DelegationIs` | consensus/src/validator_set.rs:83-101 | refused iff inactive; raises the delegated total by the amount, capped once |
| `ValidatorSet.SlashIs` | consensus/src/validator_set.rs:116-123 | takes the amount or all of the own stake; a deactivated validator has no turn while another is active |
| `ValidatorSet.DeactivationLasts` | consensus/src/validator_set.rs:83-123 | until it registers again |
| `ValidatorSet.RegisterKeeps` | consensus/src/validator_set.rs:54-81 | each validator's delegated total stays the sum of its recorded delegations, and the set stays within its size |
| `ValidatorSet.DelegateKeeps` | consensus/src/validator_set.rs:83-101 | the same after a delegation |
| `ValidatorSet.SlashKeeps` | consensus/src/validator_set.rs:116-123 | the same after a slash |
| `ValidatorSet.ItsTurn` | node/src/main.rs:236-248 | a node may propose iff there is no validator set, nobody is active, or it is the active validator of lowest address |
| `ValidatorSet.ProposerIsLowest` | node/src/main.rs:236-243 | the proposer is the active validator of lowest address, and there is none iff nobody is active |

## Left out

- SHA-256, Keccak-256, secp256k1: function values; the block hash is an inductive datatype, so its
  injectivity is built in.
- `extra_data` of a header: always empty here, as in every header the node builds
  (core/src/block.rs:138). The preimage joins it to `signature` with no length
  (core/src/block.rs:50-51), which the inductive hash does not show.
- RocksDB, bincode and disk errors: columns are maps, reads and writes are total. The finalized height
  and hash are written together, so a crash between the two writes is not modelled.
- Storage of block bodies: header and body share one entry. The header and the body of a stored block
  are read back as they were written.
- The code and storage columns of the state: outside what the state root covers.
- Node.Conclude: does not write the receipt index and the record of slash evidence
  (core/src/chain.rs:193-237, 52-62), which the modelled parts never read.
- revm: replaced by a step that moves the value from sender to recipient and gas_used * gas_price from
  sender to proposer, raises the nonce by one, and uses at most the gas limit. Contract code, logs and
  reverts are not part of this model.
- The fraud detector: an arbitrary verdict per candidate.
- Clocks: the time of a step is a parameter; `produce_block` reads the clock twice, and the two
  readings are independent.
- Arithmetic that wraps in a release build and panics in a debug build (`35 + 2 * chain_id + v`, the
  timestamp bound, the total stake) is modelled as wrapping; `next_number` and `number + 1` are not.
- Ghost.StakeIsCappedTotal: asks for balances below 2^128, because the conversion of a larger one
  panics.
- Proposer.SelectProposer: asks for single stakes below 2^128, for the same reason; the sum wraps.
- Node.ProduceBlock: asks the same of the active validators, and for a head below height 2^64 - 1.
- ValidatorSet.ValidatorSet.Register: asks for a stake below 2^128, whose conversion panics otherwise.
- Finality.GuardedExtends: a guard is assumed because the property is false without it; the condition
  is exact for the finalized height (Finality.HeightNeverFallsIff).
- IndexLaws.IndexIsAncestorLine: blocks more than one above the head are shut out because the property
  is false with them (RunWitnesses.GapBreaksIndex); IndexLaws.AgreementIff gives the exact condition of
  one step.
- The order of a mempool's hash map: a tie between cheapest senders, or between equally priced
  candidates of different senders, may be broken in any way.
- Eviction reads the pool through locks; interleavings of calls from several threads are not modelled.
- Rlp.DecodedItemWasEncoded: is about the Yellow Paper's decoder. The `rlp` crate is not part of the
  repository or of this model; its `data()` may read more, such as a list where a string is expected or
  a single small byte in two bytes. What is printed is in the Yellow Paper's form, so the round trip
  does not lean on this. The crate's error texts are collapsed into one.
- CodecLaws.PrintParsedIff: is about raw transactions that this decoder reads, for the same reason.
- EIP-1559 parsing, HTTP and JSON-RPC dispatch, rate limits, the network, wallet, SDK and tools.
- Rewards, the other slashing rates, `quyn-intelligence`: constants, one-branch functions and
  floating-point scores.
- `apply_transfer` and `apply_genesis_alloc`: not on the path of block production.
