# Verified model of a blockchain node

This project models the parts of a C++ blockchain node where several functions together keep one strong invariant, and
proves what those parts promise. Check everything with `dafny verify dfyconfig.toml`.

| file | what it models |
|---|---|
| `InnerIds`, `Addresses`, `GraphLedger`, `GraphPasses`, `GraphValidator` | validation of a batch of transfers: the per-transaction pass, the lists threaded through one array, and the phase that gives transactions up, in four passes from the mildest to the hardest, until no wallet is in debt |
| `ChainModel`, `ChainRuns`, `BlockChain` | storing, recording, caching and removing blocks, as operations on a chain and as code on the node's fields; delivery of one chain out of order |
| `RequiredBlocks` | the intervals of blocks to ask the network for |
| `WalletIds` | short wallet ids: the writer of a block, a follower, and rollback |
| `TransactionHistory`, `TransactionsIndex` | the per-address index, its iterator, block removal and re-creation, against a plain scan of the chain |
| `Bytes`, `Options`, `VarInt` | shared types; the variable-length integer code |
| `Streams`, `TransactionCodec`, `PoolCodec`, `PoolStreams` | the binary form of transactions and pools, as functions on bytes and as code on streams |
| `ChainStitching` | finding chain heads among blocks fed in any order |
| `SendCache`, `TrustedMask`, `Conveyer` | packets on their way into a block, the cache that sends them again, and the mask of the nodes that took part |
| `Fragments`, `FragmentRuns`, `MessageCollector` | reassembly of fragmented network messages: the 32-bit composition, whole runs of arrivals, reads and drops, and the objects |
| `AmountText` | the canonical decimal of an amount given as text |

## How things are modelled

- Amounts and fees are exact integers. Hashes are injective. Signature checks, the completion of a block by the node
  and the address resolver are parameters. Databases are maps, multi-index tables are injective maps.
- Every operation is one atomic step. Code that updates fields is a class whose methods are proved against functions on
  values; the whole-run results are lemmas about those functions.
- A 64-bit sequence that means "none" is the greatest 64-bit number, as in the code.
- The integer encoder leaves the width of a zero operand undefined; the model clamps it to the shortest form.
- A comment in the interval computation promises that the last interval starts after the highest cached block. The code
  starts it at that block, and so does the model.

## Where the code does not do what one would expect

Each has a concrete input and an exact condition in the model.

- The charge of a deploy is the maximal fee, the refund for an unknown target the counted fee, and a contract-sourced
  call keeps its charge when it is rejected: `GraphValidator.RefundGap`,
  `GraphValidator.StrandedCall`, `GraphValidator.ValidateAlone`.
- A misaddressed deploy is rejected but stays linked, charged and credited, so it can fund a transfer that is admitted:
  `GraphValidator.ValidateMisaddressed`, `GraphValidator.ValidateOne`.
- A mismatching first block can make the node drop its genesis block: `ChainModel.GenesisCanBeLost`,
  `ChainModel.StoreKeepsWellFormed`, `ChainRuns.RunKeeps`.
- A removal given without the block's transactions leaves stale index entries: `TransactionsIndex.StaleEntry`,
  `TransactionsIndex.EmptyRemovalLeavesEntries`, `TransactionsIndex.AddThenRemoveStored`.
- A page of limit 0 is not empty but unlimited in effect: `TransactionsIndex.GetTransactions`.
- The intervals overlap when nothing above the next block is cached: `RequiredBlocks.OverlapExample`,
  `RequiredBlocks.GetRequiredBlocks`.
- Rolling a block back also forgets wallets that were known before it, and can leave the counter ahead:
  `WalletIds.RollbackLosesAKnownWallet`, `WalletIds.RollbackLosesTheCounter`, `WalletIds.RollbackRestoresIff`.
- Rolling an early id back can leave the counter on an id in use, and then new wallets get no id:
  `WalletIds.RollbackBlocksTheCounter`, `WalletIds.GetsAnIdIff`.
- Pools whose counters and lists disagree do not come back from their own bytes: `PoolCodec.CountersMustAgree`,
  `PoolCodec.RoundTripsExactlyWhenItFits`.
- The length that says how much of a pool is hashed is taken as it is read: `PoolCodec.NothingHashed`,
  `PoolCodec.HashCoversIff`.
- The header hash does not cover the flags, so fragments with headers of different lengths can meet in one message;
  if one is shorter than the first one's headers, the copies leave their fragment and the buffer:
  `Fragments.MixedFlagsOverrun`, `Fragments.FillsExactlyIff`. If it is long enough, part of its payload is cut off:
  `Fragments.MixedFlagsCut`, `Fragments.PayloadsIff`.
- A message completed again after a read and a drop is read as the earlier one: `FragmentRuns.StaleRead`,
  `FragmentRuns.ReadIsRightIff`.
- 256 zeros are returned as they are, and a text of 256 characters can grow past the limit: `AmountText.Exceptions`,
  `AmountText.CanonicalIff`, `AmountText.IdempotentIff`.

## Model

| member | source | states |
|---|---|---|
| `InnerIds.PushForbids` | csnode/include/csnode/bitheap.hpp:20-42 | after `push` an id is refused exactly when it is the pushed one, was refused before, or has dropped below the window: an id once spent never becomes usable again |
| `InnerIds.AllowedIff` | csnode/include/csnode/transactionstail.hpp:27-39 | after any run of pushes an id is allowed if and only if it was never used and lies no more than 1024 below any that was |
| `InnerIds.DuplicatedIff` | csnode/include/csnode/transactionstail.hpp:41-46 | and is reported as a duplicate if and only if it was used and lies no more than 1024 below any that was |
| `GraphLedger.UnlinkAccounts` | csnode/src/transactionsvalidator.cpp:347-358 | unlinking a transaction takes exactly its entry out of the ledger: the source is refunded, the target debited, all other balances unchanged |
| `GraphLedger.UnlinkThreads` | csnode/src/transactionsvalidator.cpp:319-362 | unlinking from the middle of a list through `prevNext` keeps every list strictly decreasing and each holding exactly the linked transactions of its wallet |
| `GraphLedger.AcceptThreads` | csnode/src/transactionsvalidator.cpp:211-214 | putting a transaction at the head of its source's list keeps all lists strictly decreasing and exact |
| `GraphLedger.AcceptKeeps` | csnode/src/transactionsvalidator.cpp:145-157 | accepting a transaction keeps lists, ledger and mask in agreement |
| `GraphLedger.AcceptMoves` | csnode/src/transactionsvalidator.cpp:105-157 | what accepting does to every balance, with the fee written out: the maximal one for a call or a transfer to a contract, the counted one otherwise |
| `GraphLedger.UnlinkMoves` | csnode/src/transactionsvalidator.cpp:349-358 | what unlinking does to every balance: the maximal fee comes back from a contract only |
| `GraphLedger.AcceptSpends` | csnode/src/transactionsvalidator.cpp:211-214 | accepting a transaction keeps the inner ids of accepted transactions spent |
| `GraphLedger.UnlinkKeeps` | csnode/src/transactionsvalidator.cpp:347-362 | unlinking keeps lists, ledger and mask in agreement |
| `GraphLedger.RejectKeeps` | csnode/src/transactionsvalidator.cpp:83-159 | a rejected transaction that changed nothing keeps the invariant |
| `GraphLedger.StrandKeeps` | csnode/src/transactionsvalidator.cpp:145-157 | a contract-sourced call rejected after its charge keeps the books with the charge standing |
| `GraphValidator.Validator.constructor` | csnode/src/transactionsvalidator.cpp:31-36 | a fresh validator has empty lists and no negative wallets |
| `GraphValidator.Validator.GetData` | csnode/src/walletsstate.cpp:5-25 | copying a wallet on first access changes nothing that can be observed |
| `GraphValidator.Validator.Unlink` | csnode/src/transactionsvalidator.cpp:347-362 | the list surgery, refund, debit and rejection of one transaction are exactly the specified unlinking |
| `GraphValidator.Validator.RemovePositiveOne` | csnode/src/transactionsvalidator.cpp:314-366 | drops at most one transaction, one that cures the wallet and leaves its target solvent, and the newest such; says whether it did |
| `GraphValidator.Validator.RemovePositiveAll` | csnode/src/transactionsvalidator.cpp:368-407 | gives up exactly the indices of a sparing sweep, newest first; makes no new debtor |
| `GraphValidator.Validator.RemoveNegativeOne` | csnode/src/transactionsvalidator.cpp:409-455 | drops at most one transaction that cures the wallet, stacking its target if that goes negative |
| `GraphValidator.Validator.RemoveNegativeAll` | csnode/src/transactionsvalidator.cpp:457-492 | gives up exactly the indices of a sweep that spares nobody and puts exactly the targets that came into debt on the stack, in order |
| `GraphValidator.Validator.RemoveTransactions` | csnode/src/transactionsvalidator.cpp:297-312 | which transactions go, which wallets are stacked and whether it succeeds are those of the four-step escalation; succeeds for every sound batch; the stack only grows when the number of linked transactions falls |
| `GraphPasses.SweptIff` | csnode/src/transactionsvalidator.cpp:368-407 | a sweep gives an index up if and only if the wallet is still negative when the index is looked at and, if asked to spare, its target could pay it back at that point |
| `GraphPasses.TestsMean` | csnode/src/transactionsvalidator.cpp:336-343 | the two tests of the passes: the target stays at zero or above, and the wallet is lifted to zero or above |
| `GraphPasses.MildestFirst` | csnode/src/transactionsvalidator.cpp:314-366 | if some index lifts the wallet alone and hurts nobody, exactly the newest such goes and the stack is unchanged |
| `GraphPasses.MildOnesTogether` | csnode/src/transactionsvalidator.cpp:368-407 | otherwise, if all that hurt nobody lift it together, exactly those of the sparing sweep go and the stack is unchanged |
| `GraphPasses.OthersOnlyIfNeeded` | csnode/src/transactionsvalidator.cpp:297-312 | the stack grows only if giving up all that hurts nobody leaves the wallet negative |
| `GraphPasses.OneCures` | csnode/src/transactionsvalidator.cpp:409-455 | and then exactly one further index goes whenever one lifts the wallet alone, the newest such; its target is stacked if it is then in debt |
| `GraphValidator.Validator.ValidateByGraph` | csnode/src/transactionsvalidator.cpp:284-295 | visits the stacked wallets in turn, each by the escalation, and fails if and only if one of them stays in debt; terminates; only unlinks; a sound batch never fails and leaves every wallet at or above zero |
| `GraphValidator.Validator.ValidateTransactionAsSource` | csnode/src/transactionsvalidator.cpp:161-217 | accepted if and only if the inner id is allowed, source and target differ, the maximal fee covers the counted one and a contract only makes calls it can pay; the charge, the new list head and the pushed negative wallet |
| `GraphValidator.Validator.ValidateTransactionAsTarget` | csnode/src/transactionsvalidator.cpp:219-225 | credits the target and nobody else |
| `GraphValidator.Validator.ValidateTransaction` | csnode/src/transactionsvalidator.cpp:38-44 | both sides of one transaction; every wallet that becomes negative is on the stack |
| `GraphValidator.Validator.ValidateAt` | csnode/src/itervalidator.cpp:109-144 | one round of the pass keeps lists, ledger, mask and inner ids in agreement |
| `GraphValidator.Validator.ValidateTransactions` | csnode/src/itervalidator.cpp:109-154 | whole batch: every transaction still admitted is judged in turn and the stacked wallets are visited in turn; the lists, the exact ledger and the spent inner ids; whatever is admitted is linked; for a sound batch nobody ends below zero and the failure exit is not reached; for an ordinary batch the balances are those of the admitted transactions plus those of the misaddressed deploys left linked, and without such deploys the admitted transactions alone give the final balances and leave nobody below zero |
| `GraphValidator.MaskDeterminesBalances` | csnode/src/itervalidator.cpp:109-154 | for ordinary batches final balances are read off the final mask, admitted transactions and misaddressed deploys apart: unlinking is a perfect undo |
| `GraphValidator.AdmittedSettle` | csnode/src/itervalidator.cpp:109-154 | with no misaddressed deploy linked, the balances are those of the admitted transactions |
| `GraphValidator.ValidateOne` | csnode/src/itervalidator.cpp:124-133 | a sound batch of one, from any wallets: the balances are those of what was admitted if and only if the transaction is not a misaddressed deploy that passes the checks, costs something and can be paid |
| `GraphValidator.ValidateMisaddressed` | csnode/src/itervalidator.cpp:124-133 | a rejected deploy funds an admitted transfer: the batch is sound, no debt is seen, and what was admitted leaves a wallet at -100 |
| `GraphValidator.ValidateSparing` | csnode/src/transactionsvalidator.cpp:297-366 | of two transactions of a wallet short of 1 the older one is given up, because the target of the newer has spent its money |
| `GraphValidator.ExtraordinaryLeavesDebt` | csnode/src/transactionsvalidator.cpp:352-354 | a transaction that is not ordinary, alone and unpaid for, leaves its source in debt |
| `GraphValidator.RefundGap` | csnode/src/transactionsvalidator.cpp:100-101 | a payable deploy charged 2 and refunded 1 |
| `GraphValidator.StrandedCall` | csnode/src/transactionsvalidator.cpp:202-209 | a call sent by a contract without funds is charged and rejected |
| `GraphValidator.ValidateAlone` | csnode/src/transactionsvalidator.cpp:284-295 | sent alone from empty wallets, a payable transaction leaves everyone solvent if and only if it is ordinary (no refund gap, not a contract-sourced call) |
| `ChainModel.RemoveKeepsWellFormed` | csnode/src/blockchain.cpp:327-402 | removing the top keeps the chain well formed if and only if it does not remove genesis |
| `ChainModel.RecordKeepsWellFormed` | csnode/src/blockchain.cpp:889-975 | recording keeps the chain linked and, on success, adds exactly the block on top |
| `ChainModel.StoreKeepsWellFormed` | csnode/src/blockchain.cpp:1063-1159 | storing a block, whatever becomes of it, keeps the chain well formed if and only if it does not make the node drop genesis |
| `ChainModel.StoreSucceedsIff` | csnode/src/blockchain.cpp:1063-1159 | for old, next and later blocks when storing succeeds, with every condition written out, and what it leaves in the chain and the cache |
| `ChainModel.UnconfirmedIsRefused` | csnode/src/blockchain.cpp:1075-1077 | a block above number 1 without confirmations or without round confirmations is refused and changes nothing |
| `ChainModel.GenesisCanBeLost` | csnode/src/blockchain.cpp:1094-1107 | genesis alone and a first block on a foreign parent: nothing is left |
| `ChainRuns.StepKeeps` | csnode/src/blockchain.cpp:1063-1200 | every operation keeps the chain well formed unless it drops genesis, and lets no unchecked block in |
| `ChainRuns.RunKeeps` | csnode/src/blockchain.cpp:1063-1200 | every run keeps persisted blocks plus the deferred one a hash-linked run of consecutive sequences, exactly as long as genesis is kept; no block enters unchecked, and none above number 1 enters chain or cache without both kinds of confirmations |
| `ChainRuns.StoreNext` | csnode/src/blockchain.cpp:1063-1159 | the next block of an acceptable chain is always recorded |
| `ChainRuns.DrainSettles` | csnode/src/blockchain.cpp:1161-1200 | draining the cache records until the first gap and loses nothing |
| `ChainRuns.DrainForgets` | csnode/src/blockchain.cpp:1161-1200 | draining forgets every cached block at or below the top and adds none |
| `ChainRuns.WrongSignatureAllowsRemoval` | csnode/src/blockchain.cpp:954-963 | a next block with a wrong signature is not kept and allows a removal |
| `ChainRuns.DeliverSettles` | csnode/src/poolsynchronizer.cpp:177-196 | delivering blocks of one chain in any order with duplicates records the longest run above the old top and caches exactly the rest |
| `ChainRuns.DeliveryOrderIsIrrelevant` | csnode/src/poolsynchronizer.cpp:177-196 | two deliveries of the same blocks end in the same chain and cache |
| `ChainRuns.DeliveryCompletes` | csnode/src/poolsynchronizer.cpp:177-196 | once all blocks have arrived the node has the whole chain and an empty cache |
| `BlockChain.BlockChain.PoolSave` | csdb/src/storage.cpp:494-532 | refuses exactly a pool whose hash is stored, and then changes nothing; otherwise both tables, the count and the last hash move as stated |
| `BlockChain.BlockChain.PoolRemoveLast` | csdb/src/storage.cpp:726-769 | removes the top persisted block and returns its metadata, or nothing when there is none |
| `BlockChain.BlockChain.GetLastHash` | csnode/src/blockchain.cpp:174-182 | the hash of the top of the chain, deferred or persisted |
| `BlockChain.BlockChain.RemoveLastBlock` | csnode/src/blockchain.cpp:327-402 | does to the fields what the specification does to the chain |
| `BlockChain.BlockChain.SaveDeferred` | csnode/src/blockchain.cpp:911-931 | the deferred block becomes persisted and both tables agree with the longer run |
| `BlockChain.BlockChain.TryFlushDeferred` | csnode/src/blockchain.cpp:696-714 | persists the deferred block exactly when the read-only and group-signature checks pass |
| `BlockChain.BlockChain.RecordBlock` | csnode/src/blockchain.cpp:889-975 | does to the fields what the specification does to the chain, with the same answer |
| `BlockChain.BlockChain.StoreBlock` | csnode/src/blockchain.cpp:1063-1159 | all outcomes: stored, ignored, cached, refused, mismatch with removal |
| `BlockChain.BlockChain.TestCachedBlocks` | csnode/src/blockchain.cpp:1161-1200 | the loop over the cache ends in the drained chain |
| `BlockChain.BlockChain.GetBlockReply` | csnode/src/poolsynchronizer.cpp:177-196 | the delivery loop is the specified delivery |
| `RequiredBlocks.GetRequiredBlocks` | csnode/src/blockchain.cpp:1218-1257 | the numbers covered by the intervals are exactly the wanted ones; the intervals are sorted and disjoint if and only if the cache is empty, reaches above the next block, or reaches the target |
| `RequiredBlocks.AsksForWhatIsMissing` | csnode/src/blockchain.cpp:1218-1257 | with the cache above the next block, every missing sequence up to the target is asked for, and of the cached ones only the highest, exactly when the target lies beyond it |
| `RequiredBlocks.OverlapExample` | csnode/src/blockchain.cpp:1248-1254 | with the next block alone in the cache the same interval is asked for twice |
| `WalletIds.WalletsIds.InsertId` | csnode/src/walletsids.cpp:20-39 | inserts when neither address nor id is present; the counter follows; the exception leaves the entry in |
| `WalletIds.WalletsIds.Find` | csnode/src/walletsids.cpp:41-57 | the id of an address |
| `WalletIds.WalletsIds.FindAddress` | csnode/src/walletsids.cpp:59-68 | the one address with an id, if there is one |
| `WalletIds.WalletsIds.GetId` | csnode/src/walletsids.cpp:70-87 | the id of an address, the next one if it is new |
| `WalletIds.WalletsIds.RemoveId` | csnode/src/walletsids.cpp:89-104 | removes an address and steps the counter back |
| `WalletIds.WalletsIds.AddNewWallet` | csnode/src/blockchain.cpp:649-663 | one place of a block |
| `WalletIds.WalletsIds.AddNewWalletsToPool` | csnode/src/blockchain.cpp:665-694 | from any table: a follower replaying the list gets the same table and counter, and rolling the list back restores both; a dense table stays dense |
| `WalletIds.WalletsIds.UpdateWalletIds` | csnode/src/blockchain.cpp:611-638 | replays a list, stopping at an unusable entry or an exception |
| `WalletIds.WalletsIds.RemoveWalletsInPool` | csnode/src/blockchain.cpp:421-443 | rolls a list back, stopping at an unusable entry |
| `WalletIds.FollowerAgreesAndRollbackRestores` | csnode/src/blockchain.cpp:611-694 | writer, follower and rollback agree on ids and counter for every block and every table |
| `WalletIds.EntriesStand` | csnode/src/blockchain.cpp:665-694 | every entry of the list names the source, target or confidant it points to in the block, a public key whose id in the table is the one of the entry |
| `WalletIds.EveryNewKeyIsNumbered` | csnode/src/blockchain.cpp:665-694 | from a dense table every public key of the block but genesis is in the table afterwards, and the new ones have the ids from the old counter on in the order of first appearance: sources and targets, then confidants |
| `WalletIds.NewKeysAre` | csnode/src/blockchain.cpp:665-694 | which keys count as new: all that appear, are unknown and not genesis, each once, in order of first appearance |
| `WalletIds.ThrowsIff` | csnode/src/walletsids.cpp:70-87 | the writer throws if and only if there are new keys and the counter would pass half of the 32-bit range |
| `WalletIds.LimitIs` | csnode/src/walletsids.cpp:70-87 | the last id that is given out and the first that throws |
| `WalletIds.RollbackRestoresIdsIff` | csnode/src/blockchain.cpp:421-443 | for an arbitrary list, replay and rollback restore the ids if and only if the list names no address already known |
| `WalletIds.RollbackRestoresIff` | csnode/src/blockchain.cpp:421-443 | the whole table is restored if and only if, besides, the ids of the list that entered lie below the counter plus their number, and the last id below that point is one of them unless the counter was zero |
| `WalletIds.FullTableRestoredIff` | csnode/src/blockchain.cpp:421-443 | where the table holds exactly the ids below its counter: restored if and only if no known address is named and the new ids are the next ones in a row |
| `WalletIds.GetsAnIdIff` | csnode/src/walletsids.cpp:70-87 | a new address is refused an id if and only if the id at the counter is in use |
| `WalletIds.RollbackBlocksTheCounter` | csnode/src/walletsids.cpp:89-104 | rolling an early id back leaves the counter on an id in use, and the next new wallet gets none |
| `WalletIds.RollbackLosesTheCounter` | csnode/src/blockchain.cpp:421-443 | an id handed out of turn: the ids are restored and the counter is not |
| `WalletIds.RollbackLosesAKnownWallet` | csnode/src/blockchain.cpp:421-443 | a known wallet listed again is lost by the rollback |
| `TransactionHistory.HistoryIsComplete` | csnode/src/transactionsiterator.cpp:8-77 | the scan lists exactly the transactions of an address, each once, newest first |
| `TransactionHistory.IndexIsDetermined` | csnode/src/transactionsindex.cpp:123-165 | the table that agrees with a chain is unique, so re-creation and incremental updates give the same one |
| `TransactionHistory.PastSkips` | csnode/src/transactionsindex.cpp:175-181 | pools the index skips contribute nothing to the history |
| `TransactionsIndex.Index.UpdateFromNextBlock` | csnode/src/transactionsindex.cpp:123-165 | indexing the next block keeps the table in agreement with the longer chain |
| `TransactionsIndex.Index.LoadNextBlock` | csnode/src/walletscache.cpp:527-547 | the last transaction of every address follows the chain |
| `TransactionsIndex.Index.AddBlock` | csnode/src/transactionsindex.cpp:108-110 | indexing and then loading a block keeps index and last transactions in agreement |
| `TransactionsIndex.Index.ReadFromDb` | csnode/src/transactionsindex.cpp:41-68 | start-up, with or without re-creation through `lapoos_`, ends with the agreeing table |
| `TransactionsIndex.Index.OnReadFromDb` | csnode/src/transactionsindex.cpp:47-56 | re-creation indexes each block read; an index that is up to date is left alone |
| `TransactionsIndex.Index.OnRemoveBlock` | csnode/src/transactionsindex.cpp:70-106 | removing the newest block, given with its transactions, restores agreement of table and last transactions |
| `TransactionsIndex.AddThenRemove` | csnode/src/transactionsindex.cpp:70-106 | adding a block and removing it restores the table, `lastIndexedPool_` and every last transaction |
| `TransactionsIndex.EmptyRemovalLeavesEntries` | csnode/src/transactionsindex.cpp:70-106 | given without its transactions, a removal leaves the table right if and only if the block was empty |
| `TransactionsIndex.StaleEntry` | csnode/src/transactionsindex.cpp:96-106 | block 1 holds one transaction between two wallets: both entries stay |
| `TransactionsIndex.AddThenRemoveStored` | csnode/src/transactionsindex.cpp:70-106 | adding a block and removing it without its transactions gives the old table back if and only if the block was empty |
| `TransactionsIndex.Iterator.constructor` | csnode/src/transactionsiterator.cpp:8-13 | the iterator starts at the whole history |
| `TransactionsIndex.Iterator.FromPool` | csnode/src/transactionsiterator.cpp:15-27 | the iterator starts at the newest transaction of the given pool, followed by the past |
| `TransactionsIndex.Iterator.Next` | csnode/src/transactionsiterator.cpp:45-77 | each step drops exactly the newest transaction left |
| `TransactionsIndex.GetTransactions` | csnode/src/blockchain.cpp:596-609 | the slice of the history by offset and limit; limit 0 wraps to 2^64 |
| `VarInt.RoundTrip` | csdb/src/integral_encdec.cpp:20-48 | for all 2^64 values decoding undoes encoding and consumes exactly the bytes written, whatever follows |
| `VarInt.PrefixIsRejected` | csdb/src/integral_encdec.cpp:60-86 | a buffer that stops short of an encoding is not decoded |
| `VarInt.EncodingIsShortest` | csdb/src/integral_encdec.cpp:60-86 | whatever decodes is a 64-bit value, and the encoder never uses more bytes for it than were read |
| `VarInt.ExtraBytesIsLeast` | csdb/src/integral_encdec.cpp:20-35 | the number of extra bytes is the least that holds the value in two's complement |
| `VarInt.KnownEncodings` | csdb/unittests/csdb_unit_tests_integral_encdec.cpp:25-64 | the bytes of 0, 1, -1, 127, -128 and 255 |
| `VarInt.EncodeTo` | csdb/src/integral_encdec.cpp:20-48 | the code writes the specified encoding |
| `VarInt.DecodeFrom` | csdb/src/integral_encdec.cpp:60-86 | the code reads what the specification reads; a short buffer consumes nothing |
| `Streams.ManyRoundTrip` | csdb/src/pool.cpp:247-258 | lists of a known length round trip when their elements do |
| `Streams.ManyStable` | csdb/src/pool.cpp:247-258 | bytes after a list do not change what is read |
| `TransactionCodec.AmountRoundTrip` | csdb/src/amount.cpp:79-86 | amounts round trip |
| `TransactionCodec.UserFieldRoundTrip` | csdb/src/user_field.cpp:7-27 | typed fields round trip |
| `TransactionCodec.TypeBytes` | csdb/src/user_field.cpp:7-24 | the type byte of each kind of field and what stands behind it |
| `TransactionCodec.UserFieldStable` | csdb/src/user_field.cpp:48-77 | trailing bytes do not matter, and only typed fields are ever read |
| `TransactionCodec.EmplaceIsInsertion` | csdb/src/binary_streams.hpp:159-181 | reading into the map keeps it sorted and keeps the first entry for a key |
| `TransactionCodec.FieldsRoundTrip` | csdb/src/binary_streams.hpp:121-128 | a map of up to 255 entries round trips |
| `TransactionCodec.HighWordSplits` | csdb/src/transaction.cpp:306-313 | below 2^46 the flag bits packed into the inner id can be told from the id |
| `TransactionCodec.HighWordFlags` | csdb/src/transaction.cpp:304-313 | for any inner id each flag is set by the kind of address or by its own bit of the id |
| `TransactionCodec.TransactionLayout` | csdb/src/transaction.cpp:304-333 | where the parts of a transaction stand in its bytes |
| `TransactionCodec.TransactionRoundTrip` | csdb/src/transaction.cpp:304-421 | a transaction with inner id below 2^46 and fitting fields round trips |
| `TransactionCodec.TransactionStable` | csdb/src/transaction.cpp:336-421 | trailing bytes do not matter, and whatever is read fits |
| `PoolCodec.HashRoundTrip` | csdb/src/pool.cpp:82-106 | empty and full hashes round trip |
| `PoolCodec.HashReads` | csdb/src/pool.cpp:90-106 | exactly which bytes are read as a hash |
| `PoolCodec.NewWalletRoundTrip` | csdb/src/pool.cpp:1048-1067 | a 63-bit index and its side flag round trip |
| `PoolCodec.SmartRoundTrip` | csdb/src/pool.cpp:322-364 | smart signatures round trip |
| `PoolCodec.TrustRoundTrip` | csdb/src/pool.cpp:260-320 | confidants by count and confirmations by popcount round trip |
| `PoolCodec.HashedRoundTrip` | csdb/src/pool.cpp:384-427 | the hashed part round trips on its own |
| `PoolCodec.PoolRoundTrip` | csdb/src/pool.cpp:120-172 | a fitting pool comes back with every field and the computed length, whatever bytes follow |
| `PoolCodec.PoolLayout` | csdb/src/pool.cpp:120-123 | where version, previous hash and sequence stand in the bytes of a pool |
| `PoolCodec.PoolStable` | csdb/src/pool.cpp:429-448 | parsing is unaffected by trailing bytes, and whatever is read fits |
| `PoolCodec.RoundTripsExactlyWhenItFits` | csdb/src/pool.cpp:120-172 | a pool comes back from its own bytes if and only if its counters agree with its lists and everything fits its width |
| `PoolCodec.CountersMustAgree` | csdb/src/pool.cpp:137-144 | one trusted node announced and no confidant given: the pool does not come back |
| `PoolCodec.PrefixIsRejected` | csdb/src/pool.cpp:928-937 | every strict prefix of a pool is rejected |
| `PoolCodec.HashedBytes` | csdb/src/pool.cpp:237-241 | of a pool just written, the bytes hashed are exactly the part before the length, and they determine every field in it |
| `PoolCodec.LengthIsNotChecked` | csdb/src/pool.cpp:928-938 | a pool with any length written behind its hashed part is read, with that length |
| `PoolCodec.HashCoversIff` | csdb/src/pool.cpp:237-241 | what a reader hashes is the hashed part if and only if the length it read is that of the part |
| `PoolCodec.NothingHashed` | csdb/src/pool.cpp:237-241 | with a length of zero every pool is read and nothing is hashed |
| `PoolStreams.ObStream.PutEach` | csdb/src/pool.cpp:128-131 | the counting loops append the specified bytes |
| `PoolStreams.ObStream.PutFields` | csdb/src/binary_streams.hpp:121-128 | the map loop appends the specified bytes |
| `PoolStreams.ObStream.PutPool` | csdb/src/pool.cpp:120-172 | appends the specified bytes; the length is the size of the buffer before it |
| `PoolStreams.IbStream.GetEach` | csdb/src/pool.cpp:247-291 | the counting loops read what the specification reads and fail when it fails |
| `PoolStreams.IbStream.GetFields` | csdb/src/binary_streams.hpp:159-181 | the map loop reads what the specification reads |
| `PoolStreams.IbStream.GetHashed` | csdb/src/pool.cpp:384-427 | reads the hashed part and fails at the first field that cannot be read |
| `PoolStreams.IbStream.GetPool` | csdb/src/pool.cpp:429-448 | reads the pool and fails at the first field that cannot be read |
| `PoolStreams.Compose` | csdb/src/pool.cpp:450-475 | the binary form, the length, and the bytes hashed; reading the binary form back gives the composed pool |
| `ChainStitching.Stitcher.UpdateHeadsAndTails` | csdb/src/storage.cpp:57-113 | the two maps are edited as specified in all four cases |
| `ChainStitching.GlueKeeps` | csdb/src/storage.cpp:62-76 | joining two runs leaves one head with the joint length |
| `ChainStitching.LiftKeeps` | csdb/src/storage.cpp:77-87 | a block above a run becomes its head |
| `ChainStitching.ExtendKeeps` | csdb/src/storage.cpp:88-102 | a block below a run moves its missing parent down |
| `ChainStitching.HangKeeps` | csdb/src/storage.cpp:103-112 | a block on its own is a run of one |
| `ChainStitching.FeedKeeps` | csdb/src/storage.cpp:57-113 | any further block of the chain keeps one head per maximal run, true lengths and parents, and tails their exact inverse |
| `ChainStitching.AnyOrder` | csdb/src/storage.cpp:57-113 | so does feeding any blocks in any order |
| `ChainStitching.OrderIsIrrelevant` | csdb/src/storage.cpp:57-113 | two orders of the same blocks give the same maps |
| `ChainStitching.WholeChain` | csdb/src/storage.cpp:57-113 | the whole chain leaves a single head of full length and no tails |
| `Conveyer.SelectSplits` | csnode/src/conveyer.cpp:556-567 | the mask splits valid transactions into two parts with nothing lost and nothing added |
| `Conveyer.SelectAt` | csnode/src/conveyer.cpp:556-567 | each selected transaction stands where the number selected before it says: order is kept |
| `Conveyer.StatesAre` | csnode/src/conveyer.cpp:520-553 | the states handed on are those of all contract packets before the first one whose first mask byte is zero, in order |
| `Conveyer.SignaturesAre` | csnode/src/conveyer.cpp:520-541 | one signature per contract packet whose first mask byte is not zero, in order, with the source of its first transaction as key and its own signatures |
| `Conveyer.ConveyerBase.TakePacket` | csnode/src/conveyer.cpp:556-567 | one packet is split by its stretch of the mask |
| `Conveyer.ConveyerBase.TakeStates` | csnode/src/conveyer.cpp:520-553 | signatures of accepted contract packets; states up to the first rejected one |
| `Conveyer.ConveyerBase.Assemble` | csnode/src/conveyer.cpp:506-577 | succeeds if and only if every hash has a packet and the mask is long enough; then block, rejects, signatures and states are the specified ones |
| `Conveyer.ConveyerBase.ApplyCharacteristic` | csnode/src/conveyer.cpp:472-610 | success condition, the block with its trusted fields, the rejects, the moved packets; every hash of the round still finds its packet; a failure loses the round's packets from the table only |
| `TrustedMask.MaskToBits` | lib/include/lib/system/utils.hpp:266-282 | the 64-bit loop, with wrap-around, for a mask of any length: one bit for each of the first 64 nodes, and later nodes leave no trace |
| `TrustedMask.BitsToMask` | lib/include/lib/system/utils.hpp:284-303 | the loop gives a byte per bit, lowest first |
| `TrustedMask.RestoredIff` | csnode/src/conveyer.cpp:599-600 | who took part can be read back from the length byte and the bits of a block if and only if the length fits a byte and nobody beyond the sixty-fourth node took part |
| `TrustedMask.TrustedComeBack` | csnode/src/roundpackage.cpp:41-46 | for every mask the node accepts, up to 25 nodes, who took part comes back and the number of signatures expected is right |
| `TrustedMask.SixtyFifthIsLost` | lib/include/lib/system/utils.hpp:266-282 | the packing taken alone: sixty-five nodes took part and the last one does not come back |
| `TrustedMask.CountedIff` | csdb/src/pool.cpp:273-281 | the number of signatures a reader expects is the number of nodes that took part if and only if nobody beyond the sixty-fourth did |
| `Conveyer.ApplyTwice` | csnode/src/conveyer.cpp:472-610 | repeating a successful call gives the same block |
| `Conveyer.ConveyerBase.RemoveHashesFromTable` | csnode/src/conveyer.cpp:774-781 | takes the hashes out of table and send cache |
| `Conveyer.ConveyerBase.AddPacketToMeta` | csnode/src/conveyer.cpp:733-746 | adds a packet where it is not yet known |
| `Conveyer.ConveyerBase.AddRejectedHashToCache` | csnode/src/conveyer.cpp:677-700 | queues a known packet again; refuses unknown and queued ones |
| `Conveyer.ConveyerBase.CheckSendCache` | csnode/src/conveyer.cpp:838-908 | sends again and forgets exactly as specified |
| `Conveyer.ConveyerBase.RemoveHashFromSendCache` | csnode/src/conveyer.cpp:910-926 | removes the first entry with the hash |
| `SendCache.ResendsAre` | csnode/src/conveyer.cpp:861-903 | sent again are exactly the entries that are old enough, were sent fewer times than the limit if there is one, and whose packet is still there, each once |
| `SendCache.LeavesTheTableIff` | csnode/src/conveyer.cpp:864-875 | a packet leaves the table at a check if and only if its entry is old enough and was sent as often as the limit allows |
| `SendCache.CheckIs` | csnode/src/conveyer.cpp:838-908 | a check leaves the entries not due and those sent again, with one more sending counted |
| `SendCache.NothingIsOld` | csnode/src/conveyer.cpp:838-908 | after a check nothing is as old as the configured age |
| `SendCache.StepKeeps` | csnode/src/conveyer.cpp:733-746 | every operation keeps one entry per hash and true counts |
| `SendCache.RunKeeps` | csnode/src/conveyer.cpp:838-926 | in every run: one entry per hash, its count is the number of times it was sent again since it was added, and with a positive limit never more than the limit |
| `SendCache.SentExactly` | csnode/src/conveyer.cpp:838-908 | in every run a hash that came due n times with its packet there was sent again n times, or as often as the limit allows |
| `SendCache.PacketLeavesIff` | csnode/src/conveyer.cpp:864-875 | and its packet leaves the table at a check if and only if it is due and all sendings allowed are done |
| `SendCache.TableAfter` | csnode/src/conveyer.cpp:677-746 | which packets are there after each operation |
| `SendCache.EntersIff` | csnode/src/conveyer.cpp:677-746 | when a hash enters the cache, and with which entry |
| `Fragments.FillsExactlyIff` | net/src/packet.cpp:220-241 | computed in 32 bits for any received fragments, every copy stays inside its fragment and the buffer is filled exactly, if and only if no fragment is shorter than the headers of the first |
| `Fragments.MixedFlagsOverrun` | net/src/packet.cpp:222-239 | two fragments that pass the header check under one header hash, with different flags: 73 bytes allocated, 100 copied, the second length wrapped |
| `Fragments.LargestIsWellFormed` | net/include/net/packet.hpp:95 | the largest packet and the greatest number of fragments that are accepted |
| `Fragments.PayloadsIff` | net/src/packet.cpp:231-239 | each fragment contributes its own payload if and only if all have headers of one length |
| `Fragments.MixedFlagsCut` | net/src/packet.cpp:231-239 | two fragments of 100 bytes with different flags fill the buffer exactly, with 23 of the 55 bytes the second one carries |
| `Fragments.ComposedJoinsChunks` | net/src/packet.cpp:220-241 | chunks sent each behind headers come back as one set of headers and the chunks in order |
| `FragmentRuns.RunHoldsTheMessage` | net/src/packet.cpp:154-217 | after any arrivals, repetitions, reads and drops each slot holds its fragment exactly if it came since the last drop, and the message is complete exactly if all did |
| `FragmentRuns.CompleteIsWhole` | net/src/packet.cpp:154-217 | a complete message holds exactly its fragments in order, however they came |
| `FragmentRuns.MessageIsRestored` | net/src/packet.cpp:154-241 | from the wire to the reader: fragments with headers of one length, received in any order, compose to the first headers followed by all payloads, and the buffer is filled exactly |
| `FragmentRuns.ReadIsRightIff` | net/include/net/packet.hpp:354-360 | a complete message is read right, whatever bytes its packets carry, if and only if nothing is kept or no drop came since it was kept |
| `FragmentRuns.StaleRead` | net/include/net/packet.hpp:354-360 | complete, read, drop, complete again under one header: the reader gets the first message |
| `MessageCollector.TotalSize` | net/src/packet.cpp:222-227 | the loop computes the size with every difference and sum wrapped to 32 bits |
| `MessageCollector.Fill` | net/src/packet.cpp:229-239 | the copies succeed if and only if no fragment is shorter than the first headers, and then fill the buffer exactly with the composed data |
| `MessageCollector.Message.Store` | net/src/packet.cpp:187-195 | the packets left are the empty slots; the first packet for a place stays |
| `MessageCollector.Message.Drop` | net/src/packet.cpp:214-217 | all slots are empty again; composed data is kept and now stale |
| `MessageCollector.Message.ComposeFullData` | net/src/packet.cpp:220-241 | succeeds if and only if every fragment is there and none is shorter than the first headers; keeps the composed data |
| `MessageCollector.Message.GetFullData` | net/include/net/packet.hpp:354-368 | the kept or composed data behind the headers of the packet now in the first slot; undefined without that packet |
| `MessageCollector.Message.ExtractData` | net/include/net/packet.hpp:370-379 | moves the composed data out, so that the next read composes again |
| `MessageCollector.PacketCollector.GetMessage` | net/src/packet.cpp:154-212 | stores a packet in the message of its header, in its place, and touches no other message |
| `AmountText.TryExtractAmount` | api/src/tokens.cpp:58-117 | the loop computes the specified normal form of every text |
| `AmountText.CanonicalIff` | api/src/tokens.cpp:58-117 | the result is a canonical decimal if and only if the text is not 256 zeros, where the eight-bit count wraps |
| `AmountText.ValueIsKept` | api/src/tokens.cpp:58-117 | the value survives |
| `AmountText.FractionSpells` | api/src/tokens.cpp:58-117 | the decimals of a text stand for the number they spell over the matching power of ten |
| `AmountText.CharactersAre` | api/src/tokens.cpp:58-117 | the ten digits and the two separators |
| `AmountText.SameTextIffSameValue` | api/src/tokens.cpp:58-117 | two well-formed texts get the same result if and only if their values are equal and both or neither is 256 zeros |
| `AmountText.ZeroIff` | api/src/tokens.cpp:58-117 | the result is "0" if and only if the text is malformed or zero, and not 256 zeros |
| `AmountText.IdempotentIff` | api/src/tokens.cpp:58-117 | a second application changes nothing, except exactly for a text of 256 characters that starts with the separator and does not end in zero |
| `AmountText.Exceptions` | api/src/tokens.cpp:58-117 | both exceptions occur |

## Left out

- New-state and contract-emitted branches of the validator, and the repair of rejected contract results: they rest on the contract registry, which is not part of this model.
- Conversion of fees between packed, floating and exact form: amounts are exact integers here.
- The cache of loaded blocks in the storage: it is never evicted on removal, so it agrees with no simple specification.
- Failing database writes, the repair of the storage after a crash, and what happens after the genesis block is lost.
- The loop of the iterator over empty pools in an inconsistent index: an index that agrees with the chain never leads there.
- Removal of inner ids from the window (`pop`): validation only pushes.
- Eviction of old round metadata from the conveyer and of old messages from the collector: the tables are unbounded here.
- The queue of packets before they are hashed and signed, and the announcement of resent packets: only which packets are resent is modelled.
- Special wallet ids: only the normal ids take part in blocks.
- Locks, threads, signals, timers, logging, the network transport and the public interfaces: plumbing around the modelled steps.
- The forms for signing, the compressed form and the metadata-only form of a pool: they repeat fields of the full form.
- The transaction's own `put` and `get`: modelled as functions on bytes, so the moving stream inside one transaction is not captured.
- TransactionsIndex.Index.LoadNextBlock: only the last transaction of an address is modelled of what the wallet cache keeps.
- What an out-of-bounds copy or a read of an absent packet does: the model stops there, keeps nothing and calls the outcome undefined.
- Conveyer.ConveyerBase.ApplyCharacteristic: excludes a contract packet without transactions, because the code then reads the first element of an empty list, which has no defined outcome.
- Conveyer.ConveyerBase.Assemble: excludes the same packets.
- Conveyer.ApplyTwice: excludes the same packets.
