# Verified models of a full node

The node keeps several stateful structures whose correctness is stated in comments, assertions and
run-time checks. This project models them in Dafny and proves those statements for all inputs, all
runs and all reachable states. Code that updates objects or arrays in place is modelled by classes and
methods with loops; each of them is proved against a reference definition or against the property
itself, and the properties of the reference definitions are lemmas.

- **Best-chain selection** (`BlockTree`, `BestChain`, `Chainstate`): the block index as a tree of ids with
  candidate set, unlinked blocks, failure flags and active chain. One invariant holds in every state in
  between, every operation keeps it, and `ActivateBestChain` ends at the best block: most work, and of those
  the one that was linked first. The assertions of the run-time check of the block index are a predicate of
  their own, `CheckBlockIndex`: once there is an active chain it holds whenever `ActivateBestChain` returns
  true without shutdown, and adding headers, receiving blocks and rejecting blocks preserve it. Whether a
  block is valid is a fixed predicate.
- **Unspent outputs** (`Utxo`, `CoinsCache`, `BlockUndo`, `Conservation`, `CoinHistory`): a stack of caches with
  DIRTY and FRESH flags behaves like one plain map per level; connecting a block and applying its undo data
  is the identity under an exact condition; the total of all amounts is accounted for to the last unit. Over
  whole runs of blocks, new coins wait until they are mature and the supply stays within bounds.
- **Address manager** (`AddrBook`, `AddrMan`, `AddrHistory`, `AddrCheck`, `AddrFile`, `AddrLoad`): five
  redundant indexes, kept consistent by every public operation; the manager's own consistency check succeeds
  exactly when they are; over whole runs, the record of an address is what its history says; saving and
  loading loses nothing; exactly which files are read into a consistent manager.
- **Parallel check queue** (`CheckQueue`): a state machine whose steps are the critical sections of one
  master and any number of workers.
- **Partial Merkle trees** (`MerkleBlock`, `MerkleParts`, `MerkleRoot`, `ByteBits`), as described in the sections
  "Partial Merkle branch format" and "Constructing a partial merkle tree object" of BIP 37: exactly which
  messages are accepted, and what is reported from them.
- **256-bit arithmetic and work** (`Arithmetic`, `Limbs`, `Arith256`, `CompactTarget`).
- **Skip list and active chain** (`ActiveChain`), **rolling Bloom filter** (`RollingBloom`), **Base58** (`Digits`,
  `Base58`), **median time and relative lock times** (`MedianTime`, BIP 68 section "Specification"),
  **stored coins** (`CoinsCodec`), **compact blocks** (`CompactBlock`, BIP 152 section "HeaderAndShortIDs").

Properties that turned out not to hold as one might expect are stated with their exact condition. Where a
second member is named, it shows an input for which they fail:

- Undo data records whether a completely spent entry was a coinstake, but restoring it does not set the
  flag. Connecting and disconnecting a block is the identity exactly when the block's inputs do not name
  all unspent outputs of a coinstake entry (`BlockUndo.RoundTrip`; `BlockUndo.FlagIsLost`).
- A proof-of-work block may hold coinstakes anywhere, and neither their gain nor their number is tested.
  What a caller can check is that coinstakes are in their place (`Conservation.StakesPlaced`): then the total
  grows by at most the reward. For other blocks it does exactly when coinbase and coinstakes together stay
  within fees, burned amounts and reward (`Conservation.ConnectAmounts`; `Conservation.MisplacedStakeMints`).
- Reopening coins with `ModifyNewCoins` forgets the memory usage of what the cache held before. The usage
  counter stays exact exactly when it held no unspent coins (`CoinsCache.CoinsStack.ModifyNewCoins`;
  `CoinsCache.ReopenedCoinsLeak`).
- A number multiplied by itself in place becomes zero (`Arith256.BaseUint.MulAssign`;
  `Arith256.SquareInPlace`).
- `Clear` leaves the entries of the address manager in place, so it is consistent afterwards exactly when
  there were none (`AddrCheck.Clear`; `AddrCheck.ClearAfterAdd`).
- The offset used in reading a request for transactions has 16 bits and wraps after index 65535. What is
  read ascends exactly when no element before the last reaches that index (`CompactBlock.ReadAscends`;
  `CompactBlock.ReadDescending`).
- Positions of short ids are kept in 16 bits, which hold them exactly for blocks of at most 65536
  transactions (`CompactBlock.PositionsFit`; `CompactBlock.FirstIsReplaced`).
- The search for the position of a short id has a 16-bit offset too. It ends exactly when at most 65535
  transactions are prefilled or there is no short id (`CompactBlock.PartialBlock.MapShortIds`,
  `CompactBlock.SearchEnds`; `CompactBlock.EndlessMessage`).
- A negative transaction version is stored as its lowest seven bits, and the code of a large amount wraps
  at 64 bits. Stored coins are read back exactly when the version is not negative and every code fits
  (`CoinsCodec.ReadInvertsWritten`; `CoinsCodec.AmountIsLost`).
- A file of addresses may announce negative counts, which are accepted and kept, and may repeat an address.
  It is read into a consistent manager exactly when no count is negative and no record that gets a slot
  shares its address with another that becomes an entry (`AddrLoad.ReadIsConsistent`;
  `AddrLoad.NegativeIsAccepted`, `AddrLoad.SharedIsIncoherent`).

## Model

| member | source | states |
|---|---|---|
| `BlockTree.LessIsStrictTotal` | src/main.cpp:166-185 | the order of candidates (work, then arrival, then identity) is a strict total order, so a greatest candidate is unique |
| `BlockTree.AncestorsSortBelow` | src/main.cpp:166-185 | every block has more work and height than each of its ancestors and sorts above them |
| `BestChain.ChainTxIsExact` | src/main.cpp:5733-5734 | nChainTx is non-zero exactly when the block and all its ancestors have been received, and then it is the sum of their nTx |
| `BestChain.UnlinkedIsExact` | src/main.cpp:5773-5778 | without failed blocks, mapBlocksUnlinked files a block under its parent if and only if its data is there and that of some ancestor is not |
| `BestChain.OrderIsForgotten` | src/main.cpp:4047-4093 | two indexes that hold the same blocks with the same data agree on nChainTx and mapBlocksUnlinked, in whatever order the data arrived |
| `BestChain.MarkStep` | src/main.cpp:2257-2275 | marking a block that failed, or one below it, and dropping it from the candidates keeps the whole index invariant |
| `BestChain.EraseStep` | src/main.cpp:3649-3668 | dropping a candidate with a failed block on its path keeps the whole index invariant |
| `BestChain.ConnectStep` | src/main.cpp:3554-3617 | extending the active chain by a valid block keeps the whole index invariant |
| `BestChain.DisconnectStep` | src/main.cpp:3490-3545 | cutting off the tip keeps the whole index invariant, so no candidate is missing while a reorganisation is under way |
| `BestChain.PruneStep` | src/main.cpp:3678-3688 | pruning the candidates below the tip keeps the whole index invariant and leaves the best block seen so far |
| `BestChain.GreatestIsAhead` | src/main.cpp:3627-3639 | a greatest candidate other than the tip is never on the active chain |
| `BestChain.TipIsBest` | src/main.cpp:5746-5761 | when the greatest candidate is the tip, no block with all data and no failed flag on its path sorts above the tip |
| `BestChain.CountedNumbered` | src/main.cpp:4070-4074 | linking a block keeps the order of arrival: sequence numbers of linked blocks are distinct, below the next one, and larger than that of the parent |
| `BestChain.GreatestIsFirst` | src/main.cpp:166-185 | first seen wins: if no block sorts above the tip, every other block that could be active has less work, or as much and was linked later |
| `BestChain.CheckHolds` | src/main.cpp:5662-5844 | the index invariant with the tip as best block implies what the run-time check asserts: the root is the active genesis, no block is marked failed without a block that failed validation on its path, a candidate is exactly a block not below the tip with all data and none of these marks, counters and unlinked map are right |
| `BestChain.CheckSettles` | src/main.cpp:5746-5761 | conversely, where the check succeeds the tip is the best block of the invariant, so nothing the invariant knows is lost |
| `BestChain.CommonIs` | src/chain.cpp:53-62 | the active chain and the path to a block agree exactly up to their fork; the block is active if and only if its whole path agrees |
| `BestChain.ForkIsHighest` | src/chain.cpp:53-62 | no active ancestor of a block is higher than the fork |
| `Chainstate.Chainstate.AddToBlockIndex` | src/main.cpp:3983-4045 | a new header gets height, work and tree validity from its parent, a known one changes nothing; the index invariant is kept, and the run-time check of the block index still succeeds, or there is no active chain yet although there are several blocks |
| `Chainstate.Chainstate.ReceivedBlockTransactions` | src/main.cpp:4047-4093 | afterwards all counters, the unlinked map and the candidate set are exact again for the tree with this block received, descendants that waited for it included; blocks linked before keep their sequence numbers and those linked now get higher ones; the run-time check of the block index still succeeds |
| `Chainstate.Chainstate.LinkFirst` | src/main.cpp:4067-4085 | each round of the loop keeps the counters exact outside the queue, gives out one sequence number above all others and brings the end nearer |
| `Chainstate.Chainstate.Link` | src/main.cpp:4070-4077 | the block gets its counters and the next sequence number, and becomes a candidate unless it sorts below the tip |
| `Chainstate.Chainstate.MoveWaiting` | src/main.cpp:4078-4084 | exactly the blocks filed under a parent move from the map to the queue |
| `Chainstate.Chainstate.CheckPath` | src/main.cpp:3637-3671 | finds a failed block on the path of a candidate if and only if there is one; missing data cannot occur |
| `Chainstate.Chainstate.Discard` | src/main.cpp:3652-3667 | only candidates with a failed block on their path are dropped, and the invariant is kept |
| `Chainstate.Chainstate.FindMostWorkChain` | src/main.cpp:3623-3675 | returns a greatest candidate without a failed block on its path, or none when no candidate is left; every candidate discarded had a failed block on its path |
| `Chainstate.Chainstate.FindFork` | src/chain.cpp:53-62 | returns the highest block that is both active and an ancestor |
| `Chainstate.Chainstate.DisconnectTip` | src/main.cpp:3490-3545 | removes exactly the tip, or nothing on a system error |
| `Chainstate.Chainstate.ConnectTip` | src/main.cpp:3554-3617 | connects exactly the valid blocks; an invalid one is marked and no candidate any more, and nothing else changes |
| `Chainstate.Chainstate.PruneBlockIndexCandidates` | src/main.cpp:3678-3688 | removes exactly the candidates below the tip, and at least one is left |
| `Chainstate.Chainstate.DisconnectToFork` | src/main.cpp:3696-3705 | afterwards the active chain is the common part with the path to the target |
| `Chainstate.Chainstate.Collect` | src/main.cpp:3714-3721 | the blocks to connect are exactly the missing stretch of the path, highest first |
| `Chainstate.Chainstate.ConnectBlocks` | src/main.cpp:3724-3747 | connects the stretch lowest first; it ends on the path, with more blocks, or with one more block marked invalid |
| `Chainstate.Chainstate.ConnectTowards` | src/main.cpp:3708-3748 | the batches of at most 32 blocks bring the chain nearer to the target, or one more block is marked invalid |
| `Chainstate.Chainstate.RejectBlock` | src/main.cpp:4735-4741 | a block that failed its checks is marked without becoming part of the index; the run-time check of the block index still succeeds |
| `Chainstate.Chainstate.ActivateBestChainStep` | src/main.cpp:3693-3763 | a step that succeeds leaves the tip on the path to the target and nearer to it, or has found one more invalid block |
| `Chainstate.Chainstate.ActivateBestChain` | src/main.cpp:3792-3876 | terminates for every block tree; on a true result without shutdown every other block with all data and no failed flag on its path has less work than the tip, or as much and was linked later, and the run-time check of the block index called at the end succeeds, unless there is no active chain although there are several blocks |
| `Chainstate.RootFailed` | src/main.cpp:3792-3876 | when the root block fails, no block is left that could be activated |
| `CoinsCache.CoinsStack.FetchCoins` | src/coins.cpp:76-101 | a lookup at any level of a stack of caches agrees with one plain map per level, and changes no lookup |
| `CoinsCache.CoinsStack.HaveCoins` | src/coins.cpp:148-155 | true exactly when the plain map of the level has unspent coins for the txid |
| `CoinsCache.CoinsStack.ModifyCoins` | src/coins.cpp:103-126 | opens the entry with what the level shows, setting FRESH only when the base shows nothing |
| `CoinsCache.CoinsStack.ModifyNewCoins` | src/coins.cpp:128-137 | opens an empty entry; the usage counter stays exact if and only if the cache held no unspent coins for the txid |
| `CoinsCache.ReopenedCoinsLeak` | src/coins.cpp:128-137 | a run after which the usage counter exceeds the usage of all entries |
| `CoinsCache.CoinsStack.Assign` | src/coins.h:411-433 | a change through the open modifier touches only its own entry |
| `CoinsCache.CoinsStack.Release` | src/coins.cpp:296-308 | closing a modifier changes what the top level shows for its txid, for no other txid and at no other level, and the usage counter is exact again |
| `CoinsCache.CoinsStack.Uncache` | src/coins.cpp:224-231 | dropping an unmodified entry is seen by no lookup |
| `CoinsCache.CoinsStack.Flush` | src/coins.cpp:217-222 | the base then shows what the child showed, every other level what it showed before; FRESH and DIRTY stay truthful towards the level below |
| `CoinsCache.CoinsStack.Stack` | src/coins.cpp:65-65 | a new cache on top shows what the level below shows |
| `CoinsCache.BatchWrite` | src/coins.cpp:172-215 | draining the child in any order merges every entry exactly once, with the usage counter exact |
| `CoinsCache.WriteEntry` | src/coins.cpp:174-212 | one entry is merged and no other changes |
| `CoinsCache.MergeIsRight` | src/coins.cpp:172-215 | a merged entry makes the base show what the child showed, and its flags are true towards the level below |
| `CoinsCache.WriteDatabase` | src/txdb.cpp:52-75 | the database shows dirty unspent entries of the child and drops dirty spent ones; everything else stays |
| `CoinsCache.FreshIsExact` | src/coins.h:480-489 | a new entry marked FRESH is looked up correctly after its release if and only if it is still unspent or the base has no unspent coins for it |
| `Utxo.CleanupKeepsOutputs` | src/coins.h:129-134 | trimming null outputs changes neither which outputs are available nor whether an entry is pruned |
| `BlockUndo.PointInverts` | src/main.cpp:2632-2656 | undoing one input restores the view, except for the coinstake flag of an entry that the input had spent completely |
| `BlockUndo.TxInverts` | src/main.cpp:2678-2713 | undoing a transaction restores the view it was applied to up to such flags, and says exactly when its own outputs were found unchanged |
| `BlockUndo.BlockInverts` | src/main.cpp:2678-2713 | undoing the transactions of a block in reverse inverts applying them, up to flags, for any block and any flags lost before |
| `BlockUndo.RoundTrip` | src/main.cpp:2632-2713 | connecting and disconnecting a block is the identity if and only if the inputs of the block do not name all unspent outputs of a coinstake entry of the view, and it is reported clean if and only if they do not for a coinstake of the block itself |
| `BlockUndo.LostIsGone` | src/main.cpp:2284-2300 | an entry loses its flag exactly when it is gone after the block |
| `BlockUndo.GoneIsSpent` | src/main.cpp:2277-2304 | an entry of the view is gone after the block if and only if the inputs of the block name all its unspent outputs |
| `BlockUndo.OwnGoneIsSpent` | src/main.cpp:2277-2304 | the same for a transaction of the block and the inputs behind it |
| `BlockUndo.FlagIsLost` | src/main.cpp:2632-2656 | a coinstake with one output and a block that spends it: disconnecting the block does not give the view back |
| `BlockUndo.UpdateCoins` | src/main.cpp:2277-2304 | through the cache: spends all inputs, adds the outputs, and the undo data holds exactly what was spent |
| `BlockUndo.ConnectTransactions` | src/main.cpp:3082-3197 | through the cache: the transactions are applied in order and undo data is kept for all but the first |
| `BlockUndo.ApplyTxInUndo` | src/main.cpp:2632-2656 | through the cache: restores one spent output, and reports whether it was found as expected |
| `BlockUndo.DisconnectTransaction` | src/main.cpp:2678-2713 | through the cache: takes the outputs out and restores the inputs, last one first |
| `BlockUndo.DisconnectBlock` | src/main.cpp:2658-2722 | fails exactly on undo data that does not fit the block; otherwise the clean flag is that of the reference definition, and so is the view if all inputs find their entries as the undo data expects |
| `BlockUndo.UndoRestores` | src/main.cpp:2632-2713 | all inputs of a block that has just been connected do, whatever coinstake flags are lost |
| `BlockUndo.ConnectThenDisconnect` | src/main.cpp:2277-2722 | the two operations one after the other, over any stack of caches: clean exactly under the condition on the inputs of the block, and clean or not, the top view returns to what it was up to coinstake flags of entries whose unspent outputs the block names |
| `Conservation.SpendAllTotal` | src/coins.cpp:244-254 | spending inputs takes exactly their value out of the total |
| `Conservation.TxTotal` | src/main.cpp:2277-2304 | a transaction changes the total by outputs minus inputs minus what can never be spent |
| `Conservation.BlockTotal` | src/main.cpp:3082-3197 | the total after a block, to the last unit: plus coinbase and stake gains, minus fees and unspendable outputs |
| `Conservation.CheckValues` | src/main.cpp:1178-1192 | accepts exactly the transactions whose output values and running sums are all in range |
| `Conservation.CheckTxInputs` | src/main.cpp:2330-2379 | accepts exactly when every input is there and mature, and every input value, their sum and the fee are in range |
| `Conservation.ConnectAmounts` | src/main.cpp:3082-3232 | accepts exactly the blocks whose inputs, amounts and reward are right; the total of all unspent outputs then grows by at most the reward whenever coinstakes are in their place, and otherwise if and only if coinbase and coinstakes together take no more than fees, burned amounts and reward |
| `Conservation.MisplacedStakeMints` | src/main.cpp:4351-4363 | a proof-of-work block that passes all checks modelled although a coinstake in third position makes the total grow by more than the reward |
| `CoinHistory.EntryOfTx` | src/coins.h:97-106 | after a transaction the view holds exactly those of its outputs that can ever be spent, with the height of the block, the version, and the flags of a coinbase or coinstake |
| `CoinHistory.NewCoinsWait` | src/main.cpp:2343-2354 | over every run of blocks, an accepted block that spends an output of a coinbase or coinstake is at least 25 blocks above the one that holds it |
| `CoinHistory.NotInTheSameBlock` | src/main.cpp:2343-2354 | nor does an accepted block spend coins that it creates itself |
| `CoinHistory.OthersOnlySpend` | src/main.cpp:2362-2375 | in an accepted block a transaction that is neither coinbase nor coinstake never makes the total grow |
| `CoinHistory.SpentIsMoney` | src/main.cpp:2356-2359 | every output spent by a transaction that is let through exists and holds an amount of 63 bits, and so does their sum |
| `CoinHistory.BlockSupply` | src/main.cpp:3082-3232 | an accepted block with its coinstake in place adds at most 10000 coins to the total, and at most 5 when its second transaction is a coinstake |
| `CoinHistory.SupplyIsBounded` | src/main.cpp:3082-3232 | over every run of such blocks the total grows by no more than what the blocks may add together |
| `AddrMan.Manager.constructor` | src/addrman.h:453-478 | a new manager is empty and consistent |
| `AddrMan.Manager.Create` | src/addrman.cpp:88-98 | the new entry is known under a new id, by its address and at the end of vRandom |
| `AddrMan.Manager.SwapRandom` | src/addrman.cpp:100-118 | exchanges two entries of vRandom and their back pointers |
| `AddrMan.Manager.Delete` | src/addrman.cpp:120-132 | the entry leaves all indexes and no assertion fails |
| `AddrMan.Manager.ClearNew` | src/addrman.cpp:134-147 | the slot is free and its owner has one reference less, and is gone if that was its last |
| `AddrMan.Manager.LeaveNew` | src/addrman.cpp:151-161 | the entry leaves every slot of the new table and its count reaches zero |
| `AddrMan.Manager.Evict` | src/addrman.cpp:169-187 | the entry in a tried slot goes back to the new table, displacing at most one other |
| `AddrMan.Manager.MakeTried` | src/addrman.cpp:149-195 | the entry is in the tried slot its address demands; nothing but it, the evicted and the displaced entry changes, and all indexes stay consistent |
| `AddrMan.Manager.Good` | src/addrman.cpp:197-247 | for positive times the full invariant is kept, and the bail-out for an entry without a bucket is never reached |
| `AddrMan.Manager.Place` | src/addrman.cpp:293-312 | the entry gets the slot if it is free or its owner may be displaced; an entry that ends up without any slot is deleted |
| `AddrMan.Manager.Add` | src/addrman.cpp:249-315 | true exactly for routable unknown addresses; the full invariant is kept and every index is as described |
| `AddrMan.Manager.Attempt` | src/addrman.cpp:317-337 | changes only the record of the exact service, counting a failure once per success, and keeps the full invariant |
| `AddrMan.Manager.Connected` | src/addrman.cpp:485-503 | updates only the time of the exact service, at most every twenty minutes |
| `AddrMan.Manager.SetServices` | src/addrman.cpp:505-521 | updates only the services of the exact service |
| `AddrMan.Manager.GetAddr` | src/addrman.cpp:464-483 | returns distinct known addresses that are not terrible, at most 2500 and at most 23 percent of all, and all of them when that is not reached |
| `AddrBook.DeleteInvertsAdded` | src/addrman.cpp:88-132 | creating an entry and deleting it at once changes nothing but the next id |
| `AddrBook.NewHasSlot` | src/addrman.cpp:216-236 | every entry that is not tried occurs in some bucket |
| `AddrBook.CountedTablesAreOccupied` | src/addrman.cpp:339-384 | a table counted as non-empty has an occupied slot to select from |
| `AddrBook.SlotsAreHashed` | src/addrman.cpp:12-31 | entries sit where the keyed hashes say: in one of 256 tried or 1024 new buckets of 64 slots |
| `AddrMan.FirstSeenIs` | src/addrman.cpp:287-290 | a new entry has the time announced less the penalty, but never a negative one, and an empty record |
| `AddrMan.RecordFollows` | src/addrman.cpp:259-267 | the time on record never goes back, and lags behind the times announced by no more than an hour for an address that is online, and a day for others |
| `AddrMan.ForgetsOnlyWorthless` | src/addrman.cpp:293-312 | making room for an address never forgets another one that is worth keeping |
| `AddrHistory.Replay` | src/addrman.cpp:197-337 | over every run of attempts and successes, however entries are moved and evicted, the record of an entry still there is what the history of its exact service says: the last try, the last success, and the failures counted since |
| `AddrHistory.Worthless` | src/addrman.cpp:33-51 | an address is terrible exactly when it was not tried in the last minute and is out of date, or failed three times without ever a success, or failed ten times since its last success more than a week ago |
| `AddrHistory.ReachedLasts` | src/addrman.cpp:33-51 | an address that was reached stays worth keeping while it is current, unless ten tries have failed since |
| `AddrHistory.OutageIsHarmless` | src/addrman.cpp:332-336 | failures are counted at most once for every success elsewhere, so an address loses at most one point while nothing can be reached |
| `AddrCheck.CheckInfo` | src/addrman.cpp:395-419 | passes exactly the entries whose record, address and back pointer are right |
| `AddrCheck.CheckInfos` | src/addrman.cpp:395-419 | passes exactly when all entries do, and then has collected the tried ids and the reference counts of the others |
| `AddrCheck.CheckTried` | src/addrman.cpp:426-438 | nothing fails and nothing is left over exactly when the tried table holds the tried entries, each in its own slot and no other |
| `AddrCheck.CheckNew` | src/addrman.cpp:440-451 | nothing fails and nothing is left over exactly when every slot of the new table has a rightful owner and all reference counts are exact |
| `AddrCheck.ChecksAreEnough` | src/addrman.cpp:387-461 | what the check looks at is equivalent to the invariant used throughout, ids in order and addresses on file being known |
| `AddrCheck.Check` | src/addrman.cpp:387-461 | returns 0 if and only if all five indexes agree and the key is not null |
| `AddrCheck.Clear` | src/addrman.h:453-472 | entries and addresses are kept, so the result is consistent if and only if there were none |
| `AddrCheck.ClearAfterAdd` | src/addrman.h:453-472 | a manager that has heard of one address is not consistent after Clear |
| `AddrFile.Serialize` | src/addrman.h:292-340 | the counters announce as many records as are written, so no assertion fails |
| `AddrFile.NewFew` | src/addrman.h:363-365 | nNew never exceeds the size of the new table, so the limit of the reader admits every written file |
| `AddrFile.TriedFew` | src/addrman.h:367-369 | the same for nTried and the tried table |
| `AddrFile.FlipIs` | src/addrman.h:359-361 | exactly bit 30 of the bucket count is inverted, for negative numbers too |
| `AddrLoad.ReadIsConsistent` | src/addrman.h:342-446 | an accepted file is read into a consistent manager if and only if it announces no negative count, no record that gets a slot shares its address with another that becomes an entry, and the time of success of such a record is as it should be, whatever version, buckets and indexes are |
| `AddrLoad.NegativeIsAccepted` | src/addrman.h:363-372 | a file that announces -1 new entries is accepted, and the counter stays at -1 |
| `AddrLoad.CleanIsCoherent` | src/addrman.h:342-446 | files in which no address occurs twice and tried records have a time of success meet the condition on records |
| `AddrLoad.RepeatedIsCoherent` | src/addrman.h:394-409 | so does a file that repeats a tried record, which is then dropped |
| `AddrLoad.SharedIsIncoherent` | src/addrman.h:371-409 | a file with the same record among the new and the tried ones is accepted but does not meet it |
| `AddrFile.CleanIsConsistent` | src/addrman.h:342-446 | a file with no negative count in which no address occurs twice is read into a consistent manager, by following the reader step by step |
| `AddrFile.Unserialize` | src/addrman.h:342-446 | refuses exactly the files with counts that are too large and those that end early, and builds the manager of the reference definition, which is consistent for clean files |
| `AddrFile.RoundTrip` | src/addrman.h:292-446 | reading what was written loses no entry: entries correspond one to one with equal records and reference counts, and both tables, the addresses and the counters are the same up to that renumbering |
| `AddrFile.SaveAndLoad` | src/addrman.h:292-446 | the same for the code, from any consistent manager |
| `CheckQueue.StepKeepsInv` | src/checkqueue.h:69-158 | each critical section of each thread keeps nTodo equal to queued plus held checks, nIdle and nTotal exact, and the result true exactly to the checks consumed |
| `CheckQueue.RunKeepsInv` | src/checkqueue.h:69-158 | the same in every state of every run of one master and any number of workers |
| `CheckQueue.WaitIsExact` | src/checkqueue.h:91-127 | every Wait, also one that returns in its first critical section, returns only when all added checks are consumed, and true exactly when every check added since the last Wait holds; the flag for the next round is reset |
| `CheckQueue.OnlyMasterReturns` | src/checkqueue.h:91-127 | no other step ends a Wait or changes the reported result |
| `CheckQueue.ReturnsAtOnce` | src/checkqueue.h:91-127 | Wait returns in its first critical section if and only if all checks have been consumed by then |
| `CheckQueue.SleepingMasterIsAwaited` | src/checkqueue.h:80-105 | a sleeping master is always awaited by a worker that still holds checks, so no wake-up is lost |
| `CheckQueue.UnusedQueueIsIdle` | src/checkqueue.h:164-191 | a queue to which nothing was added since the last Wait passes the assertion of CCheckQueueControl |
| `CheckQueue.IdleIs` | src/checkqueue.h:164-168 | in every state of every run, IsIdle holds exactly when no check is queued or held by a thread and every check consumed since the last Wait holds |
| `CheckQueue.BatchIsFair` | src/checkqueue.h:106-111 | a batch is the largest number of checks within the batch size and the share of the queue, and at least one |
| `CheckQueue.NeverStuck` | src/checkqueue.h:69-127 | while the master waits, some thread can always make progress |
| `CheckQueue.ProductiveStepsShrink` | src/checkqueue.h:69-127 | every such step brings the end of Wait nearer |
| `CheckQueue.WaitIsBounded` | src/checkqueue.h:69-127 | over every run, the steps a Wait can take are bounded by the work at hand plus the threads created or woken meanwhile |
| `MerkleBlock.ExtractIsSound` | src/merkleblock.cpp:98-134 | for any bits and hashes, a traversal that arrives at the true hash of a node has found only real leaves of it |
| `MerkleBlock.MatchesAreAuthentic` | src/merkleblock.cpp:152-183 | for any message, if the true root comes out then every reported pair is a real transaction at its position, in order and without repetition |
| `MerkleBlock.ExtractInvertsBuild` | src/merkleblock.cpp:80-134 | what TraverseAndBuild stores is read back exactly, wherever it stands in the vectors |
| `MerkleBlock.StoredPerLeaf` | src/merkleblock.cpp:80-96 | never more hashes than leaves nor than bits, so honest trees pass the size checks |
| `MerkleBlock.StoredPerMatch` | src/merkleblock.cpp:80-96 | never more hashes than one plus the matches times the height |
| `MerkleBlock.HonestRoundTrip` | src/merkleblock.cpp:136-183 | for distinct txids, an honest tree yields the root, exactly the selected positions and their txids, also with padding bits |
| `MerkleBlock.Pack` | src/merkleblock.h:99-104 | flag bits are packed eight to a byte and read back with only false ones behind |
| `MerkleBlock.PartialMerkleTree.TraverseAndBuild` | src/merkleblock.cpp:80-96 | appends the bits and hashes of the reference definition |
| `MerkleBlock.PartialMerkleTree.constructor` | src/merkleblock.cpp:136-148 | holds the bits and hashes of the whole tree |
| `MerkleBlock.PartialMerkleTree.TraverseAndExtract` | src/merkleblock.cpp:98-134 | consumes and appends exactly what the reference definition says, failing exactly when it does |
| `MerkleBlock.PartialMerkleTree.ExtractMatches` | src/merkleblock.cpp:152-183 | returns the root, txids and positions of the reference definition, the null hash on any failed check |
| `MerkleBlock.SendAndRead` | src/merkleblock.h:85-105 | building, packing, unpacking and reading a tree end to end returns the root and exactly the selected leaves |
| `MerkleRoot.RootIsPairing` | src/merkleblock.cpp:66-78 | the root by height and position is that of the list: pair neighbours, repeating the last one of an odd list, until one hash is left |
| `MerkleParts.CarriedIsRead` | src/merkleblock.cpp:98-183 | a message whose bits and hashes spell out a partial tree of the right shape without equal children, with nothing left over but padding within a byte, is accepted, and top hash, matched leaves and their positions are reported; the tests on the numbers of bits and hashes reject none of them |
| `MerkleParts.ReadIsCarried` | src/merkleblock.cpp:98-183 | conversely, every message from which a root comes out spells out such a tree |
| `ByteBits.BitOfIs` | src/merkleblock.h:95-97 | bit p of a byte is the coefficient of 2^p |
| `Arith256.BaseUint.AddAssign` | src/arith_uint256.h:135-145 | addition modulo 2^256, also of a number to itself |
| `Arith256.BaseUint.SubAssign` | src/arith_uint256.h:147-151 | subtraction modulo 2^256 |
| `Arith256.BaseUint.Negate` | src/arith_uint256.h:77-84 | negation modulo 2^256 |
| `Arith256.BaseUint.Complement` | src/arith_uint256.h:69-75 | 2^256 - 1 - x |
| `Arith256.BaseUint.Increment` | src/arith_uint256.h:173-180 | adds one modulo 2^256 |
| `Arith256.BaseUint.Decrement` | src/arith_uint256.h:190-197 | subtracts one modulo 2^256 |
| `Arith256.BaseUint.MulAssign32` | src/arith_uint256.cpp:55-65 | multiplication by a limb modulo 2^256 |
| `Arith256.BaseUint.MulAssign` | src/arith_uint256.cpp:67-81 | multiplication modulo 2^256, except that x *= x in place gives zero |
| `Arith256.SquareInPlace` | src/arith_uint256.cpp:67-81 | three multiplied by itself in place is zero |
| `Arith256.ModulusIs` | src/arith_uint256.h:24-28 | the modulus of all these operations is 2^256 |
| `Arith256.BaseUint.DivAssign` | src/arith_uint256.cpp:83-107 | floor division; the exception is raised exactly for a zero divisor |
| `Arith256.BaseUint.DivideBits` | src/arith_uint256.cpp:97-105 | the bits settled so far and the remainder always make up the number divided |
| `Arith256.BaseUint.CompareTo` | src/arith_uint256.cpp:109-119 | the sign of the difference |
| `Arith256.BaseUint.Bits` | src/arith_uint256.cpp:171-184 | the position of the highest one bit plus one |
| `Arith256.BaseUint.ShiftLeft` | src/arith_uint256.cpp:21-36 | multiplication by a power of two modulo 2^256, for every shift |
| `Arith256.BaseUint.ShiftRight` | src/arith_uint256.cpp:38-53 | floor division by a power of two, for every shift |
| `CompactTarget.SetCompact` | src/arith_uint256.cpp:204-222 | the number modulo 2^256, the sign flag, and the overflow flag exactly when it does not fit |
| `CompactTarget.OverflowIsExact` | src/arith_uint256.cpp:218-220 | the test on mantissa and exponent is equivalent to the number not fitting in 256 bits |
| `CompactTarget.GetCompact` | src/arith_uint256.cpp:224-247 | the compact word of the number with its sign |
| `CompactTarget.ExpandInvertsCompact` | src/arith_uint256.cpp:204-247 | reading a written word gives the number without the bytes below its mantissa |
| `CompactTarget.CompactIsIdempotent` | src/arith_uint256.cpp:204-247 | writing what was read gives the same word again |
| `CompactTarget.TargetPlusOneFits` | src/chain.cpp:115-128 | target + 1 never wraps, so the division never fails |
| `CompactTarget.ProofFormula` | src/chain.cpp:124-127 | ~t / (t + 1) + 1 is floor(2^256 / (t + 1)) |
| `CompactTarget.GetBlockProof` | src/chain.cpp:115-128 | floor(2^256 / (target + 1)) for every word giving a positive target that fits, zero for every other |
| `ActiveChain.InvertOnWords` | src/chain.cpp:65-65 | on machine words, n & (n - 1) is the model's function, for every n |
| `ActiveChain.GetSkipHeight` | src/chain.cpp:68-76 | a skip always goes down |
| `ActiveChain.SkipOnWords` | src/chain.cpp:68-76 | on machine words, an even height loses its lowest one bit, an odd one its second and third |
| `ActiveChain.SkipIndex.GetAncestor` | src/chain.cpp:78-102 | equals walking back one parent at a time, for every height asked for |
| `ActiveChain.SkipIndex.BuildSkip` | src/chain.cpp:109-113 | the skip pointer is the ancestor at the skip height |
| `ActiveChain.SkipIndex.AddBlock` | src/chain.cpp:109-113 | adding a block keeps all skip pointers right |
| `ActiveChain.Chain.SetTip` | src/chain.cpp:13-23 | despite stopping early, the vector is the whole path to the new tip |
| `ActiveChain.AgreesBelow` | src/chain.cpp:13-23 | a vector that agrees with a path at one height agrees at all heights below |
| `ActiveChain.Chain.GetLocator` | src/chain.cpp:25-51 | starts at the block given or at the tip and ends at the root; entry i is the ancestor i blocks back up to the tenth, and then the distance doubles each time; looking blocks up in the chain gives the same as walking back |
| `RollingBloom.Filter.constructor` | src/bloom.cpp:219-245 | two generations hold nElements entries, and at most one more |
| `RollingBloom.Filter.Insert` | src/bloom.cpp:251-279 | the key is recorded, and the tags of every place are those of its last generation if that is one of the last three |
| `RollingBloom.Filter.NextGeneration` | src/bloom.cpp:253-268 | starting a generation clears exactly the tags of the generation that is reused |
| `RollingBloom.Filter.Wipe` | src/bloom.cpp:259-267 | the word-parallel loop clears exactly the places tagged with the reused generation, in all words |
| `RollingBloom.WipedTags` | src/bloom.cpp:259-267 | clearing those places leaves exactly the tags of the last two generations |
| `RollingBloom.Filter.Mark` | src/bloom.cpp:271-278 | all places of the key carry the current generation afterwards, no other tag changes its meaning |
| `RollingBloom.Filter.Contains` | src/bloom.cpp:287-299 | true exactly when all places of the key carry a tag |
| `RollingBloom.Filter.TaggedIsRecent` | src/bloom.cpp:287-299 | a place carries a tag exactly when one of the insertions of the last three generations has that place |
| `RollingBloom.Filter.RecentIsContained` | src/bloom.h:113-114 | after any insertions, each of the last 2 * nEntriesPerGeneration + nEntriesThisGeneration is contained |
| `RollingBloom.Filter.Query` | src/bloom.h:105-118 | the last nElements insertions are never missed, and the answer is yes exactly when each place of the key is that of some insertion of the last three generations |
| `RollingBloom.Filter.Reset` | src/bloom.cpp:307-315 | afterwards nothing is recorded and nothing is tagged |
| `Base58.EncodeFits` | src/base58.cpp:77-78 | 138/100 digits per byte always suffice |
| `Base58.DecodeFits` | src/base58.cpp:32-33 | 733/1000 bytes per digit always suffice |
| `Base58.AlphabetIs` | src/base58.cpp:18-19 | the 58 letters and digits in ascending order, without 0, O, I and l |
| `Base58.SpacesAre` | src/base58.cpp:24-25 | white space is what isspace takes for it |
| `Base58.EncodeBase58` | src/base58.cpp:67-105 | computes the reference encoding of every byte string without the carry assertion failing |
| `Base58.DecodeBase58` | src/base58.cpp:21-65 | accepts exactly what the reference decoding accepts, white space around included, and computes the same bytes |
| `Base58.DecodeInvertsEncode` | src/base58.cpp:21-105 | decoding inverts encoding on all byte strings |
| `Base58.EncodeInvertsDecode` | src/base58.cpp:21-105 | encoding inverts decoding on all texts over the alphabet |
| `Digits.MultiplyAdd` | src/base58.cpp:79-93 | the carry loop over the digits in use is a * m + c on the whole number |
| `Digits.ValueOfDigits` | src/base58.cpp:67-105 | digits of a number have that number as value |
| `Digits.DigitsOfValue` | src/base58.cpp:21-65 | digits without leading zero are determined by their value |
| `MedianTime.GetMedianTimePast` | src/chain.h:356-370 | the middle of the last eleven times, fewer near the root |
| `MedianTime.MiddleOfEleven` | src/chain.h:354-370 | at most five of the last eleven times are before the median time past, and at most five behind it |
| `MedianTime.MedianSlides` | src/chain.h:356-370 | letting in a time above the median, and out the oldest one of a full window, never lowers the median |
| `MedianTime.MedianIsMonotone` | src/main.cpp:4484-4485 | along every chain whose blocks pass the timestamp check the median time past never decreases |
| `MedianTime.CalculateSequenceLocks` | src/main.cpp:877-937 | for this and for every later block, the computed height and time are both in the past exactly when every relative lock of BIP 68 holds |
| `MedianTime.SequenceLocks` | src/main.cpp:939-952 | true exactly when relative locks are not enforced or all hold |
| `MedianTime.LocksPersist` | src/main.cpp:877-952 | locks that hold in one block hold in every block that may follow on the same chain |
| `CoinsCodec.DecompressInverts` | src/compressor.cpp:133-186 | every amount is read back from its code |
| `CoinsCodec.CompressInverts` | src/compressor.cpp:133-186 | every number is the code of an amount |
| `CoinsCodec.CompressedBound` | src/compressor.cpp:133-159 | a code is at most nine times the amount |
| `CoinsCodec.CompressedIs` | src/compressor.cpp:133-140 | the format of the code: exponent of ten up to nine, last digit, and the rest, as in the comment above the function |
| `CoinsCodec.CompressAmount` | src/compressor.cpp:142-159 | computes the code modulo 2^64 |
| `CoinsCodec.DecompressAmount` | src/compressor.cpp:161-186 | computes the amount modulo 2^64 |
| `CoinsCodec.AmountRoundTrip` | src/compressor.cpp:142-186 | the 64-bit round trip is the identity if and only if the code fits into 64 bits, as it does when nine times the amount fits |
| `CoinsCodec.WrappedIsAnother` | src/compressor.cpp:142-186 | no amount whose code wraps is read back, whichever way the code wraps |
| `CoinsCodec.AmountIsLost` | src/compressor.cpp:142-159 | an amount that a transaction may have and that is read back as 10000 |
| `CoinsCodec.CalcMaskSize` | src/coins.cpp:17-37 | the number of mask bytes up to the last non-zero one, and how many are not zero |
| `CoinsCodec.CodeIsNat` | src/coins.h:212-219 | an unpruned entry has a flag or a non-zero mask byte, so its header code does not underflow |
| `CoinsCodec.CodeSplit` | src/coins.h:212-219 | the flags for coinbase, the first three outputs and coinstake are bits 0 to 4 of the header code, and the number of mask bytes that are not zero can be read from the rest |
| `CoinsCodec.MaskReaches` | src/coins.cpp:17-37 | the mask of a trimmed entry reaches its last output |
| `CoinsCodec.ReadMaskInverts` | src/coins.h:262-271 | the reader consumes exactly the mask bytes written, whatever follows, because the last one is not zero |
| `CoinsCodec.WiredIs` | src/serialize.h:343-358 | what is written of a negative number is congruent to it modulo 128, and of any other is the number itself |
| `CoinsCodec.SignedIs` | src/serialize.h:360-372 | reading into a signed field gives the number within its range that is congruent to the one written |
| `CoinsCodec.ReadInvertsWritten` | src/coins.h:210-282 | reading what was written stops right behind it, and gives the entry back if and only if its version is not negative and the code of every amount fits into 64 bits |
| `CoinsCodec.Serialize` | src/coins.h:210-242 | writes the tokens of the reference definition, amounts whose code wraps included |
| `CoinsCodec.Unserialize` | src/coins.h:244-282 | reads any token stream as the reference definition does, failures and the truncation of numbers included |
| `CompactBlock.MakeMessage` | src/blockencodings.cpp:20-30 | the first transaction is prefilled and every other one has its short id, in order |
| `CompactBlock.PartialBlock.Prefill` | src/blockencodings.cpp:58-76 | accepts exactly the well-formed messages, no index leaves the vector, and every prefilled transaction is at its position |
| `CompactBlock.PartialBlock.MapShortIds` | src/blockencodings.cpp:82-104 | the i-th short id belongs to the i-th position not prefilled, of which 16 bits are kept; ends if and only if there is no short id or at most 65535 positions are prefilled, and then fails exactly on equal short ids or a crowded bucket |
| `CompactBlock.SearchEnds` | src/blockencodings.cpp:82-86 | the search for the first free position finds an occupied one in every round of its 16-bit offset if and only if more than 65535 transactions are prefilled |
| `CompactBlock.EndlessMessage` | src/blockencodings.cpp:82-86 | a well-formed message with one short id and 65536 prefilled transactions, for which it does |
| `CompactBlock.PositionsFit` | src/blockencodings.cpp:82-86 | 16 bits hold all these positions if and only if there are at most 65536 transactions |
| `CompactBlock.PartialBlock.Scan` | src/blockencodings.cpp:106-132 | for any size, the slot at a position holds the one mempool entry whose 16-bit position it is, nothing when several have it, and what was there before when none has; with at most 65536 transactions these are the right positions, and the early exit happens only when no slot is empty |
| `CompactBlock.FirstIsReplaced` | src/blockencodings.cpp:106-132 | with more than 65536 transactions, a mempool entry for the one at 65536 takes the place of the first |
| `CompactBlock.PartialBlock.InitData` | src/blockencodings.cpp:50-137 | invalid, failed, endless or accepted exactly as the message, its short ids and the buckets say; mempool entries are then where the 16 bits of their positions say, and with at most 65536 transactions everything is where it belongs |
| `CompactBlock.PartialBlock.Request` | src/main.cpp:6873-6877 | asks for exactly the positions that are empty, in order |
| `CompactBlock.PartialBlock.FillBlock` | src/blockencodings.cpp:145-174 | the transactions given fill the empty slots in order and the block is judged by its checks; invalid whenever there are too many or too few |
| `CompactBlock.AvailableIsRight` | src/blockencodings.cpp:106-132 | absent short-id collisions with foreign mempool entries, whatever is available is the right transaction |
| `CompactBlock.Reconstructs` | src/blockencodings.cpp:50-160 | for any accepted message that describes a block, filling in the missing transactions gives the original list |
| `CompactBlock.WriteIndexes` | src/blockencodings.h:62-67 | ascending 16-bit indexes are written so that they are read back unchanged |
| `CompactBlock.ReadIndexes` | src/blockencodings.h:39-61 | reads what the differences mean and refuses exactly those that mean nothing in 16 bits |
| `CompactBlock.ReadAscends` | src/blockencodings.h:55-61 | what is read ascends if and only if no element before the last brings the running index to 65535 |
| `CompactBlock.ReadDescending` | src/blockencodings.h:55-61 | a request that is read as 65535 followed by 0: the running offset wraps |
| `CompactBlock.Answer` | src/main.cpp:6561-6569 | answers exactly the requests within the block, with the transactions asked for |
| `CompactBlock.SendAndReceive` | src/blockencodings.cpp:20-174 | the whole exchange: a block sent as compact block, with the missing transactions requested and answered, arrives unchanged whenever its short ids differ and spread evenly, and is judged by its checks |

## Left out

- CoinsCache.CoinsStack.Flush: the hash of the best block that travels with a flush is not modelled.
- CoinsCache.CoinsStack.ModifyNewCoins: for transactions other than a coinbase the base must have no unspent coins of the txid, as the comment above its declaration demands.
- BlockUndo.DisconnectBlock: the hash of the previous block, reading undo data from disk and contract state are not modelled.
- BlockUndo.RoundTrip: for blocks with new, distinct txids over a view whose entries have a height other than zero and no trailing null outputs.
- Conservation.CheckValues: only the checks on amounts; size limits, empty outputs, repeated inputs and contract opcodes are not modelled.
- Conservation.ConnectAmounts: works on a plain map instead of the cache, whose equivalence is the subject of `CoinsCache`; scripts, lock times, refunds and contract execution are not modelled.
- Chainstate.Chainstate.ActivateBestChain: runs as one sequence of steps; other threads changing the index between two steps, invalidity that may be due to corrupted data, `pindexBestInvalid` and pruning of block files are not modelled. System errors and shutdown may occur at any time.
- BestChain.CheckBlockIndex: validity levels, undo data, skip pointers, files and the counts kept for pruned blocks are not part of the predicate; without an active chain it asks for no more than one block, as the source does, and then returns.
- Chainstate.Chainstate.ConnectTip: an invalid block is marked even when there is no active chain; the source asserts that there is a tip (src/main.cpp:2249-2250), so it stops when the root block itself is invalid.
- Chainstate.RootFailed: says what would hold after the root block was marked, where the source stops.
- Chainstate.Chainstate.CheckPath: the branch for missing data is shown not to be reached, since files are not pruned.
- AddrMan.Manager.Good: the tables are maps from slots in which absence stands for -1; random choices and the current time are parameters.
- AddrMan.Manager.Attempt: times are unbounded numbers; their truncation to the width of a field is not modelled.
- AddrMan.Manager.Connected: the same.
- AddrHistory.Replay: runs of Good and Attempt with positive times. Add, Connected and SetServices change times and services and may forget entries, which `AddrMan.RecordFollows` and `AddrMan.ForgetsOnlyWorthless` are about.
- CoinHistory.NewCoinsWait: for runs in which no other transaction has the txid of the one that created the coins.
- CoinHistory.SupplyIsBounded: for blocks whose coinstake is in its place; without that the bound is false, as `Conservation.MisplacedStakeMints` shows.
- AddrMan.Manager.GetAddr: random choices are parameters, one for each position.
- AddrCheck.Check: whether the key is null is a parameter, the keyed hashes being any functions.
- AddrCheck.Clear: the new random key is not modelled.
- AddrFile.Unserialize: the stream is a record of fields; the size of the key is taken as 32, and a stream that ends early is one whose lists are shorter than announced. It reads into a fresh manager. The fields of an address are taken as written.
- MerkleBlock.HonestRoundTrip: for an injective hash of pairs, distinct txids and as many transactions as the reader accepts.
- MerkleBlock.PartialMerkleTree.TraverseAndExtract: widths are unbounded numbers, so the wrap-around of the width for absurd transaction counts is not modelled; nor is the remark that 2*N-1 bits suffice, which trees of odd width exceed.
- CheckQueue.RunKeepsInv: a critical section is one atomic step, and evaluating a batch of checks is another.
- RollingBloom.Filter.constructor: the number of words and hash functions is a parameter instead of being computed with logarithms; it is zero exactly for nElements of zero, and such a filter must not be used.
- CompactTarget.SetCompact: hexadecimal input and output and GetBlockProofEquivalentTime are not modelled.
- Base58.DecodeBase58: on strings of characters; the checksum layer above it is not modelled.
- MedianTime.GetMedianTimePast: block times are the list of times along one chain.
- CoinsCodec.Serialize: numbers of variable length and compressed scripts are single tokens; for entries with no more outputs than a block has bytes and no negative amounts.
- CompactBlock.PartialBlock.InitData: a call that does not return is a status of its own. The null check of the header is not modelled, and how full a bucket of the hash table gets is a parameter.
- CompactBlock.PartialBlock.FillBlock: what the checks of the completed block say is a parameter.
- CompactBlock.WriteIndexes: for ascending indexes, which is what is ever requested.
- Selecting an address at random (`Select_`, `GetChance`): floating-point chances and loops that end with probability one.
- Block download bookkeeping, message handling, RPC, wallet, keys, disk files and databases, script and contract execution, mempool acceptance and replacement.
- InvalidateBlock, ResetBlockFailureFlags and RewindBlockIndex.
