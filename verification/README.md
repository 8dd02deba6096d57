# Ravencoin node: verified models of its core data structures

This project models the stateful and arithmetic core of the Ravencoin node, a descendant of Bitcoin Core, and
proves what that code is relied on for. Code that changes things in place is modelled by classes and methods with
loops. Each such method is proved against a function on values, and the properties are proved about those
functions, for all inputs, all runs or all reachable states.

| part | files |
|---|---|
| address manager | `AddrBook`, `AddrOps`, `AddrEffects`, `AddrMan`, `AddrCheck`, `AddrRunCheck`, `AddrSerial`, `AddrRoundTrip`, `AddrReload`, `AddrAnyStream`, `AddrFallback` |
| block assembler | `TxPool`, `BlockAssembly`, `BlockRanking`, `BlockAccount`, `BlockSteps`, `BlockAssembler`, `BlockSurplus` |
| stack of coin caches | `Coins`, `CoinsEffects`, `CoinsViewCache` |
| cuckoo cache | `CuckooStore`, `CuckooEffects`, `CuckooCache`, `ByteBits` |
| rolling Bloom filter | `RollingBloom`, `RollingBloomFilter` |
| Merkle roots, partial Merkle trees (BIP 37) | `MerkleProof`, `MerkleEffects`, `MerkleStream`, `MerkleMutation`, `PartialMerkleTree` |
| script check queue | `CheckQueue` |
| 256-bit arithmetic, compact targets, retargeting | `Powers`, `Limbs`, `LimbShifts`, `ArithUint256`, `Compact`, `CompactArith`, `Retarget`, `RetargetEffects`, `PowArith` |
| block index and active chain | `BlockIndex`, `BlockIndexEffects` |
| Base58 | `Positional`, `Base58`, `Base58Coding` |
| compact blocks (BIP 152) | `CompactBlocks`, `CompactMatches`, `CompactRelay`, `PartialBlocks` |
| message framing | `MessageFraming`, `Connections`, `MessageSending` |
| shared | `Basics` |

Hash functions, random numbers, clocks and the network are parameters. Bucket and position hashes of the address
manager, the hash functions of the filters and the short transaction ids are arbitrary functions. Merkle hashes are
free constructors, so no assumption about collisions is needed.

## Findings

Where the code does not do what its comments, or a natural reading, promise, the model follows the code, gives an
input, and says exactly when the promise holds.

- `src/miner.cpp:294-295` says that a failed package is guaranteed to fail again. A package is tested with four times
  its virtual size, but what is taken counts with its weight. The surplus is the rounding, up to 3 for a transaction,
  or the weight put on for sigops. So a package that failed can fit after one of its ancestors is taken:
  `BlockSurplus.FailedButFits` is a run that ends with such an entry left out. Whatever was taken in between, the
  package fails again exactly if it is not allowed, the sigops still exceed the limit, or the surplus of what was taken
  of it does not make up for the margin and the weight of whatever else was taken (`BlockAssembly.BarredExactly`).
  Without a surplus it always fails again (`BlockAssembly.BarredStaysAnyway`).
- `update_for_parent_inclusion` takes the plain fee of an ancestor off, where `UpdatePackagesForAdded` takes the
  modified one off the first time (`src/miner.h:124`, `src/miner.cpp:278`). So the fees of a cached package are off by
  what was put on the fees of the ancestors taken, all but one (`BlockAccount.FeesDrift`); `BlockSurplus.PlainFeeTaken`
  is an input. They are right if no fee was modified.
- `Flush` changes the view of the layer below, which becomes that of the flushed layer, and no other
  (`Coins.FlushViews`). `Coins.FlushShows` is an input. No view changes at all exactly if the layer says nothing
  that the one below does not say (`Coins.FlushSilent`).
- `AddCoin` without the overwrite flag, when a lower layer has the coin unspent and the top layer does not know it,
  marks the entry FRESH over an unspent coin. Spending the new coin then brings the old one back into view, and
  flushing throws if the layer below has the old one cached (`Coins.AddMisused`). It throws by itself exactly when the
  top layer knows the coin (`Coins.AddThrows`), and in all other cases it acts as an insertion into a map
  (`Coins.AddKeeps`).
- `SpendCoin` returns true, and hands out a cleared coin, for a coin that is not in the view exactly if the cache
  itself has an entry for it (`Coins.SpendKeeps`). `Coins.SpentTwice` is an input.
- `x *= x` in place on a 256-bit number gives zero, since the result is cleared first
  (`ArithUint256s.ArithUint256.MulAssign`). The binary operator works on a copy and is right.
- Compact blocks of up to 200000 transactions are let through (`src/blockencodings.cpp:52`), but positions and the
  running offset have sixteen bits. The positions are right, the short ids lead to their slots, and the slots filled
  agree with the block for every pool, each exactly if the block has at most 65536 transactions
  (`CompactBlocks.SixteenBits`, `CompactBlocks.LeadsExactly`, `CompactRelay.AgreesExactly`). In a larger block the last
  transaction goes to another slot (`CompactRelay.LastGoesAstray`). `CompactRelay.FirstOverwritten` is a block of 65537
  transactions in which it replaces the prefilled first one.
- The search for the slot of the first short id has no end exactly if 65536 transactions are prefilled
  (`CompactBlocks.SearchHasNoEnd`); with any other number all searches end
  (`PartialBlocks.PartiallyDownloadedBlock.MapShortIds`).
- The running mean of `DarkGravityWave` counts the newest block twice (`RetargetEffects.MeanAverages`); the code itself notes
  that it is not really an average.
- The comment at `src/cuckoocache.h:419-420` names the first location as the first victim. The code takes the second
  one, because no location is the marker for "none" (`CuckooStore.FirstVictim`).
- `Check_` does not test that the index by address has no spare entries, nor the range of ids. Books that differ from
  sound ones in just that pass (`AddrCheck.SpareAddress`, `AddrCheck.SpareId`). Apart from that its structural tests
  are the invariant (`AddrCheck.StructuralIsInv`).
- `Unserialize` of the address manager accepts streams from which an unsound manager is read, such as one with the same
  record as a "new" and a "tried" entry (`AddrAnyStream.SharedHost`) or with a negative count
  (`AddrAnyStream.LessThanNothing`). What is read is sound exactly if no count is negative and no entry in a table
  shares its host with another entry that was read (`AddrAnyStream.AnyStream`). It is enough that the records are of
  different hosts (`AddrAnyStream.DifferentHosts`).

## Model

| member | source | states |
|---|---|---|
| AddrOps.Run | src/addrman.cpp:101-527 | From a cleared manager, every run of Add_, Good_, Attempt_, Connected_, SetServices_ and GetAddr_ keeps the invariant: reference counts are the numbers of "new" cells (1 to 8, or 0 if tried), tried entries are in just their hashed cells, the indexes are inverse to each other, the counters are exact. |
| AddrOps.EmptyInv | src/addrman.h:457-478 | The cleared manager satisfies the invariant. |
| AddrOps.Good | src/addrman.cpp:198-248 | Marking an address as good keeps the invariant; with the invariant a bucket that holds the entry is always found. What it records is `AddrEffects.GoodRecords`. |
| AddrEffects.GoodRecords | src/addrman.cpp:198-248 | The whole new entry of a known service: the time as last success and last try, no attempts, no references, in "tried", all else as before; for an unknown one only the time of the last success is noted. |
| AddrEffects.GoodIsNotTerrible | src/addrman.cpp:34-54 | For a minute after Good_ at a time other than 0 the entry is not terrible, whatever was known of it. |
| AddrEffects.GoodTables | src/addrman.cpp:150-248 | The whole new tables after a "new" entry was marked as good. |
| AddrEffects.GoodEvicts | src/addrman.cpp:163-189 | The former occupant keeps its statistics, with one reference and out of "tried"; the entry in the cell it falls back to loses that reference, and is gone if it was its last. |
| AddrOps.GoodSeats | src/addrman.cpp:150-248 | After Good_ on a known service its entry is in its hashed "tried" cell and in no "new" cell. |
| AddrOps.GoodOthers | src/addrman.cpp:150-248 | Good_ leaves all entries as they were, apart from the promoted one, the former occupant of its cell, and the entry that this one displaces. |
| AddrOps.PromotedDemotes | src/addrman.cpp:168-189 | The former occupant of the "tried" cell is not lost: it is in exactly one "new" cell, the one its own source points to. |
| AddrOps.Add | src/addrman.cpp:250-321 | Adding an address keeps the invariant, whatever the address, its source, the penalty, the time and the random draw. |
| AddrOps.AddStores | src/addrman.cpp:287-320 | An unknown routable address is stored exactly when its cell is free or held by an entry that is terrible or has another cell; otherwise no entry changes. |
| AddrEffects.AddRecords | src/addrman.cpp:287-320 | The whole stored entry: service, services, source, the time less the penalty but not below 0, no statistics, one reference; no penalty for a source's own address. |
| AddrEffects.AddIgnores | src/addrman.cpp:252-253 | An address that cannot be routed changes nothing. |
| AddrOps.AddAgain | src/addrman.cpp:264-320 | A known routable address has its time and services refreshed, and gains the cell of the source exactly when the announcement is newer than what is recorded, the entry is in "new" with fewer than 8 references, the draw of one in 2^references succeeds, and the cell is free or its entry terrible; only the entry that was in that cell is affected besides. |
| AddrEffects.RefreshedExactly | src/addrman.cpp:264-273 | A refresh adds the services, and sets the time exactly under the conditions on its age, with an hour or a day to spare. |
| AddrOps.Attempt | src/addrman.cpp:323-343 | Recording an attempt keeps the invariant. |
| AddrEffects.AttemptRecords | src/addrman.cpp:323-343 | The whole new entry: the time of the try, and one more attempt exactly if failures count and none was counted since the last success with any peer; nothing else changes. |
| AddrEffects.CountedOnce | src/addrman.cpp:339-342 | Two failures after the last success of any peer count once. |
| AddrOps.Connected | src/addrman.cpp:491-509 | Recording a connection keeps the invariant. |
| AddrEffects.ConnectedRecords | src/addrman.cpp:491-509 | Only the time may change, exactly if it is more than twenty minutes old, and then it is not afterwards. |
| AddrOps.SetServices | src/addrman.cpp:511-527 | Setting the services keeps the invariant. |
| AddrEffects.SetServicesRecords | src/addrman.cpp:511-527 | Only the services of the entry change. |
| AddrOps.GetAddr | src/addrman.cpp:470-489 | Drawing a sample reorders the random-order vector and keeps the invariant. |
| AddrOps.GetAddrSample | src/addrman.cpp:470-489 | A sample has at most the allowed size, 23 in a hundred and 2500, consists of entries that are not terrible, of different hosts, and is short only if it has all of them. |
| AddrEffects.SampleSizeExactly | src/addrman.cpp:472-474 | The allowed size is as large as 23 in a hundred permit, up to 2500. |
| AddrEffects.TerribleStays | src/addrman.cpp:34-54 | A terrible entry stays terrible until something is recorded, unless its time lay ahead. |
| AddrEffects.TerribleByFailures | src/addrman.cpp:34-54 | An address seen in the last thirty days is terrible exactly by three failures without a success, or ten and no success in a week, unless it was tried in the last minute. |
| AddrBook.ClearedCore | src/addrman.cpp:135-148 | Emptying a "new" cell keeps the invariant, also in the middle of an operation; an entry that loses its last reference leaves all indexes. |
| AddrBook.DeletedIndexed | src/addrman.cpp:101-133 | Swapping an entry to the end of the random-order vector and dropping it keeps the three indexes inverse to each other. |
| AddrOps.VacatedCore | src/addrman.cpp:150-191 | When MakeTried comes to its last step, the entry has no reference left and its "tried" cell is free, which the code asserts. |
| AddrManager.AddrMan.constructor | src/addrman.h:457-484 | A new manager is empty and valid. |
| AddrManager.AddrMan.Clear | src/addrman.h:457-478 | Both tables, the maps and the counters are reset. |
| AddrManager.AddrMan.Find | src/addrman.cpp:69-80 | The entry of a host is found through both maps. |
| AddrManager.AddrMan.Create | src/addrman.cpp:89-99 | A new entry takes the next id and is entered in the three indexes. |
| AddrManager.AddrMan.SwapRandom | src/addrman.cpp:101-119 | Two places of the vector and the positions kept in their entries are exchanged. |
| AddrManager.AddrMan.Delete | src/addrman.cpp:121-133 | The fields after deleting are those of the deletion on values. |
| AddrManager.AddrMan.ClearNew | src/addrman.cpp:135-148 | The fields after emptying a cell are those of the step on values; the assertion on the reference count holds. |
| AddrManager.AddrMan.MakeTried | src/addrman.cpp:150-196 | The loop over all buckets, the eviction and the four assertions: the fields end as those of the promotion on values. |
| AddrManager.AddrMan.FindNewBucket | src/addrman.cpp:227-242 | The search from a random bucket on finds a bucket that holds the entry. |
| AddrManager.AddrMan.Good_ | src/addrman.cpp:198-248 | The manager stays valid and is in the state that Good gives. |
| AddrManager.AddrMan.Add_ | src/addrman.cpp:250-321 | The manager stays valid and is in the state that Add gives; the result says whether the address was unknown. |
| AddrManager.AddrMan.Attempt_ | src/addrman.cpp:323-343 | The manager stays valid and is in the state that Attempt gives. |
| AddrManager.AddrMan.Connected_ | src/addrman.cpp:491-509 | The manager stays valid and is in the state that Connected gives. |
| AddrManager.AddrMan.SetServices_ | src/addrman.cpp:511-527 | The manager stays valid and is in the state that SetServices gives. |
| AddrManager.AddrMan.GetAddr_ | src/addrman.cpp:470-489 | The manager stays valid, and the list and the state are those that GetAddr gives. |
| AddrCheck.StructuralIsInv | src/addrman.cpp:393-467 | The structural tests of Check_ are passed exactly if the invariant holds, given the table sizes, the range of ids and an index by address without spare entries. |
| AddrCheck.SpareAddress | src/addrman.cpp:393-467 | A book whose index has an address without an entry passes all structural tests of Check_ and does not satisfy the invariant. |
| AddrCheck.SpareId | src/addrman.cpp:393-467 | So does every sound book with an entry once its id counter is reset to 0. |
| AddrCheck.VectorSize | src/addrman.cpp:398-399 | The random-order vector has as many places as there are entries. |
| AddrManager.AddrMan.CheckEntries | src/addrman.cpp:395-430 | The loop over the entries passes exactly if every entry passes its tests, and collects what the tables should hold. |
| AddrManager.AddrMan.CheckTried | src/addrman.cpp:432-444 | The loops over the "tried" table pass only if every cell is right, and leave the entries that are in no cell. |
| AddrManager.AddrMan.CheckNew | src/addrman.cpp:446-457 | The loops over the "new" table pass only if every cell is right and no entry is met too often, and leave the references not met. |
| AddrManager.AddrMan.Check_ | src/addrman.cpp:393-467 | The result is 0 exactly if the structural tests, the tests of the statistics and that of the key are passed, whatever the map holds; if ids are in range and no address is spare, exactly if the invariant and the other two hold. |
| AddrRunCheck.RunChecks | src/addrman.cpp:393-467 | After every run in which successes come after time 0 and attempts not before it, all structural tests and tests of statistics of Check_ are passed. |
| AddrRunCheck.UntimelyFails | src/addrman.cpp:408-414 | A success at time 0 of any known service makes the tests of the statistics fail. |
| AddrRoundTrip.RoundTrip | src/addrman.h:302-455 | What is written of a valid manager is read as the same manager up to the ids: nothing is lost, both tables and all reference counts come back, the invariant holds again. |
| AddrSerial.LoadedInStep | src/addrman.h:352-446 | Whatever stream is read, the random-order vector stays in step with the entries, so that pruning is always possible. |
| AddrAnyStream.AnyStream | src/addrman.h:352-455 | For every stream that is read to its end, the manager read satisfies the invariant exactly if neither count is negative and entries that share a host are in no table when all of the stream is read. |
| AddrAnyStream.DifferentHosts | src/addrman.h:352-455 | If the counts are not negative and the records are of different hosts, the manager read satisfies the invariant, whatever the written tables are like. |
| AddrAnyStream.TablesSettled | src/addrman.h:376-438 | Unless a count is negative, the tables, marks, reference counts and counters agree before pruning, for whatever cells were written, with the entries in no table left over. |
| AddrAnyStream.PrunedHosts | src/addrman.h:440-452 | After pruning the index by address is right exactly if entries that share a host were all pruned. |
| AddrAnyStream.SharedHost | src/addrman.h:352-455 | A stream with the same record twice, as "new" and as "tried", is read as a manager that does not satisfy the invariant, for all hash functions. |
| AddrAnyStream.LessThanNothing | src/addrman.h:368-374 | A stream with a negative count is read, as a manager that does not satisfy the invariant. |
| AddrFallback.FallbackKeeps | src/addrman.h:381-398 | If the written table cannot be used, a "new" entry is kept, as written and with one reference, exactly if no record before it has the same cell of its own source. |
| AddrFallback.TriedFirstCome | src/addrman.h:400-419 | Of the records read as "tried" entries each cell keeps the first one for it, as written. |
| AddrSerial.OrderLists | src/addrman.h:314-336 | The order of writing lists every entry once, those of "new" before those of "tried". |
| AddrSerial.FlippedTwice | src/addrman.h:313-314 | The number of buckets is written with bit 30 flipped, and flipping is its own inverse. |
| AddrManager.AddrMan.Serialize | src/addrman.h:302-349 | The loops write the written form, and the assertions on the counters hold. |
| AddrManager.AddrMan.Unserialize | src/addrman.h:352-455 | The loops read what the function on values reads, with the same numbers of lost entries, and refuse the same streams. |
| AddrReload.Reload | src/addrman.h:302-455 | Writing a valid manager and reading it into a new one succeeds, loses nothing and gives the same manager up to the ids. |
| TxPool.VirtualSize | src/policy/policy.cpp:258-261 | Four times the virtual size is at least the weight and the sigops in bytes, and less than four more than the larger of them. |
| BlockAssembly.AddedAllOk | src/miner.cpp:243-260 | A sorted package added entry by entry keeps the block ordered by ancestry, without duplicates, and its totals exact. |
| BlockAssembly.SortedIsOrdered | src/miner.cpp:304-313 | In a package sorted by number of ancestors, the ancestors of each entry are in the block or come before it. |
| BlockAssembly.Closed | src/miner.cpp:325-453 | A block that is in order is closed under ancestry. |
| BlockAssembly.SpreadTracks | src/miner.cpp:262-287 | Updating the descendants of an added transaction keeps the invariant of the cache: cached sizes and sigops never underestimate what is missing, are exact unless the entry failed before, and an entry that did not fail is cached exactly when an ancestor was taken. |
| BlockAssembly.EstimateCovers | src/miner.cpp:386-394 | What the loop takes a candidate's package to cost is never too little, and exact unless it failed before. |
| BlockAssembly.CandidateIsOut | src/miner.cpp:382-384 | A candidate is never in the block, which the code asserts. |
| BlockAssembly.TakeKeeps | src/miner.cpp:420-451 | Taking a package that passes the tests keeps the limits, the order, the cache invariant and the account of what was left out. |
| BlockAssembly.DropKeeps | src/miner.cpp:401-409 | Giving up a cached entry keeps them too. |
| BlockAssembly.PassKeeps | src/miner.cpp:401-418 | Walking past an entry that is refused keeps them too. |
| BlockAssembly.BarredStaysAnyway | src/miner.cpp:290-296 | An entry that could not be added cannot be added later either, as long as four times the size is the weight of each ancestor taken. |
| BlockAssembly.MarginExactly | src/miner.cpp:218-226 | How much too heavy a package is changes by the weight of what else was taken, less the surplus of what was taken of the package. |
| BlockAssembly.BarredExactly | src/miner.cpp:218-241 | Whatever was taken in between, a package cannot be added later exactly if some of it is not allowed, its sigops with those of whatever else was taken reach the limit, or the surplus of what was taken of it is at most its margin and the weight of whatever else was taken. |
| BlockAssembly.WasBarredMeans | src/miner.cpp:290-296 | An entry that could not be added to an earlier block of the run, and is still out, cannot be added now unless an ancestor taken had a surplus. |
| BlockAssembly.SelectionEnds | src/miner.cpp:346-452 | At the end every entry left out cannot be added, or failed and could not be added to a block the run came from; it still cannot unless an ancestor taken had a surplus. |
| BlockSurplus.FailedButFits | src/miner.cpp:262-452 | A run of the loop over a valid pool, sizes computed from weights and sigops, that ends with an entry left out which fits. |
| BlockRanking.FeeForRate | src/policy/feerate.cpp:24-39 | Who pays less than the fee for a size pays less than the rate; who pays a whole unit less than the rate, or nothing, pays less than the fee. |
| BlockRanking.BeatsTransitive | src/miner.h:74-84 | The order by fee rate and hash is transitive; with `BlockRanking.BeatsTotal` it is a total order. |
| BlockRanking.BeatsTotal | src/txmempool.h:267-288 | Of two different entries exactly one comes first. |
| BlockRanking.ChosenIsBest | src/miner.cpp:356-381 | The better one of the best cached entry and the next of the walk comes before every entry still to be looked at. |
| BlockAccount.BestIsDeserved | src/miner.cpp:386-397 | A package that is looked at and passes the test of its fee pays at least the minimum, and no lower rate than what is missing of any other entry that has not failed and could be added. |
| BlockAccount.RestUnderpaid | src/miner.cpp:394-397 | If the package looked at pays too little, everything outside that has not failed and could be added pays less than the minimum rate, as the comment in the code says. |
| BlockAccount.FeesDrift | src/miner.h:122-127 | The fees of a cached package are off by exactly what was put on the fees of the ancestors taken, all but one. |
| BlockSurplus.PlainFeeTaken | src/miner.h:122-127 | An input: a package is cached with 500 too much after two ancestors are taken. |
| Miner.BlockAssembler.constructor | src/miner.cpp:80-85 | The weight limit is between 4000 and the maximum less 4000. |
| Miner.BlockAssembler.ResetBlock | src/miner.cpp:107-119 | The block is empty, with room reserved for the coinbase. |
| Miner.BlockAssembler.OnlyUnconfirmed | src/miner.cpp:205-216 | What is in the block is removed from the set. |
| Miner.BlockAssembler.TestPackage | src/miner.cpp:218-226 | The answer is whether weight and sigops stay below their limits. |
| Miner.BlockAssembler.TestPackageTransactions | src/miner.cpp:232-241 | The answer is whether all of the package is allowed. |
| Miner.BlockAssembler.AddToBlock | src/miner.cpp:243-260 | The transaction is appended and all running totals follow. |
| Miner.BlockAssembler.UpdatePackagesForAdded | src/miner.cpp:262-287 | The loops bring the cache from the state before the additions to the state after. |
| Miner.BlockAssembler.SortForBlock | src/miner.cpp:304-313 | The package sorted by number of ancestors, then by hash. |
| Miner.BlockAssembler.BestCached | src/miner.h:99-113 | The cached entry with the best score. |
| Miner.BlockAssembler.Choose | src/miner.cpp:356-381 | The entry to look at comes before every other one still to be looked at. |
| Miner.BlockAssembler.AddPackageTxs | src/miner.cpp:325-453 | For every valid pool, walked by score, the loop terminates; the block is closed under ancestry, lists each transaction after its ancestors, has no duplicates and exact totals, and stays within the limits. It is a sequence of packages, each sorted, each of which paid the minimum and had the best rate of all that could be added when it was taken, unless its entry had failed before. If the loop is exhausted, whatever is left out cannot be added, or failed because it could not be added to an earlier block of the run, and still cannot if no ancestor taken had a surplus. If it ends for a fee, everything left that could be added and has not failed pays less than the minimum rate. If it gives up, the block is within 4000 of the limit and more than 1000 different entries did not fit since the last one was taken. |
| Coins.RunRefines | src/coins.cpp:49-329 | Every run of reads, additions, spendings, flushes of any layer, removals from the cache, and pushing and popping layers, over any database and to any depth, ends with the views that plain maps have, without an exception. |
| Coins.StepRefines | src/coins.cpp:49-329 | Every single operation acts on the views as on plain maps and keeps the invariant: FRESH means that the layers below have no unspent coin, entries that are not DIRTY agree with the layers below, the memory use is the exact sum. |
| Coins.StartAgrees | src/coins.cpp:43-43 | A database without caches is where runs start. |
| Coins.FetchKeeps | src/coins.cpp:49-73 | Reading through the layers changes no view and keeps the invariant. |
| CoinsEffects.FetchCaches | src/coins.cpp:49-64 | Reading caches the coin, unmodified, in every layer down to the first with an entry, and nothing where there is no coin. |
| Coins.AddKeeps | src/coins.cpp:75-94 | Adding a coin where there is none, or with the overwrite flag, is adding it to the map. |
| CoinsEffects.AddedEntry | src/coins.cpp:75-94 | An added coin is marked DIRTY, and FRESH exactly if the entry it replaces was, or there was none and it may not overwrite. |
| CoinsEffects.NoTrace | src/coins.cpp:75-94 | A coin that is added and spent in a layer leaves that layer as it was. |
| Coins.AddThrows | src/coins.cpp:80-84 | The exception is thrown exactly if overwriting is not allowed and the top layer itself has the coin unspent. |
| Coins.AddMisused | src/coins.cpp:75-94 | In the remaining case the invariant is lost: the new coin is in view, spending it brings the old one back, and if the layer below has the old one cached a flush throws. |
| Coins.SpendKeeps | src/coins.cpp:194-226 | Spending is removing from the map; the coin handed out is the one in the view, and where there is none a cleared one is handed out exactly if the top layer has an entry. |
| Coins.SpentTwice | src/coins.cpp:194-226 | An input: a coin of the database that is spent twice in the same cache is found cleared the second time. |
| Coins.FlushViews | src/coins.cpp:259-320 | Flushing a layer changes the view of the layer below to its own, and no other view. |
| Coins.FlushKeeps | src/coins.cpp:259-320 | Flushing any layer keeps the invariant, and the exception of BatchWrite cannot be thrown. |
| CoinsEffects.NoTraceBelow | src/coins.cpp:259-313 | Nor does one that is added in a layer, flushed to the next and spent there. |
| CoinsEffects.MergedExactly | src/coins.cpp:259-313 | The entry below after a flush, in all cases of the flags. |
| CoinsEffects.FlushEmpties | src/coins.cpp:315-320 | A flushed layer is empty, and only the one below changes besides. |
| Coins.FlushSilent | src/coins.cpp:259-320 | Flushing changes no view at all exactly if every entry of the layer says what the layers below say. |
| Coins.FlushShows | src/coins.cpp:259-320 | An input for which flushing changes the view of the database. |
| Coins.UncacheKeeps | src/coins.cpp:322-329 | Removing an unmodified entry from any layer changes no view. |
| CoinsEffects.UncacheExactly | src/coins.cpp:322-329 | An entry is removed exactly if it is unmodified, and nothing else changes. |
| CoinsCaches.CoinsViewDB.BatchWrite | src/txdb.cpp:116-125 | Dirty entries are written or erased, others are not. |
| CoinsCaches.CoinsViewCache.FetchCoin | src/coins.cpp:49-64 | Reads through all layers, filling them as on values; no view changes. |
| CoinsCaches.CoinsViewCache.GetCoin | src/coins.cpp:66-73 | The coin in the view, if there is one. |
| CoinsCaches.CoinsViewCache.AddCoin | src/coins.cpp:75-94 | The state after adding is that on values, and the exception is thrown exactly where it is there. |
| CoinsCaches.CoinsViewCache.SpendCoin | src/coins.cpp:194-226 | The state after spending and the coin handed out are those on values. |
| CoinsCaches.CoinsViewCache.BatchWrite | src/coins.cpp:259-313 | All entries are merged, and the exception is thrown exactly if a FRESH entry meets an unspent one. |
| CoinsCaches.CoinsViewCache.Flush | src/coins.cpp:315-320 | The state after a flush is that on values, and no exception is thrown. |
| CoinsCaches.CoinsViewCache.Uncache | src/coins.cpp:322-329 | The state after removing an entry is that on values. |
| CuckooStore.PushedConserves | src/cuckoocache.h:407-449 | The chain of pushes loses nothing but the element it ends with, and leaves every element at one of its own locations. What it ends with is `CuckooEffects.PushedByChain`. |
| CuckooStore.FirstVictim | src/cuckoocache.h:416-430 | The first element to be pushed away is the one at the second location. |
| CuckooStore.InsertConserves | src/cuckoocache.h:392-450 | The live elements and the new one are the live elements afterwards and at most one that is dropped; every live element is at one of its eight locations; the counts of the epochs grow by at most one. What is stored is `CuckooEffects.FreeIsUsed` and `CuckooEffects.InsertedIsFound`. |
| CuckooEffects.FreeIsUsed | src/cuckoocache.h:407-415 | If the element is in none of its slots and one of them may be overwritten, the first such slot gets it, no other slot changes, and no live element is lost. |
| CuckooEffects.AgainIsRecent | src/cuckoocache.h:400-405 | An element that is in one of its slots is kept there as a recent one, and no other slot changes. |
| CuckooEffects.PushedByChain | src/cuckoocache.h:406-449 | An insertion goes through rounds in which all eight slots of the element in hand are taken, and it changes places with the one in the slot after that where the last one came from; it ends with the element in hand in its first free slot, or dropped after as many rounds as the limit allows. |
| CuckooEffects.NextVictim | src/cuckoocache.h:430-430 | After a slot comes the next of the eight. |
| CuckooEffects.InsertedIsFound | src/cuckoocache.h:392-450 | An inserted element is found, unless it is what comes out at the end of the chain. |
| CuckooStore.LiveIsFound | src/cuckoocache.h:467-477 | Every live element is found. |
| CuckooStore.ErasedIsStillFound | src/cuckoocache.h:467-477 | An element erased by a lookup is still found until it is overwritten. |
| CuckooStore.EraseKeeps | src/cuckoocache.h:467-477 | Erasing an element loses no other live one. |
| CuckooEffects.ErasedExactly | src/cuckoocache.h:467-477 | An erasing lookup gives up exactly the slot in which the element is found, and none if there is none. |
| CuckooStore.AgedLive | src/cuckoocache.h:305-314 | The end of an epoch keeps the elements of the current epoch, one step older, and no others. |
| CuckooStore.CheckedInv | src/cuckoocache.h:289-321 | The check before an insertion keeps the current epoch within its share, scan interval included. |
| CuckooStore.RunInv | src/cuckoocache.h:243-477 | After any run of insertions and lookups, live elements are at their own locations, and there are at most two epochs' worth of them. |
| CuckooStore.Survives | src/cuckoocache.h:124-156 | An element is found through the rest of its epoch and all of the next, unless it is erased or an insertion drops it. |
| CuckooEffects.EpochLasts | src/cuckoocache.h:289-321 | Elements are not aged before as many recent ones are there as an epoch has. |
| CuckooEffects.LastsAnEpoch | src/cuckoocache.h:124-156 | A recent element is found through as many insertions as an epoch has, unless it is erased or dropped. |
| CuckooCaches.BitPackedFlags.BitSet | src/cuckoocache.h:92-96 | One bit of the packed flags is set and no other changes. |
| CuckooCaches.CuckooCache.constructor | src/cuckoocache.h:340-353 | A new cache has the invariant and no live elements. |
| CuckooCaches.CuckooCache.EpochCheck | src/cuckoocache.h:289-321 | The loops leave the state that the check on values gives. |
| CuckooCaches.CuckooCache.Insert | src/cuckoocache.h:392-450 | The loop of swaps leaves the state that the insertion on values gives. |
| CuckooCaches.CuckooCache.Contains | src/cuckoocache.h:467-477 | The answer is that on values; with the erase flag the element may be discarded. |
| RollingBloom.RecentIsFound | src/bloom.cpp:249-297 | Each of the keys inserted in the last two generations' worth of insertions is found. |
| RollingBloom.LastElementsAreFound | src/bloom.cpp:224-224 | With generations of (N + 1) / 2 entries each of the last N keys is found. |
| RollingBloom.FoundExactly | src/bloom.cpp:249-297 | After n insertions a key is found exactly if each of its cells was written by one of the last 2 * g + (n - 1) mod g + 1 of them, where g is the number of entries per generation. |
| RollingBloom.NextGeneration | src/bloom.cpp:251-267 | Masked wiping of the number that is used again takes the cells to the next generation. |
| RollingBloomFilters.RollingBloomFilter.constructor | src/bloom.cpp:217-245 | A new filter is empty and made for the given number of elements; it can be used exactly if it is for at least one element and has a bit. |
| RollingBloomFilters.RollingBloomFilter.Reset | src/bloom.cpp:305-313 | The filter is empty again, with a new tweak. |
| RollingBloomFilters.RollingBloomFilter.Insert | src/bloom.cpp:249-277 | The data words read as the history with one more key tells. |
| RollingBloomFilters.RollingBloomFilter.Contains | src/bloom.cpp:285-297 | The answer is whether each cell of the key was written by one of the insertions in the window, and true for each of the last N keys. |
| MerkleProof.Sound | src/merkleblock.cpp:80-165 | Whatever the bits and hashes, if the block's root comes out then every extracted pair is a transaction id of the block at its index. |
| MerkleProof.Complete | src/merkleblock.cpp:62-165 | For every non-empty list of distinct ids within the limit and every mask, building, packing, unpacking and extracting gives the true root and exactly the marked ids and indexes in order; the stored hashes are at most one per transaction and at most 1 + matches * height. |
| MerkleProof.StoredHashes | src/merkleblock.h:35-41 | At every node: at most one hash per leaf, within the budget of the matches, and a bit for each. |
| MerkleProof.WidthFormula | src/merkleblock.h:67-69 | The width by halving is the formula with shifts. |
| MerkleProof.SiblingsDiffer | src/merkleblock.cpp:102-110 | With distinct ids two siblings never have the same hash, so that the check against duplication never refuses a true proof. |
| MerkleEffects.RootIsMerkleRoot | src/merkleblock.cpp:42-60 | The hash at the top of the recursion is what pairing neighbours level by level leads to. |
| MerkleEffects.NothingToSpare | src/merkleblock.cpp:134-165 | A proof that yields a root yields none with hashes appended, or with a whole byte of bits. |
| MerkleEffects.NothingMissing | src/merkleblock.cpp:134-165 | Nor with hashes, or more than the padding, cut off. |
| MerkleEffects.TwinsAreRefused | src/merkleblock.cpp:102-110 | A tree in which two children of a node read the same, at any height, yields no root. |
| MerkleStream.TakeLeaf | src/consensus/merkle.cpp:66-92 | Taking in a leaf keeps a pending hash for each bit of the count, that of the last whole part of that size, and tells whether two neighbours it completes are the same. |
| MerkleStream.ComputeMerkleRoot | src/consensus/merkle.cpp:46-138 | The computation in one pass gives the root of the tree, and the flag is set exactly if two whole neighbours are the same. |
| MerkleMutation.FlagExactly | src/consensus/merkle.cpp:85-85 | That is exactly if any two neighbours in the tree are the same, whole or not, although the last sweep does not look. |
| MerkleMutation.RootDetermines | src/consensus/merkle.cpp:10-44 | Two lists of ids with the same root, neither of them flagged, are the same: no list can be changed without changing the root or raising the flag. |
| MerkleMutation.DoublingKeepsRoot | src/consensus/merkle.cpp:10-44 | The flag is needed: doubling the last of three leaves keeps the root. |
| MerkleMutation.DistinctIsClean | src/consensus/merkle.cpp:85-85 | A list without duplicates is not flagged. |
| PartialMerkleTrees.PackRoundTrip | src/merkleblock.h:88-106 | Unpacking packed bits gives them back with padding. |
| PartialMerkleTrees.MatchedRange | src/merkleblock.cpp:62-67 | A node is the parent of a match exactly if a leaf in its range is marked. |
| PartialMerkleTrees.PartialMerkleTree.CalcHash | src/merkleblock.cpp:42-60 | The recursion gives the hash of the node. |
| PartialMerkleTrees.PartialMerkleTree.TraverseAndBuild | src/merkleblock.cpp:62-78 | The bits and hashes of the node are appended. |
| PartialMerkleTrees.PartialMerkleTree.TraverseAndExtract | src/merkleblock.cpp:80-116 | The cursors and the flag come out as on values, and the matches are appended to both lists of the caller. |
| PartialMerkleTrees.PartialMerkleTree.ExtractMatches | src/merkleblock.cpp:134-165 | All checks and the traversal: the root, or null, and the matches as on values; ids replace the caller's list, indexes are appended to it, and an object that met a bad tree before yields null. |
| PartialMerkleTrees.ProveAndVerify | src/merkleblock.cpp:118-165 | A proof that is built, written, read and extracted from yields the root and exactly the marked transactions. |
| CheckQueue.StepKeeps | src/checkqueue.h:70-162 | Every step of every thread keeps the invariant: nTodo is what is queued and in hands, all checks added are queued, in hands or done, nIdle counts the waiting threads, verdicts are honest. |
| CheckQueue.CountersInRange | src/checkqueue.h:80-119 | No counter underflows. |
| CheckQueue.AnyRun | src/checkqueue.h:70-162 | For any number of workers and any interleaving: what is promised of the states holds, in particular that Wait returns true exactly if every check added since the last Wait passes, and that a waiting master is notified or some worker holds work. |
| CheckQueue.ReturnKeeps | src/checkqueue.h:92-101 | Wait returns whether all checks added since the last return pass. |
| CheckQueue.NeverStuck | src/checkqueue.h:77-128 | While the master waits some thread can go on. |
| CheckQueue.WaitEnds | src/checkqueue.h:77-128 | Without spurious wake-ups Wait returns after a bounded number of steps. |
| CheckQueue.PoppedElements | src/checkqueue.h:114-119 | Taking a batch off the queue loses no check. |
| CheckQueue.TakeBatch | src/checkqueue.h:112-119 | The loop takes the last checks of the queue, as many as the formula says. |
| CheckQueue.ShareIsFair | src/checkqueue.h:112-112 | A batch is the largest that leaves as much for every other thread and one more, but at least one check and at most the batch size. |
| CheckQueue.AddNotifies | src/checkqueue.h:150-162 | Adding several checks notifies all workers; adding one notifies one that slept, if there is any, and only that one. |
| CheckQueue.RunBatch | src/checkqueue.h:121-126 | The verdict on a batch is whether all passed so far and all of it pass. |
| ArithUint256s.ArithUint256.AddAssign | src/arith_uint256.h:142-152 | The limbs are the sum modulo 2^256, also when a number is added to itself. |
| ArithUint256s.ArithUint256.Negate | src/arith_uint256.h:84-92 | The limbs are the negative modulo 2^256. |
| ArithUint256s.ArithUint256.SubAssign | src/arith_uint256.h:154-158 | The limbs are the difference modulo 2^256. |
| ArithUint256s.ArithUint256.Increment | src/arith_uint256.h:180-187 | The limbs are the number plus one modulo 2^256. |
| ArithUint256s.ArithUint256.Decrement | src/arith_uint256.h:197-204 | The limbs are the number minus one modulo 2^256. |
| ArithUint256s.ArithUint256.ScaleAssign | src/arith_uint256.cpp:58-68 | The limbs are the product with a 32-bit number modulo 2^256. |
| ArithUint256s.ArithUint256.MulAssign | src/arith_uint256.cpp:70-84 | The limbs are the product modulo 2^256, or zero if a number is multiplied by itself in place. |
| ArithUint256s.ArithUint256.ShiftLeft | src/arith_uint256.cpp:24-39 | The limbs are the number times 2^shift modulo 2^256, for every shift. |
| ArithUint256s.ArithUint256.ShiftRight | src/arith_uint256.cpp:41-56 | The limbs are the quotient by 2^shift, for every shift. |
| ArithUint256s.ArithUint256.DivAssign | src/arith_uint256.cpp:86-110 | Shifting and subtracting gives the exact quotient, with the remainder left; a zero divisor is refused. |
| ArithUint256s.ArithUint256.CompareTo | src/arith_uint256.cpp:112-122 | The sign of the difference. |
| ArithUint256s.ArithUint256.Bits | src/arith_uint256.cpp:174-187 | One more than the position of the highest bit, or zero. |
| LimbShifts.ShiftedUpValue | src/arith_uint256.cpp:24-39 | Shifted limbs are the number times a power of two without what runs over, for any number of limbs. |
| LimbShifts.ShiftedDownValue | src/arith_uint256.cpp:41-56 | Shifted limbs are the quotient by a power of two, for any number of limbs. |
| Compact.OverflowExact | src/arith_uint256.cpp:219-223 | The overflow flag is set exactly if the magnitude does not fit in 256 bits. |
| Compact.RoundDown | src/arith_uint256.cpp:207-248 | What GetCompact writes is read without sign or overflow as a value at most the original and less than a unit of the mantissa below it. |
| Compact.ReEncode | src/arith_uint256.cpp:227-248 | Encoding what was decoded from an encoding gives the same encoding. |
| Compact.Examples | src/arith_uint256.cpp:207-225 | Some compact numbers with their magnitudes, signs and overflow. |
| Compact.NoWrap | src/chain.cpp:121-134 | One more than a decoded target without overflow does not wrap. |
| Compact.WorkFormula | src/chain.cpp:129-133 | Dividing the complement and adding one is dividing 2^256. |
| CompactArith.SetCompact | src/arith_uint256.cpp:207-225 | The limbs, the sign and the overflow flag are those of the encoding. |
| CompactArith.GetCompact | src/arith_uint256.cpp:227-248 | The result is the encoding of the number. |
| CompactArith.GetBlockProof | src/chain.cpp:121-134 | The work is the quotient of 2^256 by the target plus one, or zero for a target that is negative, zero or overflows. |
| Retarget.MeanBetween | src/pow.cpp:47-63 | The running mean is between any bounds of the targets. |
| RetargetEffects.MeanAverages | src/pow.cpp:47-63 | The running mean of n targets is the average in which the newest counts twice, less at most n / 2 by rounding down in each step. |
| Retarget.DgwWithinThree | src/pow.cpp:65-78 | Before rounding and capping the new target is within a factor of three of the mean. In which direction is `RetargetEffects.DgwScales`. |
| RetargetEffects.DgwScales | src/pow.cpp:65-78 | A right timespan keeps the mean, a third or less gives a third of it, three times or more gives three times it, and in between the new target is the exact ratio, rounded down. |
| RetargetEffects.DgwSlower | src/pow.cpp:65-78 | Of two chains with the same targets the one that took longer never has the lower target. |
| Retarget.BtcWithinFour | src/pow.cpp:142-158 | Before rounding and capping the new target is within a factor of four of the last. |
| RetargetEffects.BtcScales | src/pow.cpp:142-158 | The same for the Bitcoin rule with a factor of four. |
| RetargetEffects.BtcSlower | src/pow.cpp:142-158 | A longer interval never gives a lower target. |
| Retarget.NextWithin | src/pow.cpp:18-165 | Whichever rule applies, the next target is within the limit if all before it are. |
| Retarget.EveryTarget | src/pow.cpp:18-165 | Along every chain of the main, the test or the regression network, every target decodes without a flag to at most the limit. |
| Retarget.NothingWraps | src/pow.cpp:47-78 | On chains of the main and the test network no product or sum formed by DarkGravityWave reaches 2^256. |
| Retarget.NothingWrapsBtc | src/pow.cpp:142-158 | Nor does the product formed by the Bitcoin rule, on chains of any length. |
| Retarget.FixedTargets | src/pow.cpp:26-45 | On the regression network the next target is the limit or that of an earlier block. |
| RetargetEffects.MinDifficultyIs | src/pow.cpp:31-45 | A late block has the limit; any other has the target of the block found by going back over blocks with the limit, at most to the start of the interval. |
| RetargetEffects.DependsOnLast180 | src/pow.cpp:123-140 | From the activation on, the next target of a network that retargets depends on the last 180 blocks alone. |
| RetargetEffects.FromActivation | src/pow.cpp:123-140 | It is the capped target of DarkGravityWave, or the limit while there are at most 180 blocks. |
| RetargetEffects.BeforeActivation | src/pow.cpp:87-140 | Before it, where minimum difficulty is not allowed, the target is that of the last block, except at the end of an interval, where it depends on the last block and the time of the first. |
| Retarget.FirstOfInterval | src/pow.cpp:113-118 | The block a whole interval back exists, which the code asserts. |
| PowArith.PastMean | src/pow.cpp:47-63 | The loop over the past blocks on 256-bit numbers gives the running mean. |
| PowArith.DarkGravityWave | src/pow.cpp:18-84 | The computation on 256-bit numbers gives what the rule gives on integers. |
| PowArith.CalculateNextWorkRequired | src/pow.cpp:142-165 | The computation on 256-bit numbers gives what the rule gives on integers. |
| PowArith.GetNextWorkRequiredBTC | src/pow.cpp:87-121 | The computation on 256-bit numbers gives what the rule gives on integers. |
| PowArith.GetNextWorkRequired | src/pow.cpp:123-140 | The choice of the rule, on 256-bit numbers as on integers. |
| PowArith.NetworksExact | src/pow.cpp:18-165 | Chains of all three networks satisfy what these computations rely on. |
| BlockIndexes.SkipIsLower | src/chain.cpp:71-82 | A skip pointer leads to a lower height. |
| BlockIndexEffects.SkipExactly | src/chain.cpp:71-82 | From an even height a skip pointer goes back by the largest power of two that divides it; from an odd one to one above where two such steps from the height below lead. |
| BlockIndexEffects.LowBitDivides | src/chain.cpp:70-71 | What is taken off is a power of two that divides the number, and twice it does not. |
| BlockIndexes.BlockIndex.GetAncestor | src/chain.cpp:84-108 | The walk by skip pointers ends at the block that the plain walk ends at, for every height. |
| BlockIndexes.BlockIndex.BuildSkip | src/chain.cpp:115-119 | A block linked to its parent gets a right skip pointer, so that every tree grown so is right. |
| BlockIndexes.LastCommonAncestor | src/chain.cpp:153-170 | The highest block that both have in their pasts. |
| BlockIndexes.Chain.SetTip | src/chain.cpp:12-22 | The early stop leaves the chain as exactly the path from the first block to the tip. |
| BlockIndexes.Chain.FindFork | src/chain.cpp:52-61 | A block of the branch such that a block of the branch is in the chain exactly if it is not higher, or null if none is. |
| BlockIndexes.Chain.GetLocator | src/chain.cpp:24-50 | The blocks at the locator heights of the branch. |
| BlockIndexes.LocatorFalls | src/chain.cpp:24-50 | Locator heights fall strictly and end with the first block. |
| BlockIndexEffects.LocatorExactly | src/chain.cpp:24-50 | Entry i of a locator is i below the start up to i = 11 and 9 + 2^(i - 10) below it from there on, but not below 0, and exactly the last one is at 0. |
| BlockIndexEffects.LocatorIsShort | src/chain.cpp:24-50 | A locator has at most eleven more entries than the height has bits. |
| Base58.DecodeEncode | src/base58.cpp:22-110 | The bytes of an encoded byte string are that byte string, leading zeroes included. |
| Base58.EncodeDecode | src/base58.cpp:22-110 | The encoding of the bytes of a word of the alphabet is that word. |
| Base58.RoundTrip | src/base58.cpp:22-110 | Decoding an encoded byte string succeeds and gives it back. |
| Base58.WordRoundTrip | src/base58.cpp:22-110 | Every word of the alphabet is decoded, to bytes that encode to it. |
| Base58.CStringRoundTrip | src/base58.cpp:112-121 | The same through a C string: no letter is NUL. |
| Base58.AcceptedStrings | src/base58.cpp:22-59 | Accepted are exactly the strings that are one word of the alphabet, with spaces around it or not, up to the first NUL. |
| Base58.EncodeFits | src/base58.cpp:82-82 | A buffer of n * 138 / 100 + 1 digits holds every number of n bytes, for every n. |
| Base58.DecodeFits | src/base58.cpp:35-35 | A buffer of n * 733 / 1000 + 1 bytes holds every number of n digits, for every n. |
| Base58.LettersAre | src/base58.cpp:20-20 | The alphabet has the digits and letters but 0, O, I and l, in the order of their codes. |
| Base58.Examples | src/base58.cpp:72-110 | Two byte strings and their encodings. |
| Base58Coding.Apply | src/base58.cpp:86-96 | The loop over the buffer multiplies by one base and adds a digit; the carry is zero at the end. |
| Base58Coding.EncodeBase58 | src/base58.cpp:72-110 | The result is the encoding. |
| Base58Coding.DecodeBase58 | src/base58.cpp:22-70 | The result is what decoding gives, on every C string. |
| Base58Coding.DecodeString | src/base58.cpp:117-120 | A string is read up to its first NUL. |
| CompactBlocks.PlacedFree | src/blockencodings.cpp:59-75 | No prefilled transaction overwrites another, so as many slots stay free as there are short ids. |
| CompactBlocks.PlacedAt | src/blockencodings.cpp:59-74 | Each prefilled transaction is at its own position, which is within the block. |
| CompactBlocks.IdsLead | src/blockencodings.cpp:81-86 | The i-th short id is mapped to the position of the i-th slot that is not prefilled, modulo 2^16. |
| CompactBlocks.SixteenBits | src/blockencodings.cpp:81-86 | All positions fit in sixteen bits exactly if there are at most 65536 transactions. |
| CompactBlocks.LeadsExactly | src/blockencodings.cpp:81-86 | The short ids lead to the slots they were given for exactly if there are at most 65536 transactions. |
| CompactBlocks.SearchHasNoEnd | src/blockencodings.cpp:82-85 | Every slot that the first search can come to, with its offset in sixteen bits, is prefilled exactly if 65536 transactions are; more cannot be. |
| CompactBlocks.ScanSound | src/blockencodings.cpp:105-164 | With at most 65536 transactions, through all duplicates, resets and early exits: prefilled slots are left alone, a filled slot holds a known transaction of its short id, and the count is that of the filled slots. |
| CompactMatches.SlotsExactly | src/blockencodings.cpp:105-164 | After the scan the slot of a short id holds the one transaction that pool and spare ones have for it; it is empty if they have none, two in the pool, or a spare one that differs. Pool and spare ones are looked at to their ends unless all slots are filled. |
| CompactMatches.ReceptionExactly | src/blockencodings.cpp:49-103 | Which messages are invalid, which fail and which are accepted. |
| CompactBlocks.CountInRange | src/blockencodings.cpp:116-132 | The count of filled slots is never negative, and is full only if every slot is filled. |
| CompactRelay.SentEncodes | src/blockencodings.cpp:19-29 | What the sender makes of a block tells of that block. |
| CompactRelay.FilledSlotsAgree | src/blockencodings.cpp:49-169 | If short ids are free of collisions over the block, the pool and the spare transactions, every filled slot holds the block's own transaction. |
| CompactRelay.LastGoesAstray | src/blockencodings.cpp:81-132 | In a block of more than 65536 transactions the last one, if the receiver has it, is put into a slot that is not its own. |
| CompactRelay.AgreesExactly | src/blockencodings.cpp:49-169 | Without collisions, filled slots agree with the block for every pool and all spare transactions exactly if it has at most 65536 transactions. |
| CompactRelay.FirstOverwritten | src/blockencodings.cpp:49-132 | A message that is accepted, and a pool of one transaction, which replaces the prefilled first one. |
| CompactRelay.OnlyUnknownMissing | src/blockencodings.cpp:49-169 | Then a slot stays empty exactly if its transaction was neither prefilled nor in the pool nor among the spare ones. |
| CompactRelay.Rebuilt | src/blockencodings.cpp:177-198 | Filling slots that agree with a block gives the block exactly if the transactions given are those missing, in order. |
| CompactRelay.HonestAccepted | src/blockencodings.cpp:49-103 | A message that tells of a block without repeats or collisions, within the limit, is accepted unless a bucket gets too long. |
| CompactRelay.RelayRoundTrip | src/blockencodings.cpp:19-198 | A block that is sent, received with any pool and spare transactions, and completed with what is missing, is the block that was sent. |
| PartialBlocks.HeaderAndShortIds | src/blockencodings.cpp:19-29 | The loop over the transactions makes the message. |
| PartialBlocks.PartiallyDownloadedBlock.PlacePrefilled | src/blockencodings.cpp:57-75 | The loop accepts exactly if every prefilled transaction fits, and never writes out of bounds. |
| PartialBlocks.PartiallyDownloadedBlock.MapShortIds | src/blockencodings.cpp:81-99 | Unless 65536 transactions are prefilled, the loop with the running offset ends, maps each short id to its slot modulo 2^16, never reads out of bounds, and fails exactly if a bucket gets too long. |
| PartialBlocks.PartiallyDownloadedBlock.LookThrough | src/blockencodings.cpp:105-164 | The loop over the pool, or the spare transactions, leaves the slots and the count as on values, for any map of ids to slots; the count does not underflow. |
| PartialBlocks.PartiallyDownloadedBlock.InitData | src/blockencodings.cpp:49-169 | For blocks of any size, unless the search has no end, the status is exactly determined by the message; if it is accepted the slots are those of the whole scan. |
| PartialBlocks.PartiallyDownloadedBlock.FillBlock | src/blockencodings.cpp:177-218 | With as many transactions as empty slots the block is filled in order and the status is that of checking it; with too few or too many it is refused. |
| PartialBlocks.Relay | src/blockencodings.cpp:19-218 | Sending, receiving, asking for what is missing and filling in gives the block. |
| MessageFraming.ParseStream | src/net.cpp:728-778 | Messages put one after the other are read back, whatever follows. What a header announces is `MessageSending.HeaderSize`. |
| MessageSending.HeaderSize | src/protocol.cpp:92-99 | The size read from a header is the one it was written with, modulo 2^32. |
| MessageSending.ParseSent | src/net.cpp:2829-2841 | Messages within the limit that are sent one after the other are read back, one for one. |
| MessageSending.TooLargeIsRefused | src/net.cpp:754-757 | A message beyond the limit is refused by its header. |
| MessageSending.CommandRoundTrip | src/protocol.cpp:101-104 | The command is read as it was sent, if it fits and has no zero in it. |
| MessageFraming.NothingLost | src/net.cpp:728-778 | The messages read and the rest are the stream, byte for byte. |
| MessageFraming.ChunksDoNotMatter | src/net.cpp:728-778 | A stream read in chunks is read as a whole. |
| MessageFraming.SplitIndependent | src/net.cpp:728-778 | Two ways of splitting a stream give the same messages, payload for payload, the same failure and the same rest. |
| MessageFraming.FailureStays | src/net.cpp:754-757 | After a failure nothing more is read. |
| Connections.CompleteIsFramed | src/net.cpp:838-853 | A complete message is one framed message: the buffer, allocated ahead in steps, has exactly the payload, and so has the hasher. |
| Connections.NetMessage.ReadHeader | src/net.cpp:807-836 | Bytes of the header are taken in order; a size above the limit is refused. |
| Connections.NetMessage.ReadData | src/net.cpp:838-853 | Bytes of the payload are taken in order, up to the size. |
| Connections.Node.ReceiveMsgBytes | src/net.cpp:728-778 | A chunk adds the messages that the stream so far and the chunk have, and is refused exactly if the stream fails. |
| Connections.Node.Receive | src/net.cpp:1350-1371 | A chunk takes the node from what it received before to what the stream with the chunk gives; complete messages are handed over in order. |
| Connections.ReceiveAll | src/net.cpp:728-778 | A stream received in any chunks leaves the node with the messages, the failure and the rest of the whole stream. |
| MessageSending.Deliver | src/net.cpp:728-778 | Messages that are sent and arrive in any chunks are handed over by the receiving node, one for one and in order. |

## Left out

- AddrOps.AddStores: states the effect for unknown addresses only; the effect for known ones is `AddrOps.AddAgain`.
- AddrManager.AddrMan.Unserialize: does not state the partly read state that an exception leaves behind.
- Miner.BlockAssembler.AddPackageTxs: compares scores as exact products, where the source rounds them to double precision; promises about fees assume that no fee was modified by hand, since the code subtracts the plain fee in one place and the modified one in another (`BlockAccount.FeesDrift`).
- RollingBloomFilters.RollingBloomFilter.constructor: takes the number of hash functions and of filter bits as given, since they come from floating-point formulas.
- MerkleStream.ComputeMerkleRoot: covers at most 2^31 leaves, beyond which the 32-bit count of the source would wrap; leaves out the branch that can be computed along with the root.
- PartialBlocks.PartiallyDownloadedBlock.InitData: leaves out messages with 65536 prefilled transactions and short ids, for which the source does not return (`CompactBlocks.SearchHasNoEnd`); takes the test of bucket sizes as given; leaves out the empty entries of the ring of spare transactions and the statistic `extra_count`.
- PartialBlocks.PartiallyDownloadedBlock.MapShortIds: leaves out the same messages, for which its loop does not end.
- CompactRelay.RelayRoundTrip: covers short ids made from witness hashes, as the receiver makes them.
- `Select_` and `GetChance` of the address manager: the choice is made in floating point and its loops end only with probability one.
- Limits on time and size types outside the 256-bit arithmetic: 32-bit and 64-bit counters are taken as unbounded where they cannot be reached.
- Assets caches, best-block hashes and the batching of database writes in the coin views: they do not touch the coins.
- The coinbase transaction, the block header and the fee-rate output of the block assembler; mempool internals, which give exact ancestor totals.
- Sockets, disconnection policy, byte counters per command, checksums and message processing: only framing is modelled.
- The contents of `CheckBlock`: its answer is a parameter of FillBlock.
- `CheckProofOfWork`, `GetBlockProofEquivalentTime`, `FindEarliestAtLeast`, hexadecimal and floating-point conversions of 256-bit numbers: they would only add easy members.
- Stopping the check queue: the flag for it is never set in the source.
- Signature, transaction and script hashing, Murmur, SipHash and SHA-256: arbitrary functions.
