# Verified model of the bucket map, the Bloom filters and three smaller algorithms

The project models five parts of the repository and proves what they promise.

- **The bucket map** (`bucket_map/`), an on-disk hash index that is to behave like a plain map from a
  public key to a list and a reference count. A bucket is an open-addressed index with a bounded probe
  window and a vector of data storages, where `data[b]` holds the lists of at most `2^b` elements. Index
  growth rehashes under a new seed. Data growth copies cell `i` to cell `i << increment` and leaves the
  index entries alone. Growth may be computed under a read lock and is swapped in by the next writer.
- **The Bloom filter and its lock-free twin** (`bloom/`).
- **The ordering of crates for publishing** (`ci/order-crates-for-publishing.py`).
- **The decimal printer of token amounts** (`account-decoder/src/parse_token.rs`).
- **The block-production statistics** (`cli/src/cluster_query.rs`).

## How it is built

The bucket map is modelled twice. The modules `Storage`, `IndexEntry`, `IndexTable`, `IndexGrowth`,
`DataCells`, `DataOps`, `BucketModel`, `BucketGrowth` and `BucketInsert` define a bucket and its
operations on values. The classes in `BucketStorage`, `Bucket` and `BucketApi` do the same work in place,
with arrays of cells, shared counters, and the loops of the source, and each method is proved to compute
what the function on values computes. All the laws are proved about the values.
`BucketApi.BucketApi.PerformRun` carries them over to whole runs on the object.

The meaning of a bucket is given in two steps: the occupied index cells are a set of entries
(`IndexTable.Entries`), and the entries with the data storages are a plain map
(`BucketModel.Map`). `BucketModel.Inv` is the invariant of every reachable bucket: entries in their probe
windows, keys unique, locks equal to the key's uid, lists in cells that no other entry owns, a pending
growth that holds what the live storage holds.

The main results:

- `BucketRuns.EveryRunRefinesThePlainMap` and `BucketMap.EveryMapRunRefinesThePlainMap`: after every run
  of insert, update, delete, addref, unref, try_write and grow, on one bucket and on the map of buckets,
  reading any key gives what the plain map holds. Every answer is one that the plain map allows
  (`BucketRuns.Answers`): counts are exact; a list that stays in its data storage is always written; the
  index is full only for an absent key; with a window of two or more, the insertion of a known key ends
  within two rounds. `BucketRefinement.TryWriteOutcome` gives the outcome of a write exactly.
- `Ownership.RunRefusesOnlyWhenFull`: after every run a write is refused only if the plain map, with the
  cells lost before, fills the window that was searched.
- `Ownership.RunConservesCells` and `Ownership.RunLeavesAllCellsOwnedIff`: what every data storage counts
  after any run, and exactly when all its allocated cells belong to a key.
- `BucketInsert.InsertOfKnownKeyEnds`, `BucketInsert.InsertBelowWindowEnds` and
  `BucketInsert.InsertGrowsDataOnce`: progress of the retry loop of insert with a window of two or more.
  `Limits.InsertWithOneProbeMayGoOn`: a window of one is not enough, for any number of rounds.
  `IndexGrowth.RehashSucceeds` says when a rehash cannot fail, and `Limits.SharedWindowInsertGoesOn` when
  growing the index does not help.
- `ConcurrentBloom.EveryInterleavingIsSequential`: all interleavings of concurrent additions set the same
  bits as adding one after the other.
- `CrateOrder.OrderPackages`: the ordering succeeds exactly on the acyclic graphs.
- `TokenAmount.PaddedIsExact` and `TokenAmount.TrimmedIsExact`: both printed forms denote exactly
  `amount / 10^decimals`.
- `BlockProduction.ShowBlockProduction`: the columns add up, with the exact condition, which holds on the
  slot-history path (`BlockProduction.ReportFromHistory`).

## Modelling choices

- The two hash functions of a bucket are arbitrary functions (`Env.keyHash`, `Env.indexHash`); uids are
  not zero and may collide. The hash function of the Bloom filters is arbitrary.
- Random values are parameters: the start of the search for a data cell (`pos`), the seed of a new bucket
  (`seed`), the seeds tried by an index growth (`seeds`). A `Choice` holds the random values of one round
  of insert.
- `grow_index` and `insert` need not end in the source. The model gives them the random values they may
  use, and they report when these are used up (`None`, `Unfinished`). What they have done up to there is
  specified too.
- Reference counts wrap around at 2^64 in addref and unref, as in a release build.
- Sizes of storages are unbounded naturals. `Packing` ties them to `PackedStorage`: as long as no data
  storage has more than 2^56 cells, every place fits into its word.
- `ceil(log2(n))` is computed on integers, with 0 for the empty list. The source computes it with `f64`,
  which is exact for the list lengths that fit in memory.
- An operation under the write lock is one step. `grow` under the read lock is a step of its own.
- Machine words of the atomic filter are sequences of 64 bits.
- `BucketGrowth.GrowAllowed` is the precondition of a grow step in a run. It has two parts. The pending slot
  accepts one growth at a time, which the source asserts (`bucket_map/src/bucket.rs:46-54`). A data growth
  must not be smaller than the storage it replaces; there the source subtracts the two `u8` capacities
  unchecked (`bucket_map/src/bucket_storage.rs:329`), which panics in a debug build and wraps around in a
  release build. Both can be violated by a caller: see `Limits.TwoGrowthsInARow` and
  `Limits.StaleGrowthRefused`. They cannot by the growth that follows the write whose error it is given.

## Where the code differs from its comments

A comment at `bucket_map/src/bucket_map.rs:261` says that writing an empty list over a list that was
emptied in place leaves no allocation in the data storage. The code does something else. The lengths 0 and
1 have the same data bucket, so emptying a list of one element takes the in-place branch
(`bucket_map/src/bucket.rs:264-271`), which sets the length to 0 and leaves the cell locked. Later writes
and deletions free a cell only if the length is not 0, so the cell is never given back.
`Ownership.EmptyingInPlaceLeaks` gives a run. `Ownership.RunLeavesAllCellsOwnedIff` gives the condition:
all allocated cells are owned after a run if and only if the run never wrote the empty list over a list of
one element. The meaning of the map is not affected.

## Model

| member | source | states |
|---|---|---|
| `Arithmetic.CeilLog2` | bucket_map/src/index_entry.rs:60-62 | a list of `n` elements fits into `2^b` where `b` is its data bucket |
| `Arithmetic.CeilLog2Least` | bucket_map/src/index_entry.rs:60-62 | no smaller data bucket would hold it |
| `IndexEntry.DataBucketIsLeast` | bucket_map/src/index_entry.rs:60-66 | the data bucket of a list is the least `b` with `n <= 2^b`, in both directions |
| `Storage.Blank` | bucket_map/src/bucket_storage.rs:99-119 | a new storage has no allocated cell and counts none |
| `Storage.ProbeFree` | bucket_map/src/bucket.rs:277-280 | the search returns a free cell of the window, and fails only if every cell of the window is allocated |
| `Storage.ProbeFreeIsFirst` | bucket_map/src/bucket.rs:277-280 | the cell returned is the first free one in probe order |
| `Storage.SlotNext` | bucket_map/src/bucket.rs:155-156 | each probe is one cell after the one before, and the first cell follows the last |
| `Storage.AllocateKeepsValid` | bucket_map/src/bucket_storage.rs:184-201 | allocating a free cell keeps the counter equal to the number of allocated cells, and adds exactly that cell |
| `Storage.FreeKeepsValid` | bucket_map/src/bucket_storage.rs:203-208 | freeing an allocated cell never underflows the counter, and removes exactly that cell |
| `Storage.ResizedImage` | bucket_map/src/bucket_storage.rs:324-346 | cell `i` is found, lock and contents intact, at `i << increment`, within the new capacity |
| `Storage.ResizedOccupiedIsImage` | bucket_map/src/bucket_storage.rs:324-346 | every allocated cell of the larger storage is the image of an allocated cell, so all the others are free |
| `Storage.SpreadOccupied` | bucket_map/src/bucket_storage.rs:324-346 | the allocated cells of the larger storage are exactly the images of the old ones |
| `Storage.ResizedKeepsValid` | bucket_map/src/bucket_storage.rs:349-378 | the shared counter is right for the larger storage too |
| `Storage.DoubledHasFreeNeighbour` | bucket_map/src/bucket_storage.rs:324-346 | after doubling, of any two consecutive cells, wrapping, one is free, from any start |
| `Storage.FullWindowIsLarge` | bucket_map/src/bucket.rs:187-209 | a search that fails has seen as many allocated cells as its window, or the storage, is long |
| `IndexEntry.KeyUid` | bucket_map/src/index_entry.rs:102-106 | the hash of the key, with 1 in the place of 0, so never the value of an unlocked header |
| `IndexEntry.DataLocInRange` | bucket_map/src/index_entry.rs:82-84 | a location recomputed at a larger capacity is a cell of the storage |
| `IndexEntry.DataLocAfterGrowth` | bucket_map/src/index_entry.rs:82-84 | the location at the new capacity is the cell that growth copies the old location to, through any number of growths |
| `IndexEntry.PackedWord` | bucket_map/src/index_entry.rs:29-36 | the capacity is the low byte of the word, the offset the seven others |
| `IndexEntry.SetPackedCapacity` | bucket_map/src/index_entry.rs:46-52 | setting the capacity leaves the packed offset alone, and is read back |
| `IndexEntry.SetPackedOffset` | bucket_map/src/index_entry.rs:54-58 | an offset is accepted exactly if it fits 56 bits; then it is read back and the capacity is left alone |
| `IndexTable.Home` | bucket_map/src/bucket.rs:429-440 | the probe start is an index cell |
| `IndexTable.HomeIsHash` | bucket_map/src/bucket.rs:429-440 | the probe start is congruent to the hash of uid and seed modulo the capacity |
| `IndexTable.ProbeKey` | bucket_map/src/bucket.rs:149-185 | a hit holds the key; a miss means that no allocated cell of the window holds it, whatever free cells lie between |
| `IndexTable.FindVacancy` | bucket_map/src/bucket.rs:187-209 | the cell for a new key is free and in the window of the key; there is none only if the whole window is allocated |
| `IndexTable.VacancyIff` | bucket_map/src/bucket.rs:187-209 | a new key is refused if and only if its window is full, and otherwise gets the first free cell of the window |
| `IndexTable.FindsStoredKey` | bucket_map/src/bucket.rs:149-185 | the lookup of the key of any allocated cell returns that very cell |
| `IndexTable.FindIffStored` | bucket_map/src/bucket.rs:149-185 | a lookup succeeds exactly for the keys that are stored, and returns the entry of the key |
| `IndexTable.EntryCount` | bucket_map/src/bucket_api.rs:74-76 | there are as many entries as allocated cells |
| `IndexTable.Added` | bucket_map/src/bucket.rs:187-209 | creating a key keeps the index invariant and adds exactly the new entry |
| `IndexTable.Removed` | bucket_map/src/bucket.rs:304-318 | freeing an index cell, without a tombstone, keeps the invariant and hides no other entry |
| `IndexTable.Rewritten` | bucket_map/src/bucket.rs:239-302 | rewriting the entry of a key replaces that entry and no other |
| `IndexGrowth.RehashKeepsEntries` | bucket_map/src/bucket.rs:335-376 | when a rehash succeeds, every entry is in its window under the new seed, and there are exactly the old entries |
| `IndexGrowth.RehashFailsOnFullWindow` | bucket_map/src/bucket.rs:335-376 | a rehash fails only at an entry whose window is full of entries placed before it |
| `IndexGrowth.RehashSucceeds` | bucket_map/src/bucket.rs:335-376 | with no more entries than the window, or the new table, is long, a rehash succeeds under every seed |
| `IndexGrowth.RegrowSucceeds` | bucket_map/src/bucket.rs:320-382 | with no more keys than the window is long, the first seed will do, one size up |
| `IndexGrowth.RegrowIsFirstSuccess` | bucket_map/src/bucket.rs:320-382 | attempt `k` uses the `k`-th seed and is `k` sizes larger than the first; the first attempt that succeeds is taken |
| `IndexGrowth.RegrowKeepsMeaning` | bucket_map/src/bucket.rs:320-382 | after any number of failed attempts the grown index has the old entries, the old count and a larger capacity |
| `IndexGrowth.RegrowFindsEveryKey` | bucket_map/src/bucket.rs:354-360 | the lookup under the new seed finds every old key, with its lock and entry unchanged |
| `Packing.AllOffsetsFitIff` | bucket_map/src/index_entry.rs:54-58 | every cell of a storage is accepted as an offset if and only if the storage has at most 2^56 cells |
| `Packing.EntryPacks` | bucket_map/src/index_entry.rs:46-58 | with storages of at most 2^56 cells, offset and capacity of every entry of a bucket are accepted and read back |
| `Packing.MovedEntryPacks` | bucket_map/src/bucket.rs:283-284 | a write that moves a list is not stopped by its offset, and the word then holds the new entry |
| `Packing.RunPacks` | bucket_map/src/index_entry.rs:46-58 | the same for every entry after any run |
| `DataCells.StoredList` | bucket_map/src/index_entry.rs:86-100 | the list of an entry is the front of its cell, and the cell is long enough |
| `DataCells.Join` | bucket_map/src/bucket.rs:286-298 | an entry whose cell nobody owns joins without disturbing the others, and adds its value to the meaning |
| `DataCells.Leave` | bucket_map/src/bucket.rs:304-318 | an entry leaves with its key only, and its cell is owned by nobody afterwards |
| `DataOps.Overwritten` | bucket_map/src/bucket.rs:264-271 | the in-place write changes the value of its key and of no other key, and keeps cells apart |
| `DataOps.Released` | bucket_map/src/bucket.rs:304-318 | freeing the cell of an entry drops its key and leaves every other list as it was |
| `DataOps.Filled` | bucket_map/src/bucket.rs:286-298 | a list written to a free cell becomes the value of its key, and no other value changes |
| `DataOps.Recounted` | bucket_map/src/bucket.rs:211-221 | a new reference count changes nothing else |
| `DataOps.GrownOne` | bucket_map/src/bucket.rs:414-427 | for an untouched entry, the recomputed location in the grown storage is the copied cell, with the same lock and list |
| `DataOps.Grown` | bucket_map/src/bucket.rs:393-427 | growing a storage keeps ownership and the meaning of the bucket |
| `DataOps.Appended` | bucket_map/src/bucket.rs:393-410 | filler storages change no value |
| `BucketModel.CreatedMeans` | bucket_map/src/bucket.rs:223-231 | creating an absent key gives it an empty list and count 0, and keeps the invariant |
| `BucketRefinement.ReadValueIsLookup` | bucket_map/src/bucket.rs:233-237 | reading a key is looking it up in the plain map, for every key |
| `BucketRefinement.InPlaceMeans` | bucket_map/src/bucket.rs:264-271 | the in-place branch is a put into the plain map |
| `BucketRefinement.ElsewhereMeans` | bucket_map/src/bucket.rs:272-298 | freeing the old cell and writing another is the same put |
| `BucketRefinement.TryWriteMeans` | bucket_map/src/bucket.rs:239-302 | success is a put; a missing data bucket or a full index changes nothing at all; a full data bucket changes only the count of the key (an absent key appears with an empty list); the error names the right storage and capacity |
| `BucketRefinement.TryWriteOutcome` | bucket_map/src/bucket.rs:239-302 | exactly when a write succeeds and exactly which error it gives, from what is stored: missing storage; absent key with a full window; list that must move and no free cell among those searched |
| `BucketRefinement.TryWritePlaces` | bucket_map/src/bucket.rs:277-296 | a list that moves goes to the first free cell from the random start, locked by the uid of its key |
| `BucketRefinement.TryWriteAnswers` | bucket_map/src/bucket.rs:239-302 | a list that stays in its data storage is always written; a full index is reported only for an absent key; the error names the storage of the new list, and calls it missing only if it lies beyond the one the key uses |
| `BucketRefinement.RefusedWriteLeaksNothing` | bucket_map/src/bucket.rs:264-271 | writing the empty list over a list of one element never fails |
| `BucketRefinement.DeleteKeyMeans` | bucket_map/src/bucket.rs:304-318 | deleting removes exactly that key, and keeps the invariant |
| `BucketRefinement.BumpMeans` | bucket_map/src/bucket.rs:211-221 | addref and unref change the count of that key only, by exactly one up to wrap-around, and return the new count, or nothing for an absent key |
| `BucketModel.Bumped` | bucket_map/src/bucket.rs:211-221 | the sum if it is a 64-bit number, else what wraps around |
| `BucketBooks.TryWriteBalances` | bucket_map/src/bucket.rs:239-302 | the counters of index and data follow the plain map, apart from one lost cell of `data[0]` when a one-element list is emptied |
| `BucketBooks.RefusedWriteFoundItFull` | bucket_map/src/bucket.rs:239-302 | a full index or data storage holds as many lists, lost cells included, as the window or the storage is long; a missing one holds none |
| `BucketBooks.DeleteKeyBalances` | bucket_map/src/bucket.rs:304-318 | deleting loses no cell |
| `BucketBooks.BumpBalances` | bucket_map/src/bucket.rs:211-221 | counting references moves no cell |
| `BucketGrowth.GrownPow2` | bucket_map/src/bucket.rs:414-427 | one more than the current size, or the default if that is larger |
| `BucketGrowth.GrowMeans` | bucket_map/src/bucket.rs:444-455 | computing a growth leaves the live storages alone; what is pending holds the same entries or cells as the live storage |
| `BucketGrowth.GrowInstalls` | bucket_map/src/bucket.rs:414-455 | a stale index error is ignored, otherwise the pending index is the first attempt that succeeds; a pending data storage has the new size and holds the images of the live cells, or nothing if there was no storage |
| `BucketGrowth.DataSwapInstalls` | bucket_map/src/bucket.rs:393-410 | the new storage is at its place, the others stay, and what was missing below it is empty and of the default size |
| `BucketGrowth.DataSwapMeans` | bucket_map/src/bucket.rs:393-410 | swapping a data storage in, with fillers if needed, keeps every value |
| `BucketGrowth.DelayedGrowsMean` | bucket_map/src/bucket.rs:458-472 | applying what is pending never changes the plain map or the length, and leaves nothing pending |
| `BucketGrowth.DelayedGrowsBalance` | bucket_map/src/bucket.rs:458-472 | applying what is pending keeps the books |
| `BucketInsert.FreshErrorAllowed` | bucket_map/src/bucket.rs:474-486 | the growth asked for by a write that has just failed trips no assertion |
| `BucketInsert.InsertRefines` | bucket_map/src/bucket.rs:474-486 | over any number of rounds, insert is a put once it ends, and before that has at most set the count of the key |
| `BucketInsert.InsertBalances` | bucket_map/src/bucket.rs:474-486 | over any number of rounds, insert loses one cell exactly if it writes the empty list over a list of one element |
| `BucketInsert.GrownIsRoomy` | bucket_map/src/bucket.rs:414-427 | a doubled or new data storage has a free cell in every window of two |
| `BucketInsert.RoomyWriteOnlyFailsInIndex` | bucket_map/src/bucket.rs:239-302 | with room in the data storage a write fails only for an absent key whose window is full |
| `BucketInsert.RoomAfterDataGrowth` | bucket_map/src/bucket.rs:474-486 | after a write that failed for lack of data cells, one growth makes room for every start position |
| `BucketInsert.InsertGrowsDataOnce` | bucket_map/src/bucket.rs:474-486 | one insert grows its data storage at most once |
| `BucketInsert.InsertDoublesAtMostOnce` | bucket_map/src/bucket.rs:474-486 | over any number of rounds, insert makes the storage of its list at most one size larger, and no other storage |
| `BucketInsert.InsertOfKnownKeyEnds` | bucket_map/src/bucket.rs:474-486 | with a window of at least two, insert of an indexed key ends after at most one growth, whatever the random values |
| `BucketInsert.InsertAnswersHold` | bucket_map/src/bucket.rs:474-486 | what the plain map decides about the end of insert: one round if the list stays in its storage, two if the key is there and the window is two or more |
| `BucketInsert.VacancyBelowWindow` | bucket_map/src/bucket.rs:187-209 | while there are fewer keys than the window is long, every key finds a free index cell |
| `BucketInsert.InsertWithVacancyEnds` | bucket_map/src/bucket.rs:474-486 | with a free cell in its window, insert of any key ends after at most one growth |
| `BucketInsert.InsertBelowWindowEnds` | bucket_map/src/bucket.rs:474-486 | in that case insert of any key ends after at most one growth |
| `BucketInsert.IndexRoundGrows` | bucket_map/src/bucket.rs:474-486 | a round that finds the window full, with no more keys than the window is long, grows the index under its first seed and changes nothing else |
| `BucketInsert.InsertEndsAfterIndexGrowth` | bucket_map/src/bucket.rs:474-486 | if the grown index has a free cell in the window of the key, insert ends within two more rounds |
| `BucketInsert.IndexGrowthEnlarges` | bucket_map/src/bucket.rs:384-387 | an index growth, once applied, leaves a strictly larger index with the same plain map |
| `BucketInsert.OneProbeMayStillFail` | bucket_map/src/bucket.rs:277-280 | a window of one is not enough: doubling leaves the image of an allocated cell allocated |
| `BucketEnumeration.KeysListTheMap` | bucket_map/src/bucket.rs:105-115 | the keys listed are exactly the keys of the plain map, each once |
| `BucketEnumeration.KeysInCellOrder` | bucket_map/src/bucket.rs:105-115 | the keys come in the order of their cells |
| `BucketEnumeration.ItemsListTheMap` | bucket_map/src/bucket.rs:117-139 | the items listed are exactly the keys in range with their current list and count, each once |
| `BucketEnumeration.ItemsFollowKeys` | bucket_map/src/bucket.rs:117-139 | the items come in the order of the keys |
| `BucketRuns.NewBucketIsEmpty` | bucket_map/src/bucket.rs:80-103 | a new bucket is the empty map, with an index of 32 cells, no data storage and nothing pending |
| `BucketRuns.CountsUpAndDown` | bucket_map/src/bucket.rs:211-221 | on 64-bit counts, what addref and unref lead to, with the wrap-around at both ends, and that they undo each other |
| `BucketRuns.CountRefines` | bucket_map/src/bucket.rs:211-221 | addref stores and returns the count plus one, unref the count minus one |
| `BucketRuns.GateOpens` | bucket_map/src/bucket_api.rs:85-99 | taking the write lock leaves nothing pending and does not change the plain map |
| `BucketRuns.UpdateRefines` | bucket_map/src/bucket.rs:488-501 | update is a read, the caller's function, and a put or a removal, and ends when the plain map says so |
| `BucketRuns.StepRefines` | bucket_map/src/bucket_api.rs:44-141 | every operation keeps the invariant, does to the bucket what it does to the plain map, and gives an answer that the plain map allows |
| `BucketRuns.StepBalances` | bucket_map/src/bucket_api.rs:44-141 | every operation keeps the books |
| `BucketRuns.RunRefines` | bucket_map/src/bucket_map.rs:365-521 | the same over any run, from any reachable state |
| `BucketRuns.RunBalances` | bucket_map/src/bucket_map.rs:365-521 | the counters follow the plain map over any run |
| `BucketRuns.EveryRunRefinesThePlainMap` | bucket_map/src/bucket_map.rs:365-521 | after every run from nothing, any key reads as in the plain map, the length is its size, and the plain map allows every answer: exact counts, and the outcomes of writes as far as it decides them |
| `Ownership.OwnedCellIsLocked` | bucket_map/src/bucket.rs:259-318 | a cell that an entry owns is locked by the uid of its key |
| `Ownership.AllCellsOwnedIffNoLeak` | bucket_map/src/bucket.rs:264-271 | the allocated cells are exactly the owned ones if and only if nothing has been lost |
| `Ownership.RunLeavesAllCellsOwnedIff` | bucket_map/src/bucket.rs:264-271 | after a run all allocated cells are owned if and only if the run never wrote the empty list over a list of one element |
| `Ownership.RunConservesCells` | bucket_map/src/bucket.rs:259-318 | after a run `data[c]` counts the keys whose lists belong to `c`, plus for `data[0]` the lists emptied in place |
| `Ownership.RunRefusesOnlyWhenFull` | bucket_map/src/bucket.rs:239-302 | after any run a write is refused only for want of space, as the plain map and the lost cells show |
| `Ownership.RunKeepsCellsApart` | bucket_map/src/bucket.rs:259-318 | after a run no two entries own the same cell |
| `Ownership.EmptyingInPlaceLeaks` | bucket_map/src/bucket.rs:264-271 | the run of two inserts that loses a cell |
| `Ownership.RunKeepsOnePending` | bucket_map/src/bucket.rs:46-62 | after a run at most one growth is pending, and the counter is 1 exactly if one of the two slots is filled |
| `Ownership.GrowthAfterFailedWriteAllowed` | bucket_map/src/bucket_api.rs:118-141 | a grow that follows the write whose error it is given trips no assertion |
| `Limits.GrowthRefusedIff` | bucket_map/src/bucket.rs:46-54 | exactly when a growth cannot be computed: another one is pending, or the live data storage is larger than what is asked for |
| `Limits.SecondGrowthRefused` | bucket_map/src/bucket.rs:46-54 | the growth that a failed write asks for can be computed once, not twice, before the next write |
| `Limits.TwoGrowthsInARow` | bucket_map/src/bucket.rs:46-54 | a run from nothing, one write and two growths, whose second growth trips the assertion |
| `Limits.StaleGrowthRefused` | bucket_map/src/bucket_storage.rs:324-330 | an error from before the last growth of its storage asks for a storage smaller than the live one |
| `Limits.WindowOfOneGoesOn` | bucket_map/src/bucket.rs:474-486 | with a window of one, start positions that follow an allocated cell keep insert of a known key going for any number of rounds |
| `Limits.InsertWithOneProbeMayGoOn` | bucket_map/src/bucket.rs:474-486 | such a bucket is reached by two inserts |
| `Limits.SharedWindowInsertGoesOn` | bucket_map/src/bucket.rs:474-486 | if all keys hash to one window and it is full, insert of a new key never ends, whatever the random values |
| `Limits.FirstKeyKeepsOthersOut` | bucket_map/src/bucket.rs:474-486 | such a bucket is reached by one insert, with a window of one |
| `BucketMap.BigEndian` | bucket_map/src/bucket_map.rs:179-182 | the number of `n` bytes is below `256^n` |
| `BucketMap.BigEndianOrder` | bucket_map/src/bucket_map.rs:179-182 | the first byte that differs decides the order of the numbers |
| `BucketMap.LeadingBytesReadBack` | bucket_map/src/bucket_map.rs:179-182 | each of the first eight bytes of a key can be read back from its number |
| `BucketMap.BucketIx` | bucket_map/src/bucket_map.rs:154-161 | every key names an existing bucket, also with a single bucket |
| `BucketMap.BucketHoldsInterval` | bucket_map/src/bucket_map.rs:154-161 | the keys of a bucket are one interval, and all intervals have the same length |
| `BucketMap.OneMoreBit` | bucket_map/src/bucket_map.rs:154-161 | with twice the buckets, each bucket splits in two by the next bit of the number |
| `BucketMap.FinestRouting` | bucket_map/src/bucket_map.rs:154-161 | with 2^64 buckets, keys share one exactly if their first eight bytes agree |
| `BucketMap.RoutingFollowsKeyOrder` | bucket_map/src/bucket_map.rs:154-161 | a smaller key never lies in a later bucket, wherever the two keys first differ |
| `BucketMap.Log2OfPowerOfTwo` | bucket_map/src/bucket_map.rs:94-95 | the logarithm taken from leading zeros is exact on the powers of two |
| `BucketMap.PlainStepIsLocal` | bucket_map/src/bucket_map.rs:118-176 | an operation on a key depends on and changes that key only |
| `BucketMap.MapStepRefines` | bucket_map/src/bucket_map.rs:118-176 | routing every operation to the bucket of its key acts on the buckets as on one plain map |
| `BucketMap.MapRunRefines` | bucket_map/src/bucket_map.rs:365-521 | the same over any run |
| `BucketMap.EveryMapRunRefinesThePlainMap` | bucket_map/src/bucket_map.rs:365-521 | after every run from a new map, any key reads as in one plain map, and that map allows every answer: exact counts, and the outcomes of writes as far as it decides them |
| `BucketMap.AllItemsListTheMap` | bucket_map/src/bucket_map.rs:402-432 | the items of all the buckets together are those of the plain map, each key once |
| `BucketStorage.BucketStorage.constructor` | bucket_map/src/bucket_storage.rs:99-119 | new cells are free and the given counter is used as it is |
| `BucketStorage.BucketStorage.IsFree` | bucket_map/src/bucket_storage.rs:171-176 | tells whether the header is unlocked |
| `BucketStorage.BucketStorage.Uid` | bucket_map/src/bucket_storage.rs:165-169 | the lock of an allocated cell, nothing for a free one |
| `BucketStorage.BucketStorage.Allocate` | bucket_map/src/bucket_storage.rs:184-201 | fails, changing nothing, exactly on an allocated cell; counts only outside a resize |
| `BucketStorage.BucketStorage.Free` | bucket_map/src/bucket_storage.rs:203-208 | unlocks that cell and counts down |
| `BucketStorage.BucketStorage.CopyContents` | bucket_map/src/bucket_storage.rs:324-346 | the copy loop yields exactly the spread-out storage |
| `BucketStorage.NewResized` | bucket_map/src/bucket_storage.rs:349-378 | the larger storage shares the counter and is exactly the spread-out storage |
| `Bucket.Pending.AddReallocation` | bucket_map/src/bucket.rs:46-54 | marks one growth pending |
| `Bucket.Pending.GetReallocated` | bucket_map/src/bucket.rs:57-62 | takes the mark if it is set |
| `Bucket.Bucket.constructor` | bucket_map/src/bucket.rs:80-103 | a new object is the new bucket |
| `Bucket.Bucket.FindEntry` | bucket_map/src/bucket.rs:141-185 | the probe loop finds what the lookup on values finds |
| `Bucket.CreateKeyIn` | bucket_map/src/bucket.rs:187-209 | the probe loop takes the first free cell of the window, or leaves the storage as it was |
| `Bucket.Bucket.ReadValue` | bucket_map/src/bucket.rs:233-237 | reads what the read on values reads, with every index in range |
| `Bucket.Bucket.Keys` | bucket_map/src/bucket.rs:105-115 | the loop lists what the listing on values lists |
| `Bucket.Bucket.ItemsInRange` | bucket_map/src/bucket.rs:117-139 | the same for the items in a range |
| `Bucket.Bucket.TryWrite` | bucket_map/src/bucket.rs:239-302 | in place, the new state and the outcome are those of the write on values |
| `Bucket.Bucket.DeleteKey` | bucket_map/src/bucket.rs:304-318 | in place, the new state is that of the deletion on values |
| `Bucket.Bucket.AddRef` | bucket_map/src/bucket.rs:211-215 | in place, as on values: the count goes up by one, wrapping, and is returned |
| `Bucket.Bucket.UnRef` | bucket_map/src/bucket.rs:217-221 | in place, as on values: the count goes down by one, wrapping, and is returned |
| `Bucket.RehashOne` | bucket_map/src/bucket.rs:341-368 | one step of the rehash loop: an entry is placed in the first free cell of its window, or refused exactly if the window is full; with the assertion that the source has commented out |
| `Bucket.RehashInto` | bucket_map/src/bucket.rs:335-376 | the rehash loop succeeds exactly when the rehash on values does, and does not touch the old index |
| `Bucket.RegrowIndex` | bucket_map/src/bucket.rs:320-382 | the attempts together; failed ones leave the shared counter unchanged |
| `Bucket.Bucket.GrowIndex` | bucket_map/src/bucket.rs:320-382 | writes nothing but the pending slot |
| `Bucket.Bucket.GrowData` | bucket_map/src/bucket.rs:414-427 | writes nothing but the pending slot |
| `Bucket.Bucket.Grow` | bucket_map/src/bucket.rs:444-455 | the pending growth is that of the growth on values |
| `Bucket.Bucket.ApplyGrowIndex` | bucket_map/src/bucket.rs:384-387 | the swapped index and seed, with no cells shared between storages |
| `Bucket.Bucket.ApplyGrowData` | bucket_map/src/bucket.rs:393-410 | the swapped storage, with no cells or counters shared between storages |
| `Bucket.Bucket.HandleDelayedGrows` | bucket_map/src/bucket.rs:458-472 | takes what is pending and applies it; no missing value is unwrapped |
| `Bucket.Bucket.Insert` | bucket_map/src/bucket.rs:474-486 | the retry loop computes the insert on values |
| `Bucket.Bucket.Update` | bucket_map/src/bucket.rs:488-501 | read, caller's function, insert or delete, in place |
| `BucketApi.BucketApi.constructor` | bucket_map/src/bucket_api.rs:29-42 | there is no bucket at first |
| `BucketApi.BucketApi.BucketLen` | bucket_map/src/bucket_api.rs:74-76 | the length read from the shared counter is that of the bucket |
| `BucketApi.BucketApi.ReadValue` | bucket_map/src/bucket_api.rs:66-72 | reads the bucket, or nothing if there is none |
| `BucketApi.BucketApi.Keys` | bucket_map/src/bucket_api.rs:57-64 | lists the bucket, or nothing if there is none |
| `BucketApi.BucketApi.ItemsInRange` | bucket_map/src/bucket_api.rs:44-55 | lists the bucket, or nothing if there is none |
| `BucketApi.BucketApi.GetWriteBucket` | bucket_map/src/bucket_api.rs:85-99 | creates the bucket or applies what is pending; afterwards the bucket may be written |
| `BucketApi.BucketApi.Insert` | bucket_map/src/bucket_api.rs:113-116 | one step of a run, keeping the invariant |
| `BucketApi.BucketApi.Update` | bucket_map/src/bucket_api.rs:126-132 | one step of a run, keeping the invariant |
| `BucketApi.BucketApi.DeleteKey` | bucket_map/src/bucket_api.rs:78-83 | one step of a run, keeping the invariant |
| `BucketApi.BucketApi.AddRef` | bucket_map/src/bucket_api.rs:101-105 | one step of a run, keeping the invariant |
| `BucketApi.BucketApi.UnRef` | bucket_map/src/bucket_api.rs:107-111 | one step of a run, keeping the invariant |
| `BucketApi.BucketApi.TryWrite` | bucket_map/src/bucket_api.rs:134-141 | one step of a run, keeping the invariant |
| `BucketApi.BucketApi.Grow` | bucket_map/src/bucket_api.rs:118-124 | one step of a run that writes only the pending slot, as the read lock demands |
| `BucketApi.BucketApi.Perform` | bucket_map/src/bucket_api.rs:44-141 | any operation on the object is one step of a run |
| `BucketApi.BucketApi.PerformRun` | bucket_map/src/bucket_map.rs:365-521 | a run on the object ends in the state and with the answers of the run on values |
| `BucketApi.RunAndRead` | bucket_map/src/bucket_map.rs:365-521 | on a new object, after any run, a read and the length are those of the plain map |
| `Layout.CellInFile` | bucket_map/src/bucket_storage.rs:145-163 | the bytes of a cell lie in the file |
| `Layout.CellsAreDisjoint` | bucket_map/src/bucket_storage.rs:145-163 | different cells share no byte |
| `Layout.SliceIsSafe` | bucket_map/src/bucket_storage.rs:230-267 | the slice for a list of `n` elements starts eight bytes into its cell and is `n` elements long; it lies in its own cell and in the file, and meets no header and no other cell |
| `Layout.CopyCell` | bucket_map/src/bucket_storage.rs:324-342 | the bytes of one cell are copied and no other cell changes |
| `Layout.CopyContents` | bucket_map/src/bucket_storage.rs:324-342 | byte for byte, image cells hold the old cells and the others are untouched; every access is in bounds |
| `Layout.CopiedImage` | bucket_map/src/bucket_storage.rs:324-342 | after the copy, cell `i << increment` has the bytes of the old cell `i` |
| `Layout.CopiedGap` | bucket_map/src/bucket_storage.rs:324-342 | after the copy, every other cell has the bytes it had before |
| `BloomBits.MaskTest` | bloom/src/bloom.rs:189-195 | testing a word against a mask looks at exactly one bit |
| `BloomBits.FetchOrSetsOneBit` | bloom/src/bloom.rs:179-187 | `fetch_or` with a mask adds exactly one position |
| `BloomBits.WordCount` | bloom/src/bloom.rs:149-163 | as many words as the bits need and no more |
| `BloomBits.PackingRepresents` | bloom/src/bloom.rs:149-163 | the packed words hold the same positions, with zero padding |
| `BloomBits.UnpackingRestores` | bloom/src/bloom.rs:217-234 | words that represent a bit vector unpack to it |
| `BloomBits.CountWordsIsSize` | bloom/src/bloom.rs:217-234 | the ones counted word by word are the set positions |
| `BloomBits.PackRoundTrip` | bloom/src/bloom.rs:149-163 | there and back restores the bits and their number |
| `Bloom.PosIsHash` | bloom/src/bloom.rs:103-105 | a position is congruent to the hash modulo the number of bits |
| `Bloom.Bloom.SetPos` | bloom/src/bloom.rs:110-117 | the counter goes up exactly if the bit was clear, so it never saturates |
| `Bloom.Bloom.Add` | bloom/src/bloom.rs:110-117 | adds exactly the positions of the item, also if hash keys collide; the counter stays the number of set bits |
| `Bloom.Bloom.Contains` | bloom/src/bloom.rs:119-127 | true exactly if all positions of the item are set |
| `Bloom.Bloom.Clear` | bloom/src/bloom.rs:106-109 | no bit is set, the counter is zero |
| `Bloom.NoFalseNegatives` | bloom/src/bloom.rs:106-127 | in any run of adds and clears, all positions of an item added since the last clear are set |
| `Bloom.PerformRun` | bloom/src/bloom.rs:106-127 | a run on the object sets the bits that the run on sets says |
| `Bloom.AtomicBloom.Add` | bloom/src/bloom.rs:165-187 | undisturbed, adds exactly the positions of the item, and returns true exactly if not all of them were set |
| `Bloom.AtomicBloom.Contains` | bloom/src/bloom.rs:189-195 | true exactly if all positions of the item are set |
| `Bloom.ToAtomic` | bloom/src/bloom.rs:149-163 | same keys, same length, words that represent the bits |
| `Bloom.FromAtomic` | bloom/src/bloom.rs:217-234 | same keys, same length, bits that the words represent, and the right counter |
| `Bloom.RoundTrip` | bloom/src/bloom.rs:149-234 | there and back restores keys, bits and counter |
| `ConcurrentBloom.RunKeepsSound` | bloom/src/bloom.rs:165-195 | under every schedule no bit is ever cleared and padding stays zero |
| `ConcurrentBloom.EveryInterleavingIsSequential` | bloom/src/bloom.rs:165-187 | under every interleaving the final bits are those of adding the items one after the other, in any order |
| `ConcurrentBloom.EachBitIsSeenChangingOnce` | bloom/src/bloom.rs:179-187 | each bit that becomes set is seen clear by exactly one step, each other bit by none |
| `ConcurrentBloom.AnswerIsWhatWasSeen` | bloom/src/bloom.rs:179-187 | an add answers true exactly if one of its own steps saw a clear bit |
| `ConcurrentBloom.FinishedAddIsSeen` | bloom/src/bloom.rs:189-195 | a check that starts after an add of the same item has ended finds it, whatever runs in between |
| `ConcurrentBloom.CheckerAnswers` | bloom/src/bloom.rs:189-195 | under every interleaving, a check that ends with true has all positions of its item set at the end, and one that answers false had one clear at the start |
| `ConcurrentBloom.CheckerAlone` | bloom/src/bloom.rs:189-195 | left alone, a check ends, with true exactly if all positions were set |
| `CrateOrder.HasDirectCycle` | ci/order-crates-for-publishing.py:35-46 | found exactly if two packages depend on each other, or one on itself |
| `CrateOrder.Pass` | ci/order-crates-for-publishing.py:59-69 | one pass takes the packages without remaining dependencies, in order, and keeps the rest |
| `CrateOrder.PassInOrder` | ci/order-crates-for-publishing.py:59-69 | a pass deals with the packages one by one in their order |
| `CrateOrder.PassOfOne` | ci/order-crates-for-publishing.py:59-69 | a package goes out exactly if none of its dependencies is remaining |
| `CrateOrder.PassSplits` | ci/order-crates-for-publishing.py:59-69 | a pass loses and repeats no package |
| `CrateOrder.PassProgresses` | ci/order-crates-for-publishing.py:59-69 | appending what a pass takes keeps dependencies first |
| `CrateOrder.EmptyPassHasCycle` | ci/order-crates-for-publishing.py:51-57 | a pass that takes nothing means that there is a cycle |
| `CrateOrder.GivesUpWhenStuck` | ci/order-crates-for-publishing.py:51-57 | when the passes are used up, every package that is left depends on one that is left |
| `CrateOrder.StuckHasCycle` | ci/order-crates-for-publishing.py:51-57 | a non-empty set of packages, each of which depends on one of the set, has a cycle in the graph |
| `CrateOrder.OrderedIsAcyclic` | ci/order-crates-for-publishing.py:48-72 | a list with dependencies first rules out cycles |
| `CrateOrder.OrderPackages` | ci/order-crates-for-publishing.py:35-72 | succeeds exactly on the acyclic graphs, within as many passes as packages; then the list is a permutation with every dependency in the workspace strictly earlier; the first error exit is taken exactly on a direct cycle, and the second lists packages each of which depends on another one listed |
| `TokenAmount.ToDigitsValue` | account-decoder/src/parse_token.rs:200-211 | decimal digits read back as the number |
| `TokenAmount.ToDigits` | account-decoder/src/parse_token.rs:200-211 | digits without a superfluous zero in front |
| `TokenAmount.ToDigitsUnique` | account-decoder/src/parse_token.rs:200-211 | every spelling of a number in digits without superfluous zeros is the one that is printed |
| `TokenAmount.WriteDigits` | account-decoder/src/parse_token.rs:200-211 | digits taken off by division, last to first, are the decimal digits |
| `TokenAmount.FormatPadded` | account-decoder/src/parse_token.rs:200-211 | filling up with zeros gives the digits padded to the width |
| `TokenAmount.InsertPoint` | account-decoder/src/parse_token.rs:206 | moving the tail of the buffer up by one, from the end, puts the point between the two parts and loses nothing |
| `TokenAmount.TrimEndMatches` | account-decoder/src/parse_token.rs:216-217 | stepping back from the end removes all trailing occurrences and nothing else |
| `TokenAmount.PrintRealNumber` | account-decoder/src/parse_token.rs:200-211 | the loops over the buffer yield the padded form |
| `TokenAmount.PrintRealNumberTrimmed` | account-decoder/src/parse_token.rs:213-220 | the two trimming loops yield the trimmed form |
| `TokenAmount.TrimEnd` | account-decoder/src/parse_token.rs:213-220 | removes all trailing occurrences and nothing else |
| `TokenAmount.SpellsUnique` | account-decoder/src/parse_token.rs:200-220 | a string has at most one reading as a decimal numeral |
| `TokenAmount.PaddedIsExact` | account-decoder/src/parse_token.rs:200-211 | the padded string is a numeral that denotes exactly amount / 10^decimals |
| `TokenAmount.PaddedIsTheOnly` | account-decoder/src/parse_token.rs:200-211 | the printed number is determined: no other numeral without superfluous zeros and with that many decimals has the amount as its digits |
| `TokenAmount.TrimmedSpells` | account-decoder/src/parse_token.rs:213-220 | trimming keeps the integer part, and leaves no trailing point and no trailing fractional zero |
| `TokenAmount.TrimmedIsExact` | account-decoder/src/parse_token.rs:213-220 | the trimmed string denotes exactly the same number |
| `TokenAmount.TrimmedIsInjective` | account-decoder/src/parse_token.rs:213-220 | for fixed decimals, different amounts print differently |
| `TokenAmount.WholePartIsQuotient` | account-decoder/src/parse_token.rs:200-211 | the part before the point is the integer quotient in digits |
| `TokenAmount.PrintedWholeIsCanonical` | account-decoder/src/parse_token.rs:200-220 | in both printed forms the part before the point starts with a zero only if it is a lone zero |
| `TokenAmount.ParseReads` | account-decoder/src/parse_token.rs:231-237 | digits of a 64-bit number, with or without a plus sign, are read as that number, and anything else as zero |
| `TokenAmount.StoredStringComesFirst` | account-decoder/src/parse_token.rs:239-248 | a stored string is given back as it is, otherwise the amount is printed |
| `TokenAmount.UiAmountRoundTrip` | account-decoder/src/parse_token.rs:231-261 | printing from the stored amount gives the same strings as printing the amount |
| `BlockProduction.LeaderIsLastDuty` | cli/src/cluster_query.rs:1270-1279 | the last entry of the schedule with the slot decides its leader, a question mark if there is none |
| `BlockProduction.LeaderPerSlot` | cli/src/cluster_query.rs:1270-1279 | the leader of every slot of the range, a question mark where the schedule has none, the later entry where it has two |
| `BlockProduction.ConfirmedBlocks` | cli/src/cluster_query.rs:1217-1220 | exactly the slots found in the history, strictly ascending and in the range |
| `BlockProduction.SkipBefore` | cli/src/cluster_query.rs:1294-1300 | the second pointer stops where the slot would be, so it decides membership |
| `BlockProduction.CountSlots` | cli/src/cluster_query.rs:1286-1318 | one status per slot, in order, skipped exactly if the slot is not confirmed; the counters of every leader are its slots and its skipped slots |
| `BlockProduction.SlotsAreCounted` | cli/src/cluster_query.rs:1286-1318 | the slot counter of a leader is the number of its slots |
| `BlockProduction.SkipsAreCounted` | cli/src/cluster_query.rs:1286-1318 | the skip counter of a leader is the number of its slots that are not confirmed |
| `BlockProduction.SlotsSum` | cli/src/cluster_query.rs:1286-1318 | the slots of all leaders add up to the slots of the range |
| `BlockProduction.SkippedSum` | cli/src/cluster_query.rs:1286-1318 | the skipped slots of all leaders add up to the slots that are not confirmed |
| `BlockProduction.TotalsAgreeIff` | cli/src/cluster_query.rs:1253-1258 | for ascending confirmed slots, skipped and confirmed slots add up to the range if and only if the confirmed slots are distinct and in the range |
| `BlockProduction.ShowBlockProduction` | cli/src/cluster_query.rs:1253-1334 | blocks and skips of every leader add up to its slots; the slots add up to the total always, skips and blocks to their totals if and only if the confirmed slots are distinct and in the range |
| `BlockProduction.ReportFromHistory` | cli/src/cluster_query.rs:1213-1334 | on the slot-history path all three totals agree with their columns, a slot is skipped exactly if the history has not found it, and the leaders are those of the schedule |

## Left out

- Files, memory maps, drives, temporary directories, `Drop` and timing statistics of the bucket map: input and output. A new file is taken to read as zeros.
- Raw pointer casts of the storages: cells are array elements, with the byte layout proved beside them in `Layout`.
- Termination of `grow_index` and of `insert` for an absent key in general: it depends on the hash and on the seeds. `IndexGrowth.RegrowSucceeds`, `BucketInsert.InsertEndsAfterIndexGrowth` and `Limits.SharedWindowInsertGoesOn` give cases of either kind.
- What happens in the middle of a write whose offset does not fit 56 bits: `Packing` gives the condition under which it does.
- The rounding of `log2` on `f64`, and list lengths for which it is not exact.
- The panic of a debug build when a reference count overflows.
- Operations of several threads inside one lock: an operation under `RwLock` is one step.
- The map of buckets as an object: it is modelled on values, over the buckets' values; the buckets themselves are objects.
- What the code does after a growth that `BucketGrowth.GrowAllowed` excludes: a failed assertion, or in a release build a shift by a wrapped amount.
- Memory orderings weaker than sequential consistency on the words of the atomic filter.
- `Bloom::random`, `num_bits`, `num_keys`, the FNV hash and the debug output of the filters: floating point and randomness.
- `AtomicBloom::clear_for_tests` and `mock_clone`.
- Loading the package metadata, manifest paths, and the wording of the errors of the crate ordering.
- The floating-point `ui_amount`.
- The account decoders and token extensions: copies of fields over libraries that are not part of this model.
- The RPC calls, the slow path with `getBlocks`, address labels and the final sort by leader of the block-production report.
- The rest of the command line, the clients and the banks interfaces.
