# Iterators, caches and snapshots of the RocksDB port, verified

This project models the hardest parts of the storage engine and proves what they promise, for all inputs and all
runs. `dafny verify dfyconfig.toml` checks everything.

- **The iterator** (`InternalKeys`, `SnapshotView`, `DBIterator`, `IteratorMeaning`). `SnapshotView` says what a
  snapshot shows without any cursor: for each user key the newest visible versions are folded to a value or to nothing.
  `DBIter` is the two-way cursor with its direction switches, reseeks, sequence-number-zero shortcut and three ways to
  merge. Any run of seeks and steps is proved to be an index moving over that view, and `IteratorMeaning` says what the
  view is in terms of the entries: which keys have a row, and that merge operands are applied in the order they were
  written.
- **HyperClockTable, concurrent** (`ProbeSequence`, `ClockProtocol`, `ClockSafety`, `ClockAnswers`, `ClockAlone`). Every
  atomic operation is a step of one thread. In every interleaving the counters count the holders, a slot under
  construction has one owner, nobody frees a slot that others refer to, a lookup never misses a key that stays visible,
  hands out entries of its own key only and is wait-free, an insert gives up only for want of room or on a match, and
  nothing visible outlives an erase.
- **Its counters, concurrent** (`ClockLedger`, `ClockOverdraft`). The atomic updates of the usage, the occupancy and the
  standalone usage interleave with those steps. In every state the counters are the table's own sums plus what the
  threads in flight owe, so they are exact whenever nothing is in flight, and one strict limit is never exceeded, not
  even in between.
- **HyperClockTable, one operation at a time** (`ClockAccounts`, `ClockTable`). Eviction, charging, inserting, looking
  up, releasing and erasing on the slot arrays, with usage, occupancy and displacement counts exact on every path, no
  more evicted than needed, and the usage of a whole run bounded with and without a strict limit.
- **The LRU shard** (`LruPools`, `LruLinks`, `LruHandles`, `LruShelf`, `LruRuns`, `LruAnswers`, `LruShard`,
  `LruExample`). The books (table, list, references, usage) and the pools (the order of the list, the caps) are two
  invariants. `LruLinks`, `LruShelf` and `LruRuns` define every operation as a function of any state, however the pool
  pointers stand, and one outcome is that an assertion of the source fails. Every run keeps the books or meets such an
  assertion; the pools stay in order exactly as long as no low entry meets an overfull high pool.
- **What the shard is made of** (`LruRing`, `LruListing`, `LruIndex`, `LruStore`). `LruShard` works on a list of nodes
  linked both ways through a dummy head and on the chained hash table; the layers between prove that these stand for the
  list and the map of the functions above, so a run of the shard is a run of those functions down to the pointers.
- **The LRU hash table and scans over it** (`LruTable`, `ShardScan`). The chained table is a map, and a scan in rounds
  shows every entry that stays exactly once although tables grow between the rounds.
- **SuperVersions** (`SuperVersions`, `SuperVersionAnswers`). Swap, compare-and-swap and scrape over cached pointers, in
  every interleaving: counts and cleanup are right, and whoever gets one after an install gets that one or a later one.
- **Invertible arithmetic and ledgers** (`BijectiveHash`, `SessionId`, `ValueChunks`, `Reservations`).

`Options`, `CacheTypes` and `Arithmetic` hold what several of these share.

Some things that the code does differ from what one would expect:

- `SetCapacity` does not trim the pools. A low priority entry that is then linked into the list breaks the order of the
  pools exactly when the high pool, after eviction and without the entry that is replaced, is over its cap. Small
  entries break it with no failing assertion, large ones with one (`LruExample`).
- `ApplyToAllEntries` takes the minimum, not the maximum, of the requested entries per lock and one. A scan advances
  exactly when the share is positive; with a zero share no number of rounds changes its state.
- The compare-exchange of a strict reservation in `ChargeUsageMaybeEvictStrict` lowers the usage to the capacity if it
  succeeds on a usage above the capacity. A thread gets overdrawn exactly then. What others give back before the
  reservation is settled can then take the usage below zero for a while (`ClockOverdraft`).
- `parse_base_chars` accepts no digit at all for a base below ten.
- `decode_session_id` counts bytes and cuts the string by bytes, and panics when that is inside a character.
- Releasing a placeholder with erasing gives its share back to the secondary cache even when other references keep the
  placeholder. The deflation goes on matching the placeholders exactly when the reference was the last one or the share
  was zero.

## Model

| member | source | states |
|---|---|---|
| `InternalKeys.CompareFormsAgree` | rocksdb-cxx/db/dbformat.cc:163-207 | comparing parsed keys, comparing packed trailers, and the mirrored comparison are one order |
| `InternalKeys.SeekPosition` | rocksdb-cxx/db/db_iter.cc:461-504 | where a seek of the inner iterator lands: everything before is below the target, everything from there on is not |
| `InternalKeys.SeekForPrevPosition` | rocksdb-cxx/db/db_iter.cc:1423-1452 | where a backward seek lands: the last entry at or below the target, if any |
| `InternalKeys.SeekNotBehind` | rocksdb-cxx/db/db_iter.cc:461-504 | a reseek to a target at or after the current entry never moves back |
| `SnapshotView.Snapshot.RowsSorted` | rocksdb-cxx/db/db_iter.h:36-71 | the view lists live keys in strictly increasing order, each with its folded outcome |
| `SnapshotView.Snapshot.RowsComplete` | rocksdb-cxx/db/db_iter.h:36-71 | every live key has a row |
| `SnapshotView.Snapshot.OutcomeFromStretch` | rocksdb-cxx/db/db_iter.cc:519-644 | resolving the stretch of a key's entries in place gives the outcome of its visible versions |
| `SnapshotView.DocumentedExample` | rocksdb-cxx/db/db_iter.h:36-50 | the view of the documented example, at both of its snapshots |
| `IteratorMeaning.FoldExactly` | rocksdb-cxx/db/db_iter.cc:519-644 | of versions that start with exactly n merges the operands are their values, oldest first, and the base is the put that follows, if one does |
| `IteratorMeaning.RowExactly` | rocksdb-cxx/db/db_iter.h:36-71 | a key has a row if and only if it is within the bounds and its newest visible entry is no deletion; a put is shown |
| `IteratorMeaning.NoRowForUnseen` | rocksdb-cxx/db/db_iter.h:36-71 | a key without a visible entry has no row |
| `IteratorMeaning.MergedRow` | rocksdb-cxx/db/db_iter.cc:519-644 | the row of a merged key shows what the operator makes of the operands in the order they were written and of the put below them |
| `IteratorMeaning.IndexStepMeans` | rocksdb-cxx/db/db_iter.h:60-71 | where an index moves: to the first row at or above a target, the last at or below it, or by one |
| `IteratorMeaning.MergeExample` | rocksdb-cxx/db/db_iter.cc:823-1055 | a put and two merges, shown with both operands in order by an iterator from either end |
| `DBIterator.DBIter.constructor` | rocksdb-cxx/db/db_iter.cc:39-95 | a new iterator is not valid and its status is ok |
| `DBIterator.DBIter.TooManyInternalKeysSkipped` | rocksdb-cxx/db/db_iter.cc:1373-1384 | gives up exactly when more entries than the limit were skipped, and counts one more otherwise |
| `DBIterator.DBIter.Merge` | rocksdb-cxx/db/db_iter.cc:1265-1284 | exposes what the merge operator gives, or a failed status |
| `DBIterator.DBIter.MergeValuesNewToOld` | rocksdb-cxx/db/db_iter.cc:519-644 | merging from newer to older gives the fold of the operands onto the first put, deletion or end |
| `DBIterator.DBIter.YieldEntry` | rocksdb-cxx/db/db_iter.cc:354-428 | the newest visible entry of a key is yielded, merged, or proves that the key is absent |
| `DBIterator.DBIter.Advance` | rocksdb-cxx/db/db_iter.cc:461-504 | a step or a reseek moves forward and passes only entries that need not be looked at |
| `DBIterator.DBIter.FindNextUserEntry` | rocksdb-cxx/db/db_iter.cc:266-510 | lands on the first live key at or above the floor, for every max_skip_, with reseeks and the sequence-zero shortcut |
| `DBIterator.DBIter.FindUserKeyBeforeSavedKey` | rocksdb-cxx/db/db_iter.cc:1310-1371 | stops just before the entries of the saved key, by steps or by one seek |
| `DBIterator.DBIter.MergeFromSeek` | rocksdb-cxx/db/db_iter.cc:1163-1262 | the merge after a seek gives the same fold |
| `DBIterator.DBIter.FindValueForCurrentKeyUsingSeek` | rocksdb-cxx/db/db_iter.cc:1061-1263 | resolves a key with many versions to its outcome |
| `DBIterator.DBIter.FindValueForCurrentKey` | rocksdb-cxx/db/db_iter.cc:823-1055 | resolving from the oldest entry to the newest visible one gives the outcome |
| `DBIterator.DBIter.Expose` | rocksdb-cxx/db/db_iter.cc:962-1055 | the closing switch over the last entry types exposes the outcome |
| `DBIterator.DBIter.ResolveAndStepBack` | rocksdb-cxx/db/db_iter.cc:788-797 | shows the outcome of the key and leaves the inner iterator before it |
| `DBIterator.DBIter.PrevInternal` | rocksdb-cxx/db/db_iter.cc:757-810 | lands on the last live key below the top |
| `DBIterator.DBIter.PrevKey` | rocksdb-cxx/db/db_iter.cc:757-810 | one turn either lands or moves strictly back without passing a live key |
| `DBIterator.DBIter.ReverseToForward` | rocksdb-cxx/db/db_iter.cc:682-722 | turning around puts the inner iterator on the first entry of the shown key |
| `DBIterator.DBIter.ReverseToBackward` | rocksdb-cxx/db/db_iter.cc:724-755 | turning around puts it just before the entries of the shown key |
| `DBIterator.DBIter.LeaveShownEntry` | rocksdb-cxx/db/db_iter.cc:133-160 | the first half of Next leaves nothing visible behind that is above the shown key |
| `DBIterator.DBIter.ForwardIndex` | rocksdb-cxx/db/db_iter.h:60-71 | a forward landing is the row that the floor counts to |
| `DBIterator.DBIter.BackwardIndex` | rocksdb-cxx/db/db_iter.h:60-71 | a backward landing is the row below the top |
| `DBIterator.DBIter.Next` | rocksdb-cxx/db/db_iter.cc:133-182 | the index goes up by one, whatever the direction before |
| `DBIterator.DBIter.Prev` | rocksdb-cxx/db/db_iter.cc:646-680 | the index goes down by one |
| `DBIterator.DBIter.Seek` | rocksdb-cxx/db/db_iter.cc:1454-1526 | the index of the first row at or above the target |
| `DBIterator.DBIter.SeekForPrev` | rocksdb-cxx/db/db_iter.cc:1528-1594 | the index of the last row at or below the target |
| `DBIterator.DBIter.SeekToFirst` | rocksdb-cxx/db/db_iter.cc:1596-1644 | index zero |
| `DBIterator.DBIter.SeekToLast` | rocksdb-cxx/db/db_iter.cc:1646-1696 | the last index |
| `DBIterator.DBIter.ClampedFloor` | rocksdb-cxx/db/db_iter.cc:1406-1421 | raising a target to the lower bound passes no row |
| `DBIterator.DBIter.ClampedTop` | rocksdb-cxx/db/db_iter.cc:1423-1452 | lowering a target to the upper bound passes no row |
| `DBIterator.DBIter.SeekForPrevIsBefore` | rocksdb-cxx/db/db_iter.cc:1423-1452 | both backward seek targets land just before the keys from the top on |
| `DBIterator.DBIter.RowIndex` | rocksdb-cxx/db/db_iter.h:60-71 | what the caller reads is what the index over the view shows |
| `DBIterator.DBIter.Apply` | rocksdb-cxx/db/db_iter.cc:133-182 | every operation moves the index as its plain counterpart does |
| `DBIterator.DBIter.Run` | rocksdb-cxx/db/db_iter.cc:646-810 | any run of operations shows exactly what the index run shows, unless it gives up at the skip limit |
| `ProbeSequence.ProbeIsLinear` | rocksdb-cxx/cache/clock_cache.cc:1009-1042 | the i-th probe is base plus i times the increment, modulo the table size |
| `ProbeSequence.IncrementSetsLowestBit` | rocksdb-cxx/cache/clock_cache.cc:1018-1024 | the increment is the first word of the key with its lowest bit set |
| `ProbeSequence.ProbesAreDistinct` | rocksdb-cxx/cache/clock_cache.cc:1018-1024 | no slot comes up twice in one round |
| `ProbeSequence.EverySlotIsProbed` | rocksdb-cxx/cache/clock_cache.cc:1018-1024 | every slot comes up |
| `ProbeSequence.BackAtFirst` | rocksdb-cxx/cache/clock_cache.cc:1027-1042 | the search is back at its first slot exactly after as many probes as there are slots |
| `ClockProtocol.StepKeepsInv` | rocksdb-cxx/cache/clock_cache.cc:195-290 | a step that is right about its own thread and slot keeps the invariant for all threads and slots |
| `ClockSafety.MoveSafe` | rocksdb-cxx/cache/clock_cache.cc:763-1006 | every step of every operation is such a step |
| `ClockSafety.InsertProbeSafe` | rocksdb-cxx/cache/clock_cache.cc:195-213 | claiming an empty slot makes one owner, passing a taken one adds one displacement |
| `ClockSafety.InsertCompareSafe` | rocksdb-cxx/cache/clock_cache.cc:213-253 | the references taken to compare a key are given back on every path |
| `ClockSafety.InsertFinishSafe` | rocksdb-cxx/cache/clock_cache.cc:256-280 | publishing ends the ownership with the right counters |
| `ClockSafety.LookupStepSafe` | rocksdb-cxx/cache/clock_cache.cc:763-827 | the optimistic acquire is kept on a match and undone on any other entry |
| `ClockSafety.EraseTakeSafe` | rocksdb-cxx/cache/clock_cache.cc:938-968 | erasing takes an entry over only with the last reference |
| `ClockSafety.TakeOwnershipSafe` | rocksdb-cxx/cache/clock_cache.cc:861-897 | a compare-exchange from an unreferenced word makes the thread the only owner |
| `ClockSafety.EvictStepSafe` | rocksdb-cxx/cache/clock_cache.cc:76-120 | a clock update counts down or takes over only what nobody refers to |
| `ClockSafety.FreeStepSafe` | rocksdb-cxx/cache/clock_cache.cc:1044-1053 | the rollback of an owned slot ends exactly at that slot |
| `ClockSafety.EveryRunKeepsInv` | rocksdb-cxx/cache/clock_cache.cc:195-290 | the invariant holds in every state of every interleaving |
| `ClockSafety.CountersCountHolders` | rocksdb-cxx/cache/clock_cache.cc:829-902 | in every state: acquire minus release is the references held, held slots are shareable, construction has exactly one owner |
| `ClockSafety.HeldEntryIsUntouched` | rocksdb-cxx/cache/clock_cache.cc:916-1006 | no step frees or overwrites an entry that a user or another thread refers to |
| `ClockSafety.OwnershipNeedsNoHandle` | rocksdb-cxx/cache/clock_cache.cc:829-902 | giving a handle out or back does not by itself take a slot over |
| `ClockSafety.HandleKeepsEntry` | rocksdb-cxx/cache/clock_cache.cc:829-902 | while a handle is held the slot shows the same entry |
| `ClockSafety.DisplacementsCoverPasses` | rocksdb-cxx/cache/clock_cache.cc:716-761 | displacement counts cover the entries that passed over a slot, exactly when nothing is in flight |
| `ClockSafety.LookupStaysOnTrack` | rocksdb-cxx/cache/clock_cache.cc:763-827 | no step of any thread makes a lookup pass a visible entry of its key |
| `ClockSafety.LookupNeverMisses` | rocksdb-cxx/cache/clock_cache.cc:763-827 | a lookup that ends while an entry of its key was visible throughout has found the key |
| `ClockAnswers.FoundHasItsKey` | rocksdb-cxx/cache/clock_cache.cc:763-827 | a lookup hands out a handle if and only if it ends with its key found, on a shareable entry of that key; else it hands out nothing |
| `ClockAnswers.LookupHandsOutItsKey` | rocksdb-cxx/cache/clock_cache.cc:763-827 | in every interleaving the slot that a lookup has referred to shows an entry of its key as long as a handle is held |
| `ClockAnswers.InsertEnds` | rocksdb-cxx/cache/clock_cache.cc:195-290 | an insert publishes an entry of its key with its countdown and handle, boosts one that is there, or has passed over every slot |
| `ClockAnswers.InsertFindsRoom` | rocksdb-cxx/cache/clock_cache.cc:716-761 | while a slot stays empty an insert never gives up for want of room |
| `ClockAnswers.NothingOutlivesErase` | rocksdb-cxx/cache/clock_cache.cc:916-985 | an erase does not end while an entry of its key stays visible |
| `ClockAnswers.OnlyEraseHides` | rocksdb-cxx/cache/clock_cache.cc:929-937 | only an erase of its key hides an entry |
| `ClockAnswers.EraseTakesTheLast` | rocksdb-cxx/cache/clock_cache.cc:938-963 | an erase that holds the only reference empties the slot, with others it lets go |
| `ClockAnswers.EraseGetsOn` | rocksdb-cxx/cache/clock_cache.cc:916-985 | an erase gets on with every step of its own unless another thread has changed the word it wants to exchange |
| `ClockAnswers.OwnStepCounts` | rocksdb-cxx/cache/clock_cache.cc:716-827 | every step of its own brings a lookup or an insert closer to its end |
| `ClockAnswers.OperationsAreWaitFree` | rocksdb-cxx/cache/clock_cache.cc:716-827 | in every interleaving a lookup or an insert takes a bounded number of steps of its own |
| `ClockAnswers.EvictTicks` | rocksdb-cxx/cache/clock_cache.cc:76-120 | by itself an eviction does one clock update to a slot and takes over what that clears |
| `ClockAnswers.PurgeTakes` | rocksdb-cxx/cache/clock_cache.cc:987-1006 | by itself a purge takes over exactly what nobody refers to |
| `ClockAnswers.RefAdds` | rocksdb-cxx/cache/clock_cache.cc:615-625 | one more reference |
| `ClockAnswers.ReleaseTakes` | rocksdb-cxx/cache/clock_cache.cc:829-902 | a release gives one reference back, and takes the entry over if and only if it was the last and the entry is invisible or the caller asks for it |
| `ClockAnswers.FreeClears` | rocksdb-cxx/cache/clock_cache.cc:1044-1064 | what was taken over ends as an empty slot with its displacements taken back |
| `ClockAlone.LookupAlone` | rocksdb-cxx/cache/clock_cache.cc:763-827 | from any reachable state an undisturbed lookup finds its key if and only if an entry of it is visible |
| `ClockAlone.EraseAlone` | rocksdb-cxx/cache/clock_cache.cc:916-985 | from any reachable state an undisturbed erase ends, leaves no visible entry of its key, and hides no other |
| `ClockAlone.InsertAlone` | rocksdb-cxx/cache/clock_cache.cc:716-761 | from any reachable state an undisturbed insert of a key that is not visible publishes it, with its countdown and handle, if any slot is empty |
| `ClockAccounts.TicksExpire` | rocksdb-cxx/cache/clock_cache.cc:76-120 | three updates remove what is invisible or counts down from below three, and bring the rest to zero |
| `ClockAccounts.TicksLifetime` | rocksdb-cxx/cache/clock_cache.cc:76-108 | an unreferenced visible entry lives for exactly as many updates as its countdown, at most three, each of which leaves one less |
| `ClockTable.NewEntryLifetime` | rocksdb-cxx/cache/clock_cache.cc:38-53 | a new entry outlives exactly three updates with high priority, two with low and one with bottom priority |
| `ClockAccounts.TicksSpareReferenced` | rocksdb-cxx/cache/clock_cache.cc:85-93 | updates never touch an entry that is referenced |
| `ClockAccounts.ThreeRoundsVisit` | rocksdb-cxx/cache/clock_cache.cc:1075-1085 | the capped effort points at every slot at least three times, for every table size and clock position |
| `ClockAccounts.ThreeRoundsExhaust` | rocksdb-cxx/cache/clock_cache.cc:1075-1124 | what is left after the capped effort |
| `ClockAccounts.ExhaustedCharge` | rocksdb-cxx/cache/clock_cache.cc:1075-1124 | once nothing more can be evicted no more is charged than entries that are referenced or had a countdown of three or more |
| `ClockAccounts.ShiftBack` | rocksdb-cxx/cache/clock_cache.cc:1044-1053 | rolling back what an insert added leaves every displacement count as it was found |
| `ClockAccounts.NothingBeyond` | rocksdb-cxx/cache/clock_cache.cc:820-824 | a search may stop where nothing passed over: whatever matches is behind it |
| `ClockAccounts.FullTableIsCounted` | rocksdb-cxx/cache/clock_cache.cc:752-760 | a table without an empty slot is counted as full, so the occupancy limit rules it out |
| `ClockTable.HyperClockTable.constructor` | rocksdb-cxx/cache/clock_cache.cc:651-672 | an empty table charges only its own metadata |
| `ClockTable.HyperClockTable.Rollback` | rocksdb-cxx/cache/clock_cache.cc:1044-1053 | takes one from exactly the slots before the given one in the probe sequence, and ends |
| `ClockTable.HyperClockTable.ClockUpdate` | rocksdb-cxx/cache/clock_cache.cc:76-120 | skips, counts down or takes over one slot |
| `ClockTable.HyperClockTable.EvictSlot` | rocksdb-cxx/cache/clock_cache.cc:1091-1111 | frees the charge and count that leave the table, and keeps displacements exact |
| `ClockTable.HyperClockTable.Sweep` | rocksdb-cxx/cache/clock_cache.cc:1075-1124 | the hand stops as soon as enough is freed, or after its rounds |
| `ClockTable.HyperClockTable.Evict` | rocksdb-cxx/cache/clock_cache.cc:1066-1124 | ends, updates each slot as often as the hand points at it, stops as soon as enough is freed, reports exactly what left, and is exhaustive when it frees less than asked |
| `ClockTable.HyperClockTable.ChargeUsageMaybeEvictStrict` | rocksdb-cxx/cache/clock_cache.cc:394-452 | a charge that fits is charged and evicts nothing; success charges within the capacity; failure charges nothing and means that nothing more could be evicted and it still does not fit; no more is evicted than needed |
| `ClockTable.HyperClockTable.ChargeUsageMaybeEvictNonStrict` | rocksdb-cxx/cache/clock_cache.cc:454-512 | a charge that fits, or is larger than the usage, evicts nothing; any other leaves the usage no higher than before, and lower if it was above the capacity, unless nothing more could be evicted; fails only if the table needs room that cannot be made |
| `ClockTable.HyperClockTable.EvictAndCharge` | rocksdb-cxx/cache/clock_cache.cc:488-511 | the charge is booked whatever was evicted, unless the table needs room and nothing was |
| `ClockTable.HyperClockTable.MakeRoom` | rocksdb-cxx/cache/clock_cache.cc:420-450 | a strict reservation is completed by what is evicted, or given back together with it |
| `ClockTable.HyperClockTable.StandaloneInsert` | rocksdb-cxx/cache/clock_cache.cc:340-358 | the announced charge becomes a standalone entry |
| `ClockTable.HyperClockTable.CreateStandalone` | rocksdb-cxx/cache/clock_cache.cc:360-392 | charged if it fits; refused or uncharged only under a strict limit and if the charge exceeds the capacity or still does not fit once nothing more can be evicted; the books stay right |
| `ClockTable.HyperClockTable.TryInsert` | rocksdb-cxx/cache/clock_cache.cc:195-290 | fills an empty slot, boosts a match, and undoes its references on anything else |
| `ClockTable.HyperClockTable.DoInsert` | rocksdb-cxx/cache/clock_cache.cc:716-761 | a new entry in an empty slot, or displacements as found with a boosted match or a full table |
| `ClockTable.HyperClockTable.Place` | rocksdb-cxx/cache/clock_cache.cc:565-613 | into the table, beside it, or nowhere, with usage and occupancy reverted as needed; it never runs out of slots |
| `ClockTable.HyperClockTable.Insert` | rocksdb-cxx/cache/clock_cache.cc:514-613 | usage and occupancy are exact on every path, a strict limit holds, other handles are untouched, an entry that fits evicts nothing, without a strict limit the usage has a bound, and the key is there with its charge and countdown unless eviction was exhausted |
| `ClockTable.UsageIsBounded` | rocksdb-cxx/cache/clock_cache.cc:454-512 | over a whole run without a strict limit the usage stays within the capacity, its start, twice the largest charge, or the largest charge and what no eviction would have removed |
| `ClockTable.UsageIsBoundedWhenNothingLasts` | rocksdb-cxx/cache/clock_cache.cc:454-512 | if nothing is referenced or counts down from three or more in any state, that is the capacity, the start, twice the largest charge, or one charge beside the table itself |
| `ClockTable.HyperClockTable.Lookup` | rocksdb-cxx/cache/clock_cache.cc:763-827 | takes a reference to a visible entry of the key if and only if there is one |
| `ClockTable.HyperClockTable.LookupAt` | rocksdb-cxx/cache/clock_cache.cc:770-818 | one slot: the reference is kept on a match and undone otherwise |
| `ClockTable.HyperClockTable.Ref` | rocksdb-cxx/cache/clock_cache.cc:615-625 | one more reference, nothing else |
| `ClockTable.HyperClockTable.Remove` | rocksdb-cxx/cache/clock_cache.cc:1055-1064 | gives back exactly the charge and the place of the entry, without underflow |
| `ClockTable.HyperClockTable.ReleaseEntry` | rocksdb-cxx/cache/clock_cache.cc:829-902 | frees exactly with the last reference to an invisible entry or on request |
| `ClockTable.HyperClockTable.ReleaseStandalone` | rocksdb-cxx/cache/clock_cache.cc:884-890 | the last reference gives the charge back on both counters |
| `ClockTable.HyperClockTable.Release` | rocksdb-cxx/cache/clock_cache.cc:829-902 | the same for either kind of handle |
| `ClockTable.HyperClockTable.Erase` | rocksdb-cxx/cache/clock_cache.cc:916-985 | no entry of the key stays visible, unreferenced ones are gone, all others are as before |
| `ClockTable.HyperClockTable.EraseAt` | rocksdb-cxx/cache/clock_cache.cc:922-975 | one slot of that search |
| `ClockTable.HyperClockTable.EraseUnRefEntries` | rocksdb-cxx/cache/clock_cache.cc:987-1006 | every unreferenced entry goes; with no handles left nothing is charged, counted or displaced |
| `ClockTable.HyperClockTable.NothingLeft` | rocksdb-cxx/cache/clock_cache.cc:674-708 | what the destructor asserts of a table that nobody refers to |
| `ClockTable.HyperClockTable.Run` | rocksdb-cxx/cache/clock_cache.cc:340-613 | over any run the books are right, a strict limit with a fixed capacity is never exceeded, and every state is followed by one that its operation accounts for and that is bounded by it |
| `ClockLedger.StepKeepsGood` | rocksdb-cxx/cache/clock_cache.cc:340-613 | every atomic step of every thread keeps usage, occupancy and standalone usage equal to the table, the standalone entries and what the threads owe |
| `ClockLedger.AccountMovesWhatIsOwed` | rocksdb-cxx/cache/clock_cache.cc:394-613 | each update of a counter moves as much as it changes what its thread owes |
| `ClockLedger.ProtocolMovesWhatIsOwed` | rocksdb-cxx/cache/clock_cache.cc:829-1064 | publishing or taking over an entry moves its charge and its place between the table and what the thread owes |
| `ClockLedger.MembershipChanges` | rocksdb-cxx/cache/clock_cache.cc:195-290 | a step of the slot protocol changes what is in the table exactly when it publishes an entry or takes one over |
| `ClockLedger.EveryHistoryIsGood` | rocksdb-cxx/cache/clock_cache.cc:340-613 | so it is in every state of every interleaving |
| `ClockLedger.QuietCountersAreExact` | rocksdb-cxx/cache/clock_cache.cc:340-613 | whenever no thread is in the middle of its accounting, usage is the sum of all charges, occupancy the number of entries in the table and standalone usage the charges of the standalone ones |
| `ClockLedger.StrictLimitIsNeverExceeded` | rocksdb-cxx/cache/clock_cache.cc:394-452 | under one strict limit the usage is within it in every state of every interleaving |
| `ClockLedger.OccupancyDoesNotUnderflow` | rocksdb-cxx/cache/clock_cache.cc:1055-1059 | giving a place back finds at least that place counted, in every interleaving |
| `ClockLedger.StepOverdrawsExactly` | rocksdb-cxx/cache/clock_cache.cc:403-416 | a turn overdraws a thread if and only if it is a compare-exchange that succeeds on a usage above the capacity |
| `ClockLedger.OverdrawnExactly` | rocksdb-cxx/cache/clock_cache.cc:403-416 | nobody is overdrawn in any state of a stretch of a run if and only if none of its turns is such a one |
| `ClockLedger.UsageDoesNotUnderflow` | rocksdb-cxx/cache/clock_cache.cc:1060-1064 | giving a charge back finds at least that usage, as long as no compare-exchange has lowered the usage to a capacity that it was above |
| `ClockLedger.OneLimitNeverLowers` | rocksdb-cxx/cache/clock_cache.cc:394-415 | which none does under one strict limit |
| `ClockLedger.StrictDecides` | rocksdb-cxx/cache/clock_cache.cc:394-420 | by itself a strict order is charged at once if it fits, refused if it exceeds the capacity, and else reserves what there is and needs the rest evicted |
| `ClockLedger.StrictSettles` | rocksdb-cxx/cache/clock_cache.cc:420-450 | it is refused if and only if less went than was needed or nothing did although the table needs room |
| `ClockLedger.NonStrictDecides` | rocksdb-cxx/cache/clock_cache.cc:467-494 | without a strict limit evictions come first exactly if the charge does not fit and is no larger than the usage, or the table needs room |
| `ClockLedger.NonStrictSettles` | rocksdb-cxx/cache/clock_cache.cc:495-511 | then it is charged whatever went, unless the table needs room and nothing did |
| `ClockLedger.ProtocolMovesTheTable` | rocksdb-cxx/cache/clock_cache.cc:1075-1124 | evicting threads and resting ones move the table as the slot protocol does, and the counters wait |
| `ClockLedger.PlacingInserts` | rocksdb-cxx/cache/clock_cache.cc:575-584 | a charged order is placed by one insert of its key, and the slot that shows it has its charge |
| `ClockLedger.StandaloneIsFreed` | rocksdb-cxx/cache/clock_cache.cc:884-890 | the last release of a standalone entry takes its charge out of both usages |
| `ClockLedger.ReclaimGivesBack` | rocksdb-cxx/cache/clock_cache.cc:1055-1064 | an entry that was freed gives its place and then its charge back |
| `ClockLedger.UnplacedIsUndone` | rocksdb-cxx/cache/clock_cache.cc:585-602 | an order that was not placed gives its place back, and its charge unless a standalone entry takes that over |
| `ClockOverdraft.LoweredLimitUnderflows` | rocksdb-cxx/cache/clock_cache.cc:403-452 | an interleaving of two threads, from any empty table, in which a turn lowers the usage and the usage then goes below zero |
| `LruPools.ShareIsProduct` | rocksdb-cxx/cache/lru_cache.cc:352-363 | a pool cap is the capacity times the ratio |
| `LruPools.RemoveKeepsSegments` | rocksdb-cxx/cache/lru_cache.cc:232-254 | unlinking keeps the pools in order and their sums right |
| `LruPools.AddHighKeepsSegments` | rocksdb-cxx/cache/lru_cache.cc:256-268 | so does linking a high entry |
| `LruPools.AddLowExtendsLowPool` | rocksdb-cxx/cache/lru_cache.cc:269-280 | a low entry extends the low pool past the pointer |
| `LruPools.AddBottomKeepsSegments` | rocksdb-cxx/cache/lru_cache.cc:281-296 | linking a bottom entry keeps the order |
| `LruPools.HighToLowKeepsSegments` | rocksdb-cxx/cache/lru_cache.cc:298-308 | overflowing from high to low keeps the order |
| `LruPools.LowToBottomKeepsSegments` | rocksdb-cxx/cache/lru_cache.cc:309-319 | overflowing from low to bottom keeps the order |
| `LruLinks.LinkKeeps` | rocksdb-cxx/cache/lru_cache.cc:256-296 | a link that meets no failing assertion adds exactly the one entry at its place, whatever the pools |
| `LruLinks.MaintainKeeps` | rocksdb-cxx/cache/lru_cache.cc:298-319 | trimming changes flags only and brings both counters within the caps, whatever the pools |
| `LruLinks.UnlinkKeepsPools` | rocksdb-cxx/cache/lru_cache.cc:232-254 | from pools in order, unlinking meets no failing assertion and keeps the order |
| `LruLinks.MaintainKeepsPools` | rocksdb-cxx/cache/lru_cache.cc:298-319 | from pools in order, trimming meets no failing assertion, keeps the order and the caps |
| `LruLinks.TrimHighIsMinimal` | rocksdb-cxx/cache/lru_cache.cc:298-308 | no more entries leave the high pool than must |
| `LruLinks.TrimLowIsMinimal` | rocksdb-cxx/cache/lru_cache.cc:309-319 | nor the low pool |
| `LruLinks.LinkKeepsPoolsExactly` | rocksdb-cxx/cache/lru_cache.cc:256-296 | from pools in order, a link ends with pools in order if and only if it is not a low entry that meets a high pool over its cap |
| `LruLinks.LinkKeepsCaps` | rocksdb-cxx/cache/lru_cache.cc:256-319 | a link into pools within their caps keeps them within |
| `LruRing.Detach` | rocksdb-cxx/cache/lru_cache.cc:240-242 | the assignments that unlink a handle leave the other handles linked in order |
| `LruRing.Attach` | rocksdb-cxx/cache/lru_cache.cc:259-264 | the assignments that link a handle put it after the given one |
| `LruRing.Ring.constructor` | rocksdb-cxx/cache/lru_cache.cc:137-142 | the empty list: the dummy head linked to itself |
| `LruRing.Ring.LruRemove` | rocksdb-cxx/cache/lru_cache.cc:232-254 | on pointers what `LruLinks.Unlink` does on the sequence |
| `LruRing.Ring.LruInsert` | rocksdb-cxx/cache/lru_cache.cc:256-296 | on pointers what `LruLinks.Link` does on the sequence, with the handle at its place |
| `LruRing.Ring.LinkHigh` | rocksdb-cxx/cache/lru_cache.cc:259-268 | the high branch |
| `LruRing.Ring.LinkLow` | rocksdb-cxx/cache/lru_cache.cc:269-280 | the low branch, whose trimming runs before the pointer moves |
| `LruRing.Ring.LinkBottom` | rocksdb-cxx/cache/lru_cache.cc:281-294 | the bottom branch, which moves the low pointer too when the low pool is empty |
| `LruRing.Ring.DemoteHigh` | rocksdb-cxx/cache/lru_cache.cc:298-308 | the loop ends exactly as `LruLinks.TrimHigh` says, failing assertions included |
| `LruRing.Ring.DemoteLow` | rocksdb-cxx/cache/lru_cache.cc:309-319 | the same for the second loop and `LruLinks.TrimLow` |
| `LruRing.Ring.MaintainPoolSize` | rocksdb-cxx/cache/lru_cache.cc:298-319 | following next pointers trims as `LruLinks.Maintain` does |
| `LruRing.Ring.Oldest` | rocksdb-cxx/cache/lru_cache.cc:321-330 | the handle after the head is the oldest, or the head itself if there is none |
| `LruListing.Listing.LruRemove` | rocksdb-cxx/cache/lru_cache.cc:232-254 | unlinking a handle by its own node does what `LruLinks.Unlink` does at its position |
| `LruListing.Listing.LruInsert` | rocksdb-cxx/cache/lru_cache.cc:256-296 | listing a handle does what `LruLinks.Link` does, and its node is known from then on |
| `LruListing.Listing.Oldest` | rocksdb-cxx/cache/lru_cache.cc:321-330 | the handle to evict first |
| `LruIndex.Index.Lookup` | rocksdb-cxx/cache/lru_cache.cc:45-47 | by key and hash: the answer of the map of keys |
| `LruIndex.Index.Insert` | rocksdb-cxx/cache/lru_cache.cc:49-63 | by key and hash: that map updated, and the handle replaced |
| `LruIndex.Index.Remove` | rocksdb-cxx/cache/lru_cache.cc:65-73 | by key and hash: that map without the key, and the handle removed |
| `LruStore.Store.LruRemove` | rocksdb-cxx/cache/lru_cache.cc:232-254 | unlinking leaves the hash table alone |
| `LruStore.Store.LruInsert` | rocksdb-cxx/cache/lru_cache.cc:256-296 | so does linking |
| `LruStore.Store.Remove` | rocksdb-cxx/cache/lru_cache.cc:65-73 | and the hash table leaves the list alone |
| `LruHandles.TrimmedIsBalanced` | rocksdb-cxx/cache/lru_cache.cc:321-334 | eviction keeps the books and ends with room or an empty list |
| `LruHandles.TrimmedIsMinimal` | rocksdb-cxx/cache/lru_cache.cc:321-334 | it takes entries from the old end and no more than needed |
| `LruHandles.TrimmedIsShrunk` | rocksdb-cxx/cache/lru_cache.cc:321-334 | it only removes, and only entries that nobody refers to |
| `LruHandles.EvictedIsBalanced` | rocksdb-cxx/cache/lru_cache.cc:321-334 | evicting one entry keeps table, list and usage in agreement |
| `LruHandles.UnpinnedIsBalanced` | rocksdb-cxx/cache/lru_cache.cc:472-517 | so does putting an entry back |
| `LruHandles.CreatedIsBalanced` | rocksdb-cxx/cache/lru_cache.cc:370-428 | so does adding a referenced handle |
| `LruHandles.ListedIsBalanced` | rocksdb-cxx/cache/lru_cache.cc:370-428 | so does adding an entry that goes straight to the list |
| `LruHandles.ChargeIsCovered` | rocksdb-cxx/cache/lru_cache.cc:328-331 | the usage covers the charge of every handle, as asserted wherever one is taken off |
| `LruHandles.ListedAndPinned` | rocksdb-cxx/cache/lru_cache.cc:620-624 | the usage is the charges of the list plus the charges of the handles that are referred to |
| `LruShelf.EvictToKeeps` | rocksdb-cxx/cache/lru_cache.cc:321-334 | EvictFromLRU trims the books whatever the pools, and from pools in order it meets no failing assertion |
| `LruShelf.EvictAllKeeps` | rocksdb-cxx/cache/lru_cache.cc:145-165 | a purge leaves an empty list and everything that is referred to |
| `LruShelf.DropKeyKeeps` | rocksdb-cxx/cache/lru_cache.cc:589-613 | taking a key out leaves the books without it, whatever the pools |
| `LruShelf.DropDisplaces` | rocksdb-cxx/cache/lru_cache.cc:589-605 | taking an entry out of the table first and then off the list is dropping its key |
| `LruShelf.SeatDisplaces` | rocksdb-cxx/cache/lru_cache.cc:397-413 | putting the new entry into the table before the old one goes leads to the same |
| `LruShelf.LookUpKeeps` | rocksdb-cxx/cache/lru_cache.cc:430-448 | a hit refers to the entry and takes it off the list, a miss changes nothing |
| `LruShelf.ReleaseKeeps` | rocksdb-cxx/cache/lru_cache.cc:472-517 | what a release leaves: one reference fewer, the entry back at its place, or freed |
| `LruShelf.RetrimKeeps` | rocksdb-cxx/cache/lru_cache.cc:458-470 | new ratios change flags only and bring the pools within their caps |
| `LruRuns.InsertKeeps` | rocksdb-cxx/cache/lru_cache.cc:370-428 | an insert that meets no failing assertion keeps the books and a strict limit, whatever the pools |
| `LruRuns.CapsAreShares` | rocksdb-cxx/cache/lru_cache.cc:352-363 | each pool cap is the capacity times its own ratio |
| `LruAnswers.ReleaseAnswers` | rocksdb-cxx/cache/lru_cache.cc:472-517 | who is freed by a release, exactly, and where an entry that stays joins the list |
| `LruAnswers.LookupAnswers` | rocksdb-cxx/cache/lru_cache.cc:430-448 | what a lookup finds, and that it refers to it, marks it as hit and takes it off the list |
| `LruAnswers.HitGoesBackUp` | rocksdb-cxx/cache/lru_cache.cc:259-280 | an entry that was looked up goes back to the new end of the list if there is a high pool, and else after the low pointer if there is a low one |
| `LruAnswers.EraseAnswers` | rocksdb-cxx/cache/lru_cache.cc:589-613 | a referenced handle outlives the erase of its key, any other is freed with its charge |
| `LruAnswers.InsertAnswers` | rocksdb-cxx/cache/lru_cache.cc:370-428 | what an insert leaves of other handles and keys, and that an entry which fits drives no other key out |
| `LruAnswers.StandaloneAnswers` | rocksdb-cxx/cache/lru_cache.cc:557-587 | a standalone handle is charged unless that cannot fit under a strict limit |
| `LruAnswers.ApplyAnswers` | rocksdb-cxx/cache/lru_cache.cc:232-613 | each operation of a run answers so |
| `LruRuns.InsertKeepsPoolsExactly` | rocksdb-cxx/cache/lru_cache.cc:370-428 | from pools in order it ends with pools in order if and only if it does not link a low entry to a high pool that is over its cap after eviction and without the replaced entry |
| `LruRuns.ReleaseKeepsPoolsExactly` | rocksdb-cxx/cache/lru_cache.cc:472-517 | the same for a release that puts an entry back |
| `LruRuns.StandaloneKeeps` | rocksdb-cxx/cache/lru_cache.cc:557-587 | a standalone handle keeps the books, a strict limit and every referenced handle |
| `LruRuns.ApplyKeepsBooks` | rocksdb-cxx/cache/lru_cache.cc:232-613 | every operation that meets no failing assertion keeps the books, and a strict limit that is not lowered |
| `LruRuns.ApplyKeepsPoolsExactly` | rocksdb-cxx/cache/lru_cache.cc:232-613 | from pools in order an operation ends so if and only if it is not one that breaks them |
| `LruRuns.ApplyKeepsCaps` | rocksdb-cxx/cache/lru_cache.cc:232-613 | with pools in order and within their caps, an operation that does not lower the capacity meets no failing assertion and keeps both |
| `LruRuns.EveryRunKeepsBooks` | rocksdb-cxx/cache/lru_cache.cc:232-613 | every run meets a failing assertion of the source or keeps the books, whatever it does to capacity, ratios and strictness |
| `LruRuns.RaisingRunKeepsPools` | rocksdb-cxx/cache/lru_cache.cc:232-613 | a run that never lowers the capacity meets none and keeps the pools in order and within their caps |
| `LruRuns.StrictRunStaysWithin` | rocksdb-cxx/cache/lru_cache.cc:370-428 | a run that stays strict and never lowers the capacity stays within it |
| `LruRuns.RunKeepsPoolsExactly` | rocksdb-cxx/cache/lru_cache.cc:232-613 | a run keeps the pools in order throughout if and only if none of its operations breaks them |
| `LruExample.LoweredCapacityBreaksPools` | rocksdb-cxx/cache/lru_cache.cc:352-363 | a shard with one high entry whose capacity is lowered: a low entry of charge one leaves its pools out of order, one of charge six meets a failing assertion |
| `LruShard.Shard.constructor` | rocksdb-cxx/cache/lru_cache.cc:116-143 | an empty shard is valid and its pools fit |
| `LruShard.Shard.EvictFromLru` | rocksdb-cxx/cache/lru_cache.cc:321-334 | the books trimmed to the charge |
| `LruShard.Shard.Lookup` | rocksdb-cxx/cache/lru_cache.cc:430-448 | a hit takes the entry off the list, refers to it and marks it as hit, a miss changes nothing, whatever the pools |
| `LruShard.Shard.Ref` | rocksdb-cxx/cache/lru_cache.cc:450-456 | one more reference |
| `LruShard.Shard.Release` | rocksdb-cxx/cache/lru_cache.cc:472-517 | the last reference frees the entry if and only if the caller asks for it, it is not in the table or the usage is above the capacity; otherwise it joins the list at its place, whatever the pools |
| `LruShard.Shard.Insert` | rocksdb-cxx/cache/lru_cache.cc:370-428 | after eviction the entry replaces the old one for its key, or nothing changes because it cannot fit; referenced handles stay, an entry that fits drives nobody out, a strict limit holds; whatever the pools |
| `LruShard.Shard.InsertIfRoom` | rocksdb-cxx/cache/lru_cache.cc:382-426 | the half of that after the eviction |
| `LruShard.Shard.Replace` | rocksdb-cxx/cache/lru_cache.cc:397-426 | the table takes the new handle, the old one goes, and the new one joins the list or is handed out |
| `LruShard.Shard.Displace` | rocksdb-cxx/cache/lru_cache.cc:402-413 | a handle that the table has lost is freed exactly if nobody refers to it |
| `LruShard.Shard.CreateStandalone` | rocksdb-cxx/cache/lru_cache.cc:557-587 | a handle outside the table, charged if it fits or the limit is not strict; every referenced handle stays as it is |
| `LruShard.Shard.Erase` | rocksdb-cxx/cache/lru_cache.cc:589-613 | out of the table at once; the handle stays for those who refer to it, and is freed now if nobody does |
| `LruShard.Shard.EraseUnRefEntries` | rocksdb-cxx/cache/lru_cache.cc:145-165 | the list is empty, only evictable handles are gone, and every handle left is referenced |
| `LruShard.Shard.SetCapacity` | rocksdb-cxx/cache/lru_cache.cc:352-363 | trims to the new capacity; over it, every handle is referenced; the order of the pools is kept |
| `LruShard.Shard.SetHighPriorityPoolRatio` | rocksdb-cxx/cache/lru_cache.cc:458-463 | the pools are trimmed to the new high cap |
| `LruShard.Shard.SetLowPriorityPoolRatio` | rocksdb-cxx/cache/lru_cache.cc:465-470 | the pools are trimmed to the new low cap |
| `LruShard.Shard.SetStrictCapacityLimit` | rocksdb-cxx/cache/lru_cache.cc:365-368 | only the strictness changes |
| `LruShard.Shard.EmptyListMeansReferenced` | rocksdb-cxx/cache/lru_cache.cc:321-334 | with an empty list every handle is referenced |
| `LruShard.Shard.GetPinnedUsage` | rocksdb-cxx/cache/lru_cache.cc:620-624 | the charges of the handles that are referred to; the assertion that the list charges no more than the usage holds |
| `LruShard.Shard.Perform` | rocksdb-cxx/cache/lru_cache.cc:232-613 | each operation of a run ends exactly as `LruRuns.Apply` says |
| `LruShard.Shard.Run` | rocksdb-cxx/cache/lru_cache.cc:232-613 | any run keeps table, list and usage in agreement or meets a failing assertion; one that never lowers the capacity meets none and keeps the pools, their caps and a strict limit |
| `LruTable.PutRepresents` | rocksdb-cxx/cache/lru_cache.cc:49-63 | replacing or appending in a chain is an update of the map |
| `LruTable.CutRepresents` | rocksdb-cxx/cache/lru_cache.cc:65-73 | unlinking is a removal from the map |
| `LruTable.MoveNode` | rocksdb-cxx/cache/lru_cache.cc:97-110 | moving one node to its new chain keeps the new table sound |
| `LruTable.MoveChain` | rocksdb-cxx/cache/lru_cache.cc:94-108 | moving a chain node by node keeps the new table sound and counts every node |
| `LruTable.HandleTable.constructor` | rocksdb-cxx/cache/lru_cache.cc:26-32 | sixteen empty chains stand for the empty map |
| `LruTable.HandleTable.FindPointer` | rocksdb-cxx/cache/lru_cache.cc:75-81 | the place of the key in its chain, or its end exactly when the key is absent |
| `LruTable.HandleTable.Lookup` | rocksdb-cxx/cache/lru_cache.cc:45-47 | the map's answer |
| `LruTable.HandleTable.Insert` | rocksdb-cxx/cache/lru_cache.cc:49-63 | the map updated, the old handle returned, and growth exactly when full and allowed |
| `LruTable.HandleTable.Remove` | rocksdb-cxx/cache/lru_cache.cc:65-73 | the map without the key, the handle returned |
| `LruTable.HandleTable.Resize` | rocksdb-cxx/cache/lru_cache.cc:83-114 | twice the chains, the same map, and the source's assertion that as many entries were moved as were counted |
| `ShardScan.ApplyToEntriesRange` | rocksdb-cxx/cache/lru_cache.h:226-238 | the nodes of the chains in order |
| `ShardScan.ApplyToSomeEntries` | rocksdb-cxx/cache/lru_cache.cc:167-201 | shows exactly the entries placed between the old and the new state, once each |
| `ShardScan.GrowthKeepsAligned` | rocksdb-cxx/cache/lru_cache.cc:172-174 | a state stays at a chain boundary when the table grows |
| `ShardScan.Operate` | rocksdb-cxx/cache/lru_cache.cc:49-73 | whatever is inserted into and removed from a table, it stands for the map that results, stays good for a scan and no smaller, with all entries whose key was not touched |
| `ShardScan.LastOperationCounts` | rocksdb-cxx/cache/lru_cache.cc:49-73 | a tag has what the last operation about it put there, or nothing |
| `ShardScan.ScanShard` | rocksdb-cxx/cache/sharded_cache.h:246-253 | one shard's turn keeps what was shown right |
| `ShardScan.ApplyToAllEntries` | rocksdb-cxx/cache/sharded_cache.h:234-256 | ends; every entry that stays in its shard is shown exactly once and none twice, whatever else changes between the rounds |
| `ShardScan.AdvancesExactlyWithPositiveShare` | rocksdb-cxx/cache/sharded_cache.h:243-244 | a scan moves on exactly when its share is positive |
| `ShardScan.ZeroShareNeverEnds` | rocksdb-cxx/cache/sharded_cache.h:243-253 | with a zero share the state of a scan is the same after any number of rounds |
| `SuperVersions.ReaderStepKeepsInv` | rocksdb-cxx/db/column_family.cc:1235-1294 | every step of a reader keeps the invariant |
| `SuperVersions.InstallBegins` | rocksdb-cxx/db/column_family.cc:1302-1310 | so does installing a new SuperVersion |
| `SuperVersions.InstallKeepsReader` | rocksdb-cxx/db/column_family.cc:1324-1364 | a step of an install leaves what every reader relies on |
| `SuperVersions.InstallKeepsCount` | rocksdb-cxx/db/column_family.cc:1324-1364 | and every reference count right |
| `SuperVersions.InstallGoesOn` | rocksdb-cxx/db/column_family.cc:1324-1364 | so do the scrape and the drops of an install |
| `SuperVersions.StepKeepsInv` | rocksdb-cxx/db/column_family.cc:1235-1364 | every step of every thread does |
| `SuperVersions.EveryRunKeepsInv` | rocksdb-cxx/db/column_family.cc:1235-1364 | the invariant holds in every state of every interleaving |
| `SuperVersions.RefsCountHolders` | rocksdb-cxx/db/column_family.cc:446-456 | a count is the installed reference plus cached pointers, references in use and handed out ones |
| `SuperVersions.CachedIsCurrent` | rocksdb-cxx/db/column_family.cc:1248-1294 | outside an install a thread caches only the current SuperVersion |
| `SuperVersions.CleanedOnceAndUnheld` | rocksdb-cxx/db/column_family.cc:458-473 | cleanup happens once at most and only when nobody holds it |
| `SuperVersions.LastReferenceIsCleaned` | rocksdb-cxx/db/column_family.cc:451-473 | whoever drops the last reference is the one thread that cleans up |
| `SuperVersions.NeverTheLast` | rocksdb-cxx/db/column_family.cc:1348-1364 | the scrape, an exiting thread and the spare reference never drop the last one |
| `SuperVersionAnswers.InstallMakesCurrent` | rocksdb-cxx/db/column_family.cc:1302-1322 | an install makes a new SuperVersion current, with one reference |
| `SuperVersionAnswers.InstallCompletes` | rocksdb-cxx/db/column_family.cc:1324-1364 | an install that nobody disturbs ends with every cached pointer obsolete and the reference to the old one gone |
| `SuperVersionAnswers.GetIsServed` | rocksdb-cxx/db/column_family.cc:1248-1276 | while no install is under way a thread gets the current SuperVersion, at once if it is cached |
| `SuperVersionAnswers.GetsWhatIsInstalled` | rocksdb-cxx/db/column_family.cc:1248-1276 | in every interleaving a thread that starts to use one after an install uses that one or a later one |
| `SuperVersionAnswers.ReturnedIsCached` | rocksdb-cxx/db/column_family.cc:1278-1294 | in every interleaving one that is returned with no install since is cached for the next use |
| `SuperVersionAnswers.ReferenceIsAdded` | rocksdb-cxx/db/column_family.cc:1235-1241 | a caller that wants a reference of its own gets one more |
| `SuperVersionAnswers.DropIsDone` | rocksdb-cxx/db/column_family.cc:451-473 | one that is returned after a scrape gives its reference up, and the last one cleans up |
| `SuperVersionAnswers.ReferencesGoBack` | rocksdb-cxx/db/column_family.cc:446-456 | references of callers and of ending threads are given back |
| `BijectiveHash.AvalancheInverts` | src/hash.rs:69-81 | each avalanche undoes the other |
| `BijectiveHash.PrimesInvert` | src/hash.rs:77-137 | the constants are inverses modulo two to the 64 |
| `BijectiveHash.UnspreadUndoes` | src/hash.rs:129-134 | the low half and then the high half come back |
| `BijectiveHash.SpreadUndoes` | src/hash.rs:96-98 | and the other way round |
| `BijectiveHash.UnhashUndoesHash` | src/hash.rs:83-137 | unhashing a hash gives every input back, for every seed |
| `BijectiveHash.HashUndoesUnhash` | src/hash.rs:83-137 | hashing an unhashed value gives it back, so every pair of words is a hash |
| `BijectiveHash.ReverseHashRecoversKey` | rocksdb-cxx/cache/clock_cache.h:635-657 | every 16-byte key is rebuilt from its hash |
| `BijectiveHash.KeysNeverCollide` | rocksdb-cxx/cache/clock_cache.h:635-657 | two keys have the same hash exactly when they are the same |
| `BijectiveHash.HashExample` | src/hash.rs:83-105 | one hash worked out |
| `SessionId.PutBaseChars` | src/string_util.rs:10-25 | appends the lowest digits, highest first |
| `SessionId.ParseBaseChars` | src/string_util.rs:28-42 | for every base of 64 bits: a number exactly if all characters are digits and no step overflows, with its value; twelve characters of a base up to 36 never overflow |
| `SessionId.ValueOfDigits` | src/string_util.rs:10-42 | reading what was written gives the value modulo the base power |
| `SessionId.DigitsOfValue` | src/string_util.rs:10-42 | writing what was read gives the upper-case digits again |
| `SessionId.ParsesExactlyFromBaseTen` | src/string_util.rs:28-32 | some non-empty string is a number exactly for bases from ten on |
| `SessionId.EncodeSessionId` | src/unique_id.rs:298-310 | twenty characters for the two words |
| `SessionId.DecodeSessionId` | src/unique_id.rs:313-362 | the words, the error for each malformed length or digit, or the panic of a slice inside a character |
| `SessionId.DecodesExactly` | src/unique_id.rs:313-362 | an id is decoded if and only if it is 13 to 24 base-36 digits, whatever bytes its characters take |
| `SessionId.PanicsExactly` | src/unique_id.rs:344-351 | decoding panics if and only if an id of 13 to 24 bytes has no character boundary twelve bytes before its end |
| `SessionId.CutLetterPanics` | src/unique_id.rs:344-351 | an id of an accented letter and eleven zeros on which it panics |
| `SessionId.DecodeOfEncode` | src/unique_id.rs:298-362 | decoding an encoded id gives the lower word exactly and the upper word reduced |
| `SessionId.EncodeOfDecode` | src/unique_id.rs:298-362 | twenty upper-case characters come back exactly when the last twelve are a 62-bit number |
| `SessionId.EncodedIdIsStable` | src/unique_id.rs:298-362 | encoding the decoded words gives the same id |
| `SessionId.EncodeExample` | src/unique_id.rs:298-310 | one id worked out |
| `ValueChunks.ChunkSize` | rocksdb-cxx/cache/compressed_secondary_cache.cc:228-244 | all that is left, or a bin that is then followed by less than that bin, if and only if the value is to be split |
| `ValueChunks.AllocatedIsOverhead` | rocksdb-cxx/cache/compressed_secondary_cache.cc:246-255 | what is allocated is the bytes of the chunks and one overhead for each |
| `ValueChunks.SplitValueIntoChunks` | rocksdb-cxx/cache/compressed_secondary_cache.cc:212-259 | the chunks hold the value, fill strictly smaller bins, are at most eight, charge their overhead, and no more is left in one chunk than is not to be split |
| `ValueChunks.MergeChunksIntoValue` | rocksdb-cxx/cache/compressed_secondary_cache.cc:261-284 | the buffer holds the chunks in order and the charge is its length |
| `ValueChunks.SplitAndMerge` | rocksdb-cxx/cache/compressed_secondary_cache.cc:212-284 | every value comes back |
| `Reservations.CoverIsLeast` | rocksdb-cxx/cache/cache_reservation_manager.cc:137-143 | the number of dummy entries is the least that covers the memory |
| `Reservations.CacheReservationManager.IncreaseCacheReservation` | rocksdb-cxx/cache/cache_reservation_manager.cc:113-130 | reaches the cover, or keeps what the cache accepted |
| `Reservations.CacheReservationManager.DecreaseCacheReservation` | rocksdb-cxx/cache/cache_reservation_manager.cc:132-153 | releases down to the cover |
| `Reservations.CacheReservationManager.UpdateCacheReservation` | rocksdb-cxx/cache/cache_reservation_manager.cc:57-86 | exact success; the reservation is then the least that covers the memory, except that a delayed decrease keeps it exactly while at least three quarters are used |
| `Reservations.CacheReservationManager.MakeCacheReservation` | rocksdb-cxx/cache/cache_reservation_manager.cc:88-101 | the amount counts as used even when it is refused |
| `Reservations.CacheReservationManager.ReleaseCacheReservation` | rocksdb-cxx/cache/cache_reservation_manager.cc:103-111 | dropping a handle takes its amount back and leaves the least reservation |
| `Reservations.CacheReservationManager.ReserveAndRelease` | rocksdb-cxx/cache/cache_reservation_manager.cc:24-38 | making and dropping a reservation leaves no trace, even when it was refused half way |
| `Reservations.CacheReservationManager.UpdateBy` | rocksdb-cxx/cache/cache_reservation_manager.h:273-287 | the same by a difference |
| `Reservations.SecondaryShareIsFloor` | rocksdb-cxx/cache/secondary_cache_adapter.cc:218-232 | the share is the ratio of the charge, rounded down |
| `Reservations.SecondaryAdapter.constructor` | rocksdb-cxx/cache/secondary_cache_adapter.cc:75-101 | the whole secondary capacity starts as a reservation in the primary |
| `Reservations.SecondaryAdapter.Insert` | rocksdb-cxx/cache/secondary_cache_adapter.cc:218-232 | a placeholder moves its share from the primary reservation to the deflation |
| `Reservations.SecondaryAdapter.Release` | rocksdb-cxx/cache/secondary_cache_adapter.cc:260-274 | an erasing release moves it back; the deflation falls behind the placeholders by the share exactly if it was not the last reference |
| `Reservations.SecondaryAdapter.Run` | rocksdb-cxx/cache/secondary_cache_adapter.cc:218-274 | over any run the placeholders and the deflation are what the operations make of them, the two sides add up to the secondary capacity, each reservation stays least while its own insertions succeed, and the deflation matches the placeholders if and only if nothing was given back early |
| `Reservations.EarlyReturn` | rocksdb-cxx/cache/secondary_cache_adapter.cc:260-274 | a run of three operations after which the secondary cache has its share back while the placeholder is still there |

## Left out

- User timestamps, prefix mode, read callbacks, blobs, wide columns, pinning, statistics and I/O errors of `DBIter`.
- `DBIter` with an inner iterator that knows its bounds: the model always checks the bound itself. Branches that
  cannot be reached with a sorted list and intact entries are not written out. A missing merge operator is not
  modelled.
- User keys are integers: a run compares finitely many keys under a total order, and integers with gaps stand for them.
- Memory orders: steps of the clock table and of the SuperVersion hand-off are sequentially consistent,
  and a weak compare-exchange does not fail by itself.
- `CorrectNearOverflow`: counters are unbounded integers, which is what they are below half of their range.
- The clock pointer and the sizes of caches are unbounded integers; no run comes near the end of a 64-bit word.
- ClockTable.HyperClockTable.Run: operations do not overlap; what overlapping operations keep is in `ClockSafety` and
  `ClockLedger`.
- ClockLedger.StepKeepsGood: how many slots an eviction visits is left open.
- ClockLedger.UsageDoesNotUnderflow: one way only from an overdraft to an underflow, which others must bring about;
  when an overdraft happens is exact in `OverdrawnExactly`.
- ClockTable.HyperClockTable.Insert: the eviction callback, and who frees the evicted value, are not modelled.
- LruShard.Shard.Run: what follows a failing assertion, in a build without assertions, is not modelled.
- LruListing.Listing.LruInsert: a handle gets a new node each time it is listed, where the source links the handle
  itself; its other fields are values in a map.
- LruTable.HandleTable.Resize: chains are sequences, so the pointers between their nodes are not modelled.
- ShardScan.ApplyToAllEntries: the share is positive, as the assertion in lru_cache.cc:179 demands; the shards between
  two rounds are arbitrary, but their tables never shrink.
- SessionId.ParseBaseChars: the number starts from zero, and an overflow panics, as in a build that checks for it.
- ValueChunks.SplitValueIntoChunks: the chunks are a sequence, not linked allocations; the chunk header takes 24 bytes.
- Reservations.SecondaryAdapter.Insert: the share is an exact product rounded down, where the source multiplies doubles.
- Reservations.SecondaryAdapter.Release: placeholders that the primary cache evicts by itself are not modelled.
- Compression, allocators, option parsing, hash seeds from the host, shard sizes and load-factor reports.
- Write stalls and option sanitizing of column families, file names, coding, and the bridge files: nothing hard to
  prove.
