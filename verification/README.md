# Five open-addressing hash tables, verified

A Dafny model of the hash tables of this repository, each proved to agree with the plain multiset, map or index it
speeds up.

- **SimdHash** (`Simd*.dfy`, `RoundingUp.dfy`): tag bytes scanned sixteen at a time. `SimdProbe` shows which windows the
  wrapping jump visits; `SimdLayout`, `SimdSteps` and `SimdRuns` give the invariant, what one step keeps of it, and that
  every run refines a multiset, and a finite map when between removals and the next addition it rehashes, grows, clears
  or removes everything; `SimdRehash` and `SimdCore` the rehash inside the entry array and the Map/Set table as a class;
  `SimdIndex` the Index table; `SimdIterator` the mask-driven iterator; `SimdCapacity` how capacities and limits are
  chosen. `SimdLimits` holds what is not true, with the exact conditions: an insertion that is checked can store a key
  twice, if and only if a tombstone is ahead of the key; lookups can run for ever, if and only if neither the key nor an
  EMPTY tag is on their probe (`SimdSteps.LookupEndsIff`); and `Rehash()` does not take the tombstones of an emptied
  table away.
- **unordered_dense** (`RobinHood.dfy`, `BucketSpread.dfy`, `DenseTable.dfy`, `DenseValues.dfy`): robin-hood buckets over
  a dense sequence of values. Tables are as large as their 24-bit distances allow, and `BucketSpread` says how large
  that is from the homes of the keys alone.
- **emhash8** (`ChainForest.dfy`, `EmHash8.dfy`): chains threaded over an array of buckets, dense pairs, and a cached
  tail bucket. The buffer of the pairs is as large as the load factor makes it when it is allocated: growth leaves room,
  but shrinking and a lower load factor move the pairs without looking, and `EmHash8.Table.Rehash`, `ShrinkToFit` and
  `SetMaxLoadFactor` say exactly when they fit.
- **emhash7** (`Bitmask.dfy`, `EmHash7.dfy`): the same chains through the pairs in place, which is how they are proved,
  and a bitmask of the empty buckets with the iterator that reads it. Two of its promises have exact conditions:
  `erase(iterator)` with an iterator that has not read its word yet (`Bitmask.IncrementEmptied`), and the load factor
  that leaves an empty bucket (`EmHash7.ReserveLeavesRoomIff`).
- **tsl hopscotch** (`Neighborhoods.dfy`, `HopscotchMap.dfy`, `HopscotchPolicy.dfy`): neighbourhood bits, displacement,
  an overflow container and growth that calls itself through rehashing. Stored 32-bit hashes find buckets if and only
  if there are at most 2^32 of them (`HopscotchPolicy.TruncationKeepsHomesIff`).

Throughout, the hash is an arbitrary function into 64-bit words, key equality is equality, a vector mask is the set of
its lanes, and an array that the source replaces or keeps inside a container is a sequence that the methods reassign;
the arrays of SimdHash are arrays. Load factors are reals. `dafny verify dfyconfig.toml` checks everything.

Each class has a `Valid` predicate that says what its operations keep, ghost fields or functions for what the table
stands for, and methods with the source's control flow whose contracts give the new contents. Large loops are split into
methods of a few lines where the source has one body.

## Model

| member | source | states |
|---|---|---|
| Arithmetic.MaskIsModulo | src/include/SimdHash.h:850-855 | for a power of two the mask gives the remainder |
| Arithmetic.MultiplyReduceInRange | src/include/SimdHash.h:857-860 | the multiply-based reduction of any 64-bit value is below the capacity |
| Arithmetic.MultiplyReduceIsModulo | src/include/SimdHash.h:857-860 | for values below 2^32 and capacities up to 2^31 it is exactly the remainder |
| Arithmetic.PowerReduceIsModulo | src/include/SimdHash.h:857-860 | for a power of two it is exactly the remainder of every 64-bit value |
| Arithmetic.LargeReduceIsNotModulo | src/include/SimdHash.h:857-860 | a capacity with a factor 3 and a large value for which it is not the remainder |
| RoundingUp.RoundUp | src/include/SimdHash.h:119-132 | smearing the highest bit gives the least power of two that is not below a 32-bit value, and zero when that does not fit |
| RoundingUp.SmearStep | src/include/SimdHash.h:125-129 | or-ing a word with itself shifted doubles the run of ones below its highest bit |
| RoundingUp.NoLowerBit | src/include/SimdHash.h:121 | a word without a bit left after resetting its lowest set bit is a power of two |
| RoundingUp.RoundUpIsLeast | src/include/SimdHash.h:119-132 | the rounded value is a power of two, at least the value and below twice the value |
| RoundingUp.RoundUpUnique | src/include/SimdHash.h:119-132 | a value above half of a power of two and not above it rounds up to that power |
| SimdProbe.AdjustIsReduction | src/include/SimdHash.h:850-861 | a reduced hash is a slot, and a probe step is addition modulo the capacity, in every mode |
| SimdProbe.JumpStep | src/include/SimdHash.h:915 | the 8-bit jump wraps after sixteen increments |
| SimdProbe.PosClosedForm | src/include/SimdHash.h:967 | where the k-th window of a probe starts |
| SimdProbe.PosResidue | src/include/SimdHash.h:967 | every window of a probe starts at the same residue modulo sixteen |
| SimdProbe.SolveProbe | src/include/SimdHash.h:967 | for a power of two of groups some probe below twice their number reaches any given group |
| SimdProbe.ProbeVisits | src/include/SimdHash.h:915-967 | every start that is congruent to the first modulo sixteen is visited within 2 * (N / 16) probes |
| SimdProbe.ProbeReaches | src/include/SimdHash.h:915-967 | every slot from s mod 16 on is inside a window within 2 * (N / 16) probes |
| SimdProbe.ProbeCovers | src/include/SimdHash.h:437-456 | the windows cover exactly the slots from s mod 16 to N - 1, besides the sentinel |
| SimdCapacity.AdjustCapacity | src/include/SimdHash.h:801-848 | the loop over the parts returns the specified capacity |
| SimdCapacity.AdjustedBounds | src/include/SimdHash.h:801-848 | the capacity is at least the request, a multiple of 4096, and not above the rounded-up power of two or the least size |
| SimdCapacity.AdjustedMonotone | src/include/SimdHash.h:801-848 | a larger request never gets a smaller capacity |
| SimdCapacity.AdjustedIdempotent | src/include/SimdHash.h:801-848 | the capacity chosen for a capacity is that capacity |
| SimdCapacity.CapacitySteps | src/include/SimdHash.h:815-848 | above 16 Mi slots the least multiple of a quarter or an eighth of the rounded-up power, or of 8 Mi slots, that holds the request; the power itself otherwise |
| SimdCapacity.LimitIsShare | src/include/SimdHash.h:648-661 | the limit is the share of the slots that the load factor gives, rounded down, or the largest capacity |
| SimdCapacity.LimitLeavesRoom | src/include/SimdHash.h:648-661 | the load limit is positive and leaves sixteen slots free |
| SimdCapacity.LimitGrows | src/include/SimdHash.h:648-661 | twice the capacity has a limit above the old one |
| SimdCapacity.DoubledCapacity | src/include/SimdHash.h:1080 | asking for one slot more than a power of two doubles it |
| LaneMasks.TrailingZeroCount | src/include/SimdHash.h:29-69 | the lowest lane of a mask that is not empty |
| SimdLayout.TagIsTopBits | src/include/SimdHash.h:901-904 | the tag is the seven highest bits of the hash |
| SimdLayout.OccupantsUpdate | src/include/SimdHash.h:1053-1078 | writing one slot changes the stored entries by exactly that slot |
| SimdSteps.MissMeansAbsent | src/include/SimdHash.h:965 | a window with an EMPTY tag and no hit so far: the key is stored nowhere |
| SimdSteps.StoredIffHasKey | src/include/SimdHash.h:907-971 | a key is met by its probe if and only if an entry has it |
| SimdSteps.InsertKeeps | src/include/SimdHash.h:1051-1078 | filling the first free slot of the probe keeps the invariant and adds one entry |
| SimdSteps.BuryKeeps | src/include/SimdHash.h:1110-1113 | a tombstone keeps the invariant and takes out one entry |
| SimdSteps.AssignKeeps | src/include/SimdHash.h:1017-1026 | overwriting a value keeps the invariant and exchanges one entry |
| SimdSteps.FreshIsEmpty | src/include/SimdHash.h:437-456 | freshly initialised tags satisfy the invariant and store nothing |
| SimdSteps.CoveringWindow | src/include/SimdHash.h:915-967 | every slot from the fifteenth on is seen by every probe |
| SimdSteps.LookupEndsIff | src/include/SimdHash.h:907-971 | a lookup ends if and only if its probe meets the key or a window with an EMPTY tag |
| SimdSteps.InsertEnds | src/include/SimdHash.h:1041-1048 | with sixteen slots free every insertion finds one within 2 * (N / 16) probes |
| SimdSteps.LookupEndsWithoutTombstones | src/include/SimdHash.h:965-967 | without tombstones the same bound makes every lookup end |
| SimdStorage.LookupEndsWithEmptyWindow | src/include/SimdHash.h:965-967 | a lookup ends while at least sixteen EMPTY tags remain |
| SimdStorage.LoadLeavesEnds | src/include/SimdHash.h:1032-1034 | below the load limit every insertion ends, and without tombstones every lookup |
| SimdStorage.RunWithoutRemovalsEnds | src/include/SimdHash.h:965-967 | in every run without removals every lookup and every insertion ends in every state below the limit |
| SimdStorage.InitTags | src/include/SimdHash.h:437-456 | every tag is EMPTY and the sixteen after them FORBIDDEN |
| SimdStorage.FindEmpty | src/include/SimdHash.h:1085-1104 | the first EMPTY slot on the probe, below the capacity |
| SimdStorage.GrowthCapacity | src/include/SimdHash.h:1080 | growing by one slot doubles the capacity and raises the limit above the count |
| SimdRuns.AddFollowsScan | src/include/SimdHash.h:974-1083 | what the scan settles on makes the step an addition step |
| SimdRuns.RemoveFollowsLookup | src/include/SimdHash.h:1106-1114 | what the lookup finds makes the step a removal step |
| SimdRuns.StepRefinesMultiset | src/include/SimdHash.h:907-1114 | every operation keeps the invariant and changes the stored multiset as a multiset operation with the same answer |
| SimdRuns.RunRefinesMultiset | src/include/SimdHash.h:907-1114 | every run refines a multiset |
| SimdRuns.VacancyMeansAbsent | src/include/SimdHash.h:1032 | where every stored key is met before a free slot, a checked insertion that finds a free slot had an absent key |
| SimdRuns.NoTombstoneAllMet | src/include/SimdHash.h:1032 | without tombstones every stored key is met before a free slot |
| SimdRuns.InsertKeepsMet | src/include/SimdHash.h:1041-1078 | an insertion keeps every stored key ahead of the free slots on its probe, with tombstones about or not |
| SimdRuns.StepRefinesMap | src/include/SimdHash.h:1246-1264 | from a state that is a map, with every stored key met before a free slot, every operation acts on the map |
| SimdRuns.RunRefinesMap | src/include/SimdHash.h:665-671 | a run that rehashes, grows, clears or empties the table between removals and the next addition refines a finite map, answers included; a rehash that does nothing counts |
| SimdRuns.RunWithoutRemovals | src/include/SimdHash.h:1106-1114 | a run without removals has no tombstone in any state |
| SimdLimits.AddDuplicatesIff | src/include/SimdHash.h:1032 | a checked insertion of a stored key puts in a second copy if and only if a tombstone is ahead of it |
| SimdLimits.AllMetIff | src/include/SimdHash.h:1032 | with distinct keys every stored key is met before a free slot if and only if a tombstone is ahead of none |
| SimdLimits.RehashClearsIff | src/include/SimdHash.h:665-671 | after a rehash no tombstone is left if and only if something was stored or there was none before |
| SimdLimits.RehashCanChangeNothing | src/include/SimdHash.h:665-671 | a run that ends with a rehash of an emptied table, after which tombstones stay and still no lookup ends |
| SimdLimits.AddCanDuplicate | src/include/SimdHash.h:974-1083 | a run that stores one key twice |
| SimdLimits.LookupCanDiverge | src/include/SimdHash.h:965-967 | a run after which no lookup ends, though nothing is stored |
| SimdRehash.PickKeeps | src/include/SimdHash.h:702-712 | lifting a pending entry out conserves the entries |
| SimdRehash.PlaceKeeps | src/include/SimdHash.h:723-730 | placing the lifted entry in a slot that holds nothing conserves them |
| SimdRehash.EvictKeeps | src/include/SimdHash.h:736-746 | exchanging the lifted entry with a pending one conserves them, and fewer are pending |
| SimdRehash.RehashRoom | src/include/SimdHash.h:710 | while an entry is in hand an EMPTY slot is ahead of it |
| SimdRehash.RehashDone | src/include/SimdHash.h:761 | with nothing pending the table holds exactly what it held |
| SimdCore.Core.constructor | src/include/SimdHash.h:1225-1228 | an empty table of the smallest capacity, which grows at 4000 entries |
| SimdCore.Core.FindEntry | src/include/SimdHash.h:907-971 | the slot of the first hit on the probe, or a miss; true if and only if an entry has the key |
| SimdCore.Core.ProbeForAdd | src/include/SimdHash.h:974-1049 | the entry of the key or the slot to fill |
| SimdCore.Core.Add | src/include/SimdHash.h:974-1083 | the whole new state: one more entry, or none or a new value when the key was met, and a rebuild at the limit; the count follows |
| SimdCore.Core.Remove | src/include/SimdHash.h:1106-1114 | takes out exactly one entry of the key if and only if it has one |
| SimdCore.Core.RehashInternal | src/include/SimdHash.h:695-762 | chasing displaced entries ends, conserves the entries, leaves no tombstone and counts them all again |
| SimdCore.Core.Chase | src/include/SimdHash.h:734-758 | the displacement chain from one entry ends in an empty slot |
| SimdCore.Core.MoveFrom | src/include/SimdHash.h:702-759 | one step of the outer loop |
| SimdCore.Core.Rehash | src/include/SimdHash.h:665-671 | the same entries; without tombstones when something is stored, and nothing changed when nothing is |
| SimdCore.Core.Resize | src/include/SimdHash.h:767-797 | a capacity of at least the adjusted size with the same entries |
| SimdCore.Core.SetMaxLoadFactor | src/include/SimdHash.h:648-661 | the factor within its bounds, and the limit: that share of the slots, rounded down |
| SimdCore.Core.GrowAtLimit | src/include/SimdHash.h:1080 | growth exactly when the count meets the limit, after which it is below |
| SimdCore.Core.Clear | src/include/SimdHash.h:615-629 | nothing stored, and the capacity asked for |
| SimdCore.Core.Contains | src/include/SimdHash.h:889-892 | true if and only if some entry has the key |
| SimdCore.Core.TryGetValue | src/include/SimdHash.h:1261-1264 | the value the map has for the key |
| SimdIndex.AddRanks | src/include/SimdHash.h:1055-1069 | without tombstones an addition keeps ranks and slots in correspondence and gives the next rank |
| SimdIndex.SlotsMatchRanks | src/include/SimdHash.h:557-562 | the ranks of the occupied slots are a bijection onto 0 .. count - 1 |
| SimdIndex.Index.TryGetIndex | src/include/SimdHash.h:1307-1310 | the rank of the key in insertion order, or a miss if and only if it was never added |
| SimdIndex.Index.Add | src/include/SimdHash.h:1297-1305 | appends the key, or gives the rank it has; checked additions keep the keys distinct; grows exactly at the limit |
| SimdIndex.Index.RehashInternal | src/include/SimdHash.h:677-693 | re-inserting by rank keeps the keys, their order and the invariant |
| SimdIndex.Index.Resize | src/include/SimdHash.h:767-797 | growth keeps the keys and their ranks |
| SimdIndex.Index.AppendKey | src/include/SimdHash.h:1061-1066 | the key storage grows by pages and keeps its keys |
| SimdIterator.VisitsAllOnce | src/include/SimdHash.h:1179-1206 | the occupied slots, each once, in ascending order |
| SimdIterator.ConstIterator.Begin | src/include/SimdHash.h:1129-1138 | the first occupied slot, or the end |
| SimdIterator.ConstIterator.Seek | src/include/SimdHash.h:1179-1206 | the next occupied slot or exactly the end, for 16, 32 and 64 lanes |
| SimdIterator.ConstIterator.Increment | src/include/SimdHash.h:1156-1159 | from one occupied slot to the next |
| DenseValues.SwapRemoveMultiset | src/include/unordered_dense.h:1066-1082 | filling the hole with the last value removes exactly the erased value |
| DenseValues.SwapRemoveKeepsMap | src/include/unordered_dense.h:1066-1082 | and takes exactly its key out of the map |
| DenseValues.AppendKeepsMap | src/include/unordered_dense.h:1115-1131 | appending a value with a new key adds it to the map |
| DenseValues.EraseLeft | src/include/unordered_dense.h:1698-1704 | one step from the left of a range erasure |
| DenseValues.EraseRight | src/include/unordered_dense.h:1706-1711 | one step from the right of a range erasure |
| DenseValues.DistinctStay | src/include/unordered_dense.h:1467-1504 | dropping repeated keys leaves every prefix with distinct keys where it is, and a container of distinct keys as it is |
| RobinHood.HomeInRange | src/include/unordered_dense.h:917-919 | the shifted hash is a bucket |
| RobinHood.FingerprintIsLowByte | src/include/unordered_dense.h:913-915 | the fingerprint is the low byte of the hash above a distance of one |
| RobinHood.ProbeMeets | src/include/unordered_dense.h:1157-1195 | an indexed value is met by its key's probe, after buckets at least as far from home |
| RobinHood.RicherMeansAbsent | src/include/unordered_dense.h:1188-1190 | a bucket nearer to home than the probe: the key is not indexed |
| RobinHood.RunIsShort | src/include/unordered_dense.h:935 | a run without an empty bucket is no longer than the number of indexed values |
| RobinHood.EmptyAhead | src/include/unordered_dense.h:943-947 | an empty bucket is met within as many steps as there are values |
| RobinHood.InsertKeeps | src/include/unordered_dense.h:942-949 | placing and shifting up keeps ordering, contiguity and the one-to-one correspondence, and indexes one more value |
| RobinHood.EraseKeeps | src/include/unordered_dense.h:1056-1063 | shifting down keeps all three and unindexes exactly one value |
| RobinHood.ReindexKeeps | src/include/unordered_dense.h:1066-1082 | pointing the last value's bucket at the hole keeps the index exact |
| BucketSpread.ShortIffSpread | src/include/unordered_dense.h:884-893 | no distance is about to overflow its 24 bits if and only if no L buckets in a row are home to L + 2^24 - 2 keys |
| BucketSpread.BlockSettles | src/include/unordered_dense.h:942-949 | the values of a block of used buckets have their homes between its start and the home of the last, so their number gives the distance of the last |
| BucketSpread.SpreadDoubles | src/include/unordered_dense.h:1038-1050 | keys whose distances fit still fit after doubling the buckets |
| BucketSpread.FewAreSpread | src/include/unordered_dense.h:884-893 | up to 2^24 - 2 keys fit whatever their homes |
| DenseTable.DistancesFit | src/include/unordered_dense.h:884-893 | with up to 2^24 - 2 values no distance overflows its 24 bits |
| DenseTable.RicherFrom | src/include/unordered_dense.h:1157-1195 | past an empty bucket every bucket is nearer to home than the probe |
| DenseTable.Table.ValidFits | src/include/unordered_dense.h:884-893 | what a table stores fits, so the room insertion asks for is what it must leave |
| DenseTable.Table.SpreadKeysFit | src/include/unordered_dense.h:1115-1131 | below 2^32 - 1 values and with a load factor below one there is room for a key while the keys are spread, growth or not |
| DenseTable.Table.FewKeysFit | src/include/unordered_dense.h:1115-1131 | there always is for fewer than 2^24 - 2 values |
| DenseTable.Table.constructor | src/include/unordered_dense.h:837-838 | an empty table of four buckets with the default load factor |
| DenseTable.Table.DoFind | src/include/unordered_dense.h:1157-1195 | an index of the key's value, or nothing if and only if no value has the key, with two unrolled probes |
| DenseTable.Table.NextWhileLess | src/include/unordered_dense.h:929-940 | where the probe of an absent key stops |
| DenseTable.Table.PlaceAndShiftUp | src/include/unordered_dense.h:942-949 | the loop shifts up to the next empty bucket and indexes the value |
| DenseTable.Table.ClearAndFillBucketsFromValues | src/include/unordered_dense.h:1026-1036 | an index of all the values, from nothing |
| DenseTable.Table.IncreaseSize | src/include/unordered_dense.h:1038-1050 | twice the buckets, with all values indexed and the limit set |
| DenseTable.Table.DoPlaceElement | src/include/unordered_dense.h:1115-1131 | the value is appended and indexed, with growth exactly above the limit |
| DenseTable.Table.DoTryEmplace | src/include/unordered_dense.h:1133-1155 | inserts if and only if the key is absent; the map gets exactly that pair; growth exactly when the value exceeds the limit |
| DenseTable.Table.InsertOrAssign | src/include/unordered_dense.h:1106-1113 | the map gets the pair whether or not the key was there |
| DenseTable.Table.DoErase | src/include/unordered_dense.h:1052-1083 | the values with the erased one replaced by the last; the map without its key |
| DenseTable.Table.ShiftDownFrom | src/include/unordered_dense.h:1056-1063 | the loop shifts down the buckets away from home |
| DenseTable.Table.FindIndex | src/include/unordered_dense.h:1073-1080 | the search for a value's bucket ends at that bucket |
| DenseTable.Table.DoEraseKey | src/include/unordered_dense.h:1085-1104 | one when the key was there, and the map without it |
| DenseTable.Table.EraseAt | src/include/unordered_dense.h:1652-1664 | erases exactly the value at an index |
| DenseTable.Table.EraseRange | src/include/unordered_dense.h:1692-1714 | exactly the values outside the range remain, for either order of range and tail, and where each of them is |
| DenseTable.Table.CalcShiftsForSize | src/include/unordered_dense.h:955-961 | the largest shift whose load holds the size, or zero when none does |
| DenseTable.Table.FewReplaced | src/include/unordered_dense.h:1455-1463 | a container of up to 2^24 - 2 elements fits the buckets chosen for it when the largest array holds it |
| DenseTable.Table.Replace | src/include/unordered_dense.h:1455-1505 | pairwise distinct keys, the keys of the container, and only its pairs: those that scanning it and overwriting repeated keys with the last value leaves, the container itself when its keys are distinct |
| DenseTable.Table.IndexNext | src/include/unordered_dense.h:1474-1504 | one value indexed, or dropped because its key has come before |
| DenseTable.Table.SetMaxLoadFactor | src/include/unordered_dense.h:1877-1882 | the factor and the limit: that share of the buckets rounded down, or all of the largest array |
| ChainForest.PackedParts | src/include/hash_table8.hpp:64-67 | slot and hash bits stored in one word come apart again |
| ChainForest.StoreHead | src/include/hash_table8.hpp:1213-1219 | a pair in its empty main bucket starts a chain |
| ChainForest.StoreTail | src/include/hash_table8.hpp:1536-1539 | a pair in an empty bucket linked to the end extends its chain |
| ChainForest.KickOut | src/include/hash_table8.hpp:1472-1485 | moving a foreign occupant and relinking keeps every chain |
| ChainForest.Unlink | src/include/hash_table8.hpp:1308-1310 | taking a later bucket off its chain keeps every chain |
| ChainForest.UnlinkHead | src/include/hash_table8.hpp:1294-1306 | copying the second bucket over the first takes the first pair off |
| ChainForest.UnlinkOnly | src/include/hash_table8.hpp:1294-1306 | taking the only bucket off leaves its chain empty |
| ChainForest.Renumber | src/include/hash_table8.hpp:1276-1277 | the last pair moved to the hole: only its bucket's slot changes |
| ChainForest.EmptyExists | src/include/hash_table8.hpp:1578-1632 | a bucket is empty while there are fewer pairs than buckets |
| ChainForest.NoneMeansAbsent | src/include/hash_table8.hpp:1366-1397 | a key that is not on its chain is stored nowhere |
| ChainForest.BucketCount | src/include/hash_table8.hpp:1177-1178 | the power of two that holds the buckets asked for |
| EmHash8.Table.constructor | src/include/hash_table8.hpp:237-251 | an empty map with at least the buckets asked for |
| EmHash8.Table.FindEmptyBucket | src/include/hash_table8.hpp:1578-1632 | an empty bucket among the real ones, though probing runs into the two sentinels; the roving search ends |
| EmHash8.Table.FindPrevBucket | src/include/hash_table8.hpp:1648-1660 | the bucket before, on the chain |
| EmHash8.Table.FindLastBucket | src/include/hash_table8.hpp:1634-1646 | the end of the chain |
| EmHash8.Table.KickoutBucket | src/include/hash_table8.hpp:1472-1485 | frees the bucket and keeps the forest |
| EmHash8.Table.FindOrAllocate | src/include/hash_table8.hpp:1495-1540 | the key's bucket with nothing changed, or an empty bucket that makes the forest right once it is filled, and then the key was absent |
| EmHash8.Table.FindUniqueBucket | src/include/hash_table8.hpp:1542-1562 | an empty bucket that makes the forest right once it is filled |
| EmHash8.Table.FindFilledBucket | src/include/hash_table8.hpp:1332-1363 | the key's bucket, or INACTIVE if and only if the key is absent |
| EmHash8.Table.FindFilledSlot | src/include/hash_table8.hpp:1366-1397 | agrees with a linear search of the pairs |
| EmHash8.Table.EmhNew | src/include/hash_table8.hpp:64-67 | the pair is appended inside the buffer, the forest is right, and the cached tail is its bucket |
| EmHash8.Table.DoInsert | src/include/hash_table8.hpp:725-737 | appends if and only if the key is absent |
| EmHash8.Table.DoAssign | src/include/hash_table8.hpp:739-755 | the pair is overwritten in its slot or appended; the map gets it either way |
| EmHash8.Table.Insert | src/include/hash_table8.hpp:756-760 | grows exactly when needed, to the size required, and appends if and only if the key is absent |
| EmHash8.Table.InsertUnique | src/include/hash_table8.hpp:794-802 | appends a pair with an absent key |
| EmHash8.Table.EraseBucket | src/include/hash_table8.hpp:1294-1311 | the bucket that becomes free; the forest without the pair |
| EmHash8.Table.FindSlotBucket | src/include/hash_table8.hpp:1314-1329 | the bucket of a slot, also while a freed bucket is not cleared yet |
| EmHash8.Table.MoveLast | src/include/hash_table8.hpp:1271-1278 | whichever way the last pair's bucket is found, its pair fills the hole |
| EmHash8.Table.EraseSlot | src/include/hash_table8.hpp:1266-1292 | the pairs with the erased one replaced by the last; the map without its key |
| EmHash8.Table.EraseKey | src/include/hash_table8.hpp:900-910 | one when the key was there, and the map without it |
| EmHash8.Table.EraseAt | src/include/hash_table8.hpp:913-920 | erases exactly the pair in a slot |
| EmHash8.Table.EraseIf | src/include/hash_table8.hpp:942-953 | the map without exactly the pairs that satisfy the predicate, in the order the swaps leave them |
| EmHash8.Table.TryGet | src/include/hash_table8.hpp:645-653 | the value the map has for the key |
| EmHash8.Table.TrySet | src/include/hash_table8.hpp:670-678 | overwrites the value of a stored key only |
| EmHash8.Table.Clear | src/include/hash_table8.hpp:982-994 | no pairs, with a valid index |
| EmHash8.Table.CheckExpandNeed | src/include/hash_table8.hpp:1243-1246 | a bucket and a place in the buffer for one pair more, and the same pairs |
| EmHash8.Table.Reserve | src/include/hash_table8.hpp:1065-1096 | more buckets and more room in the buffer than pairs asked for, the least power of two required, and the same pairs |
| EmHash8.Table.Rehash | src/include/hash_table8.hpp:1171-1239 | the same pairs over at least the buckets asked for, if and only if the new buffer has room for the pairs; a table that grows always has it |
| EmHash8.Table.Rebuild | src/include/hash_table8.hpp:1149-1169 | every pair moved inside the new buffer, and an empty index filled slot by slot into a valid forest |
| EmHash8.Table.SetMaxLoadFactor | src/include/hash_table8.hpp:422-428 | a load factor inside its bounds only; the same pairs if and only if there are no more of them than it makes room for |
| EmHash8.Table.ShrinkToFit | src/include/hash_table8.hpp:997-1001 | the same pairs, for a thinly filled table if and only if the load factor makes room for them in the buckets they need |
| EmHash8.RoomForPairs | src/include/hash_table8.hpp:1149-1153 | with more buckets than reserve requires for some pairs the buffer has room for four more |
| EmHash8.RoomIsShare | src/include/hash_table8.hpp:1149-1153 | the buffer has room for the share of the buckets that the load factor gives, rounded down, and four more |
| EmHash8.RequiredIsShare | src/include/hash_table8.hpp:1065-1071 | what reserve requires is the pairs over the load factor, rounded down |
| EmHash8.MultiplierIsInverse | src/include/hash_table8.hpp:422-428 | `_mlf` is 2^27 over the load factor, rounded down |
| EmHash8.ShrinkCanOverrun | src/include/hash_table8.hpp:997-1001 | a table of thirty pairs that shrinking moves to a buffer for 29 |
| EmHash8.LowerFactorCanOverrun | src/include/hash_table8.hpp:422-428 | a table of two hundred pairs that a lower load factor moves to a buffer for 132 |
| Bitmask.NewMask | src/include/hash_table7.hpp:1404-1408 | a set bit for every bucket, and clear padding |
| Bitmask.SetBuckets | src/include/hash_table7.hpp:1337-1341 | the same for a table in use |
| Bitmask.Init | src/include/hash_table7.hpp:369-380 | the iterator reads the filled buckets of its word from its own on |
| Bitmask.GotoNextElement | src/include/hash_table7.hpp:435-447 | the next filled bucket, or exactly the number of buckets |
| Bitmask.Increment | src/include/hash_table7.hpp:398-406 | from a filled bucket to the next one or to the end, also for an iterator that has not read its word |
| Bitmask.Begin | src/include/hash_table7.hpp:714-728 | the first filled bucket, or the end |
| Bitmask.WalkVisitsFilled | src/include/hash_table7.hpp:398-447 | a walk visits the filled buckets, each once, in ascending order |
| Bitmask.IncrementEmptied | src/include/hash_table7.hpp:1274-1281 | incremented after its own bucket was emptied, an iterator that has not read its word goes to the next clear bit, or past it to the one after when it lies in that word, which is then wrong |
| Bitmask.FreshPassesOver | src/include/hash_table7.hpp:1274-1281 | two filled buckets for which it is wrong |
| Bitmask.FreshPassesEnd | src/include/hash_table7.hpp:1274-1281 | a table with nothing further for which it is wrong, since the padding bits are clear |
| EmHash7.AgreeAfterMove | src/include/hash_table7.hpp:1617-1633 | kicking out keeps pairs and chains in agreement |
| EmHash7.AgreeAfterCopy | src/include/hash_table7.hpp:1470-1480 | copying the second pair over the first keeps them in agreement |
| EmHash7.ReserveLeavesRoomIff | src/include/hash_table7.hpp:1355-1371 | reserve keeps an empty bucket for every number of pairs if and only if `_mlf` is at least 2^28 |
| EmHash7.RejectedFactorFills | src/include/hash_table7.hpp:551-552 | with the `_mlf` that an out-of-range load factor leaves, reserve is content with a full table of any size |
| EmHash7.Map.RejectedFactorHasNone | src/include/hash_table7.hpp:1444-1447 | so such a table, once full, neither has an empty bucket nor grows |
| EmHash7.Map.RoomBelowOne | src/include/hash_table7.hpp:1444-1447 | with a load factor in range there is an empty bucket or the next insertion grows |
| EmHash7.Map.constructor | src/include/hash_table7.hpp:546-559 | an empty map with the least power of two of buckets that holds those asked for |
| EmHash7.MultiplierIsInverse | src/include/hash_table7.hpp:546-553 | `_mlf` is 2^28 over a load factor in range, rounded down, and 2^27 over 0.8 otherwise |
| EmHash7.NeededIsShare | src/include/hash_table7.hpp:1355-1359 | what reserve requires is the pairs over the load factor, rounded down |
| EmHash7.Map.FindEmptyBucket | src/include/hash_table7.hpp:1695-1742 | an empty bucket below the number of buckets whenever one exists, and the search ends |
| EmHash7.Map.FindFilledBucket | src/include/hash_table7.hpp:1590-1610 | the key's bucket, or the number of buckets if and only if the key is absent |
| EmHash7.Map.KickoutBucket | src/include/hash_table7.hpp:1617-1633 | frees the bucket, keeps the pairs and the chains |
| EmHash7.Map.FindOrAllocate | src/include/hash_table7.hpp:1642-1692 | the key's bucket with nothing changed, or the bucket for its pair, and then the key was absent |
| EmHash7.Map.FindUniqueBucket | src/include/hash_table7.hpp:1796-1813 | the bucket for the pair of an absent key |
| EmHash7.Map.EmhNew | src/include/hash_table7.hpp:136-140 | the pair is stored, the bit cleared, and everything agrees again |
| EmHash7.Map.EraseKey | src/include/hash_table7.hpp:1460-1501 | the bucket to clear, with the chains right without it, if and only if the key was there |
| EmHash7.Map.EraseBucket | src/include/hash_table7.hpp:1545-1564 | the bucket to clear for an iterator's pair |
| EmHash7.Map.ClearBucket | src/include/hash_table7.hpp:1449-1455 | the bit set, the pair gone, everything in agreement |
| EmHash7.Map.Erase | src/include/hash_table7.hpp:1250-1258 | one when the key was there, and the map without it |
| EmHash7.Map.EraseAt | src/include/hash_table7.hpp:1274-1286 | the map without the key of the iterator, and where exactly the iterator goes, also when it has not read its word |
| EmHash7.Map.DoInsert | src/include/hash_table7.hpp:1108-1117 | stores if and only if the key is absent |
| EmHash7.Map.Insert | src/include/hash_table7.hpp:1119-1129 | grows exactly when needed, to the size required, and stores if and only if the key is absent |
| EmHash7.Map.DoAssign | src/include/hash_table7.hpp:1074-1086 | the map gets the pair whether or not the key was there |
| EmHash7.Map.InsertUnique | src/include/hash_table7.hpp:1173-1179 | stores a pair with an absent key |
| EmHash7.Map.Reserve | src/include/hash_table7.hpp:1355-1371 | more buckets than pairs asked for when it grows or the load factor is in range, and the same pairs |
| EmHash7.Map.Rehash | src/include/hash_table7.hpp:1373-1440 | the same pairs, moved from the last bucket to the first; the loop ends with all of them; more buckets than pairs unless exactly as many are asked for and that is a power of two |
| EmHash7.Map.Clear | src/include/hash_table7.hpp:1335-1347 | no pairs, with a valid bitmask |
| Neighborhoods.PutKeeps | src/include/tsl/hopscotch_hash.h:1539-1555 | putting a value within reach of its home and setting its bit keeps every neighbourhood and adds one value |
| Neighborhoods.TakeKeeps | src/include/tsl/hopscotch_hash.h:1389-1399 | emptying a bucket and clearing its bit keeps every neighbourhood and takes out one value |
| Neighborhoods.MoveKeeps | src/include/tsl/hopscotch_hash.h:1605-1622 | moving a value inside its neighbourhood keeps every neighbourhood and the values |
| Neighborhoods.OverflowGrows | src/include/tsl/hopscotch_hash.h:1560-1569 | the overflow flags stay exact when an element joins |
| Neighborhoods.OverflowShrinks | src/include/tsl/hopscotch_hash.h:1362-1383 | the overflow flags stay exact when an element leaves |
| HopscotchPolicy.PowerOfTwoIsGood | src/include/tsl/hopscotch_growth_policy.h:83-171 | the power-of-two policy gives buckets in range, grows, rounds up, and finds buckets from stored hashes where it says so |
| HopscotchPolicy.NextPowerIs | src/include/tsl/hopscotch_growth_policy.h:120-128 | the next size is the growth factor times the buckets; there is none if and only if that exceeds 2^63 |
| HopscotchPolicy.AmpleBuckets | src/include/tsl/hopscotch_hash.h:1444-1486 | with twenty times the growth factor as many buckets allowed as there are elements, growing is never refused |
| HopscotchPolicy.TruncationKeepsHomesIff | src/include/tsl/hopscotch_hash.h:1844-1856 | 32 stored bits find the bucket of every hash if and only if there are at most 2^32 buckets |
| HopscotchMap.Hopscotch.constructor | src/include/tsl/hopscotch_hash.h:596-631 | an empty map with its thresholds |
| HopscotchMap.Hopscotch.FindInBuckets | src/include/tsl/hopscotch_hash.h:1735-1763 | a bucket with the key, or nothing if and only if no bucket has it |
| HopscotchMap.Hopscotch.FindInOverflow | src/include/tsl/hopscotch_hash.h:1768-1773 | the first overflow element with the key |
| HopscotchMap.Hopscotch.FindImpl | src/include/tsl/hopscotch_hash.h:1684-1700 | where the key is, or that it is nowhere |
| HopscotchMap.Hopscotch.TryGet | src/include/tsl/hopscotch_hash.h:1650-1668 | the value the map has for the key |
| HopscotchMap.Hopscotch.FindEmptyBucket | src/include/tsl/hopscotch_hash.h:1520-1530 | the first empty bucket, within the probing limit, or that all of them are filled |
| HopscotchMap.Hopscotch.SwapEmptyBucketCloser | src/include/tsl/hopscotch_hash.h:1592-1631 | the empty bucket moves strictly closer with the first value that can be moved, every other value where it was, or no value in reach can be moved |
| HopscotchMap.Hopscotch.InsertInBucket | src/include/tsl/hopscotch_hash.h:1539-1555 | exactly one more value, in its neighbourhood |
| HopscotchMap.Hopscotch.InsertInOverflow | src/include/tsl/hopscotch_hash.h:1560-1569 | exactly one more value, in the overflow container |
| HopscotchMap.Hopscotch.TryPlace | src/include/tsl/hopscotch_hash.h:1453-1469 | the displacement loop ends with the value placed within reach, or with nothing left to move or no empty bucket to probe |
| HopscotchMap.Hopscotch.WillNeighborhoodChangeOnRehash | src/include/tsl/hopscotch_hash.h:1493-1514 | whether growing gives some value in reach another home, whether or not the table may grow that far; the buckets it looks at are filled |
| HopscotchMap.Hopscotch.InsertValue | src/include/tsl/hopscotch_hash.h:1444-1486 | the contents change by exactly the inserted pair; the overflow container takes it only when it cannot be placed and growing is ruled out; growth only at the load limit or when crowded; failure only when growing is refused |
| HopscotchMap.Hopscotch.InsertCrowded | src/include/tsl/hopscotch_hash.h:1471-1485 | a value that cannot be placed near its home goes to the overflow container or in after growing; failure only when growing is refused |
| HopscotchMap.Hopscotch.GrowOnce | src/include/tsl/hopscotch_hash.h:1447-1451 | one growth step: the next size of the policy or what the elements need, and more when copying makes the new table grow; refused only where the policy or the maximum refuses |
| HopscotchMap.Hopscotch.Rehash | src/include/tsl/hopscotch_hash.h:1182-1186 | the same contents over the rounded size asked for, or larger ones it grew to; failure only when a size is refused |
| HopscotchMap.Hopscotch.CopyInto | src/include/tsl/hopscotch_hash.h:1322-1347 | copies every element, and leaves this table as it is; fails only when growing is refused |
| HopscotchMap.Hopscotch.MoveInto | src/include/tsl/hopscotch_hash.h:1247-1285 | moves every element, the overflow elements as a whole; fails only when growing is refused |
| HopscotchMap.Hopscotch.TakeOverflow | src/include/tsl/hopscotch_hash.h:1250-1260 | the overflow flags recomputed for the elements taken over |
| HopscotchMap.Hopscotch.EraseFromBucket | src/include/tsl/hopscotch_hash.h:1389-1399 | exactly one value less |
| HopscotchMap.Hopscotch.EraseFromOverflow | src/include/tsl/hopscotch_hash.h:1362-1383 | exactly one value less, and the flag cleared with the last |
| HopscotchMap.Hopscotch.EraseKey | src/include/tsl/hopscotch_hash.h:981-1003 | one when the key was there, and the map without it |
| HopscotchMap.Hopscotch.EraseAt | src/include/tsl/hopscotch_hash.h:941-961 | erases exactly the element at a position |
| HopscotchMap.Hopscotch.TryEmplace | src/include/tsl/hopscotch_hash.h:1412-1426 | inserts if and only if the key is absent; fails only for an absent key and when growing is refused |
| HopscotchMap.Hopscotch.InsertOrAssign | src/include/tsl/hopscotch_hash.h:1402-1409 | the map gets the pair whether or not the key was there; fails only when growing is refused |
| HopscotchMap.Hopscotch.Reserve | src/include/tsl/hopscotch_hash.h:1188-1190 | room for so many elements under the maximum load, with the same contents; fails only when a size is refused |
| HopscotchMap.Hopscotch.SetMaxLoadFactor | src/include/tsl/hopscotch_hash.h:1174-1180 | a factor between 0.1 and 0.96, and both thresholds: shares of the buckets rounded down |
| HopscotchMap.Hopscotch.Clear | src/include/tsl/hopscotch_hash.h:795-802 | no elements, with every bit and flag cleared |

## Left out

- SimdCore.Core.Add: requires that the scan ends, which is what the source needs for it to return; `SimdStorage.LoadLeavesEnds` shows that it does below the load limit.
- SimdCore.Core.constructor: requires the mode `Fast` or `FastDivMod`, as the tables do throughout.
- SimdCore.Core.FindEntry: requires that the lookup ends; `SimdSteps.LookupEndsIff` says when it does.
- SimdCore.Core.Clear: a smaller capacity than the current one is excluded, because the source then fails its own assertion on the page array.
- SimdHash tables whose capacity is not a power of two: `SimdCapacity` and `SimdProbe.AdjustIsReduction` cover all five modes, the tables `Fast` and `FastDivMod`, since a probe need not reach every window of a capacity with a factor 3 or 5.
- SimdHash `ResizeOnlyEmpty`, `bFix = true`, `Map::Update`, `Index::GetIndex`, and the capacity 2^31, whose load limit equals the capacity.
- SimdHash pages: the paged entry array is one array, which grows with the same contents.
- DenseTable.Table.DoTryEmplace: requires room for an absent key: after the insertion, and the growth it brings about, some bucket stays empty and no distance is about to overflow its 24 bits, where the source would wrap (`BucketSpread.ShortIffSpread`).
- DenseTable.Table.SetMaxLoadFactor: negative factors are not modelled, nor the conversion of limits past 2^32; both are undefined in the source.
- DenseTable.Table.Replace: requires the same room for the container's keys in the buckets chosen for it.
- unordered_dense `rehash`, `reserve`, `extract`, segmented storage, and the error thrown when 2^32 buckets overflow.
- EmHash8.Table.Rehash: where the pairs do not fit the new buffer nothing is promised, because the source then writes past it; the same for `ShrinkToFit` and `SetMaxLoadFactor`.
- emhash8 `reserve(n)` with n equal to the size, which turns the chains into counts; range erasure; `merge`; code under undefined macros.
- EmHash7.Map.Insert: requires an empty bucket or growth, which a load factor in range always gives (`EmHash7.Map.RoomBelowOne`); without either the source searches for ever.
- emhash7 `erase_if`: built on `erase(iterator)`, it inherits the condition proved for that.
- HopscotchMap.Hopscotch.MoveInto: when the table would exceed its maximum size the contents are not specified, because the source's rollback is not modelled; the copying variant leaves the table unchanged.
- HopscotchMap.Hopscotch.InsertValue: when values are moved and the table would exceed its maximum size, the contents are not specified either; with stored hashes the maximum number of buckets is one for which 32 bits suffice.
- HopscotchMap.Hopscotch.Rehash: the same, and so for `TryEmplace`, `InsertOrAssign` and `Reserve`, which rehash.
- hopscotch ordered overflow containers, the modulo and prime growth policies, iterators over the elements.
- Copy, move and swap of whole tables, heterogeneous lookup, allocation failure and exceptions of the element types, hash quality, prefetching, vector instructions.
