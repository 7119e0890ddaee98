# KVCG_cpu single-threaded key/value maps, in Dafny

This project models the sequential cores of the KVCG_cpu prototypes. Each
is a key/value map or a set. Each keeps its state in an array of
buckets, updates that state in place and answers `add`, `remove`,
`contains`, `size` and, in some maps, `range_query`. One Dafny module
covers each source file:

- `SeqTradHashMap` models `experiment/seq_trad_hashmap.cpp`. Buckets are
  chosen by the top `i_bits` bits of a 32-bit hash, so key order carries
  across buckets. Each chain is sorted. `remove` leaves tombstones. An
  overlong chain doubles the table and the add is retried. The range query
  walks the sorted chains.
- `ModuloHashMap` models `experiment/dummy.cpp`. It uses `hash % num_buckets`,
  unsorted chains behind an embedded head slot, and the same
  tombstone/resize discipline.
- `Chains` holds what the two chained maps share: the key/value map that a
  chain and a table of chains store, plus the selection and gathering
  functions of the range query.
- `LinearBuckets`, `LinearProbe` and `LinearHashing` model Litwin-style
  linear hashing, from `linearHashmap/linear_probe.cpp` and
  `experiment/linear.cpp`. A key's bucket is its hash code `key % 2^i`,
  halved once when no such bucket exists yet. Growth either splits one
  bucket or, at `2^i` buckets, rebuilds with one more hash bit.
- `OpenAddressing` models `linearHashmap/traditional.cpp`: linear probing
  over 100 slots with a shared dummy node as the tombstone.
- `CuckooSet` models `experiment/sequential.cpp`: a two-table cuckoo set
  with bounded displacement, then growth to `2 * cap + 1`.
- `HopscotchLists`, `Hopscotch` and `HopscotchZeroHash` model
  `experiment/hopscotch_v3.cpp` and `experiment/hopscotch_v2.cpp`.
  - Each home bucket heads a list of its entries inside one flat bucket
    array, linked by first/next deltas.
  - Insertion takes the first free slot: in the home cache line, then
    forward, then backward.
  - Removal unlinks an entry by adding deltas together.
  - `optimize_cacheline_use` may then move one entry into the freed slot.
- `RadixBits` models the coherent parts of `experiment/radix_trie.cpp`: the
  bit helpers and the node constructors, including the side on which
  `inode_split` places the two children.

How the state is modelled:

- Chains are sequences of entries in an `array` of buckets, and the linear
  hash maps hold a sequence of buckets.
- Each map carries a ghost `Contents` map. `Valid()` ties `Contents` to
  the concrete buckets, and every operation is specified against it.
- The hopscotch table is an `array<Bucket>` with the deltas as values.
  Each home bucket's list is a ghost sequence of slot positions.
- Injected hash functions are constant function-valued fields. Values
  are `int`. Keys are `int` in the chained maps, the cuckoo set, the
  hopscotch map and the radix trie. The open-addressing map's `deleteNode`
  and `get` and both linear-hashing maps take non-negative keys only (see
  Left out).

## Model

| member | source | states |
|---|---|---|
| SeqTradHashMap.Index | experiment/seq_trad_hashmap.cpp:153-154 | the bucket of a 32-bit hash, its top `i_bits` bits, is below 2^i_bits |
| SeqTradHashMap.IndexMonotone | experiment/seq_trad_hashmap.cpp:153-154 | a larger hash never goes to an earlier bucket |
| SeqTradHashMap.IndexSplit | experiment/seq_trad_hashmap.cpp:53-57 | after doubling, a hash of bucket b goes to bucket 2b or 2b + 1 |
| SeqTradHashMap.BucketOrder | experiment/seq_trad_hashmap.cpp:329-333 | with an order-preserving hash, a smaller key never lands in a later bucket |
| SeqTradHashMap.MonotoneKeyOrdered | experiment/seq_trad_hashmap.cpp:329-333 | an order-preserving hash makes keys in earlier buckets smaller |
| SeqTradHashMap.Walk | experiment/seq_trad_hashmap.cpp:181-185 | the walk stops on the only node that can hold the key; every key passed is smaller; the key is stored iff that node holds it live |
| SeqTradHashMap.SplicePoint | experiment/seq_trad_hashmap.cpp:176-245 | the head, the tail, or the place after `previous_node` is where the key belongs in sorted order |
| SeqTradHashMap.ShapedReplace | experiment/seq_trad_hashmap.cpp:214-228 | a sorted chain no longer than `chain_length_max + 1` keeps the table invariant |
| SeqTradHashMap.ShapedDistinct | experiment/seq_trad_hashmap.cpp:176-245 | sorted chains hold no key twice |
| SeqTradHashMap.ShapedEmpty | experiment/seq_trad_hashmap.cpp:105-116 | a table of empty buckets satisfies the invariant and stores nothing |
| SeqTradHashMap.HashMap.constructor | experiment/seq_trad_hashmap.cpp:105-116 | a power-of-two number of empty buckets, `i_bits` its logarithm, nothing stored |
| SeqTradHashMap.HashMap.Add | experiment/seq_trad_hashmap.cpp:150-248 | stores key to value; reports growth exactly when the key was absent or tombstoned; the table only grows; a table without tombstones stays without |
| SeqTradHashMap.HashMap.Splice | experiment/seq_trad_hashmap.cpp:230-245 | a new live node at its sorted place adds exactly key to value |
| SeqTradHashMap.HashMap.Overwrite | experiment/seq_trad_hashmap.cpp:193-200 | overwriting revives a tombstone; reports whether it was one |
| SeqTradHashMap.HashMap.PutChain | experiment/seq_trad_hashmap.cpp:193-245 | installing a sorted chain that adds key to value adds it to the map |
| SeqTradHashMap.HashMap.DropChain | experiment/seq_trad_hashmap.cpp:268-275 | installing a chain without the key drops it from the map |
| SeqTradHashMap.HashMap.Resize | experiment/seq_trad_hashmap.cpp:47-101 | more hash bits, a fresh table, the same live map; tombstones dropped, so no chain of the new table holds one |
| SeqTradHashMap.HashMap.ClearTable | experiment/seq_trad_hashmap.cpp:55-57 | a fresh table of 2^bits empty buckets, so no tombstones |
| SeqTradHashMap.HashMap.ReAddTable | experiment/seq_trad_hashmap.cpp:60-91 | re-adding every old chain stores the old table's live map and brings in no tombstone |
| SeqTradHashMap.HashMap.ReAddChain | experiment/seq_trad_hashmap.cpp:68-88 | re-adding one chain adds its live map; only live nodes are added, so no tombstone appears |
| SeqTradHashMap.HashMap.MarkRemoved | experiment/seq_trad_hashmap.cpp:268-275 | tombstoning the key's node removes exactly that key |
| SeqTradHashMap.HashMap.Remove | experiment/seq_trad_hashmap.cpp:250-280 | true iff the key was live; afterwards it is gone and nothing else changed |
| SeqTradHashMap.HashMap.Contains | experiment/seq_trad_hashmap.cpp:282-322 | true iff the key is stored live |
| SeqTradHashMap.HashMap.RangeQuery | experiment/seq_trad_hashmap.cpp:325-440 | the values of the nodes the written walk reports: the start bucket from the skip loop's stop, whole middle buckets, the end bucket up to end |
| SeqTradHashMap.HashMap.Size | experiment/seq_trad_hashmap.cpp:442-470 | the number of stored keys |
| SeqTradHashMap.ScanFrom | experiment/seq_trad_hashmap.cpp:372-393 | the start-bucket scan yields the live nodes in range plus the stray last node |
| SeqTradHashMap.CollectFrom | experiment/seq_trad_hashmap.cpp:345-366 | from node cur, the live nodes up to the bound, stopping at the first above it |
| SeqTradHashMap.CollectUpTo | experiment/seq_trad_hashmap.cpp:420-437 | the end bucket: live nodes up to end |
| SeqTradHashMap.CollectBuckets | experiment/seq_trad_hashmap.cpp:396-418 | the middle buckets: every live node, bucket by bucket |
| SeqTradHashMap.ScanBuckets | experiment/seq_trad_hashmap.cpp:337-437 | the whole walk over buckets sb .. eb equals the written selection |
| SeqTradHashMap.RangeStray | experiment/seq_trad_hashmap.cpp:345-392 | as written, a live last node below start in the start bucket is reported |
| SeqTradHashMap.WrittenWithoutStray | experiment/seq_trad_hashmap.cpp:345-392 | without such a node, the written walk reports what is intended |
| SeqTradHashMap.IntendedSound | experiment/seq_trad_hashmap.cpp:341-370 | the intended answer is sorted and holds only live nodes in [start, end] |
| SeqTradHashMap.SpanSorted | experiment/seq_trad_hashmap.cpp:372-437 | across buckets the three parts follow in key order |
| SeqTradHashMap.SpanSound | experiment/seq_trad_hashmap.cpp:372-437 | across buckets every reported node is live and in [start, end] |
| SeqTradHashMap.IntendedComplete | experiment/seq_trad_hashmap.cpp:337-437 | every stored key in [start, end] is reported |
| SeqTradHashMap.IntendedCovers | experiment/seq_trad_hashmap.cpp:372-437 | a live node in range in a bucket between the ends is reported |
| SeqTradHashMap.IntendedRangeExact | experiment/seq_trad_hashmap.cpp:325-440 | with an order-preserving hash: sorted, exactly the stored keys in [start, end], with their values |
| Chains.ChainMapKeys | experiment/seq_trad_hashmap.cpp:311-318 | a key is stored by a chain iff a live node holds it |
| Chains.AllLiveCount | experiment/seq_trad_hashmap.cpp:65-87 | in a chain without tombstones, as a resize leaves every chain, the live count is the chain's length |
| Chains.ChainMapAt | experiment/seq_trad_hashmap.cpp:263-276 | with distinct keys, a node's key is stored iff the node is live, and then with the node's value |
| Chains.ChainMapInsert | experiment/seq_trad_hashmap.cpp:231-245 | a live node of an absent key inserted anywhere adds exactly key to value |
| Chains.ChainSplice | experiment/seq_trad_hashmap.cpp:176-245 | a node spliced between the smaller and the larger keys keeps the chain sorted and in its bucket; the key was absent |
| Chains.ChainAppend | experiment/dummy.cpp:184-189 | appending a live node of an absent key keeps keys distinct and adds exactly key to value |
| Chains.TableMapPut | experiment/seq_trad_hashmap.cpp:193-245 | replacing the key's own chain by one that adds key to value adds it to the table's map |
| Chains.TableMapDrop | experiment/seq_trad_hashmap.cpp:268-275 | replacing the key's own chain by one without the key drops it from the table's map |
| Chains.LiveCountSize | experiment/seq_trad_hashmap.cpp:442-470 | with distinct keys, counting live nodes counts stored keys |
| Chains.SearchStop | experiment/seq_trad_hashmap.cpp:263-276 | in a sorted chain the walk's stop decides membership, and no other node holds the key |
| Chains.TableMapAt | experiment/seq_trad_hashmap.cpp:253-254 | a key is stored iff its own bucket stores it, with the same value |
| Chains.TotalLiveSize | experiment/seq_trad_hashmap.cpp:442-470 | live nodes over all buckets equal the number of stored keys |
| Chains.SelectMembers | experiment/seq_trad_hashmap.cpp:345-366 | the in-range selection holds exactly the live nodes in range, sorted when the chain is |
| Chains.Stray | experiment/seq_trad_hashmap.cpp:375-392 | at most one extra node, live, below lo and within hi |
| Chains.SkipReached | experiment/seq_trad_hashmap.cpp:375-392 | when the skip loop stops on a key at or above lo, the scan is exactly the in-range selection and nothing strays |
| Chains.SkipScan | experiment/seq_trad_hashmap.cpp:375-392 | skipping to the first node at or above lo (or the last) then scanning is the in-range selection plus the stray node |
| Chains.GatherSound | experiment/seq_trad_hashmap.cpp:396-418 | gathered nodes are live nodes of the gathered buckets |
| Chains.GatherComplete | experiment/seq_trad_hashmap.cpp:396-418 | every live node of the gathered buckets is gathered |
| Chains.GatherSorted | experiment/seq_trad_hashmap.cpp:396-418 | with sorted chains and key-ordered buckets the gathered keys increase |
| ModuloHashMap.Find | experiment/dummy.cpp:145-172 | the walk from the head slot stops at the key's node or past the end, counting the head slot |
| ModuloHashMap.ShapedEmpty | experiment/dummy.cpp:92-107 | a table of empty chains satisfies the invariant and stores nothing |
| ModuloHashMap.ShapedReplace | experiment/dummy.cpp:177-181 | a chain with distinct keys within the length bound keeps the invariant |
| ModuloHashMap.HashMap.constructor | experiment/dummy.cpp:92-107 | `init_buckets` head slots, nothing stored |
| ModuloHashMap.HashMap.ClearTable | experiment/dummy.cpp:52-53 | a fresh table of n empty buckets, so no tombstones |
| ModuloHashMap.HashMap.Overwrite | experiment/dummy.cpp:145-172 | overwriting revives a tombstone; reports whether it was one |
| ModuloHashMap.HashMap.PutChain | experiment/dummy.cpp:145-189 | installing a chain that adds key to value adds it to the map |
| ModuloHashMap.HashMap.DropChain | experiment/dummy.cpp:213-225 | installing a chain without the key drops it from the map |
| ModuloHashMap.HashMap.Append | experiment/dummy.cpp:184-189 | a node appended after the last one adds exactly key to value |
| ModuloHashMap.HashMap.MarkRemoved | experiment/dummy.cpp:194-231 | tombstoning removes exactly that key |
| ModuloHashMap.HashMap.Add | experiment/dummy.cpp:135-192 | stores key to value; reports growth iff the key was absent or tombstoned; a table without tombstones stays without |
| ModuloHashMap.HashMap.Resize | experiment/dummy.cpp:46-88 | at least twice the buckets, a fresh table, the same live map; tombstones dropped, so no chain of the new table holds one |
| ModuloHashMap.HashMap.ReAddTable | experiment/dummy.cpp:56-74 | re-adding every old chain stores the old live map and brings in no tombstone |
| ModuloHashMap.HashMap.ReAddChain | experiment/dummy.cpp:57-72 | re-adding one chain adds its live map; only live nodes are added, so no tombstone appears |
| ModuloHashMap.HashMap.Remove | experiment/dummy.cpp:194-231 | true iff the key was live; afterwards it is gone |
| ModuloHashMap.HashMap.Contains | experiment/dummy.cpp:233-268 | true iff the key is stored live |
| ModuloHashMap.HashMap.RangeQuery | experiment/dummy.cpp:270-275 | always null |
| ModuloHashMap.HashMap.Size | experiment/dummy.cpp:277-300 | the number of stored keys |
| OpenAddressing.HashCode | linearHashmap/traditional.cpp:60-63 | an index below the capacity, congruent to the key |
| OpenAddressing.LiveCountUpdate | linearHashmap/traditional.cpp:81-83 | writing one slot changes the entry count by that slot's change |
| OpenAddressing.LiveCountZero | linearHashmap/traditional.cpp:144-147 | no entries iff no slot holds one |
| OpenAddressing.ProbeFrom | linearHashmap/traditional.cpp:74-78 | a probe that stops does so at a slot that stops it |
| OpenAddressing.ProbeFromStops | linearHashmap/traditional.cpp:74-78 | the probe visits i, i + 1, ... modulo the capacity and stops at the first stopper |
| OpenAddressing.ProbeFromNone | linearHashmap/traditional.cpp:93-109 | the probe finds nothing iff every slot it looks at passes |
| OpenAddressing.Reaches | linearHashmap/traditional.cpp:76-77 | every slot lies within capacity steps of the home slot |
| OpenAddressing.ProbeHangs | linearHashmap/traditional.cpp:74-78 | the loop never ends iff no slot is null, the dummy or the key |
| OpenAddressing.ProbeUpdateSame | linearHashmap/traditional.cpp:83 | a write that does not change whether a slot stops a probe leaves the probe unchanged |
| OpenAddressing.ProbeUpdateAfter | linearHashmap/traditional.cpp:83 | a write past a probe's stop leaves the probe unchanged |
| OpenAddressing.ProbePlaced | linearHashmap/traditional.cpp:74-83 | where insertion writes, lookup's probe stops |
| OpenAddressing.Located | linearHashmap/traditional.cpp:121-131 | a located slot holds a node of the key |
| OpenAddressing.InsertThenGet | linearHashmap/traditional.cpp:66-135 | after an insert, get returns the value inserted |
| OpenAddressing.HashMap.constructor | linearHashmap/traditional.cpp:44-57 | 100 null slots, size 0 |
| OpenAddressing.HashMap.InsertNode | linearHashmap/traditional.cpp:66-84 | writes the node where the probe stops; the size grows iff that slot was null or the dummy; hangs iff no slot stops the probe |
| OpenAddressing.HashMap.DeleteNode | linearHashmap/traditional.cpp:87-113 | the located node becomes the dummy and the size drops, returning its value; otherwise 0 and no change |
| OpenAddressing.HashMap.Get | linearHashmap/traditional.cpp:116-135 | the located node's value, else 0; hangs iff no slot stops the probe |
| OpenAddressing.HashMap.SizeOfMap | linearHashmap/traditional.cpp:138-141 | the number of nodes holding an entry |
| OpenAddressing.HashMap.IsEmpty | linearHashmap/traditional.cpp:144-147 | true iff size is 0, iff no slot holds an entry |
| OpenAddressing.Driver | linearHashmap/traditional.cpp:162-176 | size 2, delete returns 3, size 1, not empty, get(2) is 0 |
| OpenAddressing.DuplicateScenario | linearHashmap/traditional.cpp:74-78 | reusing a dummy before the key's node stores the key twice |
| OpenAddressing.FindableUnique | linearHashmap/traditional.cpp:74-83 | under the intended invariant no key has two nodes |
| OpenAddressing.FindableEmpty | linearHashmap/traditional.cpp:44-57 | the empty table satisfies the intended invariant |
| OpenAddressing.IntendedOverwrite | linearHashmap/traditional.cpp:74-83 | overwriting a located key keeps the invariant |
| OpenAddressing.IntendedPlace | linearHashmap/traditional.cpp:74-83 | a new key goes to a null slot or the dummy, keeping the invariant |
| OpenAddressing.IntendedInsertKeeps | linearHashmap/traditional.cpp:66-84 | the intended insert keeps the invariant, get returns the value, and the count grows iff the key was new |
| OpenAddressing.DeleteKeeps | linearHashmap/traditional.cpp:87-113 | deletion keeps the invariant, and the key is no longer located |
| CuckooSet.StoredPlaced | experiment/sequential.cpp:165-186 | in a placed table a value is stored iff the slot of its hash holds it |
| CuckooSet.InvMember | experiment/sequential.cpp:165-186 | stored iff one of the value's two slots holds it |
| CuckooSet.VacateFirst | experiment/sequential.cpp:142-149 | freeing x's slot of table 0 removes x entirely |
| CuckooSet.VacateSecond | experiment/sequential.cpp:152-159 | freeing x's slot of table 1 removes x entirely |
| CuckooSet.SwapFirst | experiment/sequential.cpp:97-111 | the swap into table 0 ends the insertion on a free slot, else carries the occupant; contents preserved |
| CuckooSet.SwapSecond | experiment/sequential.cpp:113-129 | the swap into table 1, likewise |
| CuckooSet.GiveUp | experiment/sequential.cpp:131-135 | when displacement gives up, the tables are consistent and the carried value is not stored |
| CuckooSet.Set.constructor | experiment/sequential.cpp:61-80 | two tables of `init_cap` free slots |
| CuckooSet.Set.WithDefaultLimit | experiment/sequential.cpp:83 | the same with one displacement round |
| CuckooSet.Set.ClearTables | experiment/sequential.cpp:69-79 | fresh tables of n slots, none in use |
| CuckooSet.Set.AllocateAsWritten | experiment/sequential.cpp:36-39 | resize's allocation: the new tables' contents are whatever the memory held |
| CuckooSet.Set.Add | experiment/sequential.cpp:91-136 | added iff x was absent; the elements gain x (minus what is handed back at the capacity ceiling) |
| CuckooSet.Set.Grow | experiment/sequential.cpp:131-135 | resize then re-add the carried element |
| CuckooSet.Set.Displace | experiment/sequential.cpp:96-129 | up to `add_limit` rounds of swaps keep the multiset of stored plus carried |
| CuckooSet.Set.Resize | experiment/sequential.cpp:30-57 | the capacity becomes at least `2 * cap + 1` and every element is kept (or handed back at the ceiling) |
| CuckooSet.Set.ReAdd | experiment/sequential.cpp:42-52 | re-adding a table's slots in use adds their values |
| CuckooSet.Set.ReAddCell | experiment/sequential.cpp:43-45 | one slot re-added |
| CuckooSet.Set.Remove | experiment/sequential.cpp:138-163 | true iff x was stored; afterwards x is gone |
| CuckooSet.Set.Contains | experiment/sequential.cpp:165-186 | true iff x is stored |
| CuckooSet.Set.Size | experiment/sequential.cpp:188-204 | the number of elements |
| CuckooSet.CountInUse | experiment/sequential.cpp:190-196 | the slots in use of one table count its stored values |
| CuckooSet.GarbageScenario | experiment/sequential.cpp:36-39 | after resize as written, a value never added can be an element |
| LinearBuckets.HashCode | linearHashmap/linear_probe.cpp:71-79 | `key % 2^i` is below 2^i |
| LinearBuckets.BucketIndex | linearHashmap/linear_probe.cpp:96-105 | on a table with 2^(i-1) < n <= 2^i, the halved hash code names a bucket |
| LinearBuckets.HalvedInRange | linearHashmap/linear_probe.cpp:97-98 | halving a code at or past n lands below n |
| LinearBuckets.IndexAfterSplit | linearHashmap/linear_probe.cpp:166-178 | adding bucket n moves exactly the keys of hash code n, out of bucket n / 2 |
| LinearBuckets.ShapedRebuilt | linearHashmap/linear_probe.cpp:126-129 | a rebuild at 2^i buckets keeps 2^i < n + 1 <= 2^(i+1) |
| LinearBuckets.LookupHolds | linearHashmap/linear_probe.cpp:107-114 | scanning a key's bucket answers exactly what is stored |
| LinearBuckets.HoldsEmpty | linearHashmap/linear_probe.cpp:59-68 | empty buckets store the empty map |
| LinearBuckets.FindReplace | experiment/linear.cpp:103-109 | after replacing one node's payload, that key finds the new payload and every other key what it found before |
| LinearBuckets.KeepFind | linearHashmap/linear_probe.cpp:172-183 | the movers (or the stayers) of a split find exactly the keys whose code is (or is not) the new bucket |
| LinearBuckets.SplitPlaced | linearHashmap/linear_probe.cpp:166-190 | after an intended split every bucket holds only keys that index to it, without repeats |
| LinearBuckets.HoldsPush | linearHashmap/linear_probe.cpp:116-117 | appending an absent key to its bucket stores it too |
| LinearBuckets.HoldsReplace | experiment/linear.cpp:103-109 | overwriting a node's payload stores the new payload and nothing else |
| LinearBuckets.HoldsSplit | linearHashmap/linear_probe.cpp:166-190 | an intended split stores the same map in one more bucket |
| LinearBuckets.SplitFinds | linearHashmap/linear_probe.cpp:166-190 | after an intended split every key is found as before |
| LinearBuckets.Locate | linearHashmap/linear_probe.cpp:108-114 | the scan finds the first node of the key, else the bucket's end |
| LinearBuckets.SplitBucket | linearHashmap/linear_probe.cpp:175-183 | the movers are the nodes of hash code n, the others stay |
| LinearBuckets.RehashAll | linearHashmap/linear_probe.cpp:126-165 | the rebuild with one more bit stores the same map, none lost |
| LinearBuckets.RehashBucket | linearHashmap/linear_probe.cpp:143-162 | one old bucket rehashed |
| LinearBuckets.SplitAsWritten | linearHashmap/linear_probe.cpp:172-190 | the split as written: movers copied, then the stayers' positions erased one by one |
| LinearBuckets.EraseDropsStayer | experiment/linear.cpp:193-211 | as written, the first node that should stay is erased and not copied, so its key is lost |
| LinearBuckets.SplitKeepsLookups | experiment/linear.cpp:193-211 | the intended split answers every lookup as before |
| LinearProbe.LinearHashMap.constructor | linearHashmap/linear_probe.cpp:59-68 | one empty bucket, i = 0, no records |
| LinearProbe.LinearHashMap.Insert | linearHashmap/linear_probe.cpp:82-197 | a present key is refused with no change; an absent one is appended and counted, and the table grows when the load bound is exceeded |
| LinearProbe.LinearHashMap.Rebuild | linearHashmap/linear_probe.cpp:126-165 | one more bit and bucket, same map |
| LinearProbe.LinearHashMap.Split | linearHashmap/linear_probe.cpp:166-190 | one more bucket taking over the records of hash code n, same map |
| LinearProbe.LinearHashMap.Get | linearHashmap/linear_probe.cpp:200-222 | the stored value only when the unhalved code names a bucket, else 0 |
| LinearProbe.LinearHashMap.IntendedGet | linearHashmap/linear_probe.cpp:200-222 | with halving, the stored value of every key, else 0 |
| LinearProbe.Driver | linearHashmap/linear_probe.cpp:282-292 | after 10, 10, 15, 20: 3 buckets, 2 bits, three keys |
| LinearProbe.DriverScenario | linearHashmap/linear_probe.cpp:200-222 | after the driver, get(15) misses the stored 15 |
| LinearProbe.SplitEraseScenario | linearHashmap/linear_probe.cpp:172-190 | a concrete split as written keeps the mover and drops the stayer |
| LinearHashing.LiveNodesCount | experiment/linear.cpp:317-330 | with distinct keys, live nodes count live keys |
| LinearHashing.LiveKeySetMember | experiment/linear.cpp:317-330 | a key is counted iff some node of it is not marked deleted |
| LinearHashing.TotalLiveKeys | experiment/linear.cpp:317-330 | live nodes over all buckets count the keys not marked deleted |
| LinearHashing.ValuesUpToMember | experiment/linear.cpp:296-301 | a value is yielded iff some node up to end holds it |
| LinearHashing.BucketValues | experiment/linear.cpp:292-303 | one bucket yields the values of its stored keys up to end, deleted or not, with no lower bound |
| LinearHashing.GatherValues | experiment/linear.cpp:306-313 | the buckets scanned yield the values of their stored keys up to end |
| LinearHashing.RangeSingleHit | experiment/linear.cpp:275-287 | a query from a stored key to itself answers its value |
| LinearHashing.RangeThrows | experiment/linear.cpp:289-313 | an end code past the last bucket makes the scan throw |
| LinearHashing.RehashAsWritten | experiment/linear.cpp:141-177 | the rebuild as written: every node back in its old bucket, unmarked; the new bucket empty |
| LinearHashing.RehashBucketAsWritten | experiment/linear.cpp:155-174 | after old bucket b, every bucket up to b holds its own old nodes, unmarked, and the rest are empty |
| LinearHashing.RebuildLosesKey | experiment/linear.cpp:155-177 | a key whose new code is n is looked up in the empty new bucket |
| LinearHashing.RebuildScenario | experiment/linear.cpp:141-177 | a concrete table where that happens |
| LinearHashing.RebuildRevives | experiment/linear.cpp:155-177 | as written, a key marked deleted before the rebuild has a live node after it, and the count of unmarked nodes `size()` returns becomes larger than the number of live keys |
| LinearHashing.RevivedLive | experiment/linear.cpp:170 | a bucket rebuilt with `hash_node(key, value)` has every node live |
| LinearHashing.RevivedAbove | experiment/linear.cpp:155-174 | rebuilding buckets unmarked raises their live count when one held a node marked deleted |
| LinearHashing.LinearHashMap.constructor | experiment/linear.cpp:61-75 | one empty bucket, i = 0, no records |
| LinearHashing.LinearHashMap.Add | experiment/linear.cpp:87-216 | a present key is overwritten keeping its mark, reporting no growth; an absent one is appended, counted and reported |
| LinearHashing.LinearHashMap.Rebuild | experiment/linear.cpp:141-186 | the corrected rebuild: one more bit and bucket, every record rehashed for the new bit count with its value and its deletion mark, so the stored map and the size are unchanged (the source clears the marks and rehashes with the old bit count; see Findings) |
| LinearHashing.LinearHashMap.Split | experiment/linear.cpp:187-212 | one more bucket taking over the records of hash code n |
| LinearHashing.LinearHashMap.Remove | experiment/linear.cpp:218-240 | true iff the key is in its bucket, marked or not; it becomes marked |
| LinearHashing.LinearHashMap.Contains | experiment/linear.cpp:242-262 | true iff the key is in its bucket, ignoring the mark |
| LinearHashing.LinearHashMap.RangeQuery | experiment/linear.cpp:264-315 | the answer defined by the three cases, with the end code unhalved |
| LinearHashing.LinearHashMap.Size | experiment/linear.cpp:317-330 | the number of keys not marked deleted |
| LinearHashing.CollectUpTo | experiment/linear.cpp:296-301 | one bucket's values up to end |
| LinearHashing.GatherRange | experiment/linear.cpp:306-313 | buckets s..e, or a throw past the last bucket |
| LinearHashing.CountLive | experiment/linear.cpp:322-326 | one bucket's unmarked nodes |
| HopscotchLists.HashIndex | experiment/hopscotch_v3.cpp:342-346 | `Calc`: the top `i_bits` bits of the 64-bit hash, below 2^i_bits |
| HopscotchLists.EmptyTable | experiment/hopscotch_v3.cpp:513-526 | freshly initialised buckets form empty lists and store nothing |
| HopscotchLists.BeginSplice | experiment/hopscotch_v3.cpp:400-423 | the new slot goes after the home entry when the home slot heads its own list, else in front |
| HopscotchLists.BeginStructure | experiment/hopscotch_v3.cpp:400-423 | the beginning-of-list splice keeps every list well linked |
| HopscotchLists.EndStructure | experiment/hopscotch_v3.cpp:425-441 | the end-of-list splice keeps every list well linked, the slot appended |
| HopscotchLists.RemoveStructure | experiment/hopscotch_v3.cpp:374-398 | unlinking by adding deltas keeps every list well linked, the slot dropped |
| HopscotchLists.RelocateStructure | experiment/hopscotch_v3.cpp:443-486 | moving an entry into a free slot keeps every list well linked |
| HopscotchLists.MoveKeepsEntries | experiment/hopscotch_v3.cpp:443-486 | the move leaves every list's keys and data, in order, unchanged |
| HopscotchLists.KeyedRelocate | experiment/hopscotch_v2.cpp:318-333 | moving an entry to a free slot keeps the key-to-slot map except the moved key, now at the new slot, and keeps the stored map |
| HopscotchLists.Without | experiment/hopscotch_v3.cpp:374-398 | a list with position j dropped: the positions before it kept, the later ones shifted down |
| HopscotchLists.KeyedAdd | experiment/hopscotch_v3.cpp:400-441 | a new key in a free slot is stored, nothing else changes |
| HopscotchLists.KeyedRemove | experiment/hopscotch_v3.cpp:374-398 | emptying a key's slot forgets exactly that key |
| HopscotchLists.CountKeys | experiment/hopscotch_v3.cpp:733-742 | occupied slots hold distinct keys |
| HopscotchLists.CountIsSize | experiment/hopscotch_v3.cpp:733-742 | counting occupied slots up to `bucketMask + 4096` counts the stored keys |
| Hopscotch.CeilLog2Unique | experiment/hopscotch_v2.cpp:605-621 | the least n with v <= 2^n is unique |
| Hopscotch.CeilLog2Least | experiment/hopscotch_v2.cpp:605-611 | 2^CeilLog2(v) is at or above v and the next smaller power is below it |
| Hopscotch.CeilLog2Bound | experiment/hopscotch_v2.cpp:605-611 | up to 2^31 the rounded power stays within 2^31 |
| Hopscotch.NearestPowerOfTwo | experiment/hopscotch_v2.cpp:605-611 | the least power of two at or above the value; hangs past 2^31 |
| Hopscotch.CalcDivideShift | experiment/hopscotch_v2.cpp:613-621 | the least n with 2^n at or above the value; hangs past 2^31 |
| Hopscotch.FirstMsbBitIndex | experiment/hopscotch_v3.cpp:335-339 | -1 for 0, else one less than the leading-zero count |
| Hopscotch.LineStart | experiment/hopscotch_v3.cpp:370-372 | the line start is aligned and the bucket lies in its line |
| Hopscotch.Sizes | experiment/hopscotch_v3.cpp:491-512 | the rounded sizes, the segment shift and `i_bits` the constructor derives |
| Hopscotch.CycleNext | experiment/hopscotch_v3.cpp:563-578 | the cache-line search wraps inside the line and is back at h after a full cycle |
| Hopscotch.LineFree | experiment/hopscotch_v3.cpp:563-578 | the first free slot of the line in cyclic order from h |
| Hopscotch.FirstFreeUp | experiment/hopscotch_v3.cpp:579-591 | the first free slot scanning upward |
| Hopscotch.FirstFreeDown | experiment/hopscotch_v3.cpp:594-606 | the first free slot scanning downward |
| Hopscotch.FreeSlot | experiment/hopscotch_v3.cpp:561-607 | the slot add fills: free, in the line, forward or backward range; None only when every searched slot is taken |
| Hopscotch.FirstOut | experiment/hopscotch_v2.cpp:296-339 | the first entry of a list out of its home's range |
| Hopscotch.FirstMove | experiment/hopscotch_v2.cpp:296-339 | the first home of the line with an out-of-range entry; None when all are in range |
| Hopscotch.InListValues | experiment/hopscotch_v3.cpp:712-719 | a value is collected from a list iff an entry with key up to end holds it |
| Hopscotch.InGather | experiment/hopscotch_v3.cpp:704-723 | a value is gathered iff some scanned list yields it |
| Hopscotch.GatherIsStored | experiment/hopscotch_v3.cpp:681-731 | the values gathered are the data of stored keys up to end homed in the scanned buckets |
| Hopscotch.FoundIffStored | experiment/hopscotch_v3.cpp:657-679 | the list walk finds the key iff it is stored, at its slot |
| Hopscotch.LineLinked | experiment/hopscotch_v2.cpp:299-337 | every home of a cache line heads a well-linked list |
| Hopscotch.FreeSlotFits | experiment/hopscotch_v3.cpp:561-607 | the slot chosen suits an entry of that home |
| Hopscotch.AddKeeps | experiment/hopscotch_v3.cpp:561-607 | adding an absent key keeps the structure and stores it |
| Hopscotch.RemoveKeeps | experiment/hopscotch_v2.cpp:532-562 | removing a stored key keeps the structure and forgets it |
| Hopscotch.MoveKeeps | experiment/hopscotch_v2.cpp:296-339 | the cache-line move keeps the structure, the map and every list's entries |
| Hopscotch.HopscotchMap.constructor | experiment/hopscotch_v3.cpp:491-527 | bucket and segment counts rounded to powers of two, `bucketMask + 4098` empty buckets, nothing stored |
| Hopscotch.HopscotchMap.Walk | experiment/hopscotch_v3.cpp:544-558 | stops at the first entry with the hash and key, or at the list's end |
| Hopscotch.HopscotchMap.Contains | experiment/hopscotch_v3.cpp:657-679 | true iff the key is stored |
| Hopscotch.HopscotchMap.CollectList | experiment/hopscotch_v3.cpp:710-721 | one bucket's list values up to end |
| Hopscotch.HopscotchMap.RangeQuery | experiment/hopscotch_v3.cpp:681-731 | empty for start > end; else one list per segment from start's segment up to, not including, end's |
| Hopscotch.HopscotchMap.CollectRange | experiment/hopscotch_v3.cpp:704-723 | the segment loop |
| Hopscotch.HopscotchMap.Size | experiment/hopscotch_v3.cpp:733-742 | the number of stored keys |
| Hopscotch.HopscotchMap.AddKeyToBeginningOfList | experiment/hopscotch_v3.cpp:400-423 | the table becomes the beginning splice |
| Hopscotch.HopscotchMap.AddKeyToEndOfList | experiment/hopscotch_v3.cpp:425-441 | the table becomes the end splice |
| Hopscotch.HopscotchMap.RemoveKey | experiment/hopscotch_v3.cpp:374-398 | the table becomes the unlink |
| Hopscotch.HopscotchMap.MoveEntry | experiment/hopscotch_v2.cpp:318-333 | the table becomes the move |
| Hopscotch.HopscotchMap.LineSearch | experiment/hopscotch_v3.cpp:563-578 | the cache-line search |
| Hopscotch.HopscotchMap.ForwardSearch | experiment/hopscotch_v3.cpp:579-591 | the forward search |
| Hopscotch.HopscotchMap.BackwardSearch | experiment/hopscotch_v3.cpp:594-606 | the backward search |
| Hopscotch.HopscotchMap.FindFreeSlot | experiment/hopscotch_v3.cpp:561-607 | the three searches in turn |
| Hopscotch.HopscotchMap.Add | experiment/hopscotch_v3.cpp:535-617 | (false, false) and no change when present or no slot is free; else stored in the chosen slot and (true, false); the second flag never true |
| Hopscotch.HopscotchMap.PlaceKey | experiment/hopscotch_v3.cpp:561-604 | an absent key put into the free slot that fits its home keeps the table well formed and adds exactly that key; the slot is linked at the beginning of the home list when it lies in the cache line, at the end otherwise |
| Hopscotch.HopscotchMap.Remove | experiment/hopscotch_v2.cpp:532-562 | the key's data, or 0 when absent; the key is gone |
| Hopscotch.HopscotchMap.ScanHome | experiment/hopscotch_v2.cpp:303-316 | walk of one home list to its first out-of-range entry |
| Hopscotch.HopscotchMap.FindMove | experiment/hopscotch_v2.cpp:299-337 | the homes of the line in order until one has an entry to move |
| Hopscotch.HopscotchMap.MoveIntoFree | experiment/hopscotch_v2.cpp:318-333 | the move keeps the map and every list's entries |
| Hopscotch.HopscotchMap.OptimizeCachelineUse | experiment/hopscotch_v2.cpp:296-339 | at most one entry moved, the one FirstMove names; the map and every list's entries unchanged |
| HopscotchZeroHash.SmallHashIsEmpty | experiment/hopscotch_v3.cpp:342-346 | every hash below 2^(64 - i_bits) has hash code 0, the empty marker |
| HopscotchZeroHash.ZeroSlotChosen | experiment/hopscotch_v3.cpp:563-570 | a free slot 0 is where a hash-0 key goes |
| HopscotchZeroHash.ZeroHashScenario | experiment/hopscotch_v3.cpp:535-617 | two hash-0 keys in a row: the second overwrites the first, which still looks free |
| RadixBits.WordInjective | experiment/radix_trie.cpp:157-159 | distinct keys have distinct two's-complement patterns |
| RadixBits.ValueOfBits | experiment/radix_trie.cpp:157-159 | reading back the bits of a value gives the value |
| RadixBits.BitsIndex | experiment/radix_trie.cpp:157-159 | digit n is the value shifted right by len - 1 - n, masked |
| RadixBits.NthBit | experiment/radix_trie.cpp:157-159 | `get_nth_bit` is 0 or 1, and is bit n counted from the top |
| RadixBits.TopBitIsSign | experiment/radix_trie.cpp:157-159 | bit 0 is set iff the key is negative |
| RadixBits.LastBitIsParity | experiment/radix_trie.cpp:157-159 | bit 31 is the key's parity |
| RadixBits.SameKeyIffBits | experiment/radix_trie.cpp:157-159 | keys are equal iff all 32 bits agree |
| RadixBits.FirstDiff | experiment/radix_trie.cpp:165-173 | the first differing position from i, and 0 if none |
| RadixBits.GreatestCommonPrefix | experiment/radix_trie.cpp:161-174 | the loop returns Gcp |
| RadixBits.GcpIsFirstDifference | experiment/radix_trie.cpp:161-174 | below 32; keys differ iff their bits differ at the result; all earlier bits agree; equal keys give 0 |
| RadixBits.GcpSymmetric | experiment/radix_trie.cpp:161-174 | symmetric in its arguments |
| RadixBits.OppositeAtGcp | experiment/radix_trie.cpp:169-171 | at the result, different keys have opposite bits |
| RadixBits.GcpZeroAmbiguous | experiment/radix_trie.cpp:169-173 | a difference in the top bit also gives 0 |
| RadixBits.Node.constructor | experiment/radix_trie.cpp:176-191 | `new_node`: the type and key set, the rest value-initialised |
| RadixBits.NewLeaf | experiment/radix_trie.cpp:193-197 | a fresh leaf with key and value |
| RadixBits.NewInode | experiment/radix_trie.cpp:199-205 | a fresh inner node with prefix length, `children[0] = l`, `children[1] = r` |
| RadixBits.InodeSplit | experiment/radix_trie.cpp:65-76 | the new leaf on the side of the key's bit at gcp, n on the other; at the first differing bit n sits on its own bit's side |

## Left out

- Locks, segments' timestamps and retry loops, atomics and memory fences: the model is single-threaded, so the hopscotch segments enter only through the segment index of the range query.
- Output to `std::cout`/`std::cerr` (`printTables`, `display`, the debug prints, the "WRONG" size check after `dummy.cpp`'s resize), the random `populate` loops and the drivers' timing and threads. The drivers of `traditional.cpp` and `linear_probe.cpp` are modelled as methods.
- Memory release: `delete` of nodes and old tables is not modelled.
- Freshly allocated tables in `seq_trad_hashmap.cpp` (55, 115) and `dummy.cpp` (52) are modelled as empty, although the source leaves them uninitialised. For `sequential.cpp` the uninitialised allocation is modelled as written only by `CuckooSet.Set.AllocateAsWritten` and `CuckooSet.GarbageScenario` (a finding below).
- CuckooSet.Set.Resize: allocates through `CuckooSet.Set.ClearTables`, so its new tables start with no slot in use, which is the corrected allocation and not the uninitialised one `sequential.cpp` (38-39) writes.
- `dummy.cpp`'s head slots never get a key. The model treats a head slot as a sentinel that never matches.
- SeqTradHashMap.HashMap.Add: at `i_bits == 32` the source shifts by a negative amount (undefined). The model stops resizing there and splices in place, and the chain bound holds only while the table can still grow.
- ModuloHashMap.HashMap.Add: once doubling would overflow a `long`, the model appends without resizing. Below that bound it follows the source.
- CuckooSet.Set.Add: at the capacity ceiling, where `2 * cap + 1` would overflow a `long`, elements that find no slot are handed back in `lost` instead of growing.
- Floating point: the load checks `(double)num_records/num_buckets > p` are integer comparisons `num_records > p * num_buckets`, and `pow`/`log2l` are exact powers and floor logarithms.
- Hopscotch deltas are unbounded integers. The source stores them in `short`, and truncation past `SHRT_MAX` is not modelled; the forward and backward searches do stay within `SHRT_MAX - 1` of the home bucket, as the source's do.
- Hopscotch.HopscotchMap.Add: requires a non-zero hash code, because a zero code marks a free slot (see Findings). The resize the source never implemented is not modelled; no free slot gives `(false, false)`, as the source returns after printing its error.
- `hopscotch_v3.cpp`'s `remove` never leaves its `do { } while(true)` loop, so removal is modelled from `hopscotch_v2.cpp`'s `remove`, which uses the same `remove_key` splice.
- The hopscotch segment shift: the model stores it modulo 2^32, as the source's `_u32` does. A shift of 32 or more is undefined in C++, and the model's `ShiftRight` simply yields 0 there.
- Hopscotch range query: an access past the table's end, undefined in the source, is modelled as `None`.
- `hopscotch_v2.cpp`'s `range_query` (it uses undefined names), its resize through `HopscotchWrapper` and `percentKeysInCacheline` (floating point) are left out, as are `hopscotch_hashmap.cpp` and `HopscotchWrapper.cpp`.
- `putIfAbsent` of `hopscotch_v2.cpp` is the same search-and-splice as v3's `add` and is modelled once, by `Hopscotch.HopscotchMap.Add`.
- The radix trie's `add`/`remove` stubs, `add_recursive`, `add_internal` and `remove_internal` are left out: they do not compile (wrong argument types, undefined names).
- RadixBits.InodeSplit: the source declares the new leaf as a value but assigns it the address `new_leaf` returns (line 66), which does not compile. The model allocates the leaf, as `new_leaf` evidently intends.
- RadixBits.Node.constructor: every node gets a two-child array, leaves too; the source's `leaf` and `inode` are distinct layouts behind a common header.
- The ART wrappers (`adaptive_radix_trie.cpp`, `art.cpp`), `linearHashmap/hash.cc`, `common.h`, `node.h` and the test drivers `test_cache.cpp` and `test_radix.cpp` are not part of this model.
- OpenAddressing.HashMap.Get: the source's counter guard is reset on every pass and never fires. The model has no such guard and reports the endless loop as `hangs` instead.
- OpenAddressing.HashMap.InsertNode, OpenAddressing.HashMap.DeleteNode and OpenAddressing.HashMap.Get: keys are non-negative (`requires key >= 0`). A negative key gives a negative `hashCode` (`traditional.cpp` 60-63) and an out-of-bounds array index, which is undefined in C++. The driver uses only non-negative keys.
- LinearBuckets, LinearProbe.LinearHashMap and LinearHashing.LinearHashMap: keys are `nat`. In `linear_probe.cpp` (78, 87) a negative key gives a negative `hash_index` that indexes the bucket vector out of bounds (undefined). In `linear.cpp` (83, 90) it converts to a huge `u_int64_t`, and `map.at` then throws `std::out_of_range`. The drivers produce only non-negative keys.
- LinearProbe.LinearHashMap.Insert and LinearHashing.LinearHashMap.Add: the split is the intended one (`SplitBucket`); the split as written is modelled separately by `LinearBuckets.SplitAsWritten`. Likewise LinearHashing.LinearHashMap.Add uses the corrected rebuild (`LinearHashing.LinearHashMap.Rebuild`), which rehashes with `i + 1` bits and keeps each record's deletion mark; the rebuild as written is modelled separately by `LinearHashing.RehashAsWritten`. The debug check that the halved index is in range is a proved property (`LinearBuckets.BucketIndex`) rather than a print.
- Resize-and-retry recursion of the chained maps: termination is by the growing table (a `decreases` on the remaining doublings), not by fuel.

## Findings

| source | as written | input that shows it | evidently intended | confidence | as-written member | corrected member |
|---|---|---|---|---|---|---|
| experiment/seq_trad_hashmap.cpp:375-392 | the start-bucket skip loop stops on the last node when no key reaches `start`, and that node is reported | a start bucket whose last node is live with key below `start` | report only keys in `[start, end]` | not executed | SeqTradHashMap.RangeStray | SeqTradHashMap.IntendedRangeExact |
| linearHashmap/traditional.cpp:74-78 | `insertNode` stops at the first dummy even when a node of the same key lies further on | insert 1, insert 101, delete 1, insert 101 | overwrite the key's node when one is on the probe path | not executed | OpenAddressing.DuplicateScenario | OpenAddressing.IntendedInsertKeeps |
| experiment/sequential.cpp:38-39 | `resize` allocates the new tables without clearing `in_use` | fresh memory holding a slot marked in use | the new tables start free, as in the constructor | not executed | CuckooSet.GarbageScenario | CuckooSet.Set.ClearTables |
| linearHashmap/linear_probe.cpp:186-190 | the split erases the positions of the nodes that should stay | 3 bits, bucket 2 holding keys 2 and 5, bucket 5 added | erase the nodes that moved | not executed | LinearProbe.SplitEraseScenario | LinearBuckets.SplitKeepsLookups |
| experiment/linear.cpp:207-211 | the same erase of the stayers' positions | any split bucket with a node that should stay | erase the nodes that moved | not executed | LinearBuckets.EraseDropsStayer | LinearBuckets.SplitKeepsLookups |
| linearHashmap/linear_probe.cpp:206-215 | `get` does not halve a hash code past the last bucket | the driver's map, then `get(15)` | halve as `insert_node` does | not executed | LinearProbe.DriverScenario | LinearProbe.LinearHashMap.IntendedGet |
| experiment/linear.cpp:155-177 | the rebuild rehashes with the old `i`, incremented only after the loop | 2 buckets for 1 bit holding key 2 | rehash with `i + 1` bits | not executed | LinearHashing.RebuildLosesKey | LinearHashing.LinearHashMap.Rebuild |
| experiment/linear.cpp:170 | the rebuild pushes `hash_node<K, V>(key, value)`, which clears every node's deletion mark | add 1, remove 1, add 2 (one bucket, load bound 1): the rebuild revives key 1 and `size()` goes from 1 to 2 | keep each node's mark, so a removed key stays removed | not executed | LinearHashing.RebuildRevives | LinearHashing.LinearHashMap.Rebuild |
| experiment/hopscotch_v3.cpp:561-570 | a key whose hash code is 0 is stored with the hash that marks a free slot, so its slot still looks free | any key with `hash0(key) < 2^(64 - i_bits)`, e.g. every `int` key under the drivers' identity hash | a hash code distinct from the empty marker | not executed | HopscotchZeroHash.ZeroHashScenario | Hopscotch.HopscotchMap.Add |
