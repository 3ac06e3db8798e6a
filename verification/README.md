# A model of libCacheSim's fast cache models

libCacheSim replaces simple cache models by clever structures: a splay tree instead of a search
through the recency stack, one pass instead of one simulation per cache size, packed info bytes
instead of a chained hash table, a sample instead of the whole trace, one reverse pass instead of
a forward search. Each of them has to agree with the slow thing it replaces. This project models
these structures in Dafny and proves the agreement.

`dafny verify dfyconfig.toml` checks the whole project.

- **The exact LRU curve.** `SplayTree` is the top-down splay tree on heap nodes, `StackDistance`
  the online stack-distance counter, `LruProfiler` the one-pass hit counts, `LruCache` the LRU
  cache with its hash table and doubly linked list, for objects of any size. `Mattson` proves that
  the curve is the hit count of that cache at every capacity, up to one request. `SplayCost` bounds
  the rounds of all splays of a run.
- **The hash table.** `RobinHood` holds the invariant of the info bytes and what every change does
  to it; `RobinHoodMap` is the table on arrays, and it refines a finite map over whole runs.
- **The SHARDS profiler.** `BottomUpSplay` is the splay tree with parent pointers and sums,
  `BottomUpCost` what its splays cost, `MinValueMap` and `BottomK` the bottom-k sampler, `Reuse` the
  pair of table and tree, `Shards` the two runs, `ShardsMeaning` what they compute in terms of the
  trace and the hash values, `ShardsExact` when that is exact.
- **The prefixsim trace pipeline.** `Interning` is exact prefix interning and the gap check,
  `Annotation` the reverse passes, `Decimals`, `Jsonl` and `Reread` the writer, the scanner and the
  round trip of whole traces through a file, `JsonlText` both in literal text.
- **Self-contained algorithms.** `PriorityQueue` is the heap with stored positions, `HashRing` the
  consistent-hash ring, `TreeModel` the decision-tree flattener and its evaluator, `Md5` the
  streaming part of MD5.
- **Shared notions.** `Seqs`, `Sets` and `Ranks` hold what several modules need about sequences, sets
  and logarithms.

## Reading the model

Structures that the source changes in place are classes over heap nodes, arrays and linked lists;
every method states its new state through a function of the old one, and the lemmas are about these
functions. Ghost trees name the nodes of a pointer structure, so that a rotation is a function on
trees and a method that carries it out on the pointers. Where a function only writes down what the
source computes, a lemma says what that is in other terms: literal constants and texts, positions of
the trace, first and last occurrences.

Places where the source does not do what one would expect are modelled as they are:

- `dist.c` stores timestamps as pointers and reads a null pointer as "absent", while the callers
  start at time 0. The second access to the first object of a trace is therefore reported as cold.
  `StackDistance.DistanceTheorem` and `Mattson.HitCurve` say exactly what that changes, and
  `Mattson.ExactIff` when it changes nothing.
- The guard of `get_stack_dist` lets distances from 2^31 to 2^32 - 1 into an array of signed 32-bit
  numbers; `StackDistance.NarrowExact` says when the array is right.
- The comment above `_get_lru_hit_cnt` says that a size of -1 stands for the largest size. The array
  then has no entry; `LruProfiler.CurveReaches` says which sizes give the whole curve.
- The hash table throws when the displacements of its entries outgrow the info bytes. With up to 127
  keys that never happens, whatever the hash function; `RobinHoodMap.Replay` and
  `RobinHoodMap.Collide` show that under a constant hash it happens with the next one.
- The JSONL scanner takes the first textual occurrence of a quoted field name. A request whose type
  is the name of a field printed after it loses that field; `Jsonl.ReadBack` gives the exact
  condition. A line break in a type splits the printed line; `Reread.FileSplits` says when.
- The fixed-size SHARDS run divides by a rate that is 0 when as many objects as the sample takes have
  the hash value 0; `BottomK.ZeroRateIff` says exactly when.
- The exporter stores child references in 16 bits; `TreeModel.FileExact` says which trees fit.

The binary search of the hash ring needs no distinct points, and `HashRing.IsRing` leaves the order
of equal points open, as `qsort` does.

Hash functions, the MD5 compression function and message digests are function parameters.
Floating-point numbers are modelled as reals, so rounding in the profiler's weights is not part of
the model; conversions to integers are.

## Model

| member | source | states |
|---|---|---|
| `SplayTree.TopDownSplays` | libCacheSim/dataStructure/splay.c:57-125 | Splaying any search tree for any `k` keeps the in-order node sequence, parts the tree at `k` around the root, and brings `k` to the root if and only if it is in the tree |
| `SplayTree.DescendKeeps` | libCacheSim/dataStructure/splay.c:66-98 | The whole descent loop keeps the nodes in order and leaves everything cut off to the left below `k` and everything to the right above it |
| `SplayTree.SameShape` | libCacheSim/dataStructure/splay.c:66-98 | The loop of `splay`, with its early breaks, takes every tree apart exactly as the rotate-first loop of `sedgewickized_splay` (lines 135-160), so both assemble the same tree |
| `SplayTree.ZigZigRight` | libCacheSim/dataStructure/splay.c:66-98 | A key two levels down on one side comes to the root with its path turned over, whatever hangs beside it |
| `SplayTree.ZigZigLeft` | libCacheSim/dataStructure/splay.c:66-98 | The mirror image |
| `SplayTree.ZigZag` | libCacheSim/dataStructure/splay.c:66-98 | A key two levels down on the inside comes to the root with its two ancestors on either side |
| `SplayTree.CutAlong` | libCacheSim/dataStructure/splay.c:66-98 | The descent loop on the pointers: it makes the cut of the function and takes exactly as many rounds |
| `SplayTree.RecountLeft` | libCacheSim/dataStructure/splay.c:111-114 | The first repair loop leaves at every node of the spine the number of nodes not passed above it |
| `SplayTree.RecountRight` | libCacheSim/dataStructure/splay.c:115-118 | The same for the second repair loop, on the other spine |
| `SplayTree.Splay` | libCacheSim/dataStructure/splay.c:57-125 | On heap nodes: the pointers spell out the splayed tree, over the same nodes, with the exact subtree count at every one of them, although the loops store only a few |
| `SplayTree.GraftedKeys` | libCacheSim/dataStructure/splay.c:183-201 | The tree built around the new root is a search tree whose keys are the old ones and `k` |
| `SplayTree.Insert` | libCacheSim/dataStructure/splay.c:168-203 | Set insertion with exact counts everywhere; a key that is present changes nothing in the set, and either way the key is at the root |
| `SplayTree.PrunedKeys` | libCacheSim/dataStructure/splay.c:205-228 | Joining the two sides removes exactly `k`, and the splayed left side then has no right subtree, so nothing is overwritten |
| `SplayTree.Delete` | libCacheSim/dataStructure/splay.c:205-228 | Set deletion with exact counts everywhere, including the `root_value - 1` shortcut; an absent key changes nothing in the set |
| `SplayTree.RightCount` | libCacheSim/dataStructure/splay.c:57-125 | After splaying for a key that is present, the size of the right subtree is the number of larger keys |
| `SplayCost.TopDownStep` | libCacheSim/dataStructure/splay.c:66-125 | Splaying as a recursion: one round, turning two levels over where the key lies two steps on, around the splayed rest |
| `SplayCost.RoundsAre` | libCacheSim/dataStructure/splay.c:66-98 | The rounds that the cost counts are those of the loop |
| `SplayCost.SplayAmortised` | libCacheSim/dataStructure/splay.c:57-125 | For every tree and key: the rounds of a splay, and what it adds to twice the potential, are at most 7 log n + 2 |
| `SplayCost.RunAmortised` | libCacheSim/dataStructure/splay.c:57-228 | Any run of splays, insertions and deletions from the empty tree takes at most 12 log n + 4 rounds per operation, however deep the tree is at times |
| `Ranks.RankIs` | libCacheSim/dataStructure/splay.c:57-125 | The logarithm of these bounds: the exponent of the largest power of two that is not larger |
| `StackDistance.Profiler.AddRequest` | libCacheSim/profiler/dist.c:73-105 | One request: the reported distance, the last access time, the new key set and the new table, with an entry holding time 0 taken for absent |
| `StackDistance.RunTracks` | libCacheSim/profiler/dist.c:73-105 | After every trace the table holds exactly the last access times of all objects, and the tree holds those times, plus time 0 which it never loses |
| `StackDistance.RunConsistent` | libCacheSim/profiler/dist.c:73-105 | In every reachable state each recorded time is in the tree, no two objects share one, and all times lie in the past |
| `StackDistance.DistanceTheorem` | libCacheSim/profiler/dist.c:73-105 | For every trace and position the report is the number of different objects since the previous access, except that an access whose previous one was at time 0 is reported as cold |
| `StackDistance.FirstObjectMisreported` | libCacheSim/profiler/dist.c:73-105 | A trace of two requests on which the report is wrong: the second access to the first object |
| `StackDistance.StackDistances` | libCacheSim/profiler/dist.c:112-161 | The `STACK_DIST` array is the reports of the whole run converted to 32 bits, and the run aborts if and only if some report exceeds `UINT32_MAX` |
| `StackDistance.NarrowExact` | libCacheSim/profiler/dist.c:137-142 | The 32-bit array keeps the distances if and only if all are below 2^31; any other is changed by a multiple of 2^32, and the largest distance that the guard lets through reads as -1, the mark of a first access |
| `StackDistance.NextUnique` | libCacheSim/profiler/dist.c:112-161 | A position is the previous access of at most one later position, its next access |
| `StackDistance.FilledStep` | libCacheSim/profiler/dist.c:141-146 | Writing a report at the previous access of its request is what the array of next-access distances asks for at that moment |
| `StackDistance.FutureDistances` | libCacheSim/profiler/dist.c:112-161 | The `FUTURE_STACK_DIST` array holds at `t` the report of the next access to the object of `t`, and -1 if there is none |
| `StackDistance.FutureIs` | libCacheSim/profiler/dist.c:112-161 | The same in terms of the trace: -1 for an object that does not recur, else the report at its first later position |
| `LruProfiler.CountSum` | libCacheSim/profiler/profilerLRU.c:85-89 | Adding the histogram entry to the count below `c` gives the count below `c + 1` |
| `LruProfiler.HitCounts` | libCacheSim/profiler/profilerLRU.c:58-97 | Entry `c` of the array counts the requests with a reported distance below `c`, for every `c` up to the size; a size of -1, which the comment above the function admits, gives no entry |
| `LruProfiler.CurveReaches` | libCacheSim/profiler/profilerLRU.c:50-87 | Some entry of the curve counts all reuses if and only if the size exceeds every reported distance; a size of -1 does not stand for the largest size |
| `LruProfiler.MissCounts` | libCacheSim/profiler/profilerLRU.c:41-48 | Entry `c` is the number of requests that are not hits at `c` |
| `LruCache.RemoveFromList` | libCacheSim/include/libCacheSim/cacheObj.h:282-301 | Unlinking any element leaves a doubly linked list of the others, in order |
| `LruCache.MoveToHead` | libCacheSim/include/libCacheSim/cacheObj.h:355-398 | The list afterwards starts with the object, followed by the others in order |
| `LruCache.PrependToHead` | libCacheSim/include/libCacheSim/cacheObj.h:407-426 | The list afterwards starts with the new object |
| `LruCache.Cache.FindAndPromote` | example/plugin_v1/plugin_lru.c:137-146 | Finds an object if and only if it is stored, moves it to the front, and keeps table, list and byte count in agreement |
| `LruCache.Cache.Insert` | example/plugin_v1/plugin_lru.c:158-165 | A new object enters at the front; table, list, byte count and object count stay in agreement |
| `LruCache.Cache.Evict` | example/plugin_v1/plugin_lru.c:188-196 | Exactly the least recently used object leaves |
| `LruCache.Cache.Remove` | example/plugin_v1/plugin_lru.c:210-240 | Exactly the object with the given id leaves, wherever it stands |
| `LruCache.Cache.MakeRoom` | libCacheSim/cache/cache.c:287-291 | The eviction loop ends, because the object fits an empty cache; what stays is the longest beginning of the recency list that leaves room |
| `LruCache.Cache.Get` | libCacheSim/cache/cache.c:267-300 | One request of any size, entry by entry: a stored object moves to the front; one that can never fit changes nothing; any other enters at the front before the longest beginning of the list that leaves room for it and its metadata |
| `LruCache.EvictsLeast` | libCacheSim/cache/cache.c:287-291 | Evicting from the tail leaves a beginning of the list that fits with the new object, and one entry more would not |
| `LruCache.AccessServes` | libCacheSim/cache/cache.c:267-300 | The outcome described entry by entry is the only one, and it is that of the abstract access |
| `LruCache.OccupiedWithout` | libCacheSim/cache/cache.c:385-393 | Taking an object out of the list lowers the occupied bytes by exactly its size and metadata |
| `Mattson.Replay` | libCacheSim/cache/cache.c:267-300 | Replaying a trace through the cache object counts the hits of the abstract LRU cache |
| `Mattson.Inclusion` | libCacheSim/cache/cache.c:267-300 | After every trace the cache of capacity `c` holds the `c` topmost objects of one recency stack, the same for all capacities |
| `Mattson.StackPlaces` | libCacheSim/cache/cache.c:267-300 | Above each object of the stack stand exactly the objects used since its own last use |
| `Mattson.HitIffNear` | libCacheSim/cache/cache.c:267-300 | A request hits in the cache of capacity `c` if and only if its stack distance is below `c` |
| `Mattson.HitCurve` | libCacheSim/profiler/profilerLRU.c:58-97 | Mattson's theorem: for every trace and capacity the curve is the LRU hit count, one less if the second access to the first object is among the hits |
| `Mattson.ExactIff` | libCacheSim/profiler/profilerLRU.c:58-97 | The curve is exact at `c` if and only if the second access to the first object of the trace is no hit at `c` |
| `Mattson.Profile` | libCacheSim/profiler/profilerLRU.c:58-97 | The computed array against the LRU hits at every capacity up to the size, with no entry for a size of -1 |
| `RobinHood.ProbeMeets` | libCacheSim/dataStructure/robin_hood.h:1460-1480 | Between its home bucket and its slot a key's probe never exceeds the byte it meets, and equals it at the slot |
| `RobinHood.SearchEnds` | libCacheSim/dataStructure/robin_hood.h:1460-1480 | A probe that exceeds the byte it meets proves the key absent, so stopping early is right |
| `RobinHood.LastSlotEmpty` | libCacheSim/dataStructure/robin_hood.h:2213-2217 | With at most the allowed number of entries the last slot of the buffer is empty, so a search for a free slot ends before the sentinel |
| `RobinHood.ProbeInside` | libCacheSim/dataStructure/robin_hood.h:1460-1480 | A probe that can still match lies before the sentinel |
| `RobinHood.DisplacementBelow` | libCacheSim/dataStructure/robin_hood.h:933-938 | The displacement of an entry is below the number of entries, whatever the hash function |
| `RobinHood.FinestHeadroom` | libCacheSim/dataStructure/robin_hood.h:2479-2484 | Once the increment cannot be halved any more, a table of at most 126 entries still has headroom in every byte |
| `RobinHood.CollidingBound` | libCacheSim/dataStructure/robin_hood.h:1426-1433 | When all keys have the same hash, no table holds more than 127 entries |
| `RobinHood.PushKeeps` | libCacheSim/dataStructure/robin_hood.h:2452-2469 | Shifting a run up and putting the new byte in keeps the table invariant, adds exactly the new entry, and no byte exceeds 255 |
| `RobinHood.PullTable` | libCacheSim/dataStructure/robin_hood.h:1436-1455 | Backward shift keeps the table invariant |
| `RobinHood.PullContents` | libCacheSim/dataStructure/robin_hood.h:1436-1455 | Backward shift removes exactly the erased key |
| `RobinHood.PulledUsed` | libCacheSim/dataStructure/robin_hood.h:1436-1455 | Backward shift frees exactly one slot |
| `RobinHood.HalveKeeps` | libCacheSim/dataStructure/robin_hood.h:2479-2505 | Halving every byte is re-encoding every slot under half the increment and one hash bit less: the invariant and the contents stay |
| `RobinHood.HalveWord` | libCacheSim/dataStructure/robin_hood.h:2495-2499 | Shifting and masking eight packed bytes at once halves each of them |
| `RobinHoodMap.Table.constructor` | libCacheSim/dataStructure/robin_hood.h:2567-2575 | The initial table of one bucket denotes the empty map |
| `RobinHoodMap.Table.FindIdx` | libCacheSim/dataStructure/robin_hood.h:1458-1486 | The search unrolled by two finds a key if and only if the map holds it, and stays in bounds |
| `RobinHoodMap.Table.SkipGreater` | libCacheSim/dataStructure/robin_hood.h:1388-1412 | Skipping the larger bytes stops inside the table with the probe of the key |
| `RobinHoodMap.Table.Locate` | libCacheSim/dataStructure/robin_hood.h:2431-2442 | Finds the slot of a key, or the place where inserting it keeps the invariant |
| `RobinHoodMap.Table.FindEmpty` | libCacheSim/dataStructure/robin_hood.h:2459-2462 | The search for an empty slot ends before the sentinel, and every slot on the way is occupied |
| `RobinHoodMap.Table.ShiftNodesUp` | libCacheSim/dataStructure/robin_hood.h:1416-1424 | The nodes of the run move up by one and the new one takes the gap, nothing else changes |
| `RobinHoodMap.Table.ShiftInfoUp` | libCacheSim/dataStructure/robin_hood.h:1426-1433 | The bytes of the run move up by one increment, never past 255, and the limit drops to 0 exactly when some byte comes close to it |
| `RobinHoodMap.Table.HalveBytes` | libCacheSim/dataStructure/robin_hood.h:2495-2499 | Eight bytes at a time, every byte of the table is halved |
| `RobinHoodMap.Table.Put` | libCacheSim/dataStructure/robin_hood.h:2452-2472 | The map gains exactly the new entry, the shift loops stay in bounds, and the limit drops to 0 exactly when some byte could not be pushed on any more |
| `RobinHoodMap.Table.PullBack` | libCacheSim/dataStructure/robin_hood.h:1444-1450 | The run behind the slot moves back, up to the first byte that is empty or at home |
| `RobinHoodMap.Table.ShiftDown` | libCacheSim/dataStructure/robin_hood.h:1436-1455 | The map loses exactly the key in the slot |
| `RobinHoodMap.Table.Erase` | libCacheSim/dataStructure/robin_hood.h:2104-2123 | Removes the key if and only if it is present, and reports which |
| `RobinHoodMap.Table.TryIncreaseInfo` | libCacheSim/dataStructure/robin_hood.h:2479-2505 | Changes the layout but not the map; refuses when the increment cannot be halved |
| `RobinHoodMap.Table.InitData` | libCacheSim/dataStructure/robin_hood.h:2393-2413 | An empty table of the given number of buckets |
| `RobinHoodMap.Table.InsertMove` | libCacheSim/dataStructure/robin_hood.h:1495-1537 | A node known to be new enters, unless the limit is lowered to 0 and the increment cannot be halved, where the source throws |
| `RobinHoodMap.Table.MoveOne` | libCacheSim/dataStructure/robin_hood.h:2295-2303 | One round of the rehash loop adds the entry of one slot; it can overflow only once more than 126 entries have been moved, and then leaves what has been moved |
| `RobinHoodMap.Table.Rehash` | libCacheSim/dataStructure/robin_hood.h:2283-2304 | All entries and nothing else end up in the new table; a move can overflow only with more than 126 entries moved, and the table then holds a part of the old map |
| `RobinHoodMap.Table.Resize` | libCacheSim/dataStructure/robin_hood.h:2526-2536 | Either way of rehashing keeps the map; up to 126 entries it never fails, and one more entry fits at once or after a finer layout |
| `RobinHoodMap.Table.IncreaseSize` | libCacheSim/dataStructure/robin_hood.h:2508-2538 | Every way of making room keeps the map; a finer layout if that helps, else a new multiplier for a table less than half full and twice the buckets for others; up to 126 entries it succeeds and leaves room at once or after one more call |
| `RobinHoodMap.Table.Insert` | libCacheSim/dataStructure/robin_hood.h:2427-2477 | Inserting refines adding to the map; a key that is present is found. A table of at most 126 entries takes every new key within two attempts; an overflow is reported only for a new key, without room, when no finer layout can help |
| `RobinHoodMap.Table.Assign` | libCacheSim/dataStructure/robin_hood.h:2427-2477 | Overwrites the value of a key, or adds it |
| `RobinHoodMap.Table.Load` | libCacheSim/dataStructure/robin_hood.h:2194-2217 | In every reachable state the table is at most four fifths full, has the buffer that goes with its size, and a power of two of buckets |
| `RobinHoodMap.MovedStep` | libCacheSim/dataStructure/robin_hood.h:2295-2303 | One round of the rehash loop moves exactly the entry of one slot |
| `RobinHoodMap.CountIsSize` | libCacheSim/dataStructure/robin_hood.h:2459-2469 | The number of used slots is the size of the map |
| `RobinHoodMap.Replay` | libCacheSim/dataStructure/robin_hood.h:1458-1486 | After any sequence of inserts, assignments and erasures a lookup answers as the finite map does, and the element count is the size of that map. With never more than 127 keys there is no overflow, for every hash function; when all keys collide there is one exactly when the map comes to hold more |
| `RobinHoodMap.RunIs` | libCacheSim/dataStructure/robin_hood.h:2104-2123 | What a run leaves under a key: nothing, unless some operation enters it and none removes it later; then the value of the last assignment since, or else of the first entry since |
| `RobinHoodMap.Collide` | libCacheSim/dataStructure/robin_hood.h:2444-2448 | The bound is sharp: under a constant hash 127 keys enter and the 128th overflows |
| `BottomUpSplay.Splay.LeftRotate` | libCacheSim/dataStructure/splaytree.hpp:152-180 | The rotation relinks the tree in place below the same parent and leaves the sums and sizes of both rotated nodes exact |
| `BottomUpSplay.Splay.RightRotate` | libCacheSim/dataStructure/splaytree.hpp:183-213 | The mirror image |
| `BottomUpSplay.Splay.Step` | libCacheSim/dataStructure/splaytree.hpp:218-247 | Each round of `splay` does the zig, zig-zig or zig-zag of its case |
| `BottomUpSplay.Splay.SplayNode` | libCacheSim/dataStructure/splaytree.hpp:216-248 | The node becomes the root and all sums and sizes are exact, although each rotation refreshes at most three nodes; the loop takes exactly the rounds that the cost counts |
| `BottomUpCost.SplayAmortised` | libCacheSim/dataStructure/splaytree.hpp:216-248 | For every tree and node: the rounds of a splay, and what it adds to the potential, are at most 3 times the gain in rank and 1 |
| `BottomUpCost.RunAmortised` | libCacheSim/dataStructure/splaytree.hpp:216-248 | Any run of splays on a tree of n nodes takes at most 3 log n + 1 rounds per splay, and n log n on top |
| `BottomUpSplay.SplayItems` | libCacheSim/dataStructure/splaytree.hpp:216-248 | Splaying keeps the in-order sequence |
| `BottomUpSplay.SuccessorSplayed` | libCacheSim/dataStructure/splaytree.hpp:392-397 | After splaying the successor of the root, the old root is its left child and has no right child |
| `BottomUpSplay.GetDistance` | libCacheSim/dataStructure/splaytree.hpp:285-302 | The recursion over stored sums gives the total value of all items with at least the key, whether or not the key is present |
| `BottomUpSplay.Splay.Find` | libCacheSim/dataStructure/splaytree.hpp:360-373 | Finds a key if and only if it is there and splays it to the root, leaving the contents alone |
| `BottomUpSplay.Splay.Insert` | libCacheSim/dataStructure/splaytree.hpp:328-357 | The contents gain exactly the new item at its place; sums and sizes are exact afterwards, though stale in between |
| `BottomUpSplay.Splay.Erase` | libCacheSim/dataStructure/splaytree.hpp:114-114 | The contents lose exactly the key, if it is there |
| `BottomUpSplay.Splay.RemoveRoot` | libCacheSim/dataStructure/splaytree.hpp:376-399 | All cases of `remove` join the two sides of the root |
| `BottomUpSplay.Splay.Distance` | libCacheSim/dataStructure/splaytree.hpp:112-112 | The total value of all items with at least the given key |
| `MinValueMap.MinValueMap.Insert` | libCacheSim/dataStructure/minvaluemap.hpp:17-41 | The new contents in every case, the evicted key if there is one, and that set and map stay in step if and only if the key is known, there is room, or the value is below the largest |
| `MinValueMap.MinValueMap.MaxValue` | libCacheSim/dataStructure/minvaluemap.hpp:47-47 | The value of the last pair of the ordered set |
| `MinValueMap.TopUnique` | libCacheSim/dataStructure/minvaluemap.hpp:47-47 | The last pair in the lexicographic order of the set is unique |
| `MinValueMap.TopIs` | libCacheSim/dataStructure/minvaluemap.hpp:47-47 | The key given up first has the largest value, and among equal values the largest key |
| `BottomK.KeptSmallest` | libCacheSim/mrcProfiler/mrcProfiler.cpp:228-289 | After every request the sample holds objects with the smallest hash values seen so far, ties at the maximum aside |
| `BottomK.KeptCard` | libCacheSim/mrcProfiler/mrcProfiler.cpp:228-289 | The sample holds `k` objects, or all of them while there are at most `k` |
| `BottomK.NeverAgain` | libCacheSim/mrcProfiler/mrcProfiler.cpp:237-250 | An object once evicted or refused is never sampled again, whatever follows |
| `BottomK.ZeroRateIff` | libCacheSim/mrcProfiler/mrcProfiler.cpp:252-257 | The sampling rate is 0, by which the source divides, if and only if as many objects as the sample takes have the hash value 0 |
| `Reuse.Tracker.Measure` | libCacheSim/mrcProfiler/mrcProfiler.cpp:163-166 | The distance read off the tree is the total size of the tracked objects accessed at or after the object's last access |
| `Reuse.Tracker.Drop` | libCacheSim/mrcProfiler/mrcProfiler.cpp:244-249 | Table and tree forget the same object and still agree |
| `Reuse.Tracker.Enter` | libCacheSim/mrcProfiler/mrcProfiler.cpp:185-189 | Table and tree record the current access and still agree with the requests so far |
| `Shards.RateRound` | libCacheSim/mrcProfiler/mrcProfiler.cpp:151-190 | One request of the fixed-rate run: tracked are exactly the accessed objects with a hash up to the threshold |
| `Shards.FixedRate` | libCacheSim/mrcProfiler/mrcProfiler.cpp:128-209 | Both result vectors are the rounded running sums of the histogram of scaled reuse distances, corrected by the unsampled part, for every hash function |
| `Shards.Admit` | libCacheSim/mrcProfiler/mrcProfiler.cpp:241-250 | The sampler takes the new object, and an evicted one leaves the table and the tree too |
| `Shards.SizeRound` | libCacheSim/mrcProfiler/mrcProfiler.cpp:228-289 | One request of the fixed-size run keeps the sampler's set and map, the table and the tree in step |
| `Shards.FixedSize` | libCacheSim/mrcProfiler/mrcProfiler.cpp:211-305 | Both result vectors, each request weighted by the sampling rate of its moment, for every hash function that does not make that rate 0 |
| `ShardsMeaning.DistanceIs` | libCacheSim/mrcProfiler/mrcProfiler.cpp:163-166 | The reuse distance is the total size of the tracked objects used at or after the object's last use, each taken once, the object included |
| `ShardsMeaning.RateOutcomesMean` | libCacheSim/mrcProfiler/mrcProfiler.cpp:151-190 | At every rate: a request is sampled exactly when its hash is at most the rate times 2^64, it is a reuse exactly when its object occurred before, and its distance d satisfies d * rate <= true distance < (d + 1) * rate |
| `ShardsMeaning.SizeOutcomesMean` | libCacheSim/mrcProfiler/mrcProfiler.cpp:228-289 | Every request of the fixed-size run: the rate of a full sample is the largest hash kept divided by 2^64, no object left out has a smaller one, and the scaled distance is the true one among the tracked objects divided by that rate and rounded down |
| `ShardsMeaning.RateIsOrderStatistic` | libCacheSim/mrcProfiler/mrcProfiler.cpp:252-257 | The rate of a full sample is the k-th smallest hash seen so far, divided by 2^64, whatever ties were kept |
| `ShardsMeaning.CurveIs` | libCacheSim/mrcProfiler/mrcProfiler.cpp:195-208 | At any rates: the first entry is what sampling has missed and the weight of the reuses within the first size, each further one adds the weight between two sizes, where a request weighs 1 or its size divided by its rate; each is rounded towards zero |
| `ShardsMeaning.CurveNear` | libCacheSim/mrcProfiler/mrcProfiler.cpp:201-208 | Entry i of a curve is closer than i + 1 to the estimate without rounding |
| `ShardsMeaning.SampleByRate` | libCacheSim/mrcProfiler/mrcProfiler.cpp:128-209 | The whole fixed-rate run in these terms: what every request counts as, and the two vectors |
| `ShardsMeaning.SampleBySize` | libCacheSim/mrcProfiler/mrcProfiler.cpp:211-305 | The whole fixed-size run in these terms |
| `ShardsExact.CurveExact` | libCacheSim/mrcProfiler/mrcProfiler.cpp:195-208 | When every request is sampled at rate 1, entry `i` counts the reuses within distance `mrc_size_vec[i]`, in requests and in bytes, for any object sizes |
| `ShardsExact.CurveNondecreasing` | libCacheSim/mrcProfiler/mrcProfiler.cpp:201-208 | At any rate the curve never falls as the cache grows |
| `ShardsExact.UnitDistance` | libCacheSim/mrcProfiler/mrcProfiler.cpp:163-166 | With unit sizes the distance is one more than the number of different objects used since |
| `ShardsExact.FullRateHits` | libCacheSim/mrcProfiler/mrcProfiler.cpp:151-190 | At rate 1 with unit sizes the reuses within distance `c` are the hits of an LRU cache of `c` objects |
| `ShardsExact.FullRateIsLru` | libCacheSim/mrcProfiler/mrcProfiler.cpp:128-209 | At rate 1 with unit sizes the curve equals the LRU hits at every size |
| `ShardsExact.RoomyIsFullRate` | libCacheSim/mrcProfiler/mrcProfiler.cpp:228-289 | With fewer objects than the sample size the fixed-size run sees what the full-rate run sees, request by request |
| `ShardsExact.FullRateRun` | libCacheSim/mrcProfiler/mrcProfiler.cpp:128-209 | The computed vector against the LRU hits at every size |
| `ShardsExact.RoomyRun` | libCacheSim/mrcProfiler/mrcProfiler.cpp:211-305 | The computed vectors equal those of the full-rate run |
| `Interning.Interner.Intern` | libCacheSim/bin/prefixsim/trace.cpp:48-51 | Ids are the places of the keys in order of first appearance, counted from 1 |
| `Interning.PathInjective` | libCacheSim/bin/prefixsim/trace.cpp:29-35 | Two interned ids stand for the same path of raw ids only if they are the same id |
| `Interning.SameIdIffSamePrefix` | libCacheSim/bin/prefixsim/trace.cpp:143-159 | Over a whole trace two positions get the same id if and only if their full raw prefixes are equal |
| `Interning.TraceGapless` | libCacheSim/bin/prefixsim/lcp_writer.cpp:156-167 | The gap check never rejects interned ids |
| `Interning.ScanIs` | libCacheSim/bin/prefixsim/lcp_writer.cpp:156-167 | Over any trace, interned or not, the scan ends without a gap exactly when each id is at least 1 and at most one more than the largest before it |
| `Interning.GaplessUses` | libCacheSim/bin/prefixsim/lcp_writer.cpp:156-167 | Ids without a gap use exactly the numbers from 1 to the largest |
| `Interning.UniqueBlocks` | libCacheSim/bin/prefixsim/lcp_writer.cpp:206-206 | The largest id is the number of different prefixes in the trace |
| `Interning.PrefixesAre` | libCacheSim/bin/prefixsim/trace.cpp:143-159 | The prefixes counted are exactly the nonempty prefixes of the lines |
| `Interning.InternIdempotent` | libCacheSim/bin/prefixsim/trace.cpp:143-159 | Interning ids that came out of interning gives every id back |
| `Interning.ReadLine` | libCacheSim/bin/prefixsim/trace.cpp:143-159 | The block loop in prefix mode interns each block below the one before it |
| `Interning.UsableIs` | libCacheSim/bin/prefixsim/trace.cpp:161-161 | Lines without blocks are passed over, each other line stays, and all keep their order |
| `Interning.ReadTrace` | libCacheSim/bin/prefixsim/trace.cpp:129-195 | All usable lines become requests; lines without blocks claim no id |
| `Interning.CheckBlocks` | libCacheSim/bin/prefixsim/lcp_writer.cpp:156-167 | The check accepts if and only if every id lies between 1 and one more than the largest id before it; it then yields the largest, and the ids in use are exactly 1 to that |
| `Interning.Convert` | libCacheSim/bin/prefixsim/lcp_writer.cpp:206-206 | For a trace that was read, the check passes and `n_unique_block` is the true number of different prefixes |
| `Annotation.ExceedsCache` | libCacheSim/bin/prefixsim/trace.cpp:339-346 | The shortcut on the length changes nothing: a request exceeds the cache if and only if it has more different blocks |
| `Annotation.LookupIsNext` | libCacheSim/bin/prefixsim/trace.cpp:384-394 | What the reverse pass finds in its table is the next access by the forward definition |
| `Annotation.FlatAt` | libCacheSim/bin/prefixsim/trace.cpp:367-396 | Among the served accesses each served request holds its own stretch, in order, and a skipped one none |
| `Annotation.NextIsRight` | libCacheSim/bin/prefixsim/trace.cpp:367-396 | The forward definition gives the first later position of the id, or the largest 64-bit integer |
| `Annotation.NeverIsLast` | libCacheSim/bin/prefixsim/trace.cpp:371-371 | A time lies within the trace exactly when the id recurs, and an id that does not recur has a later time than every one that does |
| `Annotation.AnnotateNextAccess` | libCacheSim/bin/prefixsim/trace.cpp:367-396 | Every block of a served request gets the first later position, counted from 1, that holds its id among the served accesses, and the largest 64-bit integer if there is none; every block of a skipped request gets that too |
| `Annotation.AnnotateSessions` | libCacheSim/bin/prefixsim/trace.cpp:398-414 | Every served request gets the index of the first later served request of its session, and the largest 64-bit integer if there is none |
| `Annotation.SizeIndependent` | libCacheSim/bin/prefixsim/trace.cpp:348-365 | When no request exceeds either of two caches the annotations agree |
| `Annotation.StreamingSound` | libCacheSim/bin/prefixsim/main.cpp:369-378 | When no request is longer than the cache, the times for this cache are the times that count every request, so stored times may be streamed |
| `Annotation.LoadTrace` | libCacheSim/bin/prefixsim/trace.cpp:348-365 | Stored annotations are kept only when they are those for this cache; either way the loaded trace carries the annotation for this cache, with the meaning above |
| `Jsonl.AppendJsonl` | libCacheSim/bin/prefixsim/jsonl_writer.cpp:41-78 | The appended text is the line with all fields in order, absent ones left out |
| `JsonlText.LineIs` | libCacheSim/bin/prefixsim/jsonl_writer.cpp:41-78 | The printed line key by key, under the literal names, in order, with null for absent counts and with absent texts left out |
| `JsonlText.IdsPrinted` | libCacheSim/bin/prefixsim/jsonl_writer.cpp:72-77 | The ids are separated by single commas |
| `Jsonl.AppendSeconds` | libCacheSim/bin/prefixsim/jsonl_writer.cpp:28-37 | Whole seconds, a point and exactly six digits |
| `Decimals.DecimalDigits` | libCacheSim/bin/prefixsim/jsonl_writer.cpp:11-15 | Every printed digit is that of its power of ten, with no leading zero |
| `Decimals.IntAtText` | libCacheSim/bin/prefixsim/jsonl_writer.cpp:11-15 | A printed integer reads back, whatever other than a digit follows |
| `Decimals.SecondsRead` | libCacheSim/bin/prefixsim/jsonl_writer.cpp:28-37 | Printed seconds read back exactly to the microsecond |
| `Jsonl.BodyFind` | libCacheSim/bin/prefixsim/trace.cpp:83-92 | The scanner's first textual match of a quoted name is the field itself, unless the quoted type earlier in the line equals the name |
| `Jsonl.FieldFound` | libCacheSim/bin/prefixsim/trace.cpp:83-92 | Every printed field is found, and an absent one is not, unless the type shadows it |
| `JsonlText.AfterIs` | libCacheSim/bin/prefixsim/trace.cpp:83-85 | The search finds the first occurrence of the quoted name, in any line |
| `JsonlText.FieldAt` | libCacheSim/bin/prefixsim/trace.cpp:83-92 | A field is found at the first occurrence of its quoted name, whatever stands before it, with any blanks around the colon |
| `JsonlText.NoColon` | libCacheSim/bin/prefixsim/trace.cpp:88-88 | A quoted name that no colon follows is no field, even if the name occurs again |
| `JsonlText.TextIs` | libCacheSim/bin/prefixsim/trace.cpp:113-121 | A text is what stands between two quotes; without the second one there is none |
| `JsonlText.SeparatorsSkipped` | libCacheSim/bin/prefixsim/trace.cpp:143-159 | Ids may be separated by any commas and blanks |
| `JsonlText.ScanIs` | libCacheSim/bin/prefixsim/trace.cpp:129-187 | What any line yields: each field under its own name, -1 for a number that is missing, and nothing without a nonempty list of ids |
| `JsonlText.ArrivalFallsBack` | libCacheSim/bin/prefixsim/trace.cpp:166-168 | Without an arrival time a request takes the time of its completion, without both 0 |
| `JsonlText.NumbersFound` | libCacheSim/bin/prefixsim/jsonl_writer.cpp:41-78 | Each number and time of a printed request is found under its own literal name |
| `Jsonl.IdsRead` | libCacheSim/bin/prefixsim/trace.cpp:144-159 | The loop over the list of ids recovers it |
| `Jsonl.ReadBack` | libCacheSim/bin/prefixsim/trace.cpp:129-187 | Scanning a printed request recovers all its fields if and only if its type does not equal the name of a later field that carries a value |
| `Jsonl.TurnIsHidden` | libCacheSim/bin/prefixsim/trace.cpp:175-175 | A request whose turn is lost: its type is `turn` |
| `Jsonl.OneLine` | libCacheSim/bin/prefixsim/jsonl_writer.cpp:41-93 | A printed request is one line if and only if its type holds no line break |
| `Jsonl.RoundTrip` | libCacheSim/bin/prefixsim/jsonl_writer.cpp:41-78 | Printing and scanning one request, with the same condition |
| `Reread.NumbersItself` | libCacheSim/bin/prefixsim/trace.cpp:180-183 | Session and user ids in order of first appearance map to themselves when their printed form is interned again |
| `Reread.NumberedInOrder` | libCacheSim/bin/prefixsim/trace.cpp:43-56 | Interned session and user ids are always in order of first appearance |
| `Reread.WriteJsonl` | libCacheSim/bin/prefixsim/jsonl_writer.cpp:80-106 | The file is the printed requests, each ended by a line break |
| `Reread.FileSplits` | libCacheSim/bin/prefixsim/trace.cpp:129-131 | Reading the file by lines gives back the printed requests if and only if no type holds a line break |
| `Reread.TraceReadsBack` | libCacheSim/bin/prefixsim/trace.cpp:129-187 | A whole trace, written to a file, split at line breaks and read back: every field, and every block, session and user id |
| `PriorityQueue.BubbleStep` | libCacheSim/dataStructure/pqueue.c:89-94 | Moving the parent into the gap keeps the order around the gap, which is now above |
| `PriorityQueue.PercolateStep` | libCacheSim/dataStructure/pqueue.c:117-122 | Moving the larger child into the gap keeps the order around the gap, which is now below |
| `PriorityQueue.RootIsMax` | libCacheSim/dataStructure/pqueue.c:206-216 | The root of a heap is a maximum |
| `PriorityQueue.Queue.BubbleUp` | libCacheSim/dataStructure/pqueue.c:84-98 | From order around one slot to heap order, positions stored |
| `PriorityQueue.Queue.MaxChild` | libCacheSim/dataStructure/pqueue.c:100-110 | The child with the largest priority, or 0 if there is none |
| `PriorityQueue.Queue.PercolateDown` | libCacheSim/dataStructure/pqueue.c:112-126 | From order around one slot to heap order; a slot past the end is left alone |
| `PriorityQueue.Queue.Insert` | libCacheSim/dataStructure/pqueue.c:128-181 | Heap order, stored positions, and exactly the new element more, also when the array grows |
| `PriorityQueue.Queue.ChangePriority` | libCacheSim/dataStructure/pqueue.c:183-193 | Heap order and stored positions after any change of one priority |
| `PriorityQueue.Queue.Remove` | libCacheSim/dataStructure/pqueue.c:195-204 | Exactly the element goes, from anywhere in the heap, the last slot included |
| `PriorityQueue.Queue.Pop` | libCacheSim/dataStructure/pqueue.c:206-216 | Returns a maximum and removes exactly it; null if and only if the queue is empty |
| `PriorityQueue.Drain` | libCacheSim/dataStructure/pqueue.c:206-216 | Popping until empty yields every element once, by falling priority |
| `HashRing.CreateRing` | example/cacheCluster/consistentHash.c:45-97 | The ring holds the 160 points of every server, sorted |
| `HashRing.RingPoints` | example/cacheCluster/consistentHash.c:45-97 | A ring holds four points of each of 40 hashes of every server, 160 per server, and no others |
| `HashRing.SortedIs` | example/cacheCluster/consistentHash.c:91-92 | Sorting gives an ascending permutation of the points |
| `HashRing.GetVnodeIdx` | example/cacheCluster/consistentHash.c:99-135 | The binary search ends and returns the first vnode at or after the hash, vnode 0 past the last, also among equal points |
| `HashRing.SuccessorNearest` | example/cacheCluster/consistentHash.c:99-135 | No vnode is nearer to the hash in clockwise direction |
| `HashRing.GrowthMovesToNew` | example/cacheCluster/consistentHash.c:45-97 | Adding a server moves a key only to the new server, whatever order the two sorts give equal points, unless the old owner shares the point with another old server |
| `HashRing.PicksCount` | example/cacheCluster/consistentHash.c:162-177 | Going around yields `n` different servers, or all that are left if these are fewer |
| `HashRing.PicksFirst` | example/cacheCluster/consistentHash.c:162-177 | The picks come in the order in which the servers are met, and every server left out is met behind all of them |
| `HashRing.Collect` | example/cacheCluster/consistentHash.c:162-177 | The walk takes the first `n` different unmarked servers, and aborts if and only if there are fewer |
| `HashRing.GetServers` | example/cacheCluster/consistentHash.c:154-178 | On any sorted ring of the points: the first `n` different servers clockwise from the key, its owner first; no abort if and only if `n` is at most the number of servers |
| `HashRing.GetAvailableServers` | example/cacheCluster/consistentHash.c:180-217 | The same, passing over unavailable servers |
| `TreeModel.LeafCount` | scripts/s4fifo_export_model.py:22-24 | A tree has one leaf more than internal nodes |
| `TreeModel.EvalIs` | libCacheSim/cache/eviction/S4FIFO/S4FIFO_model_real.c:219-237 | The value of an input is that of the one leaf at the end of the way that goes left exactly where the feature is at most the threshold |
| `TreeModel.SupportedIs` | scripts/s4fifo_export_model.py:60-72 | A tree is supported when each split in it decides by <= |
| `TreeModel.SmallLayout` | scripts/s4fifo_export_model.py:28-35 | The layout in numbers: nodes from the root down, left before right, leaves as negative references from -1 on |
| `TreeModel.Flattener.Visit` | scripts/s4fifo_export_model.py:60-72 | The recursion with back-patching appends exactly the layout of the subtree, and fails if and only if some decision is unsupported |
| `TreeModel.Flatten` | scripts/s4fifo_export_model.py:55-75 | The two arrays are the layout of the tree and its leaves from left to right |
| `TreeModel.PlacedCloses` | scripts/s4fifo_export_model.py:60-72 | Every child reference points forward or to an existing leaf, so evaluation ends and stays in range |
| `TreeModel.WalkIsEval` | scripts/s4fifo_export_model.py:55-75 | Following the references from a subtree's place gives the value of the subtree, for every input |
| `TreeModel.WriteModel` | scripts/s4fifo_export_model.py:110-117 | The running offsets are the places where the trees' nodes and leaves end up |
| `TreeModel.ExportHolds` | scripts/s4fifo_export_model.py:110-117 | Every tree is intact in the concatenated arrays |
| `TreeModel.ReaderCounts` | scripts/s4fifo_embed_model.py:39-44 | The counts recovered from the last table entry are the sizes of the arrays that were written |
| `TreeModel.StoredExact` | scripts/s4fifo_export_model.py:28-33 | The 16-bit fields of the file hold a tree if and only if it has at most 32767 internal nodes and its feature numbers fit |
| `TreeModel.FileExact` | scripts/s4fifo_export_model.py:132-139 | The file holds the exported arrays unchanged if and only if every tree fits |
| `TreeModel.EvalTree` | libCacheSim/cache/eviction/S4FIFO/S4FIFO_model_real.c:219-237 | The evaluator's loop ends and gives the value of the original tree |
| `TreeModel.RoundTrip` | scripts/s4fifo_export_model.py:55-117 | Exporting trees, storing them in 16-bit fields and evaluating one of them gives its original value, for every input, when all trees fit; whether they fit is stated exactly |
| `Md5.AdvancedCounts` | example/cacheCluster/md5.c:325-328 | The two words with the carry count modulo 2^64 |
| `Md5.OffsetIs` | example/cacheCluster/md5.c:320-320 | The low counter word gives the length modulo 64 |
| `Md5.State.Append` | example/cacheCluster/md5.c:317-346 | The state stays the compression fold over the full blocks, with the tail buffered and a correct bit count |
| `Md5.State.LengthBytes` | example/cacheCluster/md5.c:356-358 | The eight bytes are the bit count in little-endian order |
| `Md5.PaddedWhole` | example/cacheCluster/md5.c:359-362 | The padded message is a whole number of blocks, and 56 bytes modulo 64 before the length |
| `Md5.PaddedBytes` | example/cacheCluster/md5.c:348-365 | The padded message byte by byte: the message, 0x80, zeros, and eight bytes whose value is the length in bits modulo 2^64 |
| `Md5.FoldStates` | example/cacheCluster/md5.c:317-346 | The digest buffer starts from the four constants and takes the blocks one after the other |
| `Md5.InitialBytes` | example/cacheCluster/md5.c:308-315 | The constants are the bytes of section 3.3 of RFC 1321 |
| `Md5.ChainBytesAre` | example/cacheCluster/md5.c:363-364 | Each word of the digest is printed lowest byte first |
| `Md5.ValueOf` | example/cacheCluster/md5.c:356-358 | The length bytes read back as the number they encode |
| `Md5.State.Finish` | example/cacheCluster/md5.c:348-365 | The digest is that of the message padded as in sections 3.1 and 3.2 of RFC 1321, ending on a block boundary |
| `Md5.DigestOf` | example/cacheCluster/md5.c:317-365 | The digest of a message does not depend on how it is cut into chunks |

## Left out

- LruCache.Cache.Get: the build without TTL support; admission, prefetching and pinning are not modelled, nor are the frequency, cost and next-access fields of objects.
- LruCache.Cache.Get: models `cache_get_base`; the plugin's own `plugin_lru_get`, which lacks the test whether the object can be inserted, is not modelled.
- SplayTree.Splay: keys are unbounded integers, so the subtraction in `key_cmp` cannot overflow; `check_sTree` and the freeing of nodes are not modelled.
- SplayTree.SameShape: compares the two loops on trees; a heap version of `sedgewickized_splay` is not given, and its narrower key parameter is not modelled.
- SplayCost.RunAmortised: counts the rounds of the descent loops; the two repair loops take no more rounds than nodes were passed, at most two for each.
- BottomUpCost.RunAmortised: for runs of splays on one tree; insertions and removals between them are not counted, and `getDistance_` does not splay.
- StackDistance.StackDistances: `get_access_dist` and the printing functions of `dist.c` are not modelled.
- RobinHoodMap.Replay: beyond 127 keys whether an overflow comes depends on the hash function; only for a constant one is it stated exactly. A run ends at its first overflow.
- RobinHoodMap.Table.InitData: the branch of the load limit for more than 2^64 / 100 buckets, allocation failure, node pooling, iterators, reserve, compact, copy and swap are not modelled.
- BottomUpSplay.Splay.Insert: a key that is already there is excluded, since the source then leaves the sums stale and its callers use fresh timestamps; rank and k-th element queries are not modelled.
- Shards.FixedRate: the trace is not empty (the loop tests at its end), and there is at least one cache size; weights are exact reals, not doubles.
- Shards.FixedSize: as for the fixed-rate run, and fewer objects than the sample takes have the hash value 0, since the source divides by 0 otherwise; the statistical quality of the estimates is no property of the code.
- Annotation.LoadTrace: the stored annotation of an annotated trace is taken to be the one that counts every request, which the lcp file format promises; reading the file is not modelled.
- Jsonl.ReadBack: the numeric conversions are modelled on the text that the writer produces; exponents, signs of times, overflow of 64-bit integers and the conversion to 32-bit fields are not modelled.
- Jsonl.AppendJsonl: times are given in whole microseconds; rounding a double to microseconds is not modelled.
- Interning.ReadLine: prefix mode only; raw mode copies the ids. The category interner is not modelled.
- HashRing.CreateRing: servers of equal weight; with weights the source can leave points unset. `qsort` is modelled as an insertion sort on a sequence.
- TreeModel.RoundTrip: what a reference that does not fit 16 bits becomes is up to the version of numpy, which may wrap or refuse; the model wraps. The header and the cost matrix are not modelled.
- Md5.State.Append: chunks of at least 2^28 bytes are excluded, since the source then shifts a signed integer out of range. The round function is a parameter.
- PriorityQueue.Queue.Insert: allocation failure, which ends the program, is not modelled; duplicating and printing the queue are left out.
- The lcp file layout and its reader, the trace readers of the library and all other eviction algorithms.
- `splay_tuple.c` and `bin/MRC/SHARDS.c`, whose tree invariants hold only without equal keys.
- The MINISIM profiler, histogram rescaling and the printing of miss ratios.
- The prefixsim simulator itself, the command-line tools, plotting scripts, bindings and thread pools.
- Bloom filters: sound, but their properties would only add easy members.
