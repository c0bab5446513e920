# libCacheSim: verified cores

libCacheSim simulates cache eviction policies. This project models the parts of it that are state machines or
algorithms with a specification, and proves what they are for. Classes with fields, linked nodes and arrays
stand where the C and C++ code has them; each class is tied to a function or predicate on plain values, and the
theorems are about those.

- **Belady** (`PriorityQueue`, `Belady`, `Oracle`, `BeladyOptimal`, `BeladySimulation`, `Rivals`): an indexed
  binary heap, the cache on top of it, the conversion that computes next accesses, and optimality over every
  policy that must insert what was requested. `Rivals` applies it to LRU, ARC and CR-LFU.
- **LRU miss-ratio curve** (`SplayShape`, `Splay`, `StackDistance`, `Lru`, `ObjCache`, `LruList`, `LruStack`,
  `MissCurve`): a top-down splay tree with subtree sizes on linked nodes, stack distances in one pass, the LRU
  cache on its linked queue, Mattson's inclusion, and the theorem that one pass equals simulating every size.
- **ARC** (`ArcSpec`, `ArcLaws`, `ArcFiling`, `Arc`, `ArcFlag`, `ArcV0`, `ArcRefinement`): ARC on four linked lists and
  ARC from four linked LRU caches, both refining one specification; what that specification decides, and what ARC's
  ghost-hit flag says.
- **Robin Hood hash table** (`Probing`, `RobinHood`): info bytes, shifting, compaction and rehashing, refining a
  map.
- **Lists and counters** (`ObjQueue`, `ClockSpec`, `Clock`, `CrLfuSpec`, `FreqNodes`, `FreqStore`, `CrLfu`): the
  intrusive doubly linked list, Clock with its read-only victim prediction, and CR-LFU with linked buckets and a
  cached minimum frequency.
- **Cluster example** (`Md5Spec`, `Md5`, `HashRing`): streaming MD5 and the consistent-hash ring.
- **AdaptiveClimb** (`ClimbTuner`, `AdaptiveClimb`): the queue is LRU's whatever the side controller does.

Sizes are at least 0, ARC's at least 1; there is no prefetcher, no admission policy and no expiry. The hash table
behind a cache is a map from id to object. `dafny verify dfyconfig.toml` checks everything.

Where the code departs from what one would expect, the model follows the code, and what the code does is proved
with an input on which it departs and with the exact condition under which it does not:

- Time 0 is stored as a null pointer and reads back as "never seen" (`dist.c:79`), so the second request for the
  trace's first object counts as cold, and key 0 stays in the tree. The curve is exact at size c if and only if that
  request does not exist or comes after at least c other objects (`MissCurve.ExactIff`, `MissCurve.OneHitLost`).
- ARC's flag for a hit in B2 goes down when the object is inserted or when a later request finds any object
  (`ARC.c:233-234`). If the object is too large to insert, the flag stays up while requests find nothing, and the
  tie rule of `_ARC_replace` reads it (`ARC.c:519-536`). `ArcFlag.FlagIff` says exactly when it is up between
  requests and `ArcFlag.StaleMatters` when it changes a victim; `ArcFlag.StaleTie` is a run in which it does, and
  neither happens if every object fits or none changes its size.
- AdaptiveClimb stores an object larger than the cache after evicting everything (`AdaptiveClimb.c:101-114`). It is
  LRU throughout a trace if and only if no request misses for such an object (`AdaptiveClimb.ClimbIsLru`,
  `AdaptiveClimb.OversizeLoses`).
- Removing the last object from CR-LFU leaves the minimum frequency at an empty bucket (`CR_LFU.c:421-440`), where
  eviction sets it to -1; with another object in the cache removal gets it right (`CrLfu.CrLfuCache.Remove`,
  `CrLfu.LastObject`).
- A rehash that throws loses pairs (`robin_hood.h:2213-2219`). It throws if and only if some pair of the old slots is
  preceded by pairs that jam at the new size: some stretch of home slots, however short, has at least 126 keys more
  than slots (`RobinHood.Table.Rehash`, `Probing.Jam`). That takes 128 pairs, and 128 with the same home are enough.
  `RobinHood.CompactThrows` is a run in which well spread keys lose pairs when a large table is compacted.
- On a ring, adding a server can move a key between old servers, if the sort puts equal points in that order, if and
  only if two of the old servers share a point (`HashRing.OldMovesIff`); `HashRing.TieMoves` is such a case.

## Model

| member | source | states |
|---|---|---|
| `BeladyOptimal.BeladyIsOptimal` | libCacheSim/libCacheSim/cache/eviction/Belady.c:139-244 | On every trace of unit-size objects, at every capacity of at least 1 and after every prefix, a run that evicts a farthest next use has at most as many misses as any demand run (insert the requested object on a miss, no bypass, evict anything at any time) |
| `BeladyOptimal.LockStep` | libCacheSim/libCacheSim/cache/eviction/Belady.c:139-244 | The invariant behind it, on two runs in lock step: for every horizon, the lead the rival has in objects used again by then is at most the misses it is behind |
| `BeladyOptimal.BeladyIsDemand` | libCacheSim/libCacheSim/cache/cache.c:225-254 | The farthest-next-use rule is itself a demand policy, so the bound is attained |
| `BeladySimulation.LeastMisses` | libCacheSim/libCacheSim/cache/eviction/Belady.c:139-244 | Convert a trace, read it back, run the heap-based cache on it: the miss count is that of some demand policy and no demand policy of that capacity has fewer |
| `BeladySimulation.Simulate` | libCacheSim/libCacheSim/cache/eviction/Belady.c:139-244 | Every run of the heap-based cache over an oracle trace is a farthest-next-use run with the same misses: the heap priorities are the true next accesses |
| `Rivals.BeladyBoundsAll` | libCacheSim/libCacheSim/cache/eviction/Belady.c:139-244 | On every trace and at every size Belady misses no more often than LRU, ARC and CR-LFU |
| `Rivals.LruIsDemand` | libCacheSim/libCacheSim/cache/eviction/LRU.c:130-216 | The contents of a unit-size LRU cache over any trace form a demand run |
| `Rivals.ArcIsDemand` | libCacheSim/libCacheSim/cache/eviction/ARC.c:219-330 | So do the data lists of ARC |
| `Rivals.LfuIsDemand` | libCacheSim/libCacheSim/cache/eviction/CR_LFU.c:140-383 | So do the contents of CR-LFU |
| `Belady.BeladyCache.Get` | libCacheSim/libCacheSim/cache/cache.c:225-254 | Objects of any size: a hit only updates the next access; a miss that fits evicts objects used no sooner than any object kept, none without need, then stores the object, or aborts if its next access is -1; occupied bytes stay within the cache size |
| `Belady.BeladyCache.Find` | libCacheSim/libCacheSim/cache/eviction/Belady.c:139-165 | A hit moves the object's heap node to its new next access, so that heap and hash table still agree |
| `Belady.BeladyCache.Insert` | libCacheSim/libCacheSim/cache/eviction/Belady.c:177-204 | Aborts on a next access of -1; else stores the object with a heap node of its own, and heap and hash table still index each other |
| `Belady.BeladyCache.Evict` | libCacheSim/libCacheSim/cache/eviction/Belady.c:231-244 | Removes an object whose next access is a maximum over all cached objects, from heap, hash table and counters |
| `Belady.BeladyCache.Remove` | libCacheSim/libCacheSim/cache/eviction/Belady.c:246-281 | Removes exactly the given object, wherever its node sits in the heap, or reports that it is not there |
| `HeapOrder.RootIsMax` | libCacheSim/libCacheSim/dataStructure/pqueue.c:283-315 | In a heap no element exceeds the root |
| `HeapOrder.Perturb` | libCacheSim/libCacheSim/dataStructure/pqueue.c:183-196 | Changing one priority breaks the heap order only towards its parent or only towards its children |
| `PriorityQueue.Pqueue.BubbleUp` | libCacheSim/libCacheSim/dataStructure/pqueue.c:99-116 | Restores heap order and every node's stored position when only the parent side of one slot is out of order, keeping the nodes |
| `PriorityQueue.Pqueue.PercolateDown` | libCacheSim/libCacheSim/dataStructure/pqueue.c:135-152 | The same for the children's side |
| `PriorityQueue.Pqueue.Insert` | libCacheSim/libCacheSim/dataStructure/pqueue.c:155-179 | Heap order and positions are kept and exactly the new node is added, also when the array has to grow |
| `PriorityQueue.Pqueue.ChangePriority` | libCacheSim/libCacheSim/dataStructure/pqueue.c:182-196 | Heap order and positions are kept; the set of nodes stays and only this node's priority changes |
| `PriorityQueue.Pqueue.Remove` | libCacheSim/libCacheSim/dataStructure/pqueue.c:199-210 | Exactly the given node leaves, also when it is in the last slot |
| `PriorityQueue.Pqueue.Pop` | libCacheSim/libCacheSim/dataStructure/pqueue.c:213-226 | Exactly the returned node leaves, and it has the largest priority; null if and only if the heap is empty |
| `PriorityQueue.Pqueue.Peek` | libCacheSim/libCacheSim/dataStructure/pqueue.c:229-237 | Returns a node of largest priority without a change; null if and only if the heap is empty |
| `Oracle.BackwardPass` | libCacheSim/libCacheSim/bin/traceUtils/traceConv.cpp:76-108 | Record k of the temporary file is request k from the end with the distance from the end of its object's next request, or -1 |
| `Oracle.ReverseFile` | libCacheSim/libCacheSim/bin/traceUtils/traceConv.cpp:173-255 | Reversing it yields, for record i, the 1-based position of the next request for the object or -1, and with size changes removed the object's first size |
| `Oracle.Convert` | libCacheSim/libCacheSim/bin/traceUtils/traceConv.cpp:51-132 | The conversion as a whole: record i keeps time and id, its next access is the 1-based position of the next request for the object or -1, and its size is its own or, with size changes removed, that of the object's first request |
| `Splay.Splay` | libCacheSim/libCacheSim/dataStructure/splay.c:61-129 | On linked nodes: the in-order node sequence is unchanged, every value field is its subtree's size again, and the root holds the key if it is present, else a key next to it in order |
| `Splay.Insert` | libCacheSim/libCacheSim/dataStructure/splay.c:158-193 | Set insertion with exact sizes; inserting a present key changes no key |
| `Splay.SplayDelete` | libCacheSim/libCacheSim/dataStructure/splay.c:195-217 | Set deletion with exact sizes; deleting an absent key changes no key |
| `Splay.Repair` | libCacheSim/libCacheSim/dataStructure/splay.c:100-120 | The loop down a spine restores the sizes that the splitting loop left behind |
| `SplayShape.RejoinBuild` | libCacheSim/libCacheSim/dataStructure/splay.c:92-125 | Walking a closed spine from its outer end, as the second pass does, meets the spine again piece by piece |
| `SplayShape.BuildInOrder` | libCacheSim/libCacheSim/dataStructure/splay.c:92-125 | Closing a spine over a middle subtree gives a tree whose in-order sequence is that of the spine and of the subtree, on the side the spine is on |
| `Splay.SplayedInOrder` | libCacheSim/libCacheSim/dataStructure/splay.c:92-125 | Both spines closed over the subtrees of the last node and put under it have the in-order sequence of the three parts the tree was taken apart into |
| `StackDistance.DistancePass.CountAbove` | libCacheSim/libCacheSim/profiler/dist.c:85-95 | The size of the right subtree after a splay at the last access time is the number of keys in the tree above it |
| `StackDistance.DistancePass.AddReq` | libCacheSim/libCacheSim/profiler/dist.c:72-104 | Each request returns the number of distinct other objects requested since this object's last request, -1 if cold or if that last request was the trace's first; the tree then holds the last access times, and time 0 for good |
| `StackDistance.ReportedIff` | libCacheSim/libCacheSim/profiler/dist.c:72-104 | A reported distance is the stack distance unless this is the second request for the trace's first object |
| `StackDistance.GetStackDist` | libCacheSim/libCacheSim/profiler/dist.c:111-160 | Both modes: distances by request, or re-indexed to the previous request; values are cut to 32 bits and the run aborts if and only if some distance exceeds UINT32_MAX |
| `StackDistance.LastOfNext` | libCacheSim/libCacheSim/profiler/dist.c:111-160 | Last and next request are inverse, which makes the two modes re-indexings of each other |
| `LruStack.Inclusion` | libCacheSim/libCacheSim/cache/eviction/LRU.c:110-216 | An LRU cache of c unit-size objects holds exactly the top c of the recency stack, in order |
| `LruStack.DepthIsDistance` | libCacheSim/libCacheSim/profiler/dist.c:72-104 | The depth of an object in the recency stack is the number of distinct objects requested since its last request |
| `LruStack.HitIffNear` | libCacheSim/libCacheSim/profiler/profilerLRU.c:72-82 | A request hits in an LRU cache of c unit-size objects if and only if its stack distance is known and below c |
| `MissCurve.GetLruHitCnt` | libCacheSim/libCacheSim/profiler/profilerLRU.c:57-96 | One pass gives, for every size c, the hits an LRU cache of c unit-size objects gets on the trace, less one exactly when the second request for the trace's first object would hit |
| `MissCurve.Histogram` | libCacheSim/libCacheSim/profiler/profilerLRU.c:57-82 | The first loop counts each reported distance in its own slot |
| `MissCurve.GetLruMissCnt` | libCacheSim/libCacheSim/profiler/profilerLRU.c:26-47 | The misses at every size, with the same one exception; every request misses at size 0 |
| `MissCurve.CurveIsLru` | libCacheSim/libCacheSim/profiler/profilerLRU.c:57-96 | The accumulated histogram equals the simulated hit count less the lost hit, for every prefix and size |
| `MissCurve.ExactIff` | libCacheSim/libCacheSim/profiler/profilerLRU.c:57-96 | The curve is exact at size c if and only if the first object is never requested again or only after at least c other objects |
| `MissCurve.OneHitLost` | libCacheSim/libCacheSim/profiler/profilerLRU.c:57-96 | On the trace of two requests for one object the only hit at size 1 is lost |
| `MissCurve.LargerIsBetter` | libCacheSim/libCacheSim/profiler/profilerLRU.c:86-90 | A larger LRU cache hits on every request on which a smaller one hits |
| `Lru.GetKeeps` | libCacheSim/libCacheSim/cache/eviction/LRU.c:110-216 | An LRU cache never exceeds its size and never holds an object twice |
| `Lru.GetPlaces` | libCacheSim/libCacheSim/cache/eviction/LRU.c:110-216 | Objects of any size: a get puts the object in front and keeps the others in order, all of them after a hit, and after a miss the longest newest part that leaves room; an object that does not fit changes nothing |
| `LruList.ListCache.Get` | libCacheSim/libCacheSim/cache/cache.c:225-254 | One get on the linked queue, with hash table and counters, is one get on the recency sequence, for objects of any size |
| `LruList.ListCache.Find` | libCacheSim/libCacheSim/cache/eviction/LRU.c:130-143 | A hit moves the object to the head of the linked queue if asked to |
| `LruList.ListCache.Insert` | libCacheSim/libCacheSim/cache/eviction/LRU.c:155-162 | The new object goes to the head |
| `LruList.ListCache.Evict` | libCacheSim/libCacheSim/cache/eviction/LRU.c:191-216 | The tail, which `ToEvict` names, is unlinked by hand and leaves hash table and counters |
| `LruList.ListCache.Remove` | libCacheSim/libCacheSim/cache/eviction/LRU.c:255-266 | Exactly the object leaves, or nothing changes if it is not there |
| `LruList.Simulate` | libCacheSim/libCacheSim/cache/cache.c:225-254 | Over any trace the linked cache hits and holds what the recency sequence does |
| `ObjQueue.Queue.RemoveObj` | libCacheSim/libCacheSim/cache/cacheObj.c:59-78 | Head, tail and links still form the list, which has lost exactly this object; the object's own links are cleared |
| `ObjQueue.Queue.MoveToTail` | libCacheSim/libCacheSim/cache/cacheObj.c:86-124 | The object is last and the others keep their order; also when it is alone, first or already last |
| `ObjQueue.Queue.MoveToHead` | libCacheSim/libCacheSim/cache/cacheObj.c:132-175 | The object is first and the others keep their order; also when it is alone, last or already first |
| `ObjQueue.Queue.PrependToHead` | libCacheSim/libCacheSim/cache/cacheObj.c:184-203 | The object is put in front, also into an empty list |
| `ObjQueue.Queue.AppendToTail` | libCacheSim/libCacheSim/cache/cacheObj.c:212-231 | The object is put behind, also into an empty list |
| `ObjQueue.Queue.InsertAfter` | libCacheSim/libCacheSim/cache/cacheObj.c:233-244 | The object follows the given one, also behind the tail; nothing happens if either is null |
| `Clock.ClockCache.ToEvict` | libCacheSim/libCacheSim/cache/eviction/Clock.c:195-213 | The read-only walk with a round counter names the victim: the object with the smallest counter, the oldest of those; it terminates for every queue and counters, and `freq - n_round` never goes negative |
| `Clock.ClockCache.Evict` | libCacheSim/libCacheSim/cache/eviction/Clock.c:224-238 | The decrement-and-move loop terminates, evicts the object that `ToEvict` names and leaves the queue rotated to the victim with the credits taken; reinsertions equal the credit taken |
| `ClockSpec.VictimUnique` | libCacheSim/libCacheSim/cache/eviction/Clock.c:195-238 | There is exactly one such victim |
| `ClockSpec.CreditTaken` | libCacheSim/libCacheSim/cache/eviction/Clock.c:224-238 | Reinsertions are at most the sum of all counters |
| `Clock.ClockCache.Find` | libCacheSim/libCacheSim/cache/eviction/Clock.c:145-159 | A hit raises the object's counter up to its maximum and moves nothing |
| `Clock.ClockCache.Insert` | libCacheSim/libCacheSim/cache/eviction/Clock.c:171-183 | The new object goes to the head with counter 0 |
| `Clock.ClockCache.Get` | libCacheSim/libCacheSim/cache/cache.c:225-254 | Hit or miss, the queue becomes what the victim rule says, for objects of any size |
| `Clock.ClockCache.Remove` | libCacheSim/libCacheSim/cache/eviction/Clock.c:255-285 | Exactly the object with this id leaves |
| `ClockSpec.GetFits` | libCacheSim/libCacheSim/cache/cache.c:225-254 | A Clock cache never exceeds its size |
| `ClockSpec.HitSlots` | libCacheSim/libCacheSim/cache/eviction/Clock.c:145-158 | A hit moves nothing and changes one counter: that of the object, by one, unless it is at its maximum |
| `ClockSpec.HitIsSpared` | libCacheSim/libCacheSim/cache/eviction/Clock.c:145-158 | Over two gets: an object just hit, with maximum at least 1, is not the next victim while another object has counter 0; the victim is the oldest with counter 0, and the object hit survives a miss that takes one eviction |
| `ClockSpec.EvictSlots` | libCacheSim/libCacheSim/cache/eviction/Clock.c:224-238 | After an eviction the hand stands behind the victim, and every survivor has lost the victim's counter and, if it was older, one more |
| `ClockSpec.MissSlots` | libCacheSim/libCacheSim/cache/cache.c:225-254 | A miss that can be stored puts the object in front with counter 0 and evicts nothing without need: the last victim did not fit next to the rest |
| `ClockSpec.HitSavesOldest` | libCacheSim/libCacheSim/cache/eviction/Clock.c:145-158 | Requests 1, 2, 1, 3 to a cache of two with counters up to 1 leave 3 and 1 |
| `ArcSpec.GetKeeps` | libCacheSim/libCacheSim/cache/eviction/ARC.c:679-770 | For objects of any size every get keeps the four lists free of repeats and disjoint, data bytes within the cache size and 0 <= p <= c; it caches what fits and adds nothing else to the data |
| `ArcSpec.EvictKeeps` | libCacheSim/libCacheSim/cache/eviction/ARC.c:342-372 | An eviction takes exactly the announced victim out of the data, keeps the lists disjoint and makes up no new object |
| `ArcSpec.GetBounded` | libCacheSim/libCacheSim/cache/eviction/ARC.c:239-291 | For unit sizes every get keeps |T1|+|B1| <= c, |T1|+|T2| <= c, all four together <= 2c, and ghosts only while the cache is full |
| `ArcSpec.RunBounded` | libCacheSim/libCacheSim/cache/eviction/ARC.c:519-595 | So these bounds hold in every reachable state of a get-only run |
| `ArcSpec.FindKeeps` | libCacheSim/libCacheSim/cache/eviction/ARC.c:219-294 | A lookup keeps the structure; a ghost hit takes the object out of the ghosts and moves the target p, strictly unless it is at its bound already, up for B1 and down for B2; nothing else moves it, and it stays within [0, c] |
| `ArcFlag.FlagsAfter` | libCacheSim/libCacheSim/cache/eviction/ARC.c:219-330 | A ghost hit leaves its flag up if and only if the object is too large to insert; any other object found takes both flags down; a miss in all lists leaves them alone |
| `ArcFlag.FlagIff` | libCacheSim/libCacheSim/cache/eviction/ARC.c:219-330 | After any run the B2 flag is up if and only if some request hit B2 with an object too large to insert and no later request found anything |
| `ArcFlag.ReadsStale` | libCacheSim/libCacheSim/cache/eviction/ARC.c:519-536 | The evictions of a request read a stale flag if and only if it is up from before and the request finds nothing; otherwise the flag says that this request hit B2 |
| `ArcFlag.StaleMatters` | libCacheSim/libCacheSim/cache/eviction/ARC.c:519-536 | A stale flag changes the next victim if and only if T1 is not empty and ties with the target, T2 is not empty, and the eviction is not the one that forgets the tail of T1 without a ghost |
| `ArcFlag.FittingIsClean` | libCacheSim/libCacheSim/cache/eviction/ARC.c:307-330 | If every object requested fits, both flags are down after every request |
| `ArcFlag.ConstantIsClean` | libCacheSim/libCacheSim/cache/eviction/ARC.c:307-330 | So they are if no object changes its size |
| `ArcFlag.StaleTie` | libCacheSim/libCacheSim/cache/eviction/ARC.c:519-536 | Eight requests to a cache of size 2 after which a request that finds nothing evicts from T1 at a tie, where with the flag down it would evict from T2 |
| `ArcFlag.MakeRoomFlags` | libCacheSim/libCacheSim/cache/eviction/ARC.c:363-372 | Evictions leave flags and times alone |
| `ArcLaws.ReplaceChooses` | libCacheSim/libCacheSim/cache/eviction/ARC.c:519-536 | With objects in both data lists T1 gives way if it weighs more than the target and T2 if it weighs less, and at equality T1 does exactly if the flag for a hit in B2 is up; the tail of the list that gives way becomes its newest ghost, and the other list is left alone |
| `ArcLaws.ReplaceOnly` | libCacheSim/libCacheSim/cache/eviction/ARC.c:519-536 | With objects in one data list only, that list gives way |
| `ArcLaws.TieOnRequest` | libCacheSim/libCacheSim/cache/eviction/ARC.c:219-294 | At equality, for a request that misses: T1 gives way if the request hit B2 and, with no flag left from before, only then |
| `ArcLaws.EvictDivides` | libCacheSim/libCacheSim/cache/eviction/ARC.c:561-595 | What one eviction makes of all four lists, on weights alone: also which ghosts are forgotten, and that none are after a ghost hit |
| `ArcLaws.RoomOnlyAsNeeded` | libCacheSim/libCacheSim/cache/cache.c:225-254 | Making room takes objects only off the tails of T1 and T2, none if the newcomer fits, and the last one taken did not fit next to the rest |
| `ArcLaws.MissPlaces` | libCacheSim/libCacheSim/cache/eviction/ARC.c:307-330 | A miss that can be stored puts the object at the head of T2 if it was a ghost, else of T1; both data lists keep their order and lose no more than they have to |
| `ArcLaws.HitMoves` | libCacheSim/libCacheSim/cache/eviction/ARC.c:265-292 | A hit in T1 or T2 makes the object the newest of T2, and nothing else moves |
| `ArcLaws.TargetMove` | libCacheSim/libCacheSim/cache/eviction/ARC.c:241-264 | A ghost hit moves the target by 1 if the other ghost list is no heavier, else by the distance that, times the own weight, is the other's weight; only the bounds 0 and c cut the move short |
| `ArcLaws.FourRequests` | libCacheSim/libCacheSim/cache/eviction/ARC.c:519-536 | Requests 1, 1, 2, 3 to a cache of two: 2 is evicted from T1 and 1 stays in T2, so that a fifth request for 1 hits |
| `Arc.ArcCache.Find` | libCacheSim/libCacheSim/cache/eviction/ARC.c:219-294 | On the linked lists: lists, tags, byte counters, flags and target change exactly as the four lists of the specification do |
| `Arc.ArcCache.Insert` | libCacheSim/libCacheSim/cache/eviction/ARC.c:307-330 | The new object goes to the head of L2 data right after a ghost hit, else to the head of L1 data |
| `Arc.ArcCache.Replace` | libCacheSim/libCacheSim/cache/eviction/ARC.c:519-536 | Demotes the tail of L1 or L2 data to the head of its ghost list, as target, sizes and the last ghost hit decide |
| `Arc.ArcCache.EvictMissOnAllQueues` | libCacheSim/libCacheSim/cache/eviction/ARC.c:561-595 | Makes room for an object in no list, never taking from an empty list |
| `Arc.ArcCache.Evict` | libCacheSim/libCacheSim/cache/eviction/ARC.c:363-372 | Chooses between the two by whether this request hit a ghost |
| `Arc.ArcCache.ToEvict` | libCacheSim/libCacheSim/cache/eviction/ARC.c:342-352 | Names, without a change, the object that the next eviction takes out of the data |
| `Arc.ArcCache.Get` | libCacheSim/libCacheSim/cache/cache.c:225-254 | One get on the linked lists is one get of the specification, and tags, hash table and the four byte counters still match the lists |
| `ArcRefinement.RunArc` | libCacheSim/libCacheSim/cache/eviction/ARC.c:182-330 | Every get-only run over objects of any size has the hits and ends in the state of the specification |
| `ArcRefinement.RunArcV0` | libCacheSim/libCacheSim/cache/eviction/ARCv0.c:181-304 | So has every run of the four LRU caches over unit-size objects |
| `ArcRefinement.RunBoth` | libCacheSim/libCacheSim/cache/eviction/ARCv0.c:206-304 | On every trace of unit-size requests the two implementations hit alike and end with the same four lists, the same p and the same flags |
| `ArcV0.ArcV0Cache.Find` | libCacheSim/libCacheSim/cache/eviction/ARCv0.c:206-271 | Lookup over the four LRU caches is the specification's; no sub-cache evicts on its own |
| `ArcV0.ArcV0Cache.Insert` | libCacheSim/libCacheSim/cache/eviction/ARCv0.c:284-304 | The new object goes to the cache the last ghost hit selects |
| `ArcV0.ArcV0Cache.Replace` | libCacheSim/libCacheSim/cache/eviction/ARCv0.c:407-441 | Moves the victim into a ghost cache that has room for it, including the case of an empty T2 |
| `ArcV0.ArcV0Cache.EvictMissOnAllQueues` | libCacheSim/libCacheSim/cache/eviction/ARCv0.c:468-511 | Eviction for an object in no list, with its loop over B2, does what the specification's eviction does |
| `ArcV0.GetWithRoom` | libCacheSim/libCacheSim/cache/eviction/ARCv0.c:407-441 | An LRU cache with room to spare puts a new object in front and evicts nothing |
| `RobinHood.Table.Run` | libCacheSim/libCacheSim/dataStructure/robin_hood.h:2332-2382 | Any run of insertions, erasures and reserves that does not throw does to the table what it does to a map, and afterwards a lookup finds exactly the keys of that map. No run throws, whatever the hash function, that inserts new keys only below 127 pairs and reserves no more than a table can hold; when all keys have the same hash every other run does throw. With a given hash function no longer run throws either whose maps jam in no table that is large enough for them |
| `RobinHood.Table.FindIdx` | libCacheSim/libCacheSim/dataStructure/robin_hood.h:1419-1442 | Finds the slot of a key if and only if the key is in the map, and the slot holds its value; no probe leaves the info bytes |
| `RobinHood.Table.Erase` | libCacheSim/libCacheSim/dataStructure/robin_hood.h:2036-2054 | Removes exactly the key, or reports 0 and changes nothing |
| `RobinHood.Table.InsertOrAssign` | libCacheSim/libCacheSim/dataStructure/robin_hood.h:2275-2382 | Overwrites the value of a key that is present, else adds it. Overflows only for an absent key, from 127 pairs on, when there was neither room nor a way to make room without a rehash, and always does so from there when all keys have the same hash; then the map is as it was, unless a rehash threw. Each rehash it makes throws exactly when the slots before it meet a jam in the layout it goes to, and leaves room exactly when the pairs do not jam there; otherwise the next one follows, until the 256 attempts run out |
| `RobinHood.FirstRehash` | libCacheSim/libCacheSim/dataStructure/robin_hood.h:2332-2382 | For an insertion that needs a rehash, judged before the call: the first rehash throws if and only if the old slots meet a jam in the next layout while pairs are left, and makes room for the new pair if and only if the pairs do not jam there |
| `RobinHood.Table.PutNew` | libCacheSim/libCacheSim/dataStructure/robin_hood.h:2356-2377 | The shift to the next empty slot stays inside the buffer, adds exactly the new pair, and switches further insertions off as soon as one more shift could overflow a byte |
| `RobinHood.Table.TryIncreaseInfo` | libCacheSim/libCacheSim/dataStructure/robin_hood.h:2384-2410 | Fails if and only if one hash bit is left to give up; else the increment and all bytes are halved and the map is the same |
| `RobinHood.Table.Rehash` | libCacheSim/libCacheSim/dataStructure/robin_hood.h:2202-2238 | All pairs are in new arrays of the given size; if it throws, some of them are and nothing else. It throws if and only if some pair of the old slots is preceded by pairs that jam at the new size, whatever the old table's hash bits were; so never with fewer than 128 pairs and always with 128 or more that have the same home |
| `RobinHood.Table.IncreaseSize` | libCacheSim/libCacheSim/dataStructure/robin_hood.h:2413-2441 | However it makes room the map is the same; it throws if and only if no room can be made without a rehash and the old slots meet a jam in the next layout; below 127 pairs there is room afterwards or can be made without a rehash |
| `RobinHood.Table.RehashOrDouble` | libCacheSim/libCacheSim/dataStructure/robin_hood.h:2430-2440 | A table that is less than half as full as allowed keeps its size and gets the next multiplier, any other doubles; it throws if and only if the old slots meet a jam in that layout |
| `RobinHood.Table.InsertMove` | libCacheSim/libCacheSim/dataStructure/robin_hood.h:1450-1492 | Adds a key known to be new; throws if and only if insertions were switched off and no hash bit is left to give up |
| `RobinHood.Table.Reserve` | libCacheSim/libCacheSim/dataStructure/robin_hood.h:2179-2198 | The map is the same and the table is large enough, and when forced no larger than needed; it throws if and only if no table size is large enough, or it has to rehash (forced, or to grow) and the old slots meet a jam at the new size |
| `RobinHood.Table.Compact` | libCacheSim/libCacheSim/dataStructure/robin_hood.h:2072-2090 | The map is the same and the table no larger than it was; it is as small as its elements allow unless it was smaller already; it throws if and only if no table size is large enough, or the table can shrink and its slots meet a jam at the smaller size |
| `RobinHood.Table.InitData` | libCacheSim/libCacheSim/dataStructure/robin_hood.h:2304-2326 | An empty table with its sentinel |
| `RobinHood.LoadFactor` | libCacheSim/libCacheSim/dataStructure/robin_hood.h:2122-2129 | A table may be filled to 80 percent, rounded down; where the product could overflow, to less than 80 elements below that |
| `RobinHood.Table.ShiftDown` | libCacheSim/libCacheSim/dataStructure/robin_hood.h:1396-1414 | Everything displaced after the gap moves down one slot, up to the first slot that is empty or at home |
| `RobinHood.Table.ShiftUp` | libCacheSim/libCacheSim/dataStructure/robin_hood.h:1377-1393 | Pairs and bytes move up one slot, the bytes raised by one increment; a byte that could not be raised again is noticed |
| `RobinHood.Table.SeekInsert` | libCacheSim/libCacheSim/dataStructure/robin_hood.h:2337-2351 | Finds the key, or proves it absent and returns the slot at which it has to go in |
| `RobinHood.FewPutsSafe` | libCacheSim/libCacheSim/dataStructure/robin_hood.h:2332-2382 | A run in which pairs and insertions together number at most 127 is one that cannot throw |
| `RobinHood.CompactThrows` | libCacheSim/libCacheSim/dataStructure/robin_hood.h:2072-2090 | A table that holds 128 well spread keys throws when it is compacted and has lost one of them |
| `RobinHood.Table.GivenUpIff` | libCacheSim/libCacheSim/dataStructure/robin_hood.h:1450-1492 | The state of a table in which the next insertion would throw, insertions off and no hash bit left, is decided by its map and its layout alone: it is reached exactly when the pairs jam |
| `Probing.RoomNoJam` | libCacheSim/libCacheSim/dataStructure/robin_hood.h:1348-1360 | Where every byte has room for one more increment no stretch of homes is jammed |
| `Probing.BitsNoJam` | libCacheSim/libCacheSim/dataStructure/robin_hood.h:2384-2410 | Nor is one where a hash bit can still be given up, however full the bytes are |
| `Probing.CrowdedJam` | libCacheSim/libCacheSim/dataStructure/robin_hood.h:1450-1492 | With no hash bit left a byte without room proves a jam: homes ascend along the run that leads to it |
| `Probing.JamsJam` | libCacheSim/libCacheSim/dataStructure/robin_hood.h:2202-2238 | Slots that meet a jam hold at least 128 pairs, which jam together |
| `Probing.CrowdedMany` | libCacheSim/libCacheSim/dataStructure/robin_hood.h:1450-1492 | With no hash bit left, a byte without room means a run of at least 127 pairs |
| `Probing.SameHomeFew` | libCacheSim/libCacheSim/dataStructure/robin_hood.h:1348-1360 | No table holds more than 127 pairs with the same home |
| `Probing.AllAtHome` | libCacheSim/libCacheSim/dataStructure/robin_hood.h:1348-1360 | Keys with homes of their own are at home |
| `Probing.Reach` | libCacheSim/libCacheSim/dataStructure/robin_hood.h:1348-1373 | Every slot from a key's home to its place is occupied by a pair at least as displaced as a probe for the key would be there |
| `Probing.Absent` | libCacheSim/libCacheSim/dataStructure/robin_hood.h:1419-1442 | A probe that meets a smaller byte has shown that its key is nowhere in the table |
| `Probing.InsertHooded` | libCacheSim/libCacheSim/dataStructure/robin_hood.h:2332-2382 | Shifting up at the point where the probe stopped keeps the probe order |
| `Probing.EraseHooded` | libCacheSim/libCacheSim/dataStructure/robin_hood.h:1396-1414 | Backward shifting keeps the probe order |
| `Probing.HalveHooded` | libCacheSim/libCacheSim/dataStructure/robin_hood.h:2384-2410 | Halving every byte with one hash bit less gives a table in probe order of the same pairs, with room for another step everywhere |
| `Probing.BufferNeverFull` | libCacheSim/libCacheSim/dataStructure/robin_hood.h:2138-2144 | There is always an empty slot between the last home slot and the end of the buffer: a full run there would need too many keys or too large a byte |
| `Probing.InsertedTable` | libCacheSim/libCacheSim/dataStructure/robin_hood.h:2332-2382 | An insertion adds exactly the new pair to the map that the slots hold |
| `Probing.ErasedTable` | libCacheSim/libCacheSim/dataStructure/robin_hood.h:2036-2054 | An erasure removes exactly its key from that map |
| `Probing.HalvedTable` | libCacheSim/libCacheSim/dataStructure/robin_hood.h:2384-2410 | Halving changes nothing in that map |
| `CrLfu.CrLfuCache.Find` | libCacheSim/libCacheSim/cache/eviction/CR_LFU.c:140-209 | A hit moves the object from its linked bucket to the tail of the next and, when it was the last of the least frequency, the scan finds the new least one |
| `CrLfu.CrLfuCache.Insert` | libCacheSim/libCacheSim/cache/eviction/CR_LFU.c:221-304 | The new object is the latest of frequency 1, which is then the least |
| `CrLfu.CrLfuCache.ToEvict` | libCacheSim/libCacheSim/cache/eviction/CR_LFU.c:306-319 | Names the object of least frequency that reached it last |
| `CrLfu.CrLfuCache.Evict` | libCacheSim/libCacheSim/cache/eviction/CR_LFU.c:321-383 | Evicts that object; buckets, counts, hash table and least frequency stay right, and the latter is -1 when nothing is left |
| `CrLfu.CrLfuCache.Remove` | libCacheSim/libCacheSim/cache/eviction/CR_LFU.c:385-447 | Exactly the object leaves; afterwards the cached least frequency is right, that is least or -1 for an empty cache, if and only if the cache held another object |
| `CrLfu.LastObject` | libCacheSim/libCacheSim/cache/eviction/CR_LFU.c:421-440 | One object evicted leaves the least frequency at -1, one object removed leaves it at 1, where there is nothing |
| `FreqStore.Store.Raise` | libCacheSim/libCacheSim/cache/eviction/CR_LFU.c:147-190 | On linked nodes the object leaves the list of its frequency and is last in the next, whose node is made if missing; all other lists, the hash table and all counts stay right |
| `FreqStore.Store.Add` | libCacheSim/libCacheSim/cache/eviction/CR_LFU.c:221-255 | A new object is hashed and linked into the list of frequency 1 |
| `FreqStore.Store.Remove` | libCacheSim/libCacheSim/cache/eviction/CR_LFU.c:321-383 | The object leaves its list, by hand from the tail or by the list operation, and the hash table |
| `FreqNodes.FreqNode.AddToTail` | libCacheSim/libCacheSim/cache/eviction/CR_LFU.c:176-190 | The linking by hand keeps head, tail, links and count, also into an empty list |
| `FreqNodes.FreqNode.DropLast` | libCacheSim/libCacheSim/cache/eviction/CR_LFU.c:345-373 | The unlinking by hand takes exactly the tail, also when it is alone |
| `CrLfu.CrLfuCache.Get` | libCacheSim/libCacheSim/cache/cache.c:225-254 | One get does what the arrival list does, for objects of any size |
| `CrLfu.CrLfuCache.NextMin` | libCacheSim/libCacheSim/cache/eviction/CR_LFU.c:357-365 | The scan up to the largest frequency finds the least frequency with an object, if there is one |
| `CrLfuSpec.VictimInBucket` | libCacheSim/libCacheSim/cache/eviction/CR_LFU.c:321-383 | The last object of the first bucket that has any is the one of least frequency that arrived there latest |
| `CrLfuSpec.VictimUnique` | libCacheSim/libCacheSim/cache/eviction/CR_LFU.c:306-319 | There is exactly one such object |
| `CrLfuSpec.GetKeeps` | libCacheSim/libCacheSim/cache/cache.c:225-254 | A CR-LFU cache never exceeds its size, never holds an object twice, and after a get holds the object if and only if it held it or could store it |
| `CrLfuSpec.RoomKeepsBest` | libCacheSim/libCacheSim/cache/cache.c:225-254 | Making room keeps all objects if they fit. Else every object evicted is used less often than every object kept, or as often but came later, the objects kept stay in order, and the last victim did not fit next to them |
| `CrLfuSpec.MissItems` | libCacheSim/libCacheSim/cache/cache.c:225-254 | A miss that can be stored makes room so and puts the object last, with frequency 1; an object that does not fit changes nothing |
| `CrLfuSpec.HitItems` | libCacheSim/libCacheSim/cache/eviction/CR_LFU.c:140-209 | A hit adds one to the object's frequency and makes it the latest; the others keep their order |
| `CrLfuSpec.ThirdHits` | libCacheSim/libCacheSim/cache/cache.c:225-254 | Requests 1, 2, 1 to a cache of two: nothing is evicted, so the third hits |
| `AdaptiveClimb.ClimbIsLru` | libCacheSim/libCacheSim/cache/eviction/AdaptiveClimb.c:51-126 | Throughout a trace the queue is that of LRU, in the same order, if and only if no request misses for an object larger than the cache; K and jump play no part |
| `AdaptiveClimb.ClimbStep` | libCacheSim/libCacheSim/cache/eviction/AdaptiveClimb.c:90-126 | One request is served as LRU would, and occupied bytes stay within the cache size, exactly when the object is cached or fits; otherwise the object is alone in the queue |
| `AdaptiveClimb.OversizeLoses` | libCacheSim/libCacheSim/cache/eviction/AdaptiveClimb.c:90-126 | An object larger than the cache evicts everything and is stored all the same, which costs a hit that LRU has |
| `AdaptiveClimb.ClimbIsStack` | libCacheSim/libCacheSim/cache/eviction/AdaptiveClimb.c:51-126 | On unit-size objects the queue is the LRU queue that the stack distances describe |
| `AdaptiveClimb.Simulate` | libCacheSim/libCacheSim/bin/cachesim/sim.c:39-45 | Get, then insert on a miss, over any trace: the hits and the queue are those of the policy on plain queues, the recorded outcomes are the hits, K stays in [4, 5001] and jump in [1, 5001] |
| `AdaptiveClimb.ClimbCache.Get` | libCacheSim/libCacheSim/cache/eviction/AdaptiveClimb.c:56-84 | A hit moves the object to the head of the linked queue and is recorded; a miss changes nothing |
| `AdaptiveClimb.ClimbCache.Insert` | libCacheSim/libCacheSim/cache/eviction/AdaptiveClimb.c:90-126 | A present object is a hit; else tails are evicted until the object fits or nothing is left, and it goes to the head |
| `AdaptiveClimb.ClimbCache.Evict` | libCacheSim/libCacheSim/cache/eviction/AdaptiveClimb.c:133-145 | The tail leaves; nothing happens when the queue is empty |
| `AdaptiveClimb.ClimbCache.Remove` | libCacheSim/libCacheSim/cache/eviction/AdaptiveClimb.c:147-164 | Exactly the object leaves; links, hash table and counters stay right |
| `ClimbTuner.KnobsRange` | libCacheSim/libCacheSim/cache/eviction/AdaptiveClimb.c:38-49 | After any outcomes K is in [4, 5001], jump in [1, 5001] and the miss rate in [0, 1] |
| `ClimbTuner.KnobsStep` | libCacheSim/libCacheSim/cache/eviction/AdaptiveClimb.c:38-49 | Between adjustments nothing moves, and an adjustment moves K by at most two |
| `ClimbTuner.KnobsDirection` | libCacheSim/libCacheSim/cache/eviction/AdaptiveClimb.c:38-49 | From the outcomes alone: at every thousandth outcome, fewer hits in the last thousand than in the thousand before lower K by 2, down to 5 at least, and raise jump by 2 below 5000; as many or more raise K by 2 below 5000 and lower jump by 2, down to 5. The first thousand is compared with a thousand hits |
| `ClimbTuner.ThousandMisses` | libCacheSim/libCacheSim/cache/eviction/AdaptiveClimb.c:38-49 | A thousand misses take K from 10 to 8 and jump from 1 to 3 |
| `ClimbTuner.Tuner.Record` | libCacheSim/libCacheSim/cache/eviction/AdaptiveClimb.c:31-49 | Window, counter and parameters are functions of all outcomes so far: the window shows the last 1000 and the parameters move only after every thousandth |
| `ClimbTuner.Tuner.CountsWindow` | libCacheSim/libCacheSim/cache/eviction/AdaptiveClimb.c:31-36 | `recent_hit_count` is the number of ones in the circular window |
| `HashRing.AddingMovesOnlyToNew` | libCacheSim/example/cacheCluster/consistentHash.c:41-128 | For any rings: adding a server moves a key only to the new server or to a vnode at the very same point. If no two old servers share a point, it moves a key if and only if it moves to the new server, and with distinct old points every other key keeps its vnode |
| `HashRing.OldMovesIff` | libCacheSim/example/cacheCluster/consistentHash.c:41-128 | For every round function of the digest and every number of servers: there are sortings of the old and of the new points and a hash that moves from one old server to another, if and only if two of the old servers share a point |
| `HashRing.TieMoves` | libCacheSim/example/cacheCluster/consistentHash.c:26-32 | With a digest that tells nothing apart: two properly sorted rings of two and three servers on which a key moves from old server 0 to old server 1 |
| `HashRing.OwnersMeet` | libCacheSim/example/cacheCluster/consistentHash.c:92-128 | Two owners of a hash have the same point |
| `HashRing.Ring.constructor` | libCacheSim/example/cacheCluster/consistentHash.c:41-90 | The ring is a sorting of 160 points for each server, four from each digest |
| `HashRing.Ring.GetVnodeIdx` | libCacheSim/example/cacheCluster/consistentHash.c:92-128 | The binary search terminates and returns the first point at or after the hash, or index 0 when there is none |
| `HashRing.IdxOwns` | libCacheSim/example/cacheCluster/consistentHash.c:92-128 | That point owns the hash, whatever order the sort gave to the ring |
| `HashRing.Ring.GetServer` | libCacheSim/example/cacheCluster/consistentHash.c:136-139 | The server of the point that owns the key's hash, of which there is one (`ServesOne`) |
| `HashRing.Ring.ServesOne` | libCacheSim/example/cacheCluster/consistentHash.c:92-139 | The ring as sorted leads a key to one server |
| `HashRing.Ring.GetServers` | libCacheSim/example/cacheCluster/consistentHash.c:149-172 | The servers are different ones, in the order in which they are met on the ring turned to the key's point, clockwise, and the first is the one that `GetServer` returns; aborts if and only if there are fewer than n servers |
| `HashRing.Ring.GetAvailableServers` | libCacheSim/example/cacheCluster/consistentHash.c:174-211 | The same among the servers that are not unavailable: before each is met, only those before it in the list and unavailable ones are; aborts if and only if there are fewer than n of those |
| `HashRing.SeenClockwise` | libCacheSim/example/cacheCluster/consistentHash.c:149-211 | Every beginning of the walk's list is in clockwise order, stated on the turned ring |
| `HashRing.PointBytes` | libCacheSim/example/cacheCluster/consistentHash.c:33-90 | Point h of digest k of a server is the four bytes from 4h of the digest of its name, and a key's hash the first four of its own, least significant first |
| `HashRing.NamesDiffer` | libCacheSim/example/cacheCluster/consistentHash.c:60-66 | No two of these digests are of the same name |
| `HashRing.SeenIs` | libCacheSim/example/cacheCluster/consistentHash.c:149-172 | The walk lists each server it meets once, and no other |
| `HashRing.SeenGrows` | libCacheSim/example/cacheCluster/consistentHash.c:149-172 | A longer walk only adds servers behind: they come in the order in which they are first met |
| `HashRing.BlockingOne` | libCacheSim/example/cacheCluster/consistentHash.c:174-211 | Making one server unavailable takes it out of the list and leaves the others in order |
| `HashRing.Ring.HowMany` | libCacheSim/example/cacheCluster/consistentHash.c:149-211 | One turn offers exactly the servers that are not blocked, and a further step offers nothing new |
| `Md5.DigestOf` | libCacheSim/example/cacheCluster/md5.c:312-381 | A message appended in any pieces has the digest of the whole message |
| `Md5.State.Append` | libCacheSim/example/cacheCluster/md5.c:322-358 | The message grows by exactly the bytes appended, none for a count of zero or less; the chain covers its whole blocks, the buffer the rest, and the two words count its bits modulo 2^64 |
| `Md5.State.Finish` | libCacheSim/example/cacheCluster/md5.c:360-381 | The digest is that of the message padded by sections 3.1 and 3.2 of RFC 1321 |
| `Md5.CountOn` | libCacheSim/example/cacheCluster/md5.c:332-336 | The two-word addition with its carry is addition of the bit count modulo 2^64 |
| `Md5Spec.PaddedInjective` | libCacheSim/example/cacheCluster/md5.c:360-381 | No two messages, of any lengths, are padded to the same blocks |
| `Md5Spec.LengthWraps` | libCacheSim/example/cacheCluster/md5.c:332-336 | The length field alone repeats every 2^61 bytes |
| `Md5Spec.PaddedBytes` | libCacheSim/example/cacheCluster/md5.c:360-381 | Byte by byte: the message, 0x80, zeros as few as possible, and the bit count modulo 2^64 least significant byte first (sections 3.1 and 3.2 of RFC 1321) |
| `Md5Spec.StartBytes` | libCacheSim/example/cacheCluster/md5.c:312-320 | The chain starts as the bytes 01 23 45 67 89 ab cd ef fe dc ba 98 76 54 32 10 (section 3.3 of RFC 1321) |
| `Md5Spec.DigestBytes` | libCacheSim/example/cacheCluster/md5.c:360-381 | The digest lists the bytes of A, B, C and D in this order, least significant first (section 3.5 of RFC 1321) |
| `Md5Spec.EndianRound` | libCacheSim/example/cacheCluster/md5.c:373-380 | Reading little-endian bytes back gives the number cut to their width |

## Left out

- Integer widths and overflow: counters are unbounded integers, except the info bytes, the hash multiplier and the
  sizes of the Robin Hood table, the words and lengths of MD5, and the 32-bit distance array.
- Floating point: ARC's target and AdaptiveClimb's miss rate are reals, heap priorities integers. Miss rates are
  multiples of 1/1000, so rounding does not change how they compare.
- Traces, temporary files and their records are sequences; reading, writing and mapping files is left out.
- Memory: allocation failure, freeing, object pools, alignment, and the iterators and constructors that copy or
  move a Robin Hood table.
- The hash functions, MD5's round function and `qsort` are parameters; of `qsort` only that it sorts is used.
- `& mask` in the Robin Hood table is `%` by the table size, which is kept a power of two.
- RobinHood.Table.Run: of the runs that are neither safe nor free of jams, which ones throw depends on the order in
  which pairs lie in the slots; the condition is stated for each operation, not for the run.
- RobinHood.Table.InsertOrAssign: covers insert_or_assign; the other ways to insert differ only in what they store. When
  the last of the 256 attempts gives up a hash bit, it runs out although the pairs do not jam; the contract leaves open
  whether it does.
- The set and node-based variants built on the same table.
- CR-LFU with a companion cache.
- ArcRefinement.RunArcV0: unit-size objects without metadata only, as for which the two implementations agree.
- ArcV0.ArcV0Cache.Find: unit sizes, and so for `Replace` and `EvictMissOnAllQueues`; with other sizes the
  sub-caches evict on their own.
- ArcV0.ArcV0Cache.Replace: as `Find`.
- ArcV0.ArcV0Cache.EvictMissOnAllQueues: as `Find`.
- ARCv0's candidate prediction, which omits a case.
- `ARC_remove`, and `ARC_find` without update on a miss: claims about ARC are about runs of gets.
- AdaptiveClimb.Simulate: the static window and counters belong to one cache; several caches would share them.
- Belady.BeladyCache.Insert: does not model the build option that evicts at once what is never used again, nor builds
  whose log level removes the error.
- HashRing.Ring.constructor: without weights; with weights fewer points than announced may be filled.
- `ch_ring_get_server_from_uint64`, which cuts the key at its first zero byte.
- Md5.State.Append: counts from 2^28 on, where the C shift is undefined, are taken as shifting bits out; counts for
  which `offset + nbytes` is no int are excluded, as that addition is undefined.
- Md5.DigestOf: pieces within those counts.
- The access-distance functions, the weighted and time-based statistics of `cache_t`, and the candidate fields that
  `to_evict` functions cache.
- Cacheus, 3L-Cache, BeladySize, Random, FIFO, Bloom filters, admission policies and the trace analyser.
