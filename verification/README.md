# justUtils: verified models of the data structures, allocators and thread pool

This project models the in-memory core of the justUtils C11 library in Dafny and proves
what that core is for: an open-addressing hash map that answers as a finite map, an AVL
tree on the heap that answers as a set, a thread pool that loses no task and no wakeup, an
object pool whose free list survives everything its users write, a path normaliser with a
canonical form, a memory tracker whose counters are the sums over its list, and the
power-of-two buffers, the bump allocator and the packed bitset that refine simple
sequences and sets. Code that changes state is modelled by classes and loops over arrays
and heap nodes, each proved against a specification function; the properties of those
functions are lemmas.

| file | what it models |
|---|---|
| `Common.dfy` | what several modules share |
| `Bits.dfy` | 64-bit and, or, xor, shift and complement on naturals, and what masks compute |
| `PowerOfTwo.dfy` | the three bit-smearing routines, masked indices, probe orders |
| `HashTable.dfy`, `HashMap.dfy` | slots, probe paths and load; the hash map on a slot array |
| `AvlTree.dfy`, `OrderedSet.dfy` | AVL trees that carry their nodes; the nodes on the heap |
| `ThreadPool.dfy`, `ThreadPoolRuns.dfy` | the monitor as a step system and its invariant; its runs |
| `FairSchedules.dfy` | a scheduler that goes round, and why fair runs exist |
| `ObjectPool.dfy` | the free list inside the slots and the bitset that shadows it |
| `PathModel.dfy`, `PathNormalize.dfy` | meaning and canonical form of paths; the in-place scanner and printer |
| `Tracker.dfy` | the doubly linked list of allocations and the tag table |
| `Queue.dfy`, `RingBuffer.dfy` | circular buffers as sequences |
| `LinearAlloc.dfy`, `Alignment.dfy` | bump allocation, markers, alignment |
| `Bitset.dfy` | packed words as sets of indices |

`dafny verify dfyconfig.toml` checks everything. Every lemma turns automatic induction
off, so that its body is its whole proof.

## Conventions

- `size_t` and `uint64_t` are `Word`, a natural below 2^64. Bit operations are recursive
  functions on naturals; sums that the code lets wrap are taken modulo 2^64 where the wrap
  can be observed (bit smearing, the tracker's counters, the linear allocator's sum).
- Whether an allocation succeeds is a parameter (`allocOk`, `osOk`, `OsOutcome`).
- Hash function and key comparison are arbitrary, with equal keys hashing equally: `cls`
  maps a key to its equivalence class and `hashOf` a class to its hash. The set comparator
  is the order of an arbitrary `rank`; the elements of one set have one fixed size
  (`elementSize`), so there are finitely many and every total preorder on them has a rank.
- Pointers into the ordered set are `Node` references, so that the key given to Remove may
  be the very node that is overwritten or freed; a freed node is no longer `live`.
- A task of the thread pool is its ticket, the number of tasks accepted before it. Each
  stretch of code under the mutex is one step. A signal wakes at least one blocked thread
  and spurious wakeups are allowed, as in section 7.26.3 of ISO/IEC 9899:2011.

## Where the code differs from what one would expect

- A failed growth leaves the hash map with a new capacity and zero counts over its old
  slots (src/dataStructures/hashMap.c:154-159): `Set` then ends outside `Valid`, and `Get`
  finds nothing any more.
- `insertRecursive` reports an insertion whose node could not be allocated
  (src/dataStructures/orderedSet.c:100-104): the elements stay, the size is one too high, and
  that is the only way to lose the invariant.
- `justQueueReserve` sets `tail` to `size` without wrapping it
  (src/dataStructures/queue.c:152). `ReserveInStep` says exactly when `tail` ends up past the
  buffer, `UsableIffInStep` that this is exactly when some later run writes out of bounds,
  and `ShrinkToFitBreaks` gives a queue of 16 slots and 8 elements that ShrinkToFit brings there.
- A request to reserve more than 2^63 slots reports success although it reserves nothing
  (src/dataStructures/queue.c:95-98): the rounding wraps to zero, and the queue is trimmed to
  its elements, or gives up its buffer if it has none (`ReserveLeast`).
- A union with a larger set leaves bits past the capacity in the last word, and the next
  operation that reads them as a source can bring them back. `Union`, `Intersection` and
  `Difference` say exactly when the member sets come out as the set operation and exactly
  when such bits are left; `StrayBitLeaks` is an example. Among sets of one capacity none ever
  appear (`Bitset.Replay`). The header says that the smaller capacity is used
  (include/justUtils/dataStructures/bitset.h:173-191); words that only the destination has
  are in fact kept.
- Path segments past the 64th are dropped (src/system/filesystem.c:141-146). The canonical
  form, idempotence and length hold anyway. Every prefix of a path keeps its meaning, from
  every directory, if and only if no prefix nests deeper than 64 (`MeaningKeptIff`); the
  whole path does if and only if its final stack is that of an unlimited fold
  (`TargetKeptIff`). `TooDeepLosesMeaning` is a path that changes its target. The
  documentation mentions only a small buffer as a reason to fail; a path of 1024 characters
  fails too.
- Limits of the tracker can be passed in two ways. Tags of 32 characters and more are cut off
  when they are stored and compared in full (src/memory/tracker.c:67-83), so that one entry
  is checked and another charged: `LongTagOvershoots`. And sums of sizes wrap
  (src/memory/tracker.c:187, src/memory/tracker.c:252), so that a huge size passes the check:
  `WrappedSizeOvershoots`. Counted in bytes that are really charged, `Malloc` and `Realloc` keep
  the limits if and only if the guards in their contracts hold; `LimitKeptIff` and
  `AnySizeKeptIff` say for which tags that is so for all sizes, and `LimitsHold` that guarded
  runs never pass a limit. The counters equal the sums over the list, modulo 2^64, in any case.
- A request to the linear allocator whose sum wraps succeeds with a block outside the
  memory; `Bump` says that this is the only way to lose the layout, and
  `WrappedRequestSucceeds` that there is such a request as soon as anything is allocated.
- `justThreadpoolAddTask` is documented to fail when the queue is full; the queue grows, so
  that it fails only after shutdown or when the growth cannot be allocated.

## Model

| member | source | states |
|---|---|---|
| PowerOfTwo.SmearUp | src/dataStructures/queue.c:14-24 | decrement, six shift-or assignments and wrapping increment give the least power of two not below the request up to 2^63, and 0 beyond |
| PowerOfTwo.MapNextPowerOfTwo | src/dataStructures/hashMap.c:38-48 | the least power of two ≥ max(n, 16) for n ≤ 2^63, 0 beyond |
| PowerOfTwo.QueueRoundToPowerOfTwo | src/dataStructures/queue.c:10-25 | 0 for 0, the least power of two ≥ max(n, 8) for n ≤ 2^63, 0 beyond |
| PowerOfTwo.RingNextPowerOfTwo | src/dataStructures/ringBuffer.c:9-23 | the least power of two ≥ max(n, 1) for n ≤ 2^63, 0 beyond |
| PowerOfTwo.MaskWraps | include/justUtils/dataStructures/queue.h:104 | masking an index that passed the end of a power-of-two buffer at most once subtracts the capacity exactly if it did |
| PowerOfTwo.ProbeVisitsEachOnce | src/dataStructures/hashMap.c:216-218 | over a power-of-two table, probe steps 0 to capacity-1 visit every slot, each exactly once |
| HashTable.LoadLeavesEmpty | src/dataStructures/hashMap.c:206 | a table whose entries and tombstones fill less than 3/4 has an EMPTY slot |
| HashTable.ProbeEnds | src/dataStructures/hashMap.c:216-252 | under that load every probe reaches an EMPTY slot or a matching entry within capacity steps, past slots that are neither |
| HashTable.PassedMeansAbsent | src/dataStructures/hashMap.c:283-299 | if no gap lies between an entry and its home, a probe that ends at an EMPTY slot, or goes all the way round, has shown the key absent from the table and from the map |
| HashTable.Inserted | src/dataStructures/hashMap.c:221-238 | writing a new key to any free slot reached without a gap, the first tombstone included, keeps probe paths, cached hashes and distinct keys, and represents the updated map |
| HashTable.Replaced | src/dataStructures/hashMap.c:246-250 | overwriting a value keeps the table well formed and represents the updated map |
| HashTable.Deleted | src/dataStructures/hashMap.c:323-326 | turning an entry into a tombstone keeps the table well formed and represents the map without the key |
| HashTable.RehashPreserves | src/dataStructures/hashMap.c:161-188 | a table with the same entries, clear probe paths and distinct keys represents the same map, whatever its size |
| HashMap.SlotsDecide | src/dataStructures/hashMap.c:273-300 | the slots determine the abstract map that all contracts speak of |
| HashMap.HashMap.Create | src/dataStructures/hashMap.c:79-127 | the empty map at the rounded capacity; capacity 0 when the allocation fails or the rounding wraps |
| HashMap.HashMap.Place | src/dataStructures/hashMap.c:172-183 | the inner probe loop ends at the first slot of the entry's probe path that holds no entry, and only that slot changes |
| HashMap.HashMap.Rehash | src/dataStructures/hashMap.c:161-188 | exactly the old entries are in the new table, reachable, with distinct keys and the same count, without hashing or comparing a key |
| HashMap.HashMap.Resize | src/dataStructures/hashMap.c:146-191 | on success the same map and count at the new capacity without tombstones; on failure the old slots under the new capacity and zero counts |
| HashMap.HashMap.MakeRoom | src/dataStructures/hashMap.c:199-210 | 16 slots at first, then twice as many if more than half are entries, and as many as before otherwise, exactly when one more slot in use would reach 3/4 of them; the map stays as it is and the load is below 3/4 even after one more entry; after a failed allocation the map is not valid and nothing is counted |
| HashMap.HashMap.Set | src/dataStructures/hashMap.c:193-271 | the map gains or overwrites the key and the invariant (true counts, power-of-two capacity ≥ 16, load below 3/4, clear probe paths, distinct keys) is kept; fails exactly if an allocation was needed and failed, and then leaves the old slots with zero counts |
| HashMap.HashMap.Store | src/dataStructures/hashMap.c:212-270 | the probe loop, reusing the first tombstone, stores the association; the fallback after the loop is never reached |
| HashMap.HashMap.Get | src/dataStructures/hashMap.c:273-300 | the value of the abstract map, or nothing exactly if the key is absent; nothing at all after a failed allocation |
| HashMap.HashMap.Remove | src/dataStructures/hashMap.c:302-332 | reports whether the key was present and leaves the map without it |
| HashMap.HashMap.Clear | src/dataStructures/hashMap.c:334-342 | the empty map in the same slot array |
| HashMap.Replay | src/dataStructures/hashMap.c:193-342 | over every run of Set, Get, Remove and Clear while allocation succeeds, the answers are those of a finite map |
| HashMap.RoomLeft | src/dataStructures/hashMap.c:173-176 | a probe over entries only does not go all the way round a table that has a free slot |
| HashMap.EntryMoved | src/dataStructures/hashMap.c:167-184 | placing the next entry keeps the new table reachable, distinct and equal to the part copied so far |
| AvlTree.RotateRightRearranges | src/dataStructures/orderedSet.c:30-42 | a right rotation keeps the nodes, the values and the order |
| AvlTree.RotateLeftRearranges | src/dataStructures/orderedSet.c:44-56 | a left rotation keeps the nodes, the values and the order |
| AvlTree.DoubleRearranges | src/dataStructures/orderedSet.c:137-149 | both double rotations keep the nodes, the values and the order |
| AvlTree.SingleRight | src/dataStructures/orderedSet.c:216-219 | where the left side is two higher and its outer part not lower, one rotation restores balance and exact heights |
| AvlTree.DoubleRight | src/dataStructures/orderedSet.c:221-225 | where its inner part is higher, two rotations do |
| AvlTree.InsertBalanced | src/dataStructures/orderedSet.c:94-152 | insertion keeps every balance within one and every stored height exact, and grows the tree by at most one level, through the branch choice that re-compares the key |
| AvlTree.InsertPresent | src/dataStructures/orderedSet.c:116-120 | inserting an element that compares equal to one in the tree changes nothing |
| AvlTree.InsertAbsent | src/dataStructures/orderedSet.c:94-152 | inserting an absent element adds exactly that value and that node, and keeps order and disjoint nodes |
| AvlTree.InsertIfLeft | src/dataStructures/orderedSet.c:108-145 | one level of insertion to the left: every child that the rotation dereferences exists, no node is shared, and the result is the specified tree, with a new node or without |
| AvlTree.InsertIfRight | src/dataStructures/orderedSet.c:112-149 | the same to the right |
| AvlTree.RemoveFixed | src/dataStructures/orderedSet.c:213-238 | the four removal cases rebalance any two balanced subtrees that differ by at most two levels |
| AvlTree.RemoveBalanced | src/dataStructures/orderedSet.c:161-239 | removal keeps balance and exact heights and lowers the tree by at most one level |
| AvlTree.RemoveAbsent | src/dataStructures/orderedSet.c:161-239 | removing an absent element changes nothing |
| AvlTree.RemoveCorrect | src/dataStructures/orderedSet.c:161-239 | removal takes out exactly the elements equal to the key, in all cases including copy-successor, and keeps order and disjoint nodes |
| AvlTree.FreedOne | src/dataStructures/orderedSet.c:183-211 | exactly one node is given up if the element was present, and none otherwise |
| AvlTree.RemoveNodes | src/dataStructures/orderedSet.c:161-239 | the nodes that are left are all but those given up |
| AvlTree.MinIsLeast | src/dataStructures/orderedSet.c:154-159 | the leftmost value is in the tree and below every other |
| AvlTree.InOrderSorted | src/dataStructures/orderedSet.c:309-315 | the in-order listing of an ordered tree is strictly increasing |
| AvlTree.InOrderLists | src/dataStructures/orderedSet.c:309-315 | it lists exactly the elements |
| AvlTree.SizeCounts | src/dataStructures/orderedSet.c:275 | the number of nodes of an ordered tree is the number of its elements |
| AvlTree.FibonacciBound | src/dataStructures/orderedSet.c:15-28 | a balanced tree of height h has at least Fib(h+2) - 1 nodes |
| AvlTree.HeightLogarithmic | src/dataStructures/orderedSet.c:15-28 | its height is at most about twice the binary logarithm of its size |
| AvlTree.HeightFits | src/dataStructures/orderedSet.c:15-28 | with fewer than 2^64 nodes the height is at most 129, far inside `int32_t` |
| OrderedSet.RotateRight | src/dataStructures/orderedSet.c:30-42 | the pointer and height writes turn nodes that form a tree into nodes that form its rotation |
| OrderedSet.RotateLeft | src/dataStructures/orderedSet.c:44-56 | the mirror image |
| OrderedSet.MinValueNode | src/dataStructures/orderedSet.c:154-159 | the loop ends at a node of the tree that holds its least value |
| OrderedSet.OrderedSet.InsertRecursive | src/dataStructures/orderedSet.c:94-152 | the recursion on the heap yields the specified tree, with one fresh node exactly if the key was absent; without a node it rebuilds the old tree and still reports an insertion |
| OrderedSet.OrderedSet.Insert | src/dataStructures/orderedSet.c:269-278 | the elements become old ∪ {v}, `size` follows, and the result says whether v was absent; the invariant is kept if and only if the node was allocated or not needed |
| OrderedSet.OrderedSet.RemoveRecursive | src/dataStructures/orderedSet.c:161-239 | the recursion yields the specified tree and frees the node given up, even when the key pointer is a node of the tree that is overwritten or freed on the way |
| OrderedSet.OrderedSet.AbsorbChild | src/dataStructures/orderedSet.c:196-203 | a node with one child takes over the child's value and subtrees, and the child is freed |
| OrderedSet.OrderedSet.ReplaceBySuccessor | src/dataStructures/orderedSet.c:205-210 | the successor's value is copied up and its node removed, with the key of the inner call pointing into that node |
| OrderedSet.OrderedSet.Remove | src/dataStructures/orderedSet.c:280-290 | the elements become old minus those equal to the key's old value, `size` and the result agree, every node given up is dead, and the invariant is kept |
| OrderedSet.OrderedSet.Find | src/dataStructures/orderedSet.c:292-307 | succeeds exactly on members, with a live node that compares equal, in at most `height` steps |
| OrderedSet.OrderedSet.TraverseInorder | src/dataStructures/orderedSet.c:309-324 | visits exactly the elements, in strictly increasing order |
| OrderedSet.OrderedSet.Clear | src/dataStructures/orderedSet.c:326-332 | frees every node and leaves the empty set |
| OrderedSet.InsertResult | src/dataStructures/orderedSet.c:269-278 | insertion keeps the whole invariant and extends elements, nodes and size by one, or changes nothing |
| OrderedSet.RemoveResult | src/dataStructures/orderedSet.c:280-290 | removal keeps the whole invariant and shrinks elements, nodes and size accordingly |
| OrderedSet.Replay | src/dataStructures/orderedSet.c:269-332 | over every run of insert, remove, find and clear, while allocation succeeds, the tree answers as a set |
| ThreadPool.StartInv | src/system/threadPool.c:76-130 | the invariant holds when the workers have been started, all of them about to look at the queue, before any task or call |
| ThreadPool.EnterDecides | src/system/threadPool.c:18-34 | with an empty queue a worker sleeps before shutdown and leaves after it, and in no other case; otherwise it holds the oldest task, which has left the queue, and counts as active; nobody else is affected |
| ThreadPool.FinishRecords | src/system/threadPool.c:36-50 | the task that was run is recorded as completed, the worker goes round its loop and no longer counts, and all blocked callers of Wait are woken exactly when nothing is queued or running |
| ThreadPool.AddTaskAccepts | src/system/threadPool.c:133-163 | a task is accepted exactly before shutdown and with a free slot; it is then last in the queue, and a sleeping worker, if there is one, is woken; a refusal changes nothing |
| ThreadPool.WaitCheckDecides | src/system/threadPool.c:165-175 | a caller of Wait is outside afterwards exactly if nothing is queued or running, and blocked otherwise; nothing else changes |
| ThreadPool.DestroyRequests | src/system/threadPool.c:177-184 | shutdown is requested and nobody is left asleep; queue, running tasks, histories and callers of Wait are as before |
| ThreadPool.OnlyDestroyShutsDown | src/system/threadPool.c:12-215 | shutdown is requested by Destroy and by no other step, and never taken back |
| ThreadPool.StepKeepsInv | src/system/threadPool.c:12-215 | every step of workers, AddTask, Wait, Destroy and every spurious wakeup keeps the invariant: exact active count, no lost wakeup, each started task held or completed exactly once, no client blocked without work, workers leave only with the queue drained |
| ThreadPoolRuns.RunInv | src/system/threadPool.c:12-215 | it holds at every moment of every run |
| ThreadPool.StartedInOrder | src/system/threadPool.c:31-33 | tasks start in the order in which they were accepted |
| ThreadPool.PendingExact | src/system/threadPool.c:206-215 | PendingTasks is accepted minus completed; when it is zero every accepted task has completed exactly once |
| ThreadPool.WaitReturnsDone | src/system/threadPool.c:165-175 | Wait returns only in a state where every task accepted so far has completed exactly once |
| ThreadPool.AllExitedDone | src/system/threadPool.c:186-189 | once all workers have exited, shutdown was requested and every accepted task has completed |
| ThreadPool.NoDeadlock | src/system/threadPool.c:16-51 | while work is pending some worker can take a step that lowers the measure |
| ThreadPool.StepMeasure | src/system/threadPool.c:30-48 | without new tasks nothing adds to queue or pending work, and every dequeue and every finish lowers 2·queued + running |
| ThreadPoolRuns.Drains | src/system/threadPool.c:16-51 | if every awake worker is eventually scheduled and no tasks come in any more, every accepted task completes |
| ThreadPoolRuns.TaskStarts | src/system/threadPool.c:16-34 | if every awake worker is eventually scheduled, every accepted task is started, even if tasks never stop coming in |
| ThreadPoolRuns.TaskCompletes | src/system/threadPool.c:16-51 | and completed exactly once |
| ThreadPoolRuns.SubmittedCompletes | src/system/threadPool.c:133-163 | in particular a task submitted before shutdown, with a free slot, gets the next ticket, and that ticket is later completed exactly once |
| ThreadPoolRuns.WaitReturns | src/system/threadPool.c:165-175 | a caller inside Wait is then outside after some check of its own, with all accepted tasks completed |
| ThreadPoolRuns.ShutdownCompletes | src/system/threadPool.c:16-51 | once shutdown is requested every worker exits, and by then every accepted task has completed |
| ThreadPoolRuns.DestroyCompletes | src/system/threadPool.c:177-189 | after a call of Destroy every worker exits, so that the joins return; no task is accepted after the call, and all that were accepted before it have completed by then |
| FairSchedules.FairContinuation | src/system/threadPool.c:12-215 | every finite beginning of a run goes on as a run that is fair to workers and callers and accepts no further task, so that the fairness assumed above never contradicts what has happened |
| ObjectPool.FreeListUnique | src/memory/objectPool.c:188-213 | the memory determines the free list: two lists from one head are equal |
| ObjectPool.WireFreeList | src/memory/objectPool.c:70-82 | the wiring loop chains all slots in address order, with the end mark in the last |
| ObjectPool.StrideIsLeast | src/memory/objectPool.c:32-41 | the stride is the least multiple of the requested alignment, or of 16, that holds an object and a link of 8 bytes |
| ObjectPool.Create | src/memory/objectPool.c:16-85 | a valid pool with every slot free and none marked, at the least stride that holds an object and a link and keeps the requested alignment, or that of 16 bytes |
| ObjectPool.SlotsApart | src/memory/objectPool.c:44-46 | objects in different slots do not overlap and lie inside the block; they are aligned if and only if the block is |
| ObjectPool.PushFree | src/memory/objectPool.c:164-167 | a slot that is not free, linked in front, gives an acyclic list of one more slot |
| ObjectPool.WriteOutside | src/memory/objectPool.c:70-82 | writing to a slot that is not free leaves the list as it is |
| ObjectPool.ObjectPool.TakeObject | src/memory/objectPool.c:109-137 | hands out the first free slot, or nothing when none is free; its debug assertion never fires, and list, count and bitset stay exact complements |
| ObjectPool.ObjectPool.ReturnObject | src/memory/objectPool.c:139-168 | with the debug assertions, accepts exactly the addresses of objects in use and rejects every other address before anything changes; an accepted one is the next to be handed out |
| ObjectPool.ObjectPool.UserWrite | src/memory/objectPool.c:70-82 | a user may write any word to a slot it holds without harm to the pool |
| ObjectPool.ObjectPool.DebugWalk | src/memory/objectPool.c:188-213 | the walk never takes its corruption or cycle branch, visits `freeCount` slots and marks exactly the free ones, which are those the bitset does not have |
| ObjectPool.FreeAndTaken | src/memory/objectPool.c:109-168 | free and taken slots add up to the capacity |
| ObjectPool.ObjectPool.IsEmpty | include/justUtils/memory/objectPool.h:100-104 | true exactly if no object is in use |
| ObjectPool.ObjectPool.IsFull | include/justUtils/memory/objectPool.h:111-115 | true exactly if every object is in use |
| ObjectPool.Replay | src/memory/objectPool.c:109-168 | over every run of takes, returns and user writes the pool answers as a stack of free slots that knows nothing of memory |
| PathModel.NormalizedCanonical | src/system/filesystem.c:97-180 | the normalised path is canonical: no empty or `.` segment unless it is `.`, and `..` only as a prefix of a relative path |
| PathModel.FixedIffCanonical | src/system/filesystem.c:97-180 | a path is its own normal form if and only if it is canonical |
| PathModel.Idempotent | src/system/filesystem.c:97-180 | normalising twice is normalising once |
| PathModel.NeverLonger | src/system/filesystem.c:97-180 | a path that is not empty does not become longer, and the empty path becomes `.` |
| PathModel.SegmentsAtSlash | src/system/filesystem.c:115-128 | a path is cut at every slash, wherever it stands; a stretch without slashes is one segment, or none if it is empty |
| PathModel.StaysAbsolute | src/system/filesystem.c:110-160 | the normal form starts with a slash exactly if the path does |
| PathModel.LimitHarmlessIff | src/system/filesystem.c:141-146 | the stack of 64 segments equals an unbounded one on every prefix of the path if and only if no prefix is deeper than 64 |
| PathModel.MeaningKeptIff | src/system/filesystem.c:115-148 | from every directory every prefix of the path leads to the same place before and after the fold, if and only if no prefix is deeper than the limit |
| PathModel.TargetKeptIff | src/system/filesystem.c:97-180 | a path and its normal form lead to the same place from every directory if and only if the final stack is that of a fold without a limit |
| PathModel.MeaningPreserved | src/system/filesystem.c:97-180 | in particular they do, from any directory, for every path that never nests deeper than 64 |
| PathModel.TooDeepLosesMeaning | src/system/filesystem.c:146 | a path of 65 segments whose normal form leads elsewhere |
| PathNormalize.CutSegment | src/system/filesystem.c:121-127 | cuts the next segment off in place and moves behind it |
| PathNormalize.PushSegment | src/system/filesystem.c:129-147 | `.`, `..` and other segments act on the segment array as on the specified stack, the limit included |
| PathNormalize.Scan | src/system/filesystem.c:115-148 | the in-place scanner leaves the array pointing at the segments of the fold over the path |
| PathNormalize.Print | src/system/filesystem.c:150-177 | prints the rendered stack with its terminator, and succeeds exactly if it fits |
| PathNormalize.Normalize | src/system/filesystem.c:97-180 | succeeds exactly if the path is shorter than 1024 and the normal form shorter than the buffer, and then the buffer holds the normal form |
| Tracker.IndexInLonger | src/memory/tracker.c:67-83 | a new entry does not change where existing names lead |
| Tracker.RouteDecides | src/memory/tracker.c:59-96 | a missing or empty tag and UNKNOWN lead to entry 0; another tag to the first entry of its name; failing that, to a new entry with a limit of 1024 bytes and at most 31 characters of the name, while there is room, and otherwise to entry 0 |
| Tracker.ChargeBalanced | src/memory/tracker.c:123-125 | adding an allocation keeps every entry's bytes and count equal to those of the allocations charged to it |
| Tracker.DischargeBalanced | src/memory/tracker.c:135-137 | so does taking one away, which never makes a count negative |
| Tracker.DischargeUndoesCharge | src/memory/tracker.c:113-138 | releasing the allocation just made restores the table |
| Tracker.SumIsTotal | src/memory/tracker.c:353-358 | the counters of all entries add up to the sizes of all allocations |
| Tracker.CountersExact | src/memory/tracker.c:123-138 | while all live sizes add up to less than 2^64 the counters are the true sums |
| Tracker.ChargedIsChecked | src/memory/tracker.c:59-96 | the entry whose limit is checked is the one that is charged, if and only if the tag is short, or the table is full, or no stored name is its cut-off form |
| Tracker.MallocLimitIff | src/memory/tracker.c:187-192 | an admitted allocation leaves the bytes really charged within the limits if and only if they do not wrap and the charged entry is the checked one or has room of its own |
| Tracker.ReallocLimitIff | src/memory/tracker.c:250-258 | a reallocation that passes its check does so if and only if it does not wrap the bytes of the entry, or does not grow |
| Tracker.MallocAnswers | src/memory/tracker.c:185-204 | an allocation is refused exactly if the system has no memory or the bytes really charged to the checked entry and the new ones together, as a word, exceed its limit; while they do not wrap, exactly if their sum does |
| Tracker.ReallocAnswers | src/memory/tracker.c:248-258 | the limit refuses a resize exactly if the bytes really charged, less the old size and with the new one, as a word, exceed it |
| Tracker.SetLimitStores | src/memory/tracker.c:339-343 | the given limit, or 2^64 - 1 for zero, is stored in the entry the tag leads to, and nothing else changes |
| Tracker.LimitsUntouched | src/memory/tracker.c:113-138 | no call but SetLimit changes the name or the limit of an entry |
| Tracker.LimitKeptIff | src/memory/tracker.c:185-192 | every admitted allocation with a tag that does not wrap keeps the limits, if and only if checked and charged entry are the same, or the charged one has room for whatever a new entry may be given, or cannot pass its limit without wrapping |
| Tracker.AnySizeKeptIff | src/memory/tracker.c:185-192 | every admitted allocation with a tag keeps the limits, wrapping ones included, if and only if nothing is charged to its entry yet, or, where another entry is checked, the charged one has room for whatever a new entry may be given |
| Tracker.LimitsHold | src/memory/tracker.c:175-343 | over every run of guarded calls no entry is ever above its limit |
| Tracker.WrappedSizeOvershoots | src/memory/tracker.c:187-196 | with 1000 bytes live under any short tag, a request for 2^64 - 1 bytes is admitted and charged against a limit of 1024, and the counter falls to 999 |
| Tracker.LongTagOvershoots | src/memory/tracker.c:67-83 | with any tag of 32 characters or more, two allocations of 1000 bytes exceed a limit of 1024 |
| Tracker.MemoryTracker.GetOrCreateTag | src/memory/tracker.c:59-96 | leads to entry 0 for missing, empty and unknown tags, to the first entry of that name, to a new one, or to entry 0 when the table is full |
| Tracker.MemoryTracker.LinkAllocation | src/memory/tracker.c:113-126 | the header becomes the first of a well-formed doubly linked list and is charged to its tag |
| Tracker.MemoryTracker.UnlinkAllocation | src/memory/tracker.c:128-138 | the header leaves the list, which stays well formed, and its charge is taken back |
| Tracker.MemoryTracker.Malloc | src/memory/tracker.c:175-216 | refuses exactly if the system has no memory or the bytes charged to the checked entry and the new ones, as a word, exceed its limit, and then changes neither list nor counters; otherwise links a new header; keeps the limits if and only if it refuses or was guarded |
| Tracker.MemoryTracker.Realloc | src/memory/tracker.c:235-284 | aborts exactly on a damaged block; refuses exactly if the bytes charged, less the old size and with the new one, as a word, exceed the limit, and then changes nothing; a failure of the system relinks the old header in front and leaves every counter as it was; success recharges the new size, and keeps the limits if and only if it was guarded |
| Tracker.MemoryTracker.Free | src/memory/tracker.c:286-300 | ignores NULL, aborts exactly on a damaged or freed block, and otherwise takes exactly that allocation off list and counters and marks it, so that freeing it again aborts |
| Tracker.MemoryTracker.CheckBounds | src/memory/tracker.c:327-337 | aborts exactly if some live block is damaged, and reports a clean state otherwise |
| Tracker.MemoryTracker.SetLimit | src/memory/tracker.c:339-343 | stores the limit, or 2^64 - 1 for zero, in the entry the tag leads to, and changes nothing else |
| Tracker.MemoryTracker.GetActiveBytes | src/memory/tracker.c:351-361 | the sum over the allocations charged to the tag, or over all of them |
| Tracker.MemoryTracker.ReportLeaks | src/memory/tracker.c:302-325 | the walk counts every live allocation once and adds up to the grand total; there is nothing to walk exactly if nothing is live |
| Tracker.CallKeepsRight | src/memory/tracker.c:175-343 | on the table and the books alone, every call keeps counters and sums equal, names stored and limits positive |
| Tracker.MemoryTracker.Replay | src/memory/tracker.c:175-343 | over every run of malloc, realloc, free and limits, up to an abort on a damaged block, list and table are those of the books |
| Queue.ReserveSound | src/dataStructures/queue.c:91-157 | Reserve never loses elements and keeps `tail` congruent to head + size |
| Queue.ReserveLeast | src/dataStructures/queue.c:91-113 | the capacity becomes the least power of two, from 8 on, that holds the target and the elements, and 0 if there is nothing to hold; a target beyond 2^63 counts for nothing |
| Queue.ReserveInStep | src/dataStructures/queue.c:91-157 | afterwards `tail` is inside the buffer if and only if it was and the buffer stayed, or the new capacity is zero or exceeds the size |
| Queue.UsableIffInStep | include/justUtils/dataStructures/queue.h:93-107 | every run of enqueue, dequeue and clear writes inside the buffer if and only if `tail` is inside it at the start |
| Queue.ShrinkToFitBreaks | include/justUtils/dataStructures/queue.h:218-223 | a queue that ShrinkToFit leaves such that a dequeue and an enqueue write past the buffer |
| Queue.UnrolledLinear | src/dataStructures/queue.c:128-142 | a buffer filled in two parts from a wrapped one holds the same sequence |
| Queue.Queue.constructor | src/dataStructures/queue.c:27-70 | the empty queue at the rounded capacity, which is 0 beyond 2^63, or at capacity 0 when the allocation fails |
| Queue.Queue.Linearize | src/dataStructures/queue.c:128-142 | the two-part copy leaves the abstract sequence in the new buffer |
| Queue.Queue.Reserve | src/dataStructures/queue.c:91-157 | growing, shrinking or failing leaves the abstract sequence unchanged; fails exactly if an allocation was needed and failed; after a success there are as many slots as were asked for, up to 2^63 |
| Queue.Queue.ShrinkToFit | include/justUtils/dataStructures/queue.h:218-223 | keeps the sequence, fails exactly if an allocation was needed and failed, and says exactly when the queue stays usable |
| Queue.Queue.Enqueue | include/justUtils/dataStructures/queue.h:93-125 | appends to the sequence, doubling the capacity from 8 on when full and only then, and writes inside the buffer |
| Queue.Queue.Dequeue | include/justUtils/dataStructures/queue.h:133-149 | returns and removes the oldest element, or nothing when empty |
| Queue.Queue.Peek | include/justUtils/dataStructures/queue.h:156-162 | the oldest element, or nothing |
| Queue.Queue.Clear | include/justUtils/dataStructures/queue.h:204-211 | the empty sequence, with the indices in step again |
| Queue.Queue.Replay | include/justUtils/dataStructures/queue.h:93-211 | over every run of enqueue, dequeue, clear and requests for more than the size, while allocation succeeds, the buffer answers as a sequence |
| RingBuffer.NothingLostOrReordered | include/justUtils/dataStructures/ringBuffer.h:86-149 | over any run and in both modes, what has left followed by what is held is what was held followed by the accepted pushes, and never more is held than fits |
| RingBuffer.HoldsTheNewest | include/justUtils/dataStructures/ringBuffer.h:90-100 | in overwrite mode the buffer holds the newest of all pushes, as many as the calls leave |
| RingBuffer.PushesFillUp | include/justUtils/dataStructures/ringBuffer.h:90-100 | after pushes alone that is the smaller of the capacity and the number available |
| RingBuffer.RejectModeIsFifo | include/justUtils/dataStructures/ringBuffer.h:92-95 | in reject mode what was popped followed by what is held is what was held followed by the accepted pushes |
| RingBuffer.RingBuffer.constructor | src/dataStructures/ringBuffer.c:25-67 | the empty buffer at the least power of two that is large enough; unusable exactly if the allocation fails or the capacity wraps |
| RingBuffer.RingBuffer.Emplace | include/justUtils/dataStructures/ringBuffer.h:86-107 | rejects exactly when full without overwriting; otherwise the slot returned is that of the newest element, the oldest having been dropped if there was no room |
| RingBuffer.RingBuffer.Push | include/justUtils/dataStructures/ringBuffer.h:115-125 | acts as the bounded sequence, and a failed push changes nothing |
| RingBuffer.RingBuffer.Pop | include/justUtils/dataStructures/ringBuffer.h:133-149 | returns and removes the oldest element, or nothing when empty |
| RingBuffer.RingBuffer.Replay | include/justUtils/dataStructures/ringBuffer.h:86-172 | over every run the buffer holds and pops what the bounded sequence does |
| Alignment.AlignUpLeast | src/memory/objectPool.c:46 | the masked sum is the least multiple of the alignment that is not below the size |
| Alignment.MaskedSum | src/memory/linearAlloc.c:82 | on words the masked sum is the first multiple of the alignment from the address on, wrapped to zero if that is 2^64 |
| Alignment.PowerOfTwoTest | src/memory/linearAlloc.c:9-12 | the test recognises exactly the powers of two |
| LinearAlloc.StartIsLeast | src/memory/linearAlloc.c:74-83 | the block starts at the least multiple of the requested alignment, or of 16, that is not below the first free address |
| LinearAlloc.LaidOutPairwise | src/memory/linearAlloc.c:85-94 | live blocks are in bounds and pairwise disjoint |
| LinearAlloc.BelowOwnEnd | include/justUtils/memory/linearAlloc.h:116-127 | rolling back to where a layout ended keeps that layout and drops everything later |
| LinearAlloc.LinearAllocator.Allocate | src/memory/linearAlloc.c:66-95 | an address handed out is the least multiple of the requested alignment, or of 16, that is not below the first free one; nothing for size 0, or if the sum, in words, exceeds the memory; the layout is kept if and only if the request is refused or the sum does not wrap |
| LinearAlloc.LinearAllocator.Bump | src/memory/linearAlloc.c:83-94 | adds the block to the live ones, and the layout is kept if and only if the sum did not wrap |
| LinearAlloc.WrappedRequestSucceeds | src/memory/linearAlloc.c:85-94 | as soon as anything is allocated some size wraps past the check: the request succeeds, its block reaches past the memory and nothing counts as allocated any more |
| LinearAlloc.LinearAllocator.Rewind | include/justUtils/memory/linearAlloc.h:116-127 | keeps exactly the live blocks below the marker; a marker beyond the allocated part changes nothing |
| LinearAlloc.LinearAllocator.Reset | include/justUtils/memory/linearAlloc.h:94-98 | nothing is allocated and no block is live |
| LinearAlloc.LinearAllocator.AllocateAndRollBack | include/justUtils/memory/linearAlloc.h:105-127 | rolling back to a marker undoes everything allocated since, for every run of requests |
| LinearAlloc.LinearAllocator.ReplayFromMarker | include/justUtils/memory/linearAlloc.h:105-127 | replaying the same requests from the marker returns the same addresses |
| Bitset.TailMaskBit | include/justUtils/dataStructures/bitset.h:54-58 | in the last word the tail mask has exactly the bits of indices below the capacity |
| Bitset.LastWordDecides | src/dataStructures/bitset.c:66-74 | with equal full words, the masked last words are equal exactly if the index sets are |
| Bitset.Bitset.Set | include/justUtils/dataStructures/bitset.h:86-92 | adds that index and touches no other |
| Bitset.Bitset.Clear | include/justUtils/dataStructures/bitset.h:99-105 | removes that index and touches no other |
| Bitset.Bitset.Toggle | include/justUtils/dataStructures/bitset.h:112-118 | flips that index and touches no other |
| Bitset.Bitset.Get | include/justUtils/dataStructures/bitset.h:126-132 | true exactly on members |
| Bitset.Bitset.SetAll | include/justUtils/dataStructures/bitset.h:149-158 | every index below the capacity, and no bit past it |
| Bitset.Bitset.ClearAll | include/justUtils/dataStructures/bitset.h:138-143 | no index, and no bit anywhere |
| Bitset.Bitset.Union | src/dataStructures/bitset.c:77-89 | adds the source's bits within the words that both have; the union of the member sets results if and only if the source's stray bits below this capacity are members already; no stray bit is left if and only if there was none and the source has none for this last word |
| Bitset.Bitset.Intersection | src/dataStructures/bitset.c:91-103 | keeps the bits the source has as well, and everything in words that the source does not have; exact conditions for the intersection of the member sets, and for no stray bit being left |
| Bitset.Bitset.Difference | src/dataStructures/bitset.c:105-117 | removes the source's bits; exact conditions for the difference of the member sets, and for no stray bit being left |
| Bitset.Bitset.Equals | src/dataStructures/bitset.c:59-75 | true exactly if capacities and index sets agree, whatever bits lie past the capacity |
| Bitset.Replay | include/justUtils/dataStructures/bitset.h:86-158 | over every run of all operations among sets of one capacity no stray bit appears, and the sets are, and answer as, sets of indices |
| Bitset.StrayBitLeaks | src/dataStructures/bitset.c:77-89 | two unions through a smaller set bring an index into a set although the source does not contain it |

## Left out

- HashMap.HashMap.Set: of what follows a failed allocation it promises only that nothing is found any more; a further Set would probe the old slots with the new mask. Doubling beyond 2^63 slots is not modelled.
- Queue.Queue.Enqueue: requires that a full queue has fewer than 2^63 slots, where doubling would wrap to zero, and a `tail` inside the buffer, which is what the results on Reserve are about.
- Tracker.MemoryTracker.Free: an intact header has to be a live one; a block that realloc has moved, or whose memory is in use again, cannot be told apart.
- ObjectPool.Create: requires that capacity times stride fits a word; the code does not check it, and would link slots outside the block.
- An object pool that owns its memory and wants more than the alignment of malloc: its objects are aligned only if the block happens to be.
- ThreadPool steps are functions on states rather than methods of a class, because steps of different threads interleave; the queue of tasks is a sequence there, and `Queue.Queue` is what implements it.
- Thread creation failure, tasks that call Wait on their own pool, clients that use a pool while it is destroyed, and the mutex itself: each locked region is one step.
- Byte layout, element sizes and the multiplications of capacity by element size; buffers are arrays of values.
- Writing through the pointers that Get, Find and Peek return.
- The bytes of a rolled-back or freed block, and the leak of an old buffer in `justQueueReserve` when it holds no element.
- The FNV-1a hash and `memcmp`: arbitrary functions take their place.
- The truncation of tag strings other than the tracker's own.
- Destroy functions other than the thread pool's: they reset fields.
- Functions that only read one field, such as `justMemoryGetLimit`, `justQueueSize` and `justLinearAllocGetUsed`.
- File, function and line of allocations, and calloc, which is malloc and a fill. A canary is a field; that a stray write changes it, and that freed memory keeps it, is up to the caller.
- The other path helpers, file and directory operations, logging, assertions, printing, the dynamic array, the stack, and the single-header copy of the library.
