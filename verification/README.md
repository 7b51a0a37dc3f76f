# Verified models of the lab programs

Dafny models of six programs of the repository, with proofs about every input, every run and
every interleaving. `dafny verify dfyconfig.toml` checks the whole project.

**The allocator** (`malloclab/mm.c` over `malloclab/memlib.c`, judged by `malloclab/mdriver.c`).
`ChunkModel` is the allocator on values: an address-ordered, coalesced list of free chunks and a
LIFO list of live ones. `HeapInvariant`, `HeapLaws` and `Trace` prove its invariant, its algebra
and what holds after any trace. `Memlib` is the byte heap, in which each of a header's four words
is eight real bytes; `HeaderLists` is the pointer surgery on linked headers; `Allocator` is
`mm.c` in place, each routine proved to do to the bytes what the model does to the lists. `Driver`
is the trace evaluator, proved to accept the allocator.

`Layout` holds what both sides of the allocator share, `CArith` and `CText` C's remainder,
congruences and signed chars.

**The reader-writer lock** (`threadlab/rwlock.c`). `RwLock` holds the mutex-protected sections
as methods on the four counters; `RwProtocol` runs any number of threads through them, one
section at a time, with timeouts, spurious wakeups, and a signal that POSIX allows an expiring
waiter to consume.

**The hash table** (`threadlab/htable.c`). `Primes` is the table size search, `TableModel` the
chains on values, `HTable` the array of linked lists in place, and `TableProtocol` concurrent
inserts and lookups, one node a step, with their exclusion assumed; `StripedTable` puts the
reader-writer locks of the stripes under them, wakeups included, drops the assumption and proves
that no call is forgotten.

**Rabin-Karp and the Bloom filter** (`rklab/rkgrep.c`, `rklab/bloom.c`): `RabinKarp`, `Bloom`.

**The search tree** (`clab/mini/part7.c`): `TreeModel` on values, `SearchTree` in place.

**Two loops** (`clab/mini/part2.c`, `malloclab/fcyc.c`): `BubbleSort`, `Sampler`.

Where the code and its promise part, the model follows the code and the exact condition is proved:

- The trace evaluator fills a block with the low byte of its id and compares after a resize through
  `char`. Where `char` is signed an id whose low byte is 128 or more is reported as lost data;
  `Driver.Driver.Eval` accepts a well-formed trace if and only if no such id is resized, and
  `Driver.CorrectHeapRejected` is one it rejects.
- An allocation for an id that has a block loses the old block, which stays live and recorded
  (`Trace.AllocatedTwice`). `Trace.NoLeaks` counts these: but for them live chunks, recorded ranges
  and ids with a block are equally many.
- The range test of the evaluator misses a range that strictly contains an old one
  (`Driver.EndsIn`), so that live blocks are disjoint is proved from the allocator.
- A writer that times out may leave a reader asleep beside a free lock with nobody to wake it
  (`RwProtocol.StrandedReader`), and may consume the signal meant for another writer
  (`RwProtocol.StrandedWriter`). Which steps and which runs do so is exact:
  `RwProtocol.ReaderHeardStep`, `RwProtocol.WriterHeardExactly`, `RwProtocol.NoLostReader`,
  `RwProtocol.NoLostWriter`.
- `msub(a, a)` is PRIME and not 0; the outer `madd` of `rkhash_next` repairs it
  (`RabinKarp.NextIsValue`). Where `char` is signed, an occurrence is missed exactly when the
  rolled hash and the pattern's hash differ in sign (`RabinKarp.HitExactly`), which never happens
  on ASCII; `RabinKarp.NegativeCharMissed` is a case of it.
- A negative hash can index before the table or the bitmap (`TableModel.NegativeHash`,
  `Bloom.NegativePosition`). A slot lies in the table if and only if the hash is not negative or is
  a multiple of the size (`TableModel.SlotInBounds`); the ten positions of an element lie in the
  bitmap if and only if each of its ten hashes is not negative or a multiple of the bitmap's size
  (`Bloom.PositionsInBounds`), which a negative element can meet (`Bloom.NegativePlaceable`). These
  conditions are the domain: keys fit the table they are used on, also after it has grown; the
  windows of an indexed text are placeable; a query stays in the bitmap up to the first bit that is
  not set. ASCII always qualifies (`TableModel.AsciiHash`, `Bloom.AsciiIndexable`,
  `Bloom.AsciiScannable`).
- `madd` of the hash table compares with `>`, so the hash of a nonempty ASCII key is BIG_PRIME, and
  not 0, exactly where BIG_PRIME divides its numeral (`TableModel.AsciiHashExactly`);
  `TableModel.FullHash` is such a key.
- `get_prime` accepts every number up to 3, so a table made for size 0 has one slot; the first size
  is a prime if and only if the size asked for is above 0 (`HTable.HTable.constructor`).
- The search for a chunk can take a close fit at a higher address before a split at a lower
  one; `HeapInvariant.FindChoice` says which.
- The inorder traversal looks at its limit only on entering a node and can write past it;
  `TreeModel.OverrunExactly` says exactly when.

Assumptions: the heap base is positive and 16-byte aligned, `mem_sbrk` does not run out, sizes
fit an `int`, pointers given to free and realloc are live; clients of the lock unlock what they
hold; the array an inorder traversal writes to holds what it writes.

## Model

| member | source | states |
|---|---|---|
| ChunkModel.Align | malloclab/memlib.c:19-21 | rounding up yields the least multiple of 16 at or above the size |
| ChunkModel.FirstFit | malloclab/mm.c:204-246 | a pass stops at the first, hence lowest, chunk it accepts |
| ChunkModel.GappedOrder | malloclab/mm.c:145-187 | a coalesced list is strictly ascending, with a gap between any two chunks |
| ChunkModel.InsertFreeGapped | malloclab/mm.c:145-187 | inserting a chunk apart from a coalesced list leaves it coalesced and ascending |
| ChunkModel.InsertFreeTotal | malloclab/mm.c:122-187 | insertion and coalescing conserve bytes |
| ChunkModel.InsertFreeCovers | malloclab/mm.c:122-187 | after insertion the list covers exactly the old bytes and the chunk's |
| ChunkModel.RemainderInPlace | malloclab/mm.c:222-240 | the remainder of a split replaces the chunk that was split and merges with nothing |
| HeapInvariant.OneList | malloclab/mm.c:97-187 | every heap byte lies in exactly one chunk, free or live |
| HeapInvariant.TakeWholeInv | malloclab/mm.c:214-221 | handing out a whole chunk keeps the heap invariant |
| HeapInvariant.TakePartInv | malloclab/mm.c:222-241 | splitting a chunk keeps the heap invariant |
| HeapInvariant.GrowInv | malloclab/mm.c:266-279 | growing the heap keeps the heap invariant |
| HeapInvariant.MallocInv | malloclab/mm.c:256-282 | a request keeps the invariant and every live chunk, and yields an aligned block inside the heap, apart from all live ones, in a chunk that holds header and request with less than 16 + 1024 bytes to spare |
| HeapInvariant.FreeInv | malloclab/mm.c:291-299 | freeing a live pointer keeps the invariant and frees exactly its chunk's bytes |
| HeapInvariant.StillLive | malloclab/mm.c:256-282 | a block live before a request is the same block after it |
| HeapInvariant.PayloadClear | malloclab/mm.c:20-25 | no chunk's header lies in a live payload |
| HeapInvariant.PassesTogether | malloclab/mm.c:214-223 | the two passes together take exactly the chunks that are large enough, and what only the second takes can spare 1024 bytes |
| HeapInvariant.FindFails | malloclab/mm.c:200-248 | the two-pass search fails if and only if every free chunk is smaller than header and request rounded up to 16 |
| HeapInvariant.FindChoice | malloclab/mm.c:200-248 | either pass takes its lowest-address chunk; a split happens only without a close fit and leaves at least 1024 bytes |
| HeapInvariant.NeedExactly | malloclab/mm.c:266 | the size of a chunk for n bytes is the one multiple of 16 from n + 32 to n + 47 |
| HeapInvariant.MallocExactly | malloclab/mm.c:200-282 | with m that size, a request takes the first free chunk of at least m and less than m + 1024 bytes whole; else the front m bytes of the first of at least m, the rest staying free in place; else m fresh bytes at the end of the heap |
| HeapLaws.UniqueList | malloclab/mm.c:145-187 | a coalesced list is determined by the bytes it covers |
| HeapLaws.FreeListDetermined | malloclab/mm.c:97-187 | the free list is a function of the heap's extent and its live bytes |
| HeapLaws.FreeUndoesMalloc | malloclab/mm.c:256-299 | freeing what a request took from the free list restores the heap exactly; after growth the new chunk stays, free and coalesced |
| HeapLaws.FreesCommute | malloclab/mm.c:291-299 | two blocks may be freed in either order, with the same heap |
| HeapLaws.FreedDead | malloclab/mm.c:291-299 | a freed pointer is no longer live |
| HeapLaws.ReallocFrees | malloclab/mm.c:307-331 | a resize, also one to 0, ends the old pointer and frees all its bytes; one to 0 does nothing else |
| Trace.OldBlock | malloclab/mdriver.c:597-632 | an id's old block is live, and differs from every other, until its replacement is there |
| Trace.ExtendedInv | malloclab/mdriver.c:569-595 | an allocation keeps every id owning a live block of its own, apart from the others |
| Trace.ResizedInv | malloclab/mdriver.c:597-632 | so does a resize, whose old block stays live until the data is copied |
| Trace.ReleasedInv | malloclab/mdriver.c:634-640 | so does a free |
| Trace.StepBlocks | malloclab/mdriver.c:569-640 | an operation gives its id a block of the size asked for or takes it out, and leaves the blocks of all other ids |
| Trace.NoLeaks | malloclab/mdriver.c:569-640 | after any well-formed trace the live chunks are as many as the ids with a block, and one more for each allocation made for an id that had one |
| Trace.AllocatedTwice | malloclab/mdriver.c:569-595 | a trace that so loses a block |
| Trace.ReachableHeaps | malloclab/mm.c:97-331 | after any well-formed trace the chunks tile the heap, sizes add up to the heap size and are multiples of 16 of at least 48, the free list is coalesced and each id owns a block with little to spare |
| Memlib.DecodeEncode | malloclab/mm.c:20-25 | a word read from the bytes it was written to is that word |
| Memlib.FieldWritten | malloclab/mm.c:20-25 | writing eight bytes of a header changes that field and no other |
| Memlib.PayloadChanged | malloclab/mm.c:20-25 | bytes outside all headers may change without changing any header |
| Memlib.HeaderChanged | malloclab/mm.c:20-25 | a write inside one header is seen in that header only |
| Memlib.Heap.ResetBrk | malloclab/memlib.c:59-62 | the heap becomes empty |
| Memlib.Heap.Sbrk | malloclab/memlib.c:69-80 | extends the heap by the increment and returns its old end, or fails and changes nothing |
| Memlib.Heap.Store | malloclab/mm.c:39-51 | writes one header field in place, and no byte outside recorded headers |
| Memlib.Heap.Load | malloclab/mm.c:53-62 | reading the four words of a header yields what was last stored there |
| Memlib.Heap.Fill | malloclab/mdriver.c:590 | memset writes exactly the given payload bytes and touches no header |
| Memlib.Heap.Copy | malloclab/mm.c:307-331 | memcpy moves exactly the given bytes and touches no header |
| HeaderLists.UnlinkedChain | malloclab/mm.c:97-110 | unlinking a node leaves a doubly linked list of the others, next and prev mutually inverse |
| HeaderLists.LinkedBetweenChain | malloclab/mm.c:145-178 | linking a node between two neighbours yields the doubly linked list with it in place |
| HeaderLists.MergedChain | malloclab/mm.c:122-131 | merging two neighbours yields the doubly linked list with the joined chunk |
| HeaderLists.InsertionSteps | malloclab/mm.c:145-187 | linking in place and merging once on either side is the coalescing insertion |
| Allocator.Allocator.Init | malloclab/mm.c:191-196 | both lists start empty on an empty heap |
| Allocator.Allocator.RemoveFromList | malloclab/mm.c:97-110 | the header is unlinked from its list, wherever in it, and nothing else changes |
| Allocator.Allocator.MergeRegions | malloclab/mm.c:122-131 | merges exactly when the first chunk ends where the second begins |
| Allocator.Allocator.InsertLive | malloclab/mm.c:134-141 | the chunk becomes the head of the live list, marked live |
| Allocator.Allocator.LinkSorted | malloclab/mm.c:145-178 | the walk links the chunk where the addresses ascend |
| Allocator.Allocator.MergeForward | malloclab/mm.c:180-182 | h takes in its successor when they touch; the second attempt never merges |
| Allocator.Allocator.MergeBackward | malloclab/mm.c:183-185 | the predecessor takes in h when they touch; the second attempt, through the stale header, never merges |
| Allocator.Allocator.Coalesce | malloclab/mm.c:180-185 | each side merges at most once; the repeated merges never do |
| Allocator.Allocator.InsertFreeList | malloclab/mm.c:145-187 | the bytes then hold the coalescing insertion of the model, every other header kept |
| Allocator.Allocator.MoveToLive | malloclab/mm.c:217-218 | a chunk goes from anywhere in the free list to the head of the live list, both staying linked |
| Allocator.Allocator.SplitChunk | malloclab/mm.c:222-241 | the front becomes the live head and the remainder, under a fresh header, is inserted coalesced |
| Allocator.Allocator.FindFit | malloclab/mm.c:205-244 | the walk stops at the first chunk that the pass takes, or past the last |
| Allocator.Allocator.SearchPass | malloclab/mm.c:204-246 | one pass in place takes the chunk the model's search takes, or changes nothing |
| Allocator.Allocator.FindMemory | malloclab/mm.c:200-248 | both passes in place are the model's search, writing only headers |
| Allocator.Allocator.GrowHeap | malloclab/mm.c:266-279 | the new chunk at the old end of the heap is live |
| Allocator.Allocator.Malloc | malloclab/mm.c:256-282 | the bytes follow the model and every other live payload keeps its bytes; size 0 returns NULL |
| Allocator.Allocator.Free | malloclab/mm.c:291-299 | the bytes follow the model and every remaining live payload keeps its bytes |
| Allocator.Allocator.CopyPayload | malloclab/mm.c:315-325 | the memcpy moves the smaller of the new size and the old payload, and writes nothing else |
| Allocator.Allocator.Realloc | malloclab/mm.c:307-331 | the result begins with the old data up to the smaller of the new size and the old payload, the old block is free, other payloads keep their bytes; NULL and size 0 as in C |
| Allocator.PayloadIsolation | malloclab/mm.c:200-331 | writes confined to headers reach no payload that stays live |
| Driver.EndsIn | malloclab/mdriver.c:372-381 | the range test is overlap, less the case of a new range that strictly contains an old one |
| Driver.AddRange | malloclab/mdriver.c:346-394 | accepts exactly the aligned ranges inside the heap that pass the test against every range |
| Driver.RemoveRange | malloclab/mdriver.c:399-414 | takes out the first range that starts at the address, if there is one, and leaves all others in order |
| Driver.FreshRangePasses | malloclab/mdriver.c:372-381 | a block apart from all live ones passes every range test, and the ranges stay those of the live chunks, one for each in the same order |
| Driver.AsChar | malloclab/mdriver.c:618-626 | a byte read through char is the number of its residue modulo 256 in the range of a signed or unsigned char |
| Driver.DroppedLive | malloclab/mdriver.c:399-414 | dropping a freed block leaves exactly the ranges of the blocks that stay, in order |
| Driver.DroppedRecorded | malloclab/mdriver.c:398-413 | dropping one id's range leaves the whole range of every other id's block recorded |
| Driver.Driver.DoAlloc | malloclab/mdriver.c:569-595 | an allocation is always accepted, filled and recorded |
| Driver.Driver.Compare | malloclab/mdriver.c:618-626 | the comparison after a resize succeeds exactly when the fill byte reads back through char |
| Driver.Driver.DoRealloc | malloclab/mdriver.c:597-632 | a resize is accepted exactly when its fill byte reads back |
| Driver.Driver.DoFree | malloclab/mdriver.c:634-640 | a free drops the block and its range |
| Driver.Driver.Eval | malloclab/mdriver.c:542-650 | a well-formed trace is judged valid if and only if no resized id has a fill byte that does not read back; the bytes then represent the state the trace reaches, each header on exactly one linked list; the recorded ranges are then as many as the ids with a block and the blocks the trace lost |
| Driver.CorrectHeapRejected | malloclab/mdriver.c:620-621 | where char is signed, a well-formed trace on which the allocator is judged invalid |
| RwProtocol.WaitersCounted | threadlab/rwlock.c:50-57 | the two waiting counters add up to the number of threads that wait, holders not among them |
| RwProtocol.CountWaiters | threadlab/rwlock.c:50-57 | in every state whose counters are right, what rwl_nwaiters returns is the number of waiting threads |
| RwLock.Rwl.RLockEnter | threadlab/rwlock.c:62-87 | the section up to the wait: queues, then blocks or takes the lock |
| RwLock.Rwl.RLockResume | threadlab/rwlock.c:66-86 | the section after a wait: gives up when expired, else checks again |
| RwLock.Rwl.RUnlock | threadlab/rwlock.c:90-103 | releases and says whom to wake |
| RwLock.Rwl.WLockEnter | threadlab/rwlock.c:110-142 | the section up to the wait: queues, then blocks or takes the lock |
| RwLock.Rwl.WLockResume | threadlab/rwlock.c:116-140 | the section after a wait: gives up when expired, else checks again |
| RwLock.Rwl.WUnlock | threadlab/rwlock.c:145-165 | releases and wakes one writer, else all readers, else nobody |
| RwProtocol.SafeStep | threadlab/rwlock.c:63-165 | each step of any thread keeps every counter equal to the number of threads it counts, and the lock exclusive |
| RwProtocol.SafeRun | threadlab/rwlock.c:63-165 | so does every run |
| RwProtocol.MutualExclusion | threadlab/rwlock.c:63-165 | in every reachable state the counters are right and a writer holds alone |
| RwProtocol.WriterHeardExactly | threadlab/rwlock.c:90-165 | a step leaves a sleeping writer beside a free lock unheard exactly when its signal is consumed by an expiring writer |
| RwProtocol.ReaderHeardStep | threadlab/rwlock.c:110-165 | a step leaves a reader asleep without a writer to wait for exactly when the last waiting writer times out |
| RwProtocol.NoLostWakeup | threadlab/rwlock.c:63-165 | in runs without writer timeouts no wakeup is lost in any state, for writers or readers |
| RwProtocol.NoLostWriter | threadlab/rwlock.c:63-165 | with timeouts, every state of a run hears its writers if and only if no step of the run loses a signal |
| RwProtocol.NoLostReader | threadlab/rwlock.c:63-165 | with timeouts, every state of a run hears its readers if and only if the last waiting writer never times out over a sleeping reader |
| RwProtocol.FreeLockMoves | threadlab/rwlock.c:63-165 | when the lock is free and threads wait, in a state that hears its writers and its readers, some thread can stop waiting |
| RwProtocol.WriterPriority | threadlab/rwlock.c:63-142 | while a writer waits no thread starts reading |
| RwProtocol.StrandedReader | threadlab/rwlock.c:122-129 | a run in which a timed-out writer leaves a reader asleep beside a free lock with no thread awake |
| RwProtocol.StrandedWriter | threadlab/rwlock.c:122-129 | a run in which a timed-out writer consumes a signal and leaves another writer asleep beside a free lock with no thread awake |
| Primes.IsPrime | threadlab/htable.c:50-64 | accepts exactly the numbers up to 3 and the primes |
| Primes.PrimeAbove | threadlab/htable.c:67-76 | there is a prime above every number, so the search ends |
| Primes.GetPrime | threadlab/htable.c:67-76 | terminates with the least accepted number from min on, for min at least 2 the least prime |
| TableModel.HashIsNumeral | threadlab/htable.c:38-47 | for every string, the hash is its base-256 numeral modulo BIG_PRIME, and no product overflows an int |
| TableModel.AsciiHash | threadlab/htable.c:38-47 | the hash of an ASCII string is not negative |
| TableModel.AsciiHashExactly | threadlab/htable.c:23-47 | the hash of a nonempty ASCII string is its numeral modulo BIG_PRIME, with BIG_PRIME itself in place of 0 |
| TableModel.SlotInBounds | threadlab/htable.c:213 | the slot lies in the table if and only if the key fits it: its hash is not negative or is a multiple of the size |
| TableModel.NegativeHash | threadlab/htable.c:38-47 | a string whose slot lies before the table |
| TableModel.FullHash | threadlab/htable.c:23-26 | a key whose hash is BIG_PRIME itself |
| TableModel.SeekFinds | threadlab/htable.c:231-239 | the traversal finds a key exactly when the map has it |
| TableModel.InsertRefines | threadlab/htable.c:195-262 | insertion binds a new key that fits and answers 0, or answers 1 and changes nothing for a key already there |
| TableModel.LookupRefines | threadlab/htable.c:266-302 | lookup of a key that fits is the map's, NULL for a missing key |
| TableModel.RehashRefines | threadlab/htable.c:161-176 | rehashing to a size that all keys fit keeps every entry exactly once, in the slot of its hash, and so the map |
| TableModel.RehashReverses | threadlab/htable.c:161-176 | in every new list the entries stand in the reverse of the order in which the old lists hold them |
| TableModel.RunRefines | threadlab/htable.c:141-302 | any sequence of operations on keys that fit the table as it then is, resized at any points, answers as a finite map |
| HTable.HashCode | threadlab/htable.c:38-47 | the loop computes the hash of the model, for every string |
| HTable.Traverse | threadlab/htable.c:225-239 | stops at the first node with this hash and key, or past the last, with its predecessor and the nodes passed |
| HTable.AppendNode | threadlab/htable.c:240-253 | a fresh node ends its slot's list, every other list kept |
| HTable.HTable.constructor | threadlab/htable.c:87-109 | an empty map in the least accepted number of slots above sz, a prime if and only if sz is above 0 |
| HTable.HTable.Lookup | threadlab/htable.c:266-302 | the value bound to a key that fits, or NULL |
| HTable.HTable.Append | threadlab/htable.c:240-253 | the new node is the last of its slot's list; other lists are untouched |
| HTable.MoveFront | threadlab/htable.c:165-175 | the first node of an old list becomes the head of its new one, every other list kept |
| HTable.MoveList | threadlab/htable.c:162-176 | emptying one list, whose hashes fit the new array, moves its nodes, in order, to their new slots |
| HTable.MoveAll | threadlab/htable.c:144-176 | emptying every list leaves each node in exactly one new list, where all hashes fit the new array |
| HTable.Relink | threadlab/htable.c:165-175 | moving a node to the front of a new slot writes that node and that slot only |
| HTable.HTable.Resize | threadlab/htable.c:141-191 | relinking every node in place yields the rehashed table, at the least prime from twice the size, where all hashes fit it |
| HTable.HTable.Insert | threadlab/htable.c:195-262 | binds a new key or refuses an old one, and resizes exactly when allowed and ten or more nodes collided; the keys fit the table, and where it grows the grown one |
| TableProtocol.LockStep | threadlab/htable.c:211-216 | taking a slot lock keeps every running call on the way to its answer in lock order |
| TableProtocol.LookStep | threadlab/htable.c:231-239 | so does looking at one node |
| TableProtocol.LinkStep | threadlab/htable.c:242-253 | so does linking the new node |
| TableProtocol.UnlockStep | threadlab/htable.c:255-260 | so does unlocking and returning |
| TableProtocol.RunInv | threadlab/htable.c:195-302 | so does every run |
| TableProtocol.Linearizable | threadlab/htable.c:195-302 | every interleaving of calls on keys that fit returns what the calls return one at a time in the order of their locks, as a finite map |
| TableProtocol.AtRest | threadlab/htable.c:195-302 | when all threads are done every call has returned and the lists are those of the one-at-a-time run |
| StripedTable.StepInv | threadlab/htable.c:211-299 | with a reader-writer lock for each stripe, every step keeps the counters of each equal to its threads, each exclusive, and no call asleep that nobody will wake |
| StripedTable.LocksStep | threadlab/htable.c:211-299 | a step of the table is one step of its stripe's lock, allowed by the lock's own rules, and leaves every other lock as it was |
| StripedTable.TakenAlone | threadlab/htable.c:216 | a lock that can be taken finds no clashing call at work in its stripe |
| StripedTable.RunRefines | threadlab/htable.c:195-302 | every run under the locks is a run of the table with exclusion assumed |
| StripedTable.LockedLinearizable | threadlab/htable.c:195-302 | so every run of calls on keys that fit, under the striped locks, answers as a finite map, the calls taken in lock order |
| StripedTable.AdmittedExactly | threadlab/htable.c:216-282 | in every reached state a call that enters or tries again takes its lock if and only if no call at work in a slot equal to its own modulo NUM_LOCKS clashes with it and, for a lookup, no insertion into such a slot waits |
| StripedTable.NobodyForgotten | threadlab/htable.c:195-302 | whenever a call waits for a stripe's lock that is free, some waiting call of that stripe has been woken and takes it when it next runs |
| StripedTable.NoDeadlock | threadlab/htable.c:195-302 | in every reached state in which not all calls have returned, some call can take its lock, work or return, without a spurious wakeup |
| RabinKarp.InitHash | rklab/rkgrep.c:151-177 | the backward loop computes the hash and 256^m modulo PRIME |
| RabinKarp.CompareAt | rklab/rkgrep.c:243-268 | true exactly when a nonempty pattern occurs there |
| RabinKarp.Match | rklab/rkgrep.c:203-292 | counts the positions where hash and text agree, and reports the first or -1, for all texts |
| RabinKarp.HashIsValue | rklab/rkgrep.c:151-177 | the hash is the polynomial of the text modulo PRIME |
| RabinKarp.NextIsValue | rklab/rkgrep.c:185-193 | the rolling update is right modulo PRIME although msub yields PRIME for zero |
| RabinKarp.RolledIsValue | rklab/rkgrep.c:241-282 | at every position the rolled hash is the polynomial of the window |
| RabinKarp.HitExactly | rklab/rkgrep.c:241-282 | an occurrence is found if and only if the two hashes agree in sign |
| RabinKarp.CountExact | rklab/rkgrep.c:203-292 | the count is the number of occurrences if and only if at each of them both hashes are of one sign; 0 for the empty pattern |
| RabinKarp.AsciiSignsAgree | rklab/rkgrep.c:203-292 | on ASCII they always are |
| RabinKarp.FirstExact | rklab/rkgrep.c:203-292 | the position is then the least occurrence, or -1 |
| RabinKarp.AnswerExact | rklab/rkgrep.c:203-292 | for every nonempty pattern the matcher's count is that of the occurrences if and only if the signs agree at each, and then its position is the least of them or -1 |
| RabinKarp.AsciiAnswer | rklab/rkgrep.c:203-292 | on ASCII the matcher's answer is the number of occurrences and the least of them, or -1; it finds no empty pattern |
| RabinKarp.NegativeCharMissed | rklab/rkgrep.c:185-193 | a text with a negative char whose occurrence is missed |
| Bloom.HashIFits | rklab/bloom.c:21-26 | none of the ten hash functions overflows an int |
| Bloom.HashISteps | rklab/bloom.c:21-26 | the first hash is the residue by H1PRIME plus 1, the second exceeds it by the residue by H2PRIME plus 1, and the steps grow by 2 |
| Bloom.HashIAscends | rklab/bloom.c:21-26 | the ten hashes of an element are all different |
| Bloom.NegativePosition | rklab/bloom.c:21-26 | a negative hash with a position before the bitmap |
| Bloom.PositionsInBounds | rklab/bloom.c:57-61 | all ten positions of an element lie in the bitmap if and only if each of its ten hashes is not negative or a multiple of the bitmap's size |
| Bloom.PlaceExactly | rklab/bloom.c:57-58 | a position in the bitmap is the hash modulo its size |
| Bloom.NegativePlaceable | rklab/bloom.c:21-26 | the byte 255 has a negative hash, and all its positions lie in any bitmap |
| Bloom.SetBit | rklab/bloom.c:64-69 | setting a bit of a byte sets that bit and no other |
| Bloom.BitExactly | rklab/bloom.c:49-69 | bit 8q + k is the k-th binary digit from the left of byte q |
| Bloom.BloomFilter.constructor | rklab/bloom.c:33-47 | a filter with no bit set |
| Bloom.BloomFilter.Add | rklab/bloom.c:55-71 | sets exactly the ten positions of an element that are all in the bitmap |
| Bloom.BloomFilter.BitAtPos | rklab/bloom.c:112-126 | reads the bit that Add sets, through the other mask |
| Bloom.BloomFilter.Query | rklab/bloom.c:78-99 | true exactly when all ten positions are set; it stops at the first that is not, and needs only those up to it to be in the bitmap |
| Bloom.OtherRejected | rklab/bloom.c:21-99 | a filter of 80 bits to which 0 was added does not hold 4000000, whose second position is 71 |
| Bloom.AsciiIndexable | rklab/rkgrep.c:300-338 | every window of an ASCII text has its positions in the bitmap |
| Bloom.AsciiScannable | rklab/rkgrep.c:346-366 | an ASCII pattern can be looked up in any filter |
| Bloom.CreateDocBloom | rklab/rkgrep.c:300-338 | for a text whose window hashes have their positions in the bitmap, the filter's bits are exactly those of all n-m+1 of them |
| Bloom.HitHeld | rklab/rkgrep.c:300-366 | no false negatives: the filter holds the hash of every pattern that the matcher finds |
| Bloom.MatchUsingBloom | rklab/rkgrep.c:346-366 | with any filter, the plain matcher's answer where it holds the pattern's hash, else 0 with the first position left alone |
| Bloom.FilterLosesNothing | rklab/rkgrep.c:346-366 | with the text's filter for the pattern's length the count is that without the filter, whatever the signs of the hashes, and the number of occurrences if and only if the signs agree at each |
| TreeModel.CompareOrders | clab/mini/part7.c:68 | the comparison is 0 for equal strings only and antisymmetric |
| TreeModel.LessIsLexicographic | clab/mini/part7.c:68 | its order is the lexicographic one by unsigned chars, a prefix first |
| TreeModel.InsertedExactly | clab/mini/part7.c:60-92 | insertion keeps the order, adds the string, and answers 1 and changes nothing exactly for a string already there |
| TreeModel.AnswersRepeats | clab/mini/part7.c:60-92 | in any run of insertions the answer is 1 exactly for repeats |
| TreeModel.PreorderRebuilds | clab/mini/part7.c:117-143 | inserting a tree's preorder listing into an empty tree rebuilds the tree |
| TreeModel.PreorderLeftFirst | clab/mini/part7.c:117-133 | the preorder listing begins with the root, lists exactly the tree's strings, and what is below a string before what is above it |
| TreeModel.InorderSorted | clab/mini/part7.c:166-189 | the inorder listing ascends strictly in lexicographic order and lists exactly the tree's strings |
| TreeModel.InorderOfInsertions | clab/mini/part7.c:166-189 | after any insertions the inorder listing is the set of the inserted strings in strict lexicographic order |
| SearchTree.TNode.Insert | clab/mini/part7.c:60-92 | the in-place insertion is that of the model, allocating only new nodes |
| SearchTree.TNode.Init | clab/mini/part7.c:44-51 | the empty tree |
| SearchTree.TNode.Alloc | clab/mini/part7.c:31-40 | a tree of one string |
| SearchTree.WroteExactly | clab/mini/part7.c:117-133 | a traversal writes the longest prefix of the listing that fits, and no other cell |
| SearchTree.PreorderDo | clab/mini/part7.c:117-133 | writes as much of the preorder listing as fits |
| TreeModel.OverrunExactly | clab/mini/part7.c:166-181 | an inorder traversal writes past its limit if and only if some node at or past the limit has a left subtree that starts before it; otherwise it writes the longest prefix that fits |
| TreeModel.ReachedExactly | clab/mini/part7.c:166-181 | what the limited traversal writes is the nodes whose subtrees start, in the listing, before the limit, in order |
| TreeModel.TwoInOne | clab/mini/part7.c:166-181 | a tree of two strings that overruns a limit of one |
| SearchTree.InorderDo | clab/mini/part7.c:166-181 | writes what the limited traversal reaches, also past the limit, and no other cell |
| SearchTree.InorderInto | clab/mini/part7.c:183-189 | the whole listing where it fits, and more than max cells exactly when a node is straddled |
| SearchTree.Rebuild | clab/mini/part7.c:60-143 | the preorder listing written into an array and inserted cell by cell into a fresh root makes the same tree |
| BubbleSort.Swap | clab/mini/part2.c:8-23 | exchanges two elements and nothing else |
| BubbleSort.SwapRemovesOne | clab/mini/part2.c:44-49 | swapping neighbours out of order removes exactly one inversion |
| BubbleSort.Pass | clab/mini/part2.c:42-49 | a pass removes one inversion per swap, and without a swap the segment was sorted |
| BubbleSort.Mistakes | clab/mini/part2.c:51-59 | no mistakes exactly when no neighbours are out of order |
| BubbleSort.Sort | clab/mini/part2.c:31-65 | terminates with a sorted permutation, one swap for each inversion of the input, the rest of the array untouched |
| Sampler.SortSorts | malloclab/fcyc.c:67-88 | the insertion order is a sorted permutation of the samples |
| Sampler.BestIsSmallest | malloclab/fcyc.c:67-88 | the kept samples are sorted, and each is at most every sample left out |
| Sampler.BestStep | malloclab/fcyc.c:67-88 | the k smallest of one sample more need only the k smallest so far |
| Sampler.Sampler.AddSample | malloclab/fcyc.c:67-88 | the array holds the k smallest of all samples so far, in order |
| Sampler.Sampler.Sift | malloclab/fcyc.c:81-87 | the insertion sort places the new sample and keeps the order of the rest |
| Sampler.LeastTime | malloclab/fcyc.c:162 | the first of the k smallest is the least of all times |
| Sampler.ConvergedExactly | malloclab/fcyc.c:93-98 | the k smallest agree if and only if at least k of all samples lie within the factor 1 + epsilon of the least |
| Sampler.Sampler.HasConverged | malloclab/fcyc.c:93-98 | whether the k smallest agree to within epsilon |
| Sampler.Fcyc | malloclab/fcyc.c:129-168 | stops at the first count at which kbest of the times lie within 1 + epsilon of the least, or at the limit, and returns the least time measured |

## Left out

- `malloclab/mm.c`: mm_malloc when mem_sbrk fails (the check is commented out), `int` truncation of huge sizes, and pointers that are not live; these are preconditions.
- `malloclab/mm.c`: mm_checkheap and printing.
- `malloclab/mdriver.c`: trace reading, throughput and utilization, and the `weight` bookkeeping; trace ids are indices of the block table.
- `threadlab/htable.c`: resizing with other threads at work, `undergoing_resize` and the global mutex; the slot is computed before its lock is taken there. htable_destroy and malloc failure.
- Primes.GetPrime: integers are unbounded; the search of the source would overflow near the end of the int range.
- HTable.HTable.Insert: keys whose slot is outside the table, which the source reads and writes there; the same for lookups and rehashing.
- Bloom.CreateDocBloom: texts with a window one of whose positions is negative, for which the source shifts by a negative count or writes before the bitmap. BLOOM_HASH_NUM is taken as its initial value.
- Bloom.MatchUsingBloom: patterns whose lookup computes a negative position.
- RabinKarp.Match: `char` is taken as signed; where it is unsigned only ASCII texts read the same.
- SearchTree.InorderDo: an array too short for what the source writes; what it then overwrites is outside the model.
- `rklab/bmgrep.c`: unfinished by its author's own comment.
- `rklab/rkgrep.c`: naive_substring_match compares a pointer where a character is meant (line 104) and drops a match at the very end; occurrences are specified directly instead.
- `clab/mini/part7.c`: the root's child pointers, which init_tree leaves unset, are taken as NULL; del_tree is not modelled.
- Sampler.Fcyc: measured times are arbitrary reals, so floating-point rounding in the convergence test is not modelled, nor are cache clearing and tick compensation.
- RwProtocol.FreeLockMoves: fairness of the scheduler is not modelled, so it says a thread can move, not that it will.
- `malloclab/mm-naive.c`, `binarylab`, the other parts of `clab`: small exercises that would only add easier members.
