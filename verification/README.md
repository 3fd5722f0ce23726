# Muxcore in Dafny

This project models the stateful core of muxcore, a Go network multiplexer, and proves what its components promise
over every input, every run and every interleaving. `dafny verify dfyconfig.toml` checks all of it.

## What is modelled

- **Buffer pool** (`PoolMachine`, `PoolSafety`, `PoolOwnership`, `PoolCounting`, `PoolWrapping`,
  `PoolSequential`). A Treiber stack with a size counter that is updated separately, as a step machine over any number
  of threads: one step per atomic load, compare-and-swap or add, and per access to `next`. Nodes live in a heap and are
  linked in place; sync.Pool is a bag that may lose elements. The results are linearizability, exclusive ownership, the
  meaning of the counter modulo 2^64, the bound on the list, lock-freedom with a number, and for one caller a stack.
- **Byte buffer** (`ByteCodec`, `BufferGrowth`, `BytesBuffers`). The growable buffer is a class over an array. The codes
  are functions on integers: fixed width in both byte orders, unsigned LEB128 (section 7.6 of DWARF Version 5), zigzag.
  Shifts are written as products; `BitsApart` shows that the bitwise or of the reader adds.
- **Router cache** (`CacheModel`, `CacheRuns`, `CacheRetention`, `LruInclusion`, `RouterCaches`). The cache as a
  recency list of values with a step function, what holds over whole runs, exactly when a Get finds what was set,
  inclusion between two sizes, and the class with its map of shared entry objects, list and total, each of whose
  methods does exactly one step. Where the code scans a map, whose order Go leaves open, the step says which picks are
  allowed.
- **Ring and balancer** (`RingModel`, `RingRemoval`, `LoadBalancing`). Owner map and sorted array, with colliding hashes
  allowed; each claim says exactly when collisions matter, after any additions and removals. The balancer with its
  five strategies.
- **Rate limiter, DoS protector, circuit breaker** (`RateLimiting`, `DosModel`, `DosProtection`, `CircuitBreakers`).
  Classes for the objects, and for the last two step machines whose steps are the critical sections and the readings of
  the clock outside them, so that calls interleave in between.
- **Pools** (`GoroutinePools`, `GoroutineMinimum`, `GoroutineShutdown`, `ConnectionPools`, `ConnectionCleaning`). Workers,
  submitters, the scaler and Shutdown as a step machine; the connection pool as a class with its two indexes of shared
  connection objects, and its cleaning as a step machine in which others use the pool meanwhile.
- **Message bus, batching, metrics** (`PriorityQueues`, `MessageBuses`, `BatchFlush`, `BatchOrder`, `RunningMeans`,
  `RouteMonitors`). Four FIFO lists as one stably sorted list; subscriptions and their index by topic; the batch of a
  WebSocket connection between its flushers; integer running means.

Helpers: `Sums` (sums over threads or workers), `Arithmetic` (products and remainders), `Separators` (joined names).

## What the proofs found

The code is modelled as it is. Where a promise fails, a lemma gives a failing run and another the exact condition.

| what fails | run | exact condition |
|---|---|---|
| The pool's counter never goes below zero | `CounterWraps` | `CounterWrapsIff` |
| `Shutdown` of the goroutine pool, which waits with the mutex held that a worker needs, returns | `ShutdownHangs` | `CannotHangIff` |
| The goroutine pool keeps its minimum of workers | `MinimumLost` | `WorkerMinimumIff` |
| The goroutine pool keeps its maximum | `Construct` | `WorkerMaximumIff` |
| A tripped IP stays blocked | `BlockVanishes` | `TripBlocks` |
| Batched messages leave in order | `OrderLost` | `OrderKeptIff` |
| The batch timer flushes what is added | `SleepFromStart` | `TimerFlushesIff`; `SleepEndsIff` for what wakes it |
| Removing a ring node moves no other node's hashes | `SharedPointOrphaned` | `RemoveMemberIff`; `RemoveAnyIff` for any id |
| Removing a ring node moves only its hashes | `HashGained` | `MovesOnlyFromIff` |
| Adding and removing a ring node restores the ring | `AddedTwiceLost` | `AddRemoveRestores` |
| Idle cleaning keeps the minimum of connections | `MinimumMissed` | `MinimumMetIff` |
| A connection that is handed out is pooled | `RemovedIsHandedOut` | `GetConnectionByProtocol`: a protocol name that is not empty, or a connection not removed |
| The topic index stays exact | `SubscribeTwice` | `SubscribeExactIff`, with `IdsMeetIff` |
| A circuit breaker is closed exactly when no threshold is exceeded | `ConsistentAtFirst` | `ConsistentAtFirst` |
| Cache hits and misses add up to the requests | `Serve` | `Serve` |

Besides: growing a byte buffer copies at most twice what was written; `ReadByte`, and so `ReadVarint`, test the length of
the array and not what was written, and `RoundTrip` stays within the written bytes; the running mean can lag arbitrarily
far (`MeanLagReached`); a node without weight can be drawn (`WeightlessDrawnIff`).

## Reading the model

Time is an integer parameter that never runs backwards, read where the code reads the clock. Hashes are arbitrary
functions; new ids and fingerprints are parameters. Atomics are sequentially consistent, a section under a lock is one
step, and the address of a node is not reused while a thread still refers to it. Counters are unbounded unless said
otherwise; the pool's counter is modulo 2^64 and the running means carry their int64 bound as a precondition. Thresholds
and weights are reals, and a quotient 0/0 exceeds nothing, as NaN does not. `ghost` fields record histories (what was
admitted, written, logged) that the real fields are tied to.

Functions such as the steps of a machine only compute; the rows below name the lemmas and methods that say what they
compute means. Every row's member is declared in the module it is qualified with.

## Model

| member | source | states |
|---|---|---|
| `PoolSafety.Linearizable` | pkg/buffer/unified_pool.go:65-123 | In every interleaving of Get and Put the successful CASes, and the loads by which a Get finds nothing, are a legal history of one sequential stack, and following next from head yields what that stack holds |
| `PoolSafety.StackStep` | pkg/buffer/unified_pool.go:67-118 | Every atomic step keeps the invariant of fresh, once-linked nodes and write-once next that rules out ABA, and changes the list only by the push or pop it performs |
| `PoolSafety.StepContents` | pkg/buffer/unified_pool.go:75-116 | The buffers on the list after a step are those of the sequential stack after the step's push, pop, or nothing |
| `PoolSafety.ChainUnique` | pkg/buffer/unified_pool.go:30-33 | The list reached from head is unique, so claims about "the list" are about one thing |
| `PoolSafety.NeverStuck` | pkg/buffer/unified_pool.go:67-118 | No operation in progress ever meets a nil or unknown node: its next step is always enabled |
| `PoolOwnership.Conservation` | pkg/buffer/unified_pool.go:65-123 | A step creates only the buffer it allocates and loses only what the collector drops from sync.Pool; everything else changes place |
| `PoolOwnership.ExclusiveOwnership` | pkg/buffer/unified_pool.go:65-123 | In every interleaving a buffer held by a caller or an operation is held once, by nobody else, is not on its way to another caller, and is in neither free store, provided callers return and give away only buffers they hold |
| `PoolOwnership.FreeOnce` | pkg/buffer/unified_pool.go:65-123 | In every interleaving the list repeats no buffer and shares none with sync.Pool or with those on their way between callers |
| `PoolCounting.CounterMeaning` | pkg/buffer/unified_pool.go:78-114 | In every interleaving count is, modulo 2^64, the list length minus pushes not yet counted plus pops not yet counted |
| `PoolWrapping.CounterWrapsIff` | pkg/buffer/unified_pool.go:78-114 | Some run wraps the counter below zero, to 2^64 - 1 over an empty list, if and only if there are two callers and room for a buffer |
| `PoolWrapping.CounterWraps` | pkg/buffer/unified_pool.go:78-114 | Such a run, for any two callers |
| `PoolWrapping.OneCallerCounts` | pkg/buffer/unified_pool.go:78-114 | With one caller the true count is never negative |
| `PoolCounting.SizeBound` | pkg/buffer/unified_pool.go:102-135 | With T callers the list never exceeds maxPoolSize + T - 1 nodes; with one caller never maxPoolSize |
| `PoolCounting.StaleStep` | pkg/buffer/unified_pool.go:67-118 | A failed CAS uses up one thread whose loaded head is out of date; a successful one makes at most T - 1 threads out of date |
| `PoolCounting.FailuresBounded` | pkg/buffer/unified_pool.go:67-118 | Lock-freedom with a bound: over any run failed CASes number at most (T - 1) times the successful ones |
| `PoolSequential.OneCallerIsStack` | pkg/buffer/unified_pool.go:65-145 | With one caller, between its operations, list, count, sync.Pool and the caller's buffers are those of a stack of at most maxPoolSize buffers: a Put pushes while there is room and else stores in sync.Pool, a Get pops whenever something is listed |
| `PoolSequential.PutsCount` | pkg/buffer/unified_pool.go:93-145 | So k Puts leave a Count of min(k, maxPoolSize) |
| `ByteCodec.DecEncFixed` | pkg/buffer/bytes_buffer.go:96-121 | Decoding a fixed-width integer undoes encoding it, in both byte orders and at every width |
| `ByteCodec.FixedBytes` | pkg/buffer/bytes_buffer.go:96-121 | Little endian puts the least significant byte first, big endian last |
| `ByteCodec.BitsApart` | pkg/buffer/bytes_buffer.go:223-237 | A varint byte shifted into place shares no bit with those read before it, so bitwise or adds it; none of its bits is cut off below the tenth byte |
| `ByteCodec.OrAdds` | pkg/buffer/bytes_buffer.go:223-237 | Bitwise or of a number below bit n and a multiple of 2^n is their sum |
| `ByteCodec.DecEncVarint` | pkg/buffer/bytes_buffer.go:223-237 | Reading from any byte position on, what the encoder wrote of the rest completes the value |
| `ByteCodec.VarintRoundTrip` | pkg/buffer/bytes_buffer.go:131-141 | Reading a varint back returns it and consumes exactly its bytes, whatever follows |
| `ByteCodec.VarintLength` | pkg/buffer/bytes_buffer.go:131-141 | A varint takes max(1, ceil(bits / 7)) bytes, at most ten |
| `ByteCodec.VarintGroups` | pkg/buffer/bytes_buffer.go:131-141 | A varint's bytes are its groups of seven bits, the least significant first, all but the last with the top bit |
| `ByteCodec.DecVarintEnds` | pkg/buffer/bytes_buffer.go:223-237 | A read ends with the first byte without the top bit if that is among the first ten, and else fails: overflow after ten bytes, end of input before |
| `ByteCodec.DecVarintValue` | pkg/buffer/bytes_buffer.go:223-237 | Any read that succeeds, of whatever bytes, returns the groups it used modulo 2^64 |
| `ByteCodec.ZigzagRoundTrip` | pkg/buffer/bytes_buffer.go:123-129 | Zigzag decoding undoes encoding at both widths, and the code fits the width |
| `ByteCodec.ZigzagOrder` | pkg/buffer/bytes_buffer.go:123-129 | Zigzag numbers the signed values 0, -1, 1, -2, 2, ... |
| `BufferGrowth.GrowthCost` | pkg/buffer/bytes_buffer.go:143-147 | Over any run of writes growing copies at most 2 * wpos bytes, the array stays within three times wpos or its first length, and it is reallocated logarithmically often |
| `BytesBuffers.BytesBuffer.constructor` | pkg/buffer/bytes_buffer.go:26-36 | A new buffer is empty, with an array of the given size |
| `BytesBuffers.BytesBuffer.FromData` | pkg/buffer/bytes_buffer.go:38-48 | A buffer over given bytes holds exactly those, unread |
| `BytesBuffers.BytesBuffer.Grow` | pkg/buffer/bytes_buffer.go:143-147 | Growing doubles the array and adds n, and keeps the written bytes |
| `BytesBuffers.BytesBuffer.WriteByte` | pkg/buffer/bytes_buffer.go:69-76 | Appends one byte to the contents, growing only when the array is full |
| `BytesBuffers.BytesBuffer.Write` | pkg/buffer/bytes_buffer.go:78-94 | Appends the bytes to the contents, across a growth if needed, and changes nothing else |
| `BytesBuffers.BytesBuffer.WriteUint16` | pkg/buffer/bytes_buffer.go:96-103 | Appends the two-byte code in the buffer's byte order |
| `BytesBuffers.BytesBuffer.WriteUint32` | pkg/buffer/bytes_buffer.go:105-112 | Appends the four-byte code in the buffer's byte order |
| `BytesBuffers.BytesBuffer.WriteUint64` | pkg/buffer/bytes_buffer.go:114-121 | Appends the eight-byte code in the buffer's byte order |
| `BytesBuffers.BytesBuffer.WriteVarint` | pkg/buffer/bytes_buffer.go:131-141 | The loop appends exactly the LEB128 code of the value and returns its length |
| `BytesBuffers.BytesBuffer.WriteZigzag32` | pkg/buffer/bytes_buffer.go:123-125 | Appends the varint of the 32-bit zigzag code |
| `BytesBuffers.BytesBuffer.WriteZigzag64` | pkg/buffer/bytes_buffer.go:127-129 | Appends the varint of the 64-bit zigzag code |
| `BytesBuffers.BytesBuffer.ReadFixed` | pkg/buffer/bytes_buffer.go:173-203 | Decodes n written bytes and advances, or fails and moves nothing when fewer remain |
| `BytesBuffers.BytesBuffer.ReadByte` | pkg/buffer/bytes_buffer.go:249-256 | Succeeds exactly while rpos is inside the array, which may be past wpos |
| `BytesBuffers.BytesBuffer.ReadVarint` | pkg/buffer/bytes_buffer.go:223-237 | The loop returns what the LEB128 decoder reads ahead of rpos, its errors included, and advances by the bytes it used |
| `BytesBuffers.BytesBuffer.ReadZigzag32` | pkg/buffer/bytes_buffer.go:214-221 | The varint ahead, zigzag-decoded at 32 bits, or its error |
| `BytesBuffers.BytesBuffer.ReadZigzag64` | pkg/buffer/bytes_buffer.go:205-212 | The varint ahead, zigzag-decoded at 64 bits, or its error |
| `BytesBuffers.BytesBuffer.Reset` | pkg/buffer/bytes_buffer.go:258-261 | Empties the buffer and keeps its array |
| `BytesBuffers.RoundTrip` | pkg/buffer/bytes_buffer.go:69-237 | Any sequence of typed writes, across any number of growths, is read back value for value by the matching reads, ending with rpos = wpos |
| `BytesBuffers.WriteFresh` | pkg/buffer/bytes_buffer.go:69-147 | The growth bounds hold of a new buffer to which any typed stream is written |
| `CacheModel.StepKeepsInv` | core/router/router_cache.go:126-484 | Every operation under every policy keeps: keys listed once in access-time order, memory the sum of sizes, entries within MaxSize, memory within its limit unless one entry remains |
| `CacheRuns.RunInv` | core/router/router_cache.go:126-484 | The same over any run, with policies changed at will |
| `CacheRuns.HitIsLatest` | core/router/router_cache.go:126-216 | A Get hit returns exactly the value of the latest Set of the key since its last Delete or Clear, unexpired |
| `CacheRuns.InsertsBalance` | core/router/router_cache.go:169-312 | Fresh inserts since the last Clear equal entries plus Evictions |
| `CacheRetention.GetReturnsIff` | core/router/router_cache.go:126-312 | After any run a Get returns the value of the latest Set of its key exactly when the cache is enabled, that Set has not expired and the key was kept; else nothing |
| `CacheRetention.HeldIffKept` | core/router/router_cache.go:126-484 | The cache holds a key if and only if it was kept: since its latest Set no Delete or Clear, no eviction picked it, and no Get of it or cleanup came after its expiry |
| `CacheRetention.ServedAgain` | core/router/router_cache.go:126-216 | After a Set whose own eviction does not pick it, any number of Gets before the expiry leave the next Get its value |
| `CacheRetention.CountersExact` | core/router/router_cache.go:126-166 | Over any run Hits and Misses are the Gets since the last Clear that returned a value, and the others |
| `CacheRetention.UsesExact` | core/router/router_cache.go:153-155 | An entry's access time and hit count are those of its latest Set and of the Gets served since |
| `CacheRetention.EvictsByPolicy` | core/router/router_cache.go:333-410 | What makes space is under LRU and FIFO a key used no later than any other, under LFU one served no more often since its Set, under TTL an expired one unless none is |
| `CacheRetention.PickIsPolicy` | core/router/router_cache.go:333-410 | The same of any eviction, in the entries' own fields |
| `CacheRetention.EvictsForRoom` | core/router/router_cache.go:169-213 | A Set evicts only while the new value does not fit, and once more only if the entries then outnumber MaxSize |
| `CacheRetention.CleanupExact` | core/router/router_cache.go:463-484 | A cleanup leaves exactly the unexpired entries and counts the others |
| `CacheRetention.MemoryExact` | core/router/router_cache.go:412-430 | Over any run the memory total is what the values take: lengths, 8 a number, 1 a boolean, 256 anything else |
| `LruInclusion.LruInclusionHolds` | core/router/router_cache.go:126-216 | Same operations, same clock, LRU and no memory pressure: the smaller cache's recency list is a subsequence of the larger's, and each of its hits is a hit in the larger with the same value |
| `LruInclusion.StepIncluded` | core/router/router_cache.go:126-216 | One operation on both caches keeps the inclusion |
| `RouterCaches.RouterCache.constructor` | core/router/router_cache.go:61-85 | A new cache is empty and uses LRU |
| `RouterCaches.RouterCache.Get` | core/router/router_cache.go:126-166 | The object moves, drops and counts exactly as the model's Get, with one reading of the clock for the expiry and one for the stamp, and returns its result |
| `RouterCaches.RouterCache.Set` | core/router/router_cache.go:169-216 | The object does one legal Set of the model: makes space, replaces or appends, and evicts once more if over MaxSize, each with its own reading of the clock |
| `RouterCaches.RouterCache.Delete` | core/router/router_cache.go:219-224 | The object does the model's Delete |
| `RouterCaches.RouterCache.Clear` | core/router/router_cache.go:227-237 | The object does the model's Clear |
| `RouterCaches.RouterCache.SetEvictionPolicy` | core/router/router_cache.go:293-299 | Only the policy changes |
| `RouterCaches.RouterCache.RemoveEntry` | core/router/router_cache.go:302-312 | Map, list and total lose the entry together and the eviction is counted; an absent key changes nothing |
| `RouterCaches.RouterCache.UpdateAccessOrder` | core/router/router_cache.go:315-320 | The entry moves to the end of the recency list and map and list still agree |
| `RouterCaches.RouterCache.RemoveFromAccessOrder` | core/router/router_cache.go:323-330 | The scan cuts out the one listed occurrence of the entry |
| `RouterCaches.RouterCache.EvictLRU` | core/router/router_cache.go:353-359 | Evicts the head of the recency list |
| `RouterCaches.RouterCache.EvictLFU` | core/router/router_cache.go:362-383 | Evicts an entry that no other has fewer hits than |
| `RouterCaches.RouterCache.EvictExpired` | core/router/router_cache.go:386-398 | Evicts an expired entry, or the least recently used one if none has expired |
| `RouterCaches.RouterCache.EvictOldest` | core/router/router_cache.go:333-350 | Evicts what the current policy allows |
| `RouterCaches.RouterCache.EvictToMakeSpace` | core/router/router_cache.go:407-411 | The loop ends, and leaves the cache with room or empty |
| `RouterCaches.RouterCache.Cleanup` | core/router/router_cache.go:462-484 | Drops exactly the expired entries and keeps the order of the rest |
| `RingModel.LookupSuccessor` | core/router/enhanced_router.go:787-805 | Lookup returns the owner of the least point at or after the hash, wrapping round, or no node where that point has no owner |
| `RingModel.AddMovesOnlyToNode` | core/router/enhanced_router.go:748-763 | Add moves hashes only to the added node, in any sorted ring, whatever collides or collided before |
| `RingRemoval.OthersKeepIff` | core/router/enhanced_router.go:766-805 | In any sorted ring every hash of another node stays with it if and only if each removed point of another node leaves its hashes to a point of the same owner |
| `RingRemoval.MovesOnlyFromIff` | core/router/enhanced_router.go:766-805 | Nothing but the node's hashes moves if and only if, besides, no removed point without an owner leaves its hashes to a point that has one |
| `RingRemoval.RemoveMovesOnlyFromNode` | core/router/enhanced_router.go:766-784 | Remove moves only the node's hashes when it owns all of its points that the array holds, whatever else the ring holds |
| `RingRemoval.RemoveMemberIff` | core/router/enhanced_router.go:748-784 | After any run of Adds and of Removes of ids that are there, with any collisions: removing such an id leaves the hashes of all others where they are if and only if none of its points belongs to another |
| `RingRemoval.RemoveAnyIff` | core/router/enhanced_router.go:722-784 | After any run whatsoever, and for an id that is not in the ring too, the condition is that of OthersKeepIff |
| `RingRemoval.SharedPointOrphaned` | core/router/enhanced_router.go:748-805 | Two nodes with the same hash: when the first is removed every hash of the second loses its node |
| `RingRemoval.HashGained` | core/router/enhanced_router.go:748-805 | Three additions and two removals, after which a hash without a node moves to a third although the removed node owned none of its points |
| `RingRemoval.AddedTwiceLost` | core/router/enhanced_router.go:722-805 | An id added twice and removed once is in the array, and no hash finds it |
| `RingModel.AddRemoveRestores` | core/router/enhanced_router.go:748-784 | Add then Remove restores the sorted array exactly, and the owner map exactly when none of the node's hashes was a point already |
| `RingModel.RemoveWellFormed` | core/router/enhanced_router.go:766-784 | Remove leaves array and map agreeing exactly when no removed point is in the array more often than the node put it there |
| `RingModel.CollisionOrphans` | core/router/enhanced_router.go:766-805 | A shared point that is removed stays in the array without an owner, and every hash it serves gets no node |
| `RingModel.RingRun` | core/router/enhanced_router.go:748-784 | Over any run of Adds of absent nodes and Removes, with pairwise distinct hashes, the ring holds exactly the points of the current members, each owned by its member |
| `RingModel.HistoryIndependent` | core/router/enhanced_router.go:748-784 | Two such runs that end with the same members end with the same ring |
| `LoadBalancing.ConsistentHashRing.constructor` | core/router/multidimensional_router.go:84-90 | A new ring is empty |
| `LoadBalancing.LoadBalancer.constructor` | core/router/enhanced_router.go:153-159 | A new balancer has no nodes and an empty ring of 100 replicas |
| `LoadBalancing.ConsistentHashRing.Add` | core/router/enhanced_router.go:748-763 | The loop and the sort produce the model's ring with the node added |
| `LoadBalancing.ConsistentHashRing.Remove` | core/router/enhanced_router.go:766-784 | The loops produce the model's ring with the node's points removed |
| `LoadBalancing.ConsistentHashRing.Search` | core/router/enhanced_router.go:792-797 | The binary search finds the least index whose hash is at least h |
| `LoadBalancing.ConsistentHashRing.Get` | core/router/enhanced_router.go:787-805 | Returns the model's lookup |
| `LoadBalancing.LoadBalancer.AddNode` | core/router/enhanced_router.go:714-720 | The node joins the list and its points the ring |
| `LoadBalancing.LoadBalancer.RemoveNode` | core/router/enhanced_router.go:723-735 | The first node of that id leaves the list; the id's points leave the ring in any case |
| `LoadBalancing.LoadBalancer.GetHealthyNodes` | core/router/enhanced_router.go:601-609 | The healthy nodes in order |
| `LoadBalancing.LoadBalancer.SelectRoundRobin` | core/router/enhanced_router.go:612-619 | The next healthy node in turn |
| `LoadBalancing.LoadBalancer.SelectWeightedRoundRobin` | core/router/enhanced_router.go:622-650 | The first node up to which the weight reaches the draw, else the last; turns without any weight; a division by zero exactly when the weight is below a thousandth |
| `LoadBalancing.WeightlessDrawnIff` | core/router/enhanced_router.go:638-649 | A node without weight is drawn if and only if it is the first and the draw is 0 |
| `LoadBalancing.DrawShare` | core/router/enhanced_router.go:622-650 | Over one cycle of the clock's draws every node is selected a thousand times its weight, give or take less than two |
| `LoadBalancing.LoadBalancer.SelectLeastConnections` | core/router/enhanced_router.go:653-669 | The first node that no other has fewer connections than |
| `LoadBalancing.LoadBalancer.SelectLeastResponseTime` | core/router/enhanced_router.go:672-688 | The first node that no other has a shorter response time than |
| `LoadBalancing.LoadBalancer.SelectConsistentHash` | core/router/enhanced_router.go:691-711 | The ring's node if it is healthy, else the first healthy node |
| `LoadBalancing.LoadBalancer.SelectNode` | core/router/enhanced_router.go:575-711 | No node exactly when none is healthy; otherwise what the strategy selects among the healthy ones, for each of the five strategies |
| `LoadBalancing.RoundRobinFair` | core/router/enhanced_router.go:612-620 | Over k * n consecutive selections from n unchanged healthy nodes every node is picked exactly k times |
| `LoadBalancing.SelectMany` | core/router/enhanced_router.go:575-620 | The balancer's next n selections by round robin are the healthy nodes in turn, which is what RoundRobinFair counts |
| `RateLimiting.AdmitKeepsLimit` | core/protocols/websocket/batch_processor.go:135-155 | Admitting when fewer than limit were admitted in the window ending now keeps every window within the limit |
| `RateLimiting.RunIsExact` | core/protocols/websocket/batch_processor.go:135-155 | Over any run every closed interval of length window holds at most limit admissions, and a request is refused only when the window ending then is full |
| `RateLimiting.RateLimiter.Allow` | core/protocols/websocket/batch_processor.go:135-155 | The trimming loop keeps what counts: the request is admitted exactly when fewer than limit were admitted in the window ending now |
| `RateLimiting.Replay` | core/protocols/websocket/batch_processor.go:135-155 | The object, called at each time, admits exactly the run of the model |
| `DosModel.AdmissionBound` | core/security/dos_protection.go:58-163 | In every interleaving of requests and cleanup passes any half-open interval of length windowSize admits at most 2 * max(1, threshold) requests of one fingerprint |
| `DosModel.RefusalEarned` | core/security/dos_protection.go:78-111 | In every interleaving a request refused when counted comes after max(1, threshold) admitted ones of its fingerprint within the window ending with it, and exactly a refusal blocks its IP |
| `DosModel.BlockRefusesIff` | core/security/dos_protection.go:63-73 | A call whose IP is blocked is refused up to blockDuration after the block and counted later; one whose IP is not blocked is counted |
| `DosModel.CleanTransparent` | core/security/dos_protection.go:135-163 | A cleanup pass changes no later answer and leaves nothing that has expired |
| `DosModel.TripBlocks` | core/security/dos_protection.go:58-133 | After a trip every later request of that IP within blockDuration is refused if and only if no call of that IP is about to delete a block or has still to compare an older one it read |
| `DosModel.BlockVanishes` | core/security/dos_protection.go:58-133 | Whatever the threshold, a run from the empty tables leads to a trip after which such a call deletes the new block and a later request passes |
| `DosModel.StepKeeps` | core/security/dos_protection.go:58-163 | Every critical section keeps, per fingerprint: a tracked count covers the admissions of its window, and every interval of the length so far is within the bound |
| `DosProtection.DOSProtector.CountRequest` | core/security/dos_protection.go:78-111 | The main critical section updates both maps and answers as the model's step |
| `DosProtection.DOSProtector.CheckFingerprint` | core/security/dos_protection.go:58-112 | A whole call with no other in between, at the three times it reads: a live block refuses; an expired one is deleted first; then the request is counted |
| `DosProtection.DOSProtector.CleanupExpired` | core/security/dos_protection.go:135-163 | One pass rebuilds both maps from exactly the entries that have not expired |
| `DosProtection.FingerprintsMeetIff` | core/security/dos_protection.go:115-118 | Two clients share a fingerprint if and only if they are the same or colons shift a part between address, agent and protocol |
| `CircuitBreakers.ConsistentAtFirst` | core/reliability/reliability_manager.go:109-118 | A new breaker is Closed exactly when no threshold is exceeded if and only if the protocol and service thresholds are not negative |
| `CircuitBreakers.OpensIff` | core/reliability/reliability_manager.go:130-181 | Failures alone open a new breaker if and only if the protocol failures number more than their limit, the service failures more than theirs, or a connection fails and the limit of the rate is below 1 |
| `CircuitBreakers.Recovers` | core/reliability/reliability_manager.go:184-227 | More than resetTimeout after its last failure an open breaker lets the next request through and half opens; a success then makes it a new one |
| `CircuitBreakers.AskAnswers` | core/reliability/reliability_manager.go:184-212 | Sooner than that a request is refused; by a closed or half-open breaker it is let through |
| `CircuitBreakers.FailureKeeps` | core/reliability/reliability_manager.go:130-181 | Recording any failure keeps that equivalence, and opens a breaker that is not closed |
| `CircuitBreakers.StepSound` | core/reliability/reliability_manager.go:130-227 | Every critical section keeps it; Open never steps to Closed, and to HalfOpen only after more than resetTimeout |
| `CircuitBreakers.RunSound` | core/reliability/reliability_manager.go:130-227 | Over any interleaved run the breaker is Closed exactly when no threshold is exceeded |
| `CircuitBreakers.OpenAdmitsNothing` | core/reliability/reliability_manager.go:184-212 | However calls interleave, an open breaker stays open and admits nothing until more than resetTimeout after its last failure |
| `CircuitBreakers.NeverStraightToClosed` | core/reliability/reliability_manager.go:184-227 | A run from Open to Closed passes through HalfOpen |
| `CircuitBreakers.CircuitBreaker.CheckThresholds` | core/reliability/reliability_manager.go:164-181 | Opens exactly when a threshold is exceeded; the rate 0/0 exceeds nothing |
| `CircuitBreakers.CircuitBreaker.RecordConnectionFailure` | core/reliability/reliability_manager.go:130-139 | Counts, stamps and checks; reopens a half-open breaker |
| `CircuitBreakers.CircuitBreaker.RecordProtocolFailure` | core/reliability/reliability_manager.go:142-150 | Counts, stamps and checks; reopens a half-open breaker |
| `CircuitBreakers.CircuitBreaker.RecordServiceFailure` | core/reliability/reliability_manager.go:153-161 | Counts, stamps and checks; reopens a half-open breaker |
| `CircuitBreakers.CircuitBreaker.RecordSuccess` | core/reliability/reliability_manager.go:215-227 | Closes a half-open breaker with all counters zero, and changes nothing otherwise |
| `CircuitBreakers.CircuitBreaker.AllowRequest` | core/reliability/reliability_manager.go:184-212 | Allows exactly when the breaker is not left open; from Open only when resetTimeout has passed |
| `PriorityQueues.DrainIsStableSort` | core/bus/enhanced_message_bus.go:314-330 | Dequeuing until empty yields the enqueued messages as a stable sort by clamped priority |
| `PriorityQueues.DrainByPriority` | core/bus/enhanced_message_bus.go:300-330 | In the messages' own priorities: of two in 0..3 the larger is dequeued first, and one out of range goes as one of priority 1 |
| `PriorityQueues.DrainKeepsArrivals` | core/bus/enhanced_message_bus.go:300-330 | Messages of the same rank are dequeued in order of arrival |
| `PriorityQueues.StableSortUnique` | core/bus/enhanced_message_bus.go:299-330 | There is one stable sort, and it is a permutation of the messages |
| `PriorityQueues.NothingLost` | core/bus/enhanced_message_bus.go:299-360 | Under any interleaving of Enqueue, Dequeue and Clear a message was enqueued as often as it left and is still queued |
| `PriorityQueues.PriorityMessageQueue.Enqueue` | core/bus/enhanced_message_bus.go:299-312 | The four lists and size are those of the single list with the message appended |
| `PriorityQueues.PriorityMessageQueue.Dequeue` | core/bus/enhanced_message_bus.go:314-330 | Takes the earliest message of the highest priority, or reports an empty queue |
| `PriorityQueues.PriorityMessageQueue.Peek` | core/bus/enhanced_message_bus.go:332-344 | Returns what Dequeue would take and changes nothing |
| `PriorityQueues.PriorityMessageQueue.Size` | core/bus/enhanced_message_bus.go:346-349 | The counter is the number of queued messages |
| `PriorityQueues.PriorityMessageQueue.Clear` | core/bus/enhanced_message_bus.go:351-360 | Empties all four lists and the counter |
| `PriorityQueues.DrainAll` | core/bus/enhanced_message_bus.go:314-330 | Dequeuing the object until it is empty returns the stable sort of its messages |
| `MessageBuses.SubscribeExactIff` | core/bus/enhanced_message_bus.go:604-605 | Entering a subscription keeps the topic index exact if and only if its id is unused |
| `MessageBuses.IdsMeetIff` | core/bus/enhanced_message_bus.go:593 | Two ids meet if and only if they were made in the same nanosecond, of the same connection and topic or of names whose underscores shift a part from one to the other |
| `MessageBuses.RemoveExact` | core/bus/enhanced_message_bus.go:612-626 | Removing a subscription keeps the topic index exact: each topic lists its subscriptions, each once, and none is empty |
| `MessageBuses.MessageBus.RegisterConnection` | core/bus/enhanced_message_bus.go:547-558 | Registers up to the maximum; a full bus refuses |
| `MessageBuses.MessageBus.Subscribe` | core/bus/enhanced_message_bus.go:584-609 | Only for a registered connection; no subscription is ever without one; the index stays exact exactly when the id made of connection, topic and time is unused |
| `MessageBuses.SubscribeTwice` | core/bus/enhanced_message_bus.go:584-609 | Two subscriptions of one connection to one topic in one nanosecond: the topic lists the one id twice |
| `MessageBuses.MessageBus.Unsubscribe` | core/bus/enhanced_message_bus.go:612-626 | Bus and index lose the subscription together, or it is reported missing |
| `MessageBuses.MessageBus.RemoveSubscriptionFromTopic` | core/bus/enhanced_message_bus.go:866-880 | The scan takes out the first occurrence and drops the topic when empty |
| `MessageBuses.MessageBus.UnregisterConnection` | core/bus/enhanced_message_bus.go:561-581 | The connection goes with exactly its subscriptions |
| `MessageBuses.MessageBus.Cleanup` | core/bus/enhanced_message_bus.go:905-922 | The inactive connections go with exactly their subscriptions |
| `MessageBuses.MessageBus.RouteTargets` | core/bus/enhanced_message_bus.go:766-781 | A message goes to exactly the active subscriptions of its topic, each once |
| `GoroutinePools.TaskFlow` | core/pool/enhanced_pool.go:541-620 | Every interleaving: tasks are received in the order accepted; each accepted task is queued, in a worker's hands or finished, as often as it was accepted; the counters lag by the steps in progress |
| `GoroutinePools.WorkerBounds` | core/pool/enhanced_pool.go:536-661 | Every interleaving: 0 <= idleWorkers <= workerCount <= MaxWorkers, given MinWorkers <= MaxWorkers and 0 <= MaxWorkers |
| `GoroutinePools.WorkerMaximumIff` | core/pool/enhanced_pool.go:525-661 | The maximum holds in every run exactly under that condition |
| `GoroutinePools.ScaleCount` | core/pool/enhanced_pool.go:637-661 | One scaling adds workers exactly when a usage is above the threshold below the maximum, at most 10 and never more than there is room for |
| `GoroutinePools.ScaleCountIsFifth` | core/pool/enhanced_pool.go:649-656 | It adds a fifth of the room, at least one and at most ten |
| `GoroutinePools.ScalesUpIff` | core/pool/enhanced_pool.go:637-648 | Workers are added if and only if there are fewer than the maximum and the queued tasks exceed their share of QueueSize, or the busy workers their share of the workers |
| `GoroutinePools.ScalePass` | core/pool/enhanced_pool.go:637-661 | A pass of the scaler alone goes by the queue, workers and idle workers as they are and adds that many waiting workers |
| `GoroutineMinimum.WorkerMinimumIff` | core/pool/enhanced_pool.go:541-661 | Between construction and Shutdown the minimum is kept in every run if and only if it is not positive, the maximum is not above it, or the threshold is at least 1 |
| `GoroutineMinimum.MinimumLost` | core/pool/enhanced_pool.go:541-661 | Otherwise a run from the start ends one below it: all workers busy, a scale-up, and the idle workers leave, the last two together |
| `GoroutineShutdown.CanReturnIff` | core/pool/enhanced_pool.go:574-583 | While Shutdown waits with the mutex held, some continuation lets it return exactly when no worker has a task whose time it must still record |
| `GoroutineShutdown.CannotHangIff` | core/pool/enhanced_pool.go:541-723 | In every reachable state no continuation makes it wait for ever if and only if, besides, no task is queued or being submitted, or every worker is on its way out and the scaler cannot add one |
| `GoroutineShutdown.ShutdownHangs` | core/pool/enhanced_pool.go:586-723 | With any positive minimum a run from the start hangs: a task handed over after Shutdown began |
| `GoroutinePools.SubmitsExact` | core/pool/enhanced_pool.go:586-623 | Every call of Submit that is over was counted once, as submitted or as rejected |
| `GoroutinePools.CountersStep` | core/pool/enhanced_pool.go:536-571 | Every step keeps workerCount and idleWorkers equal to the workers in the places they stand for |
| `ConnectionPools.MoveExact` | core/pool/enhanced_pool.go:211-234 | Changing a protocol keeps every named group exact; the index gains a group for the empty name exactly when the new name is empty |
| `ConnectionPools.RemoveExact` | core/pool/enhanced_pool.go:257-279 | Removing a connection keeps every named group exact: the pooled connections of that protocol, once each, never an empty list |
| `ConnectionPools.AddExact` | core/pool/enhanced_pool.go:135-164 | A new connection, without protocol, leaves every named group exact |
| `ConnectionPools.NamelessGrows` | core/pool/enhanced_pool.go:211-279 | No operation takes a connection out of the group of the empty name; moving one there appends it |
| `ConnectionPools.Perform` | core/pool/enhanced_pool.go:135-401 | Over any run of additions, moves, removals and cleanings the group of the empty name only grows at its end, and its connections are pooled exactly while they have not been removed |
| `ConnectionPools.RemovedIsHandedOut` | core/pool/enhanced_pool.go:135-279 | A connection moved to the empty name and removed is handed out by GetConnectionByProtocol |
| `ConnectionPools.Cleaned` | core/pool/enhanced_pool.go:387-393 | What one cleaning removes never takes the active count below the minimum, and leaves idle connections only when the minimum is reached |
| `ConnectionPools.ConnectionPool.constructor` | core/pool/enhanced_pool.go:107-132 | A new pool is empty and running |
| `ConnectionPools.ConnectionPool.AddConnection` | core/pool/enhanced_pool.go:135-164 | A full pool refuses and counts an error; otherwise the connection joins and the totals agree with the pool size |
| `ConnectionPools.ConnectionPool.GetConnection` | core/pool/enhanced_pool.go:167-177 | The connection exactly when pooled, active and healthy, marked used |
| `ConnectionPools.ConnectionPool.GetConnectionByProtocol` | core/pool/enhanced_pool.go:180-208 | A usable connection of the group with the fewest requests, or none exactly when none is usable; the group of a name is exactly the pooled connections of that protocol, and of the group of the empty name those are pooled that were not removed |
| `ConnectionPools.ConnectionPool.FewestRequests` | core/pool/enhanced_pool.go:189-202 | The first usable connection of the group that none has fewer requests than, or none exactly when none is usable |
| `ConnectionPools.ConnectionPool.UpdateConnectionProtocol` | core/pool/enhanced_pool.go:211-234 | Moves the connection to the end of its new group and keeps the index |
| `ConnectionPools.ConnectionPool.RemoveFromProtocolMap` | core/pool/enhanced_pool.go:237-254 | The scan takes the connection out of its group and drops the group when empty |
| `ConnectionPools.ConnectionPool.RemoveConnection` | core/pool/enhanced_pool.go:257-279 | Pool, index and counters lose the connection together |
| `ConnectionPools.ConnectionPool.ScanIdle` | core/pool/enhanced_pool.go:373-385 | The scan counts the active connections and lists each idle active one once |
| `ConnectionPools.ConnectionPool.CleanIdleConnections` | core/pool/enhanced_pool.go:372-401 | With no other call in between: removes only idle connections, as many as the minimum allows, and all of them if more than the minimum stay |
| `ConnectionCleaning.MinimumMetIff` | core/pool/enhanced_pool.go:372-401 | With any calls between the scan and the removals, a finished cleaning meets the minimum if and only if others removed, beside its choice, no more than it had to spare and others added |
| `ConnectionCleaning.ActiveAtLeast` | core/pool/enhanced_pool.go:372-401 | At every moment the active connections are at least the minimum, or the count if lower, plus what others added less what they removed beside the choice |
| `ConnectionCleaning.StillIdle` | core/pool/enhanced_pool.go:372-401 | What the cleaner removes next is still idle unless it was used since the scan |
| `ConnectionCleaning.ScanFinds` | core/pool/enhanced_pool.go:373-385 | The scan finds exactly the active connections unused for longer than the limit |
| `ConnectionCleaning.AtMostMaximum` | core/pool/enhanced_pool.go:135-164 | Over any run the pool never holds more than its maximum |
| `ConnectionCleaning.MinimumMissed` | core/pool/enhanced_pool.go:372-401 | For any minimum from 1 to below the maximum, a run from the empty pool has the cleaner remove a connection that is in use again and leave one fewer than the minimum |
| `ConnectionPools.ConnectionPool.Close` | core/pool/enhanced_pool.go:428-447 | Empties pool and index, and leaves TotalConnections as it was |
| `RunningMeans.MeanLag` | core/router/enhanced_router.go:329-335 | For n latencies of sum S, 0 <= S - n * average <= n(n - 1)/2 |
| `RunningMeans.MeanLagReached` | core/router/enhanced_router.go:329-335 | The bound is reached for every n: the latencies 0, 1, ..., n - 1 leave the average at 0 |
| `RunningMeans.MeanAtLeast` | core/router/enhanced_router.go:329-335 | The average is never below the least latency |
| `RunningMeans.NoOverflow` | core/router/enhanced_router.go:333 | While the latencies sum to an int64 the weighted sum is one too |
| `RunningMeans.OptimizedRouter.UpdateMetrics` | core/router/enhanced_router.go:317-351 | Requests = successes + failures, hits + misses = cache lookups + results, the average is the running mean of all latencies, and with other workers' lookups between the two readings the hit rate is at most that of the counters, and equal if and only if no hit fell between or there is no miss |
| `RunningMeans.OptimizedRouter.Lookup` | core/router/enhanced_router.go:492-507 | A lookup in the route cache counts in the same hits and misses |
| `RunningMeans.OptimizedRouter.ProcessRequest` | core/router/enhanced_router.go:240-256 | A processed request makes a lookup exactly when caching is on |
| `RunningMeans.Serve` | core/router/enhanced_router.go:240-351 | Over any run hits + misses = requests recorded if and only if no request was processed while caching was on |
| `RouteMonitors.KeysMeetIff` | core/router/router_monitor.go:304 | Two routes share counters if and only if they are the same route or a colon shifts a part between method and path; never two routes as long as methods hold no colon |
| `RouteMonitors.RouteMetrics.Update` | core/router/router_monitor.go:314-331 | One route's counters become those of its samples with one more |
| `RouteMonitors.RouterMonitor.UpdateRouteMetrics` | core/router/router_monitor.go:300-334 | Each key's counters and mean are exactly those of its own samples; no other route's change |
| `BatchFlush.ConservedFromStart` | core/protocols/websocket/batch_processor.go:401-436 | Every interleaving of the sender, timers and closing: each message added is in the batch, in one flusher's hands or handed to the socket, as often as it was added |
| `BatchFlush.StepConserves` | core/protocols/websocket/batch_processor.go:401-436 | Every step keeps that |
| `BatchOrder.OrderKeptIff` | core/protocols/websocket/batch_processor.go:401-430 | Over any run with distinct messages, they are sent in the order they were added if and only if every flusher that sends took its batch before any other that still holds messages |
| `BatchOrder.OrderLost` | core/protocols/websocket/batch_processor.go:401-430 | Whatever the batch size there is a run in which a later message overtakes an earlier one |
| `BatchFlush.TimerFlushesIff` | core/protocols/websocket/batch_processor.go:401-436 | What is in the batch can be flushed, whole, with no further message and the connection open, if and only if the timer runs or some goroutine is on its way through flushBatch |
| `BatchFlush.CloseFlushes` | core/protocols/websocket/batch_processor.go:401-436 | Closing the connection flushes the batch; on an empty one it only stops the timer |
| `BatchFlush.SleepEndsIff` | core/protocols/websocket/batch_processor.go:401-436 | Once the timer ran out on an empty batch, something can be sent before the connection closes if and only if the messages added, at least one, fill the batch |
| `BatchFlush.SleepFromStart` | core/protocols/websocket/batch_processor.go:401-436 | That is the state after the timer first runs out before any message |
| `BatchFlush.StaysAsleep` | core/protocols/websocket/batch_processor.go:413-436 | Below a whole batch nothing is sent, however long the connection stays open |

## Left out

- PoolMachine: threads and nodes are values in a step machine, not objects, because the claims are about interleavings; Reset on the buffers and nil arguments are not modelled.
- PoolCounting.SizeBound: assumes maxPoolSize + 2T <= 2^64, without which the wrapped counter could read as room.
- BytesBuffers.BytesBuffer.ReadByte: models the test of the array length as it is; Read, ReadFull, Next, SetRPos and SetWPos, which can pass what was written, are not modelled.
- CacheModel.StepKeepsInv: a string's size is its number of characters, so a string stands for its bytes; the memory limit is not negative.
- LruInclusion.LruInclusionHolds: holds without memory pressure only; with it the larger cache may drop what the smaller keeps.
- RouterCaches: Start, Stop, the statistics worker, GetKeys, GetEntries and the pattern invalidation of RouteCache.
- RingRemoval.RemoveMovesOnlyFromNode: needs the removed points to be the node's own; OthersKeepIff and MovesOnlyFromIff say exactly how far that is necessary.
- LoadBalancing.LoadBalancer.SelectNode: weights are reals, without the rounding of floats; the int64 overflow of the round-robin index is not modelled.
- LoadBalancing.RoundRobinFair: concurrent selections take distinct numbers from the atomic counter; that they interleave is not modelled.
- ConnectionPools.ConnectionPool.CleanIdleConnections: models a cleaning alone; ConnectionCleaning has the other calls in between. Health checks depend on network errors and are removals by others there.
- ConnectionPools.ConnectionPool.AddConnection: the new id is a parameter that must be unused, as UUIDs are assumed to be.
- GoroutinePools.TaskFlow: a task that panics ends the program and is not modelled; neither is the average task time.
- GoroutineShutdown.CannotHangIff: says that a return stays possible, not that the scheduler takes it.
- CircuitBreakers.CircuitBreaker.AllowRequest: models one call alone; the step machine interleaves its three critical sections.
- DosProtection.DOSProtector.CheckFingerprint: models one call alone; the step machine interleaves its parts with other calls and the cleanup.
- RunningMeans.OptimizedRouter.UpdateMetrics: latencies are non-negative and sum to an int64, as measured times do.
- BatchOrder.OrderKeptIff: a failed send counts as handed to the socket, as the code does not retry.
- MessageBuses.MessageBus.RouteTargets: models whom a message goes to; filters, handlers, retries and the sends are calls into unseen code. That a connection is active is an input. Partitions, persistence and metrics of the bus are not modelled.
- The radix tree: its split path cannot be reached, so longest-prefix claims would not be about it.
- The router's workers and result matching, the entries of OptimizedRouter's route cache, latency percentiles and efficiency figures: they depend on map order, the clock or placeholders.
- The WebSocket connection limiter, handlers, listeners, TLS, authentication, policies and configuration: I/O, unseen libraries or easy members.
- The Go memory model, mutex internals and garbage collection beyond the assumptions above.
