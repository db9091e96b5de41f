# tiny-cache: a verified model of the cache engine

The project models the cache engine of tiny-cache and proves what it promises: the in-memory backend
(an ordered dictionary with three limits, TTLs, conditional writes, a byte total and seven counters), the
SQLite backend (recency as a stamp column, two counters kept beside the table), the background expiry
cleaner that works on stale snapshots, and the namespace encoding of the application service.

## How it is organised

| module | role |
|---|---|
| `Types`, `Entries`, `Validation` | values, statuses, entries, limits, key and namespace validation |
| `Order` | filters over sequences without repetitions |
| `MemorySpec`, `MemoryLaws`, `MemoryStore`, `MemoryTheorems` | in-memory backend: its steps as functions, the laws of their parts, the class whose loops are proved against them, its bounds and evictions |
| `SqliteSpec`, `SqliteLaws`, `SqliteStore`, `SqliteTheorems` | the same for SQLite, on any starting table and any tie-breaking |
| `Port`, `MemoryPort`, `SqlitePort` | the contract clients may rely on, and both backends' refinement of it |
| `TtlMap`, `Conservation` | what every run of either backend means: reference map, compare-and-set, leases, counters |
| `Cleaner`, `CleanerThread` | the cleaner as a protocol, and one cycle of the thread on the in-memory class |
| `Recency`, `Inclusion`, `InclusionRuns` | order of last use, working-set guarantee, LRU inclusion |
| `SqliteRecency` | the same order and guarantee for the stamp column |
| `Footprint` | what the byte totals mean in terms of the values held |
| `Simulation`, `SimulationRuns`, `Divergence` | the two backends against each other |
| `Namespace`, `Service` | storage keys and end-to-end isolation of namespaces |

Each lock-delimited critical section is one step. A step takes its clock readings as a parameter
(`Readings`): one for the expiry test, one stamped on a written entry, one stamped on a SQLite row and
one per entry for a purge. Values are byte strings; the size of an entry is a positive overhead plus its
length. Classes update their fields in place and every method states its whole new state through the
function of the specification module that describes the step; the theorems are about those functions.

Three places where the code decides the statements:

- Expiry is `elapsed >= ttl`, as in the code; docs/specification.md:83 says `>`.
- An oversize update of a present key moves it to the recent end in memory and leaves its stamp in
  SQLite. The backends therefore agree exactly while no such update hits a key other than the most
  recent one (`BackendsMatchExactly`); every such update can be made visible (`EveryDivergenceShows`), and
  `BackendsCanDisagree` is a run of five calls that does so.
- An un-namespaced key can spell the encoding of a namespaced one (`PlainKeyCanSpellAnEncoding`), so
  namespaces are isolated from each other but not from the shared keyspace. `StorageKeysCollideExactly`
  says when two requests meet, `IsolatedExactly` when that can be seen: the condition is about one
  identity, and other identities that collide with each other do not matter to it.

## Model

| member | source | states |
|---|---|---|
| Entries.ExpiryIsFinal | tiny_cache/infrastructure/memory_store_models.py:15-24 | an entry expires at creation plus its time-to-live if that is positive, and otherwise never; not at the reading that created it, and once expired for good |
| Entries.Resolve | tiny_cache/infrastructure/memory_store_models.py:44-86 | limits resolve exactly when every given value is at least 1, to the given values or their defaults, with the value limit capped at the memory limit; otherwise the first unusable one is named |
| Entries.DefaultLimits | tiny_cache/infrastructure/memory_store_models.py:9-11 | the limits when nothing is given, in figures |
| MemoryStore.CacheStore.EvictLru | tiny_cache/infrastructure/memory_store.py:236-244 | removes exactly the least recent entry and counts it, or reports an empty store |
| MemoryStore.CacheStore.EvictToFit | tiny_cache/infrastructure/memory_store.py:246-253 | the byte-eviction loop removes the prefix `BytesDrop` at once and says whether the entry now fits |
| MemoryStore.CacheStore.EvictToCount | tiny_cache/infrastructure/memory_store.py:124-129 | the count-eviction loop continues it to the larger of the two prefixes, or empties the store |
| MemoryStore.CacheStore.StoreValue | tiny_cache/infrastructure/memory_store.py:97-134 | a write with both loops and all three rollbacks is the single effect `Put` |
| MemoryStore.CacheStore.Get | tiny_cache/infrastructure/memory_store.py:136-151 | hit, miss and expired miss are the specified step |
| MemoryStore.CacheStore.Set | tiny_cache/infrastructure/memory_store.py:153-158 | the specified step, invalid keys included |
| MemoryStore.CacheStore.SetIfAbsent | tiny_cache/infrastructure/memory_store.py:160-174 | the specified step, dropping an expired entry first |
| MemoryStore.CacheStore.CompareAndSet | tiny_cache/infrastructure/memory_store.py:176-199 | the specified step, for all of its five endings |
| MemoryStore.CacheStore.Delete | tiny_cache/infrastructure/memory_store.py:201-212 | removes the entry without testing expiry and reports whether there was one |
| MemoryStore.CacheStore.RemoveExpiredEntries | tiny_cache/infrastructure/memory_store.py:219-224 | collecting the expired keys and removing them one by one is one exact purge |
| MemoryStore.CacheStore.Stats | tiny_cache/infrastructure/memory_store.py:255-273 | purges, then reports size, bytes, counters and limits |
| MemoryLaws.BytesDropIsLeast | tiny_cache/infrastructure/memory_store.py:246-253 | the byte loop stops at the least prefix that frees the excess |
| MemoryTheorems.StoreEvictsTheLeastPrefix | tiny_cache/infrastructure/memory_store.py:116-134 | an admitted write leaves the old order without its key, minus the shortest prefix that makes both bytes and (new keys only) count fit, plus the key; nothing else changes |
| MemoryTheorems.ExhaustedExactly | tiny_cache/infrastructure/memory_store.py:116-129 | under any limits, capacity is exhausted exactly when value and overhead exceed the memory limit or a new key meets a store without slots; all else has then been evicted and counted and the old entry is back |
| MemoryLaws.FitOrEmpty | tiny_cache/infrastructure/memory_store.py:246-253 | byte eviction makes room exactly when the value alone is within the memory limit, and otherwise empties the store |
| MemoryTheorems.OversizeFrame | tiny_cache/infrastructure/memory_store.py:109-114 | a value is refused exactly when its length plus the overhead exceeds the value limit; entries and bytes stay, nothing is evicted, only the written key moves to the recent end |
| MemoryTheorems.StepKeepsBounds | tiny_cache/infrastructure/memory_store.py:97-285 | every step of every operation keeps the byte total exact and all three limits, and never reports exhausted capacity |
| MemoryTheorems.RunKeepsBounds | tiny_cache/infrastructure/memory_store.py:54-67 | the same over every run from construction, with `rejectedCapacity` 0 throughout |
| MemoryTheorems.PurgeIsExact | tiny_cache/infrastructure/memory_store.py:219-224 | a purge removes an entry exactly when the reading made for it is at or past its creation plus its time-to-live; so nothing expired at the first reading stays, nothing live at the last goes; the survivors keep their order, and bytes and `expiredRemovals` move by what left |
| MemoryTheorems.StatsAreExact | tiny_cache/infrastructure/memory_store.py:255-273 | statistics describe the purged store: its number of entries, the sum of their sizes, its counters, hits over lookups or 0 as hit rate, within the limits they name |
| Footprint.MemoryStatsWeigh | tiny_cache/infrastructure/memory_store.py:255-273 | in every run the reported memory usage is the overhead times the number of entries held plus the lengths of their values |
| Recency.OrderIsLastUse | tiny_cache/infrastructure/memory_store.py:131-151 | after every prefix of every run the dictionary order is the order of last use |
| Recency.EvictedOnlyWhenFull | tiny_cache/infrastructure/memory_store.py:116-134 | in every run an entry is evicted only if it, the entries used since and the incoming one together exceed a limit |
| Inclusion.StepKeepsInclusion | tiny_cache/infrastructure/memory_store.py:97-285 | one step of two stores with n <= m slots keeps the small one inside the large one |
| InclusionRuns.LruInclusion | tiny_cache/infrastructure/memory_store.py:97-151 | over every run without `set_if_absent` and with memory not binding, the small order is the large one with keys left out, entries equal, sizes within m - n |
| InclusionRuns.HitsAreIncluded | tiny_cache/infrastructure/memory_store.py:136-151 | every hit of the small store is a hit with the same value in the large one |
| InclusionRuns.InclusionExactly | tiny_cache/infrastructure/memory_store.py:160-174 | with `set_if_absent` the inclusion holds throughout a run exactly when no such call finds a key live in the large store that the small one has lost |
| InclusionRuns.InclusionCanFail | tiny_cache/infrastructure/memory_store.py:160-174 | such a call is reachable: three calls from empty stores, the last `set_if_absent` stored with one slot and EXISTS with two, after which inclusion fails |
| Port.StepAtKey | tiny_cache/application/ports.py:9-32 | what one step may do to one key: write it, leave it, or take it out by delete, clear, eviction or expiry |
| Port.RefusedExactly | tiny_cache/domain/validation.py:10-16 | exactly the client calls whose key is empty or longer than 256 characters are refused as invalid, and they change nothing |
| Port.OversizeExactly | tiny_cache/infrastructure/memory_store.py:109-114 | a write that gets as far as storing answers VALUE_TOO_LARGE if its length plus the overhead exceeds the value limit, and stores otherwise |
| MemoryPort.StepKeepsContract | tiny_cache/infrastructure/memory_store.py:136-285 | every step of the in-memory backend is allowed by the port's contract |
| MemoryPort.MemoryRunsAreRuns | tiny_cache/infrastructure/memory_store.py:136-285 | every run of a new in-memory store is a run of the port |
| SqlitePort.StepKeepsContract | tiny_cache/infrastructure/sqlite_store.py:282-386 | every step of the SQLite backend is allowed by the port's contract |
| SqlitePort.SqliteRunsAreRuns | tiny_cache/infrastructure/sqlite_store.py:282-386 | every SQLite run, on any table and with any tie-breaking, is a run of the port that starts from the entries found on opening |
| SqlitePort.PersistedTtlIsExact | tiny_cache/infrastructure/sqlite_store.py:118-128 | after opening, an undisturbed persisted row is answered exactly until its creation plus its time-to-live, and for ever if that is absent or not positive |
| TtlMap.HoldsOnlyLastWrites | tiny_cache/infrastructure/memory_store.py:92-207 | in every run each stored entry is the last successful write to its key since its last delete or clear, or a persisted entry not written or deleted since opening |
| TtlMap.GetReturnsLastWrite | tiny_cache/infrastructure/memory_store.py:136-151 | `get` answers nothing or exactly that value while it is unexpired |
| TtlMap.WithoutEvictionGetIsExact | tiny_cache/infrastructure/memory_store.py:136-151 | while nothing has been evicted, `get` answers exactly what the unbounded TTL map holds, until creation plus time-to-live |
| TtlMap.TtlIsExact | tiny_cache/infrastructure/memory_store.py:92-95 | in every run, a value written with time-to-live s at c and not overwritten, deleted, cleared or evicted since is answered exactly while the clock reads less than c + s, and for ever if s is absent or not positive |
| TtlMap.NoLostUpdate | tiny_cache/infrastructure/memory_store.py:176-199 | every STORED compare-and-set expected exactly the value of the preceding successful write |
| TtlMap.SwapsAreCounted | tiny_cache/infrastructure/memory_store.py:176-199 | under any interleaving of read-then-swap updates the value is the first one updated once per STORED result |
| TtlMap.LeaseExclusion | tiny_cache/infrastructure/memory_store.py:160-174 | between two STORED set-if-absent results on a key it was deleted, cleared, evicted or expired |
| Conservation.BooksBalance | tiny_cache/infrastructure/memory_store.py:97-285 | in every run size = insertions (entries found on opening included) - evictions - expiries - deletes, hits = answered gets, hits + misses = gets, refusals are counted, capacity never |
| Conservation.HitRateIsExact | tiny_cache/infrastructure/memory_store.py:258-268 | in every run the reported hit rate is the share of gets answered with a value since opening or the last clear, and 0 if there was no get |
| SqliteStore.SqliteCacheStore.constructor | tiny_cache/infrastructure/sqlite_store.py:106-116 | opening any table loads its exact count and byte sum |
| SqliteStore.SqliteCacheStore.EvictToFit | tiny_cache/infrastructure/sqlite_store.py:239-246 | the byte-eviction loop over oldest rows is its recursive description |
| SqliteStore.SqliteCacheStore.StoreValue | tiny_cache/infrastructure/sqlite_store.py:248-280 | a write with both loops and the row restored on refusal is the single effect `Put` |
| SqliteStore.SqliteCacheStore.Get | tiny_cache/infrastructure/sqlite_store.py:282-300 | hit (with its new stamp), miss and expired miss are the specified step |
| SqliteStore.SqliteCacheStore.SetIfAbsent | tiny_cache/infrastructure/sqlite_store.py:308-323 | the specified step, dropping an expired row first |
| SqliteStore.SqliteCacheStore.CompareAndSet | tiny_cache/infrastructure/sqlite_store.py:325-347 | the specified step, for all of its five endings |
| SqliteStore.SqliteCacheStore.RemoveExpiredEntries | tiny_cache/infrastructure/sqlite_store.py:192-201 | walking the rows in any order is one exact purge |
| SqliteTheorems.PutStores | tiny_cache/infrastructure/sqlite_store.py:227-280 | an admitted write evicts oldest stamps first, keeps no row it could have kept more cheaply (the newest evicted row would not fit back), and ends within the byte limit and, for a new key, the item limit |
| SqliteTheorems.OversizeFrame | tiny_cache/infrastructure/sqlite_store.py:255-263 | a value is refused exactly when its length plus the overhead exceeds the value limit, and that changes nothing but its counter: every row keeps its stamp |
| SqliteTheorems.ExhaustedRestores | tiny_cache/infrastructure/sqlite_store.py:265-270 | under any limits, a value above the whole memory limit empties the table of all other rows, counted, and the old row is back with its stamp |
| SqliteTheorems.NoSlotsExhaust | tiny_cache/infrastructure/sqlite_store.py:272-277 | a new key in a store without slots evicts and counts every row and is refused |
| SqliteTheorems.CountersStayExact | tiny_cache/infrastructure/sqlite_store.py:106-116 | opened on any table, both counters agree with the table after every step and no call is refused for capacity |
| SqliteTheorems.LimitsRecover | tiny_cache/infrastructure/sqlite_store.py:239-280 | on a table over its limits, the byte limit holds for good from the first store on, and the item limit from the first store of a new key on |
| SqliteRecency.StampIsLastUse | tiny_cache/infrastructure/sqlite_store.py:282-300 | after every prefix of every run, on any starting table, a row is stamped with the reading of its last hit or store; one not used since opening is the persisted row |
| SqliteRecency.EvictedOnlyWhenFull | tiny_cache/infrastructure/sqlite_store.py:227-280 | in every run a row is evicted only if it, the rows stamped since and the incoming one together exceed a limit |
| Footprint.SqliteStatsWeigh | tiny_cache/infrastructure/sqlite_store.py:354-372 | in every run, on any table whose size column is right, the reported memory usage is the overhead times the number of rows plus the lengths of their values |
| Simulation.StepAgrees | tiny_cache/infrastructure/sqlite_store.py:227-372 | one step of matched backends gives the same result and keeps them matched exactly when it is not an oversize update of a key other than the most recent one |
| SimulationRuns.BackendsMatchExactly | tiny_cache/infrastructure/sqlite_store.py:227-372 | with strictly increasing stamps the backends stay matched over a run (order = table sorted by stamp) exactly when no step of it is such an update |
| SimulationRuns.BackendsGiveSameResults | tiny_cache/infrastructure/sqlite_store.py:282-372 | on such a run every call, statistics included, gets the same result from both |
| SimulationRuns.DivergenceIsVisible | tiny_cache/infrastructure/sqlite_store.py:156-174 | in any full matched pair, refusing an oversize write over the oldest key and then storing a new key leaves that key in memory and evicts it from the table |
| SimulationRuns.BackendsCanDisagree | tiny_cache/infrastructure/sqlite_store.py:156-174 | five calls from empty stores after which `get` hits in memory and misses in SQLite |
| Divergence.EveryDivergenceShows | tiny_cache/infrastructure/sqlite_store.py:156-174 | no divergence is invisible: any run on which the backends agree up to a last, diverging step can be continued to a call they answer differently, as long as there are as many valid keys as the store has slots |
| Cleaner.LiveEntriesSurvive | tiny_cache/infrastructure/memory_store.py:226-234 | over any stretch of any interleaving, an entry that no client takes out and that has not expired by its end is still there, however stale the snapshot |
| Cleaner.FinishedCycleIsComplete | tiny_cache/infrastructure/memory_store_cleanup.py:28-41 | whatever clients do between its steps, a finished cycle leaves no snapshot entry that it found expired or that had expired at snapshot time |
| Cleaner.CycleClearsTheExpired | tiny_cache/infrastructure/memory_store_cleanup.py:28-41 | a key expired when the cycle's snapshot was taken is gone when the cycle ends unless a client wrote it anew since |
| Cleaner.CycleEndsInTime | tiny_cache/infrastructure/memory_store_cleanup.py:28-41 | a cycle over k snapshot entries is over after at most 2k + 2 cleaner steps and is never stuck before, however many client steps intervene |
| CleanerThread.ExpiredEntryCleaner.RunOnce | tiny_cache/infrastructure/memory_store_cleanup.py:28-41 | the thread's cycle on the in-memory class, with the calls of any schedule of other threads let in, is a behaviour of the protocol from snapshot to idle in which the clients make exactly these calls: every entry expired at its start is gone, every entry unexpired at its end and not taken out by a client is there |
| Validation.NormalisationIsIdempotent | tiny_cache/domain/validation.py:19-34 | an accepted namespace normalises to itself and matches the pattern |
| Validation.ValidateNamespaceExactly | tiny_cache/domain/validation.py:19-34 | no namespace exactly when none is given or it is blank; accepted as n exactly when it is n padded with whitespace and n matches the pattern in at most 64 characters; otherwise refused for length or form |
| Validation.PatternExactly | tiny_cache/domain/validation.py:7 | the pattern character by character: a letter or digit, then any of the alphabet |
| Validation.CharactersExactly | tiny_cache/domain/validation.py:7-25 | alphabet and whitespace by code point |
| Namespace.DecodeEncode | tiny_cache/application/service.py:20-32 | the storage key of a namespaced request can be read back into namespace and key |
| Namespace.StorageKeyExactly | tiny_cache/application/service.py:20-32 | the exact outcome, errors in their order: the key alone without a namespace; with one, its length in decimal, the namespace and the key if that is at most 256 characters |
| Namespace.StorageKeysAreValid | tiny_cache/application/service.py:20-32 | every storage key passes the store's own key check |
| Namespace.StorageKeysCollideExactly | tiny_cache/application/service.py:20-32 | two accepted requests share a storage key exactly when namespace and key agree, or one is un-namespaced and spells the other's encoding |
| Namespace.PlainKeyCanSpellAnEncoding | tiny_cache/application/service.py:24-25 | a concrete collision between the shared keyspace and a namespace |
| Service.FailsForItsKeyOnly | tiny_cache/application/service.py:34-80 | a request is answered with an error before the store exactly when it has no storage key, and with that error |
| Service.ReadsSeeOnlyTheirNamespace | tiny_cache/application/service.py:34-80 | in every run, reopened stores included, a read answers nothing or the last successful write that named the same namespace and key, unless an earlier un-namespaced key spells that very identity or is spelt by it |
| Service.IsolatedExactly | tiny_cache/application/service.py:20-35 | for any set of identities in use, and limits that admit at least an empty value, all runs isolate the reads of one of them if and only if no un-namespaced key among them is literally the encoding of it, or it of theirs; otherwise a new in-memory store leaks in two calls |
| Service.SwapsSeeOnlyTheirNamespace | tiny_cache/application/service.py:61-77 | under the same condition a STORED compare-and-set replaced the last successful write that named the same namespace and key, and expected its value |
| Service.OthersCanOnlyEvict | tiny_cache/application/service.py:34-80 | over any stretch of any run, requests of other identities that do not spell this one leave its entry as it is or lose it to eviction or expiry, never change it |

## Left out

- gRPC servicer, batch mapping, interceptors, HTTP health application, CLI, TLS, logging and environment parsing: plumbing around the engine.
- SQLite itself (SQL text, WAL, busy timeout, crashes inside a transaction, several processes on one file): the table is a map; which of several equally old rows is chosen is arbitrary but fixed within one operation.
- RunOnce: is proved on the in-memory class only; over SQLite the cleaner is covered by the protocol in `Cleaner`, which is about either backend.
- Thread start and join, the stop event and its timeouts, and the logging of exceptions in the cleaner: only the lock-delimited steps are modelled.
- Rounding of `hit_rate`: it is an exact quotient.
- Rounding of clock readings and of elapsed times: readings are real numbers; wall-clock jumps and the reset of the monotonic clock for persisted rows across reboots are not modelled.
- `isinstance` checks: the types of the model make them.
- Re-assigning `value` on a `CacheEntry`: only its constructor does so, so an entry is a value.
- LruInclusion: assumes that m + 1 values of the greatest admitted size fit the byte limit, so that only the item limits evict.
