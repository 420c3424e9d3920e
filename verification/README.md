# shove, modelled in Dafny

shove is a Python object store with a dict-like frontend. A frontend writes
through a cache into a write buffer, flushes the buffer into one or more
backing stores once it holds `sync` entries, and answers reads from the
cache first and from the stores after a flush. This project models that
core as immutable datatypes and pure functions, and proves what the
frontends and caches promise:
- read-your-write, and that a flush drains the buffer;
- deletion, and that closing twice is closing once;
- the replication invariant of the copy dispatcher;
- the TTL bookkeeping and the capacity bound of the caches;
- that an LRU reference count equals the number of the key's tokens in the
  recency queue, and what compaction leaves.

Modules, one per file:

- `Results` (results.dfy): the Python exceptions the core raises, and
  `Ret(state, result)`. A state travels with every error because a Python
  exception does not undo the mutations made before it.
- `Mapping` (mapping.dfy): the dict-backed `Mapping` backend of
  shove/base.py, `Base.__contains__`, `CloseStore.close`, and `dict.update`.
  Also `FromPairs`, the later-write-wins meaning of a sequence of writes.
- `TtlCache` (ttl_cache.dfy): `BaseCache` over a dict (`SimpleCache`):
  - the TTL map `key -> now + timeout`;
  - the random cull down to `max_entries`;
  - one pass of the expiry sweep.
- `LruCache` (lru_cache.dfy): `BaseLRUCache` over a dict (`SimpleLRUCache`):
  - the recency queue and its reference counts;
  - compaction once the queue exceeds four times the capacity;
  - the eviction loop.
- `Caches` (caches.dfy): the cache a frontend is configured with:
  `NullCache`, the TTL cache or the LRU cache.
- `Shove` (shove.dfy): the `Shove` frontend of shove/core.py.
- `Dispatch` (dispatch.dfy): `copy_dispatcher` and `round_robin_dispatch`.
- `MultiShove` (multi_shove.dfy): `MultiShove`, with its placement map
  (`_key_stores_map`).
- `LegacyShove` (legacy_shove.dfy): the older `Shove` of
  trunk/shove/__init__.py, with the mapping methods it inherits from `Base`
  and `BaseStore`: `get`, `__contains__`, `pop`, `popitem`, `setdefault`,
  `update`, `clear`, `__len__` and `__iter__`.

What is not under the program's control is passed in:
- The clock is an integer `now` argument. The source reads `time()`, a float, and its expiries are float sums. The cache only adds a timeout to the clock and compares the result with `<`, so integer ticks stand in for seconds.
- The random cull is a `victims` set, constrained by `TtlCache.IsCull` to
  be a subset of the right size.
- The iteration order of a dict is a choice the proofs quantify over:
  `MultiShove.SyncLoop`, `Mapping.Iter` and `LegacyShove.Keys` hold for
  every order.

After `close` every handle is None. Each later use is modelled with the
exception Python raises on None: TypeError for an index or a length,
AttributeError for a method call.

Where the code and its own tests disagree, the model follows the code. Two
places:
- The round-robin dispatcher returns one bare index, and `MultiShove.sync`
  iterates it. `MultiShove.Sync` therefore raises TypeError on the first
  buffered item, and `MultiShove.RoundRobinSyncFails` states the
  consequence.
- The multi-store tests expect `len` to count per-store copies (15 and 10,
  shove/test/test_multishove.py lines 57 and 111). `__len__` counts placed
  keys, and `MultiShove.Len` follows it.

## Model

| member | source | states |
|---|---|---|
| Mapping.Get | shove/base.py:56-60 | a lookup succeeds exactly for a held key and returns its value; an absent key is KeyError |
| Mapping.Set | shove/base.py:62-63 | afterwards the key reads back the written value, every other key reads as before, and the size grows by one exactly for a new key |
| Mapping.Delete | shove/base.py:65-69 | deletion succeeds exactly for a held key, and then only that key is gone and the size drops by one; an absent key is KeyError |
| Mapping.Contains | shove/base.py:22-28 | membership is true exactly when the lookup would not raise KeyError |
| Mapping.Iter | shove/base.py:71-75 | iteration yields every held key exactly once, as many keys as the length |
| Mapping.Close | shove/base.py:43-49 | closing leaves the store handle None, whatever it was, so closing again is harmless |
| Mapping.Update | shove/core.py:72-75 | the item-by-item update leaves every key of the other mapping with its value there, keeps every other key, and equals the map union |
| Mapping.FromPairsLastWriteWins | trunk/shove/__init__.py:281-295 | writing a sequence of pairs defines exactly the keys written, each with the value of its last write |
| TtlCache.ResetTimeout | shove/cache.py:73-74 | the key's expiry becomes `now + timeout`, every other expiry and every entry stays |
| TtlCache.CullChoiceExists | shove/cache.py:67-71 | whatever the cache holds, the random cull has an outcome: a subset of the keys of exactly the excess size |
| TtlCache.Get | shove/cache.py:52-54 | a lookup resets the key's expiry, even on a miss, and answers the held value or KeyError without changing the entries |
| TtlCache.Cull | shove/cache.py:67-71 | the cull removes exactly the chosen keys from the store and their expiries, keeping the rest unchanged |
| TtlCache.Set | shove/cache.py:56-61 | after a write the cache holds `max_entries` entries or all of them, the new key minus the culled ones, with the written value and a fresh expiry; other expiries stay |
| TtlCache.Delete | shove/cache.py:63-65 | deletion removes the key and its expiry; an absent key is KeyError with nothing changed; a key that only has an expiry keeps it |
| TtlCache.Swept | shove/cache.py:76-83 | one sweep removes every entry whose expiry is before `now`, keeps every other entry, and keeps the expiry of a key the store never held |
| TtlCache.Purge | shove/cache.py:76-83 | the sweep loop over the expired keys, in any order, deleting and swallowing KeyError, ends in `Swept` |
| TtlCache.PurgeStep | shove/cache.py:79-83 | one deletion of the sweep, KeyError swallowed, extends the deleted set by that key and keeps every other entry and expiry |
| TtlCache.ExpiresAfterTimeout | shove/cache.py:56-85 | a written entry is gone after the first sweep later than its timeout |
| TtlCache.MissLeavesExpiryEntry | shove/cache.py:52-54 | a missed lookup records an expiry that no sweep removes |
| LruCache.KeepLast | shove/cache.py:197-206 | the queue reduced to each key's newest token keeps exactly the queued keys, each once, and ends with the newest token |
| LruCache.CompactFromKeepsLast | shove/cache.py:201-206 | the compaction walk appends exactly the newest token of each remaining key, and each count ends as the number of its kept tokens |
| LruCache.CompactKeepsNewest | shove/cache.py:197-206 | compaction leaves each queued key once, in the order of its newest token, with count 1 |
| LruCache.Housekeep | shove/cache.py:194-206 | housekeeping appends the key's token and counts it, compacting only above four times the capacity; every queued token stays counted |
| LruCache.HousekeepKeepsTracked | shove/cache.py:194-206 | housekeeping keeps every count equal to the key's token count, ends the queue with the key, and after compaction every count is 1 |
| LruCache.Evict | shove/cache.py:180-192 | the eviction loop does nothing within capacity, only removes entries, and on success leaves the store within capacity |
| LruCache.EvictPops | shove/cache.py:187-192 | on a valid over-capacity cache the eviction loop has a token to pop, and a stale last token stops it with KeyError, the store untouched |
| LruCache.EvictDecrements | shove/cache.py:187-189 | popping a token of a key with more tokens left keeps the cache valid and the loop goes on |
| LruCache.EvictDeletes | shove/cache.py:187-192 | popping the last token of a stored key deletes it from the store and the counts and keeps the cache valid |
| LruCache.EvictKeepsValid | shove/cache.py:187-192 | on a valid cache the eviction loop never pops an empty queue and on success keeps every count equal to its token count |
| LruCache.EvictDropsCounts | shove/cache.py:189-192 | a key the eviction loop removes from the store has lost its count, i.e. its count reached 0 |
| LruCache.Get | shove/cache.py:167-175 | a lookup counts exactly one hit or one miss; only a hit appends a recency token; the entries do not change |
| LruCache.Set | shove/cache.py:177-192 | a write is the TTL cache's own write, whose cull already reaches capacity, so the eviction loop does not run; culled keys keep their tokens and counts |
| LruCache.EvictTripsOnCulledKey | shove/cache.py:180-192 | on recency data a cull left stale, the eviction loop would raise KeyError |
| Caches.CullFitsExists | shove/cache.py:67-71 | every write to any cache has a cull outcome |
| Caches.Get | shove/cache.py:26-27 | a `NullCache` lookup always raises KeyError; any cache answers exactly its held entries and keeps them |
| Caches.Set | shove/cache.py:29-30 | a `NullCache` write keeps the cache empty; any other cache holds the new key minus the culled ones, with no value it was not given |
| Caches.Delete | shove/cache.py:32-33 | deletion always leaves the key absent; a `NullCache` never raises, other caches raise KeyError for an absent key |
| Caches.NullCacheForgets | shove/cache.py:22-33 | a lookup right after a write to a `NullCache` raises KeyError |
| Shove.Sync | shove/core.py:72-75 | the flush makes the store the old store overridden by the buffer and empties the buffer |
| Shove.SyncIdempotent | shove/core.py:72-75 | a flush keeps the presented mapping and coherence, and a second flush changes nothing |
| Shove.Get | shove/core.py:31-38 | a cache hit answers the cached value and leaves store and buffer alone; a miss flushes and answers from the store or KeyError, and a successful miss writes the value back into the cache; the presented mapping never changes |
| Shove.GetAnswersView | shove/core.py:31-38 | on a coherent frontend a lookup succeeds exactly for a presented key, with its presented value, and keeps coherence |
| Shove.Contains | shove/core.py:31-38 | membership is a lookup that does not raise KeyError, with the lookup's effects |
| Shove.ContainsAnswersView | shove/core.py:31-38 | on a coherent frontend membership is membership in the presented mapping |
| Shove.Set | shove/core.py:40-44 | a write maps the key to the value in the presented mapping; afterwards the buffer is empty or below the threshold, and always empty when the threshold is 1 or less |
| Shove.SetKeepsCoherent | shove/core.py:40-44 | a write keeps the cache in agreement with the presented mapping |
| Shove.Delete | shove/core.py:46-52 | deletion flushes, removes the key from cache and store, and raises KeyError exactly when the key was not presented |
| Shove.DeleteKeepsCoherent | shove/core.py:46-52 | deletion keeps the cache in agreement with the presented mapping |
| Shove.DeleteThenAbsent | shove/core.py:46-52 | after a deletion the key is not contained, on any open frontend, including one whose cache went stale after `clear` |
| Shove.Len | shove/core.py:54-55 | the length is the presented size minus the buffered keys not yet in the store, so it is the presented size exactly when nothing new is buffered |
| Shove.LenIgnoresBuffer | shove/core.py:54-55 | a buffered write is not counted by the length |
| Shove.Iter | shove/core.py:57-59 | iteration flushes and then yields every presented key exactly once |
| Shove.Close | shove/core.py:61-70 | closing keeps the presented mapping as the store's final contents; closing a closed frontend does nothing |
| Shove.CloseIdempotent | shove/core.py:61-70 | closing twice is closing once, and a closed frontend can no longer flush |
| Shove.Clear | shove/core.py:77-79 | clearing empties the presented mapping and leaves the cache as it was |
| Shove.ClearKeepsStaleCache | shove/core.py:77-79 | after clearing, a cached key still answers with its old value, so the frontend is no longer coherent |
| Shove.ReadYourWrite | shove/core.py:31-44 | a written value reads back, before and after an explicit flush, on any open frontend |
| Dispatch.AllIndices | shove/core.py:86-87 | the copy dispatcher's answer lists the indices 0 to n-1 in order |
| Dispatch.Call | shove/core.py:82-100 | the copy dispatcher names every store; the round-robin one names its cursor and moves it on cyclically, and raises StopIteration over no stores |
| Dispatch.RoundRobinCycles | shove/core.py:91-100 | successive round-robin calls yield 0, 1, ..., n-1, 0, ... from where the cycle started |
| Dispatch.CopyIsConstant | shove/core.py:82-88 | the copy dispatcher gives the same full index list on every call |
| MultiShove.Sync | shove/core.py:187-196 | with the copy dispatcher the flush overrides every store with the buffer, places every buffered key on every store and empties the buffer; with round-robin it raises before writing anything |
| MultiShove.WriteEach | shove/core.py:193-194 | each store named by the dispatcher, and only those, gets the key written; an index past the last store is IndexError |
| MultiShove.SyncLoop | shove/core.py:187-196 | the per-item flush loop, in any dict order, ends where `Sync` says |
| MultiShove.FirstHolder | shove/core.py:139-147 | a lookup takes the first placed store that holds the key; KeyError only when no placed store holds it |
| MultiShove.SyncIgnoresCache | shove/core.py:187-196 | a flush neither reads nor writes the cache |
| MultiShove.Get | shove/core.py:133-147 | a cache hit answers the cached value; a miss flushes, then answers from the first placed holder, or KeyError for an unplaced or unheld key; a successful miss writes the value back into the cache |
| MultiShove.Set | shove/core.py:149-153 | a write goes to cache and buffer, and a flush follows exactly when the buffer reaches the threshold |
| MultiShove.DeleteEach | shove/core.py:158-159 | deleting from the placed stores only removes entries, removes no key but `k`, and succeeds only when every placed index names a store holding `k`; any failure is KeyError or IndexError |
| MultiShove.DeleteEachSucceeds | shove/core.py:158-159 | deletion from distinct placed stores that all hold the key succeeds |
| MultiShove.DeleteEachRemoves | shove/core.py:158-159 | a successful deletion leaves the key in exactly the stores that held it and were not placed |
| MultiShove.Unplace | shove/core.py:158-164 | after its flush a deletion removes the key from its stores, its placement and the cache; an unplaced key is KeyError |
| MultiShove.Delete | shove/core.py:155-164 | deletion flushes first, a failing flush aborts it, and the rest is `Unplace` |
| MultiShove.Contains | shove/core.py:166-167 | membership is membership in the placement map |
| MultiShove.Len | shove/core.py:172-173 | the length is the number of placed keys |
| MultiShove.Iter | shove/core.py:169-170 | iteration yields every placed key once, without flushing |
| MultiShove.Close | shove/core.py:175-185 | closing flushes, keeps the placement map and the stores' final contents, and does nothing on a closed frontend |
| MultiShove.RoundRobinSyncFails | shove/core.py:191-195 | with round-robin dispatch a write that reaches the threshold raises TypeError, stays buffered, reaches no store and is not contained |
| MultiShove.BufferedWriteInvisible | shove/core.py:166-173 | a write that stays buffered changes neither membership nor length |
| MultiShove.ObserversAnswerView | shove/core.py:166-173 | on a replicated frontend with nothing buffered, membership and length are those of the presented mapping |
| MultiShove.BufferedKeyReadButNotContained | shove/core.py:133-173 | a new key that stays buffered reads back but is not contained |
| MultiShove.SyncKeepsMirrored | shove/core.py:187-196 | with the copy dispatcher a flush succeeds, keeps every store a replica and keeps the presented mapping and coherence |
| MultiShove.GetAnswersView | shove/core.py:133-147 | on a replicated coherent frontend a lookup answers the presented mapping and keeps it replicated and coherent |
| MultiShove.SetKeepsMirrored | shove/core.py:149-153 | a write to a replicated frontend maps the key to the value in the presented mapping and keeps replication and coherence |
| MultiShove.DeleteKeepsMirrored | shove/core.py:155-164 | deletion from a replicated frontend succeeds exactly for a presented key, removes it from every store and keeps replication and coherence |
| MultiShove.UnplaceKeepsMirrored | shove/core.py:158-164 | after a flush, deletion succeeds exactly for a placed key and removes it from every store |
| MultiShove.DeleteEverywhere | shove/core.py:158-159 | deleting a key every store holds from all stores succeeds and leaves no store holding it |
| MultiShove.ReplicatedReadYourWrite | shove/core.py:133-153 | a written value reads back, and once flushed it is placed on every store and every store holds it |
| LegacyShove.Sync | trunk/shove/__init__.py:345-348 | the flush writes each buffered pair into the store and empties the buffer |
| LegacyShove.SyncIdempotent | trunk/shove/__init__.py:345-348 | a flush keeps the presented mapping and coherence, and a second flush changes nothing |
| LegacyShove.Get | trunk/shove/__init__.py:315-324 | a cache hit answers and changes nothing; a miss flushes, answers from the store or KeyError, and caches the value found |
| LegacyShove.GetAnswersView | trunk/shove/__init__.py:315-324 | on a coherent frontend a lookup succeeds exactly for a presented key, with its value, and keeps coherence |
| LegacyShove.Set | trunk/shove/__init__.py:326-330 | a write maps the key to the value in the presented mapping and the cache, leaves the buffer empty or below the threshold, and keeps coherence |
| LegacyShove.DefaultSyncFlushesSecondWrite | trunk/shove/__init__.py:306-313 | with the default threshold of 2 the first write stays buffered and the second flushes both |
| LegacyShove.Delete | trunk/shove/__init__.py:332-338 | deletion drops the key from the cache, flushes, removes it from the store, and raises KeyError exactly when it was not presented |
| LegacyShove.Keys | trunk/shove/__init__.py:340-343 | listing keys flushes and yields every presented key exactly once |
| LegacyShove.Len | trunk/shove/__init__.py:208-209 | the length flushes and counts the presented mapping |
| LegacyShove.Close | trunk/shove/__init__.py:350-356 | closing keeps the presented mapping as the store's final contents; closing a closed frontend does nothing |
| LegacyShove.CloseIdempotent | trunk/shove/__init__.py:350-356 | closing twice is closing once, and a closed frontend refuses flush, lookup, write and delete |
| LegacyShove.Contains | trunk/shove/__init__.py:141-146 | membership is lookup success, which on a coherent frontend is membership in the presented mapping |
| LegacyShove.GetOr | trunk/shove/__init__.py:148-158 | the lookup with a default answers the presented value, or the default for a missing key |
| LegacyShove.Pop | trunk/shove/__init__.py:245-258 | more than one default raises TypeError before anything else |
| LegacyShove.PopPresent | trunk/shove/__init__.py:245-258 | popping a present key returns its value and removes exactly it |
| LegacyShove.PopMissing | trunk/shove/__init__.py:252-257 | popping a missing key returns the default, or raises KeyError without one, and changes nothing presented |
| LegacyShove.SetDefault | trunk/shove/__init__.py:269-279 | a present key answers its value and nothing changes; a missing key gets the default stored and answered |
| LegacyShove.WriteAll | trunk/shove/__init__.py:288-294 | writing pairs one after another overrides the presented mapping with them, later writes winning |
| LegacyShove.Update | trunk/shove/__init__.py:281-295 | the update writes the other pairs, then the keyword pairs, later writes winning; on a closed frontend only an empty update succeeds |
| LegacyShove.PopItem | trunk/shove/__init__.py:260-267 | popping an item raises KeyError exactly on an empty frontend, and otherwise removes exactly one presented pair and returns it |
| LegacyShove.DeleteEach | trunk/shove/__init__.py:221-223 | deleting distinct held keys one by one removes exactly them from store and cache |
| LegacyShove.Clear | trunk/shove/__init__.py:221-223 | clearing empties the presented mapping and removes every presented key from the cache, so a coherent frontend ends with an empty cache |

## Left out

- Threads and timing:
  - the purge daemon thread and its `sleep`;
  - the `synchronized` locks and the `deepcopy` of `MemoryCache` and `MemoryLRUCache`, which is the identity on model values;
  - `ThreadShove`.
- The file and SQLite backends and caches: filesystem and database I/O.
- Serialisation (`dumps`/`loads`): pickle, zlib and user encoders are foreign calls.
- Backend loading from URIs (`getbackend`, the scheme registries, `store_backend`, `cache_backend`): dynamic loading. Each frontend is built directly from its backend states.
- The `__del__` hook of the older `BaseStore`: garbage collection.
- The cache and store backends of the older tree are not part of this model. `LegacyShove` uses a plain finite map for both, one that never expires or culls.
- TtlCache.Swept: one sweep uses one `now`, where the source reads the clock again for every entry while it lists the expired keys.
- TtlCache.Set: the cull is any subset of the right size, not a uniformly random one.
- Iteration on Python 2 dicts, `iteritems` included: modelled as a choice of order that the proofs quantify over.
- `MultiShove.clear`: it is inherited from the `MutableMapping` ABC (a `popitem` loop over the placement map) and is not part of this model.
- The items/values/iterkeys/`__cmp__`/`__repr__` helpers of the older `BaseStore`: convenience views over `keys()` and lookup.
- Shove.Contains: the newer frontends inherit `__contains__` from the `MutableMapping` ABC; the model gives it the lookup semantics of `Base.__contains__`, as the ABC does.
- LegacyShove.Pop: its contract states only the argument check; what a pop answers and leaves is stated by `PopPresent` and `PopMissing`, for a coherent frontend.
- LruCache.Evict: its own contract states bounds and subsets; that it keeps the reference-count invariant and drops counts is stated by `EvictKeepsValid` and `EvictDropsCounts`.
