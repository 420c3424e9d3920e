/** The cache a frontend is configured with (shove/cache.py): `NullCache`,
    which never holds anything, the TTL cache (`SimpleCache`, `MemoryCache`),
    or the LRU cache (`SimpleLRUCache`, `MemoryLRUCache`).

    A frontend sees a cache only through lookup, store and delete, so this
    module states each of them in terms of the entries the cache holds.
 */
module Caches {
  import opened Results
  import TtlCache
  import LruCache

  datatype Cache<K, V> =
    | NullCache
    | Simple(ttl: TtlCache.Cache<K, V>)
    | Lru(lru: LruCache.Cache<K, V>)

  /** The entries the cache currently holds. */
  function Contents<K(!new), V>(c: Cache<K, V>): map<K, V> {
    match c
    case NullCache => map[]
    case Simple(t) => t.store
    case Lru(l) => l.base.store
  }

  /** `_max_entries`; a `NullCache` has no capacity to speak of. */
  function Capacity<K, V>(c: Cache<K, V>): nat {
    match c
    case NullCache => 0
    case Simple(t) => t.maxEntries
    case Lru(l) => l.base.maxEntries
  }

  ghost predicate Valid<K(!new), V>(c: Cache<K, V>) {
    match c
    case NullCache => true
    case Simple(t) => TtlCache.Valid(t)
    case Lru(l) => LruCache.Valid(l)
  }

  /** `victims` is an outcome the random cull of storing `k` in `c` can have
      (a `NullCache` culls nothing and takes any). */
  predicate CullFits<K(!new), V>(c: Cache<K, V>, k: K, victims: set<K>) {
    match c
    case NullCache => true
    case _ => TtlCache.IsCull(Contents(c).Keys + {k}, Capacity(c), victims)
  }

  /** Whatever the cache holds, storing a key has some cull outcome. */
  lemma CullFitsExists<K(!new), V>(c: Cache<K, V>, k: K)
    ensures exists victims :: CullFits(c, k, victims)
  {
    if c.NullCache? {
      assert CullFits(c, k, {});
    } else {
      TtlCache.CullChoiceExists(Contents(c).Keys + {k}, Capacity(c));
      var victims :| TtlCache.IsCull(Contents(c).Keys + {k}, Capacity(c), victims);
      assert CullFits(c, k, victims);
    }
  }

  /** `cache[k]`: the held value, or KeyError; the held entries do not change
      (only expiry and recency bookkeeping does). `NullCache.__getitem__`
      always raises. */
  function Get<K(!new), V>(c: Cache<K, V>, k: K, now: int): (r: Ret<Cache<K, V>, V>)
    requires Valid(c)
    ensures Valid(r.state)
    ensures Contents(r.state) == Contents(c) && Capacity(r.state) == Capacity(c)
    ensures r.state.NullCache? == c.NullCache?
    ensures r.result.Ok? <==> k in Contents(c)
    ensures r.result.Ok? ==> r.result.value == Contents(c)[k]
    ensures r.result.Err? ==> r.result.error == KeyError
    ensures c.NullCache? ==> r.result == Err(KeyError)
  {
    match c
    case NullCache => Ret(c, Err(KeyError))
    case Simple(t) =>
      var g := TtlCache.Get(t, k, now);
      Ret(Simple(g.state), g.result)
    case Lru(l) =>
      var g := LruCache.Get(l, k, now);
      Ret(Lru(g.state), g.result)
  }

  /** `cache[k] = v`: never raises. Afterwards the cache holds `k` with `v`
      unless the cull picked `k`, and nothing it did not hold before; a
      `NullCache` ignores the write. */
  function Set<K(!new), V>(c: Cache<K, V>, k: K, v: V, now: int, victims: set<K>): (r: Cache<K, V>)
    requires Valid(c) && CullFits(c, k, victims)
    ensures Valid(r) && Capacity(r) == Capacity(c)
    ensures r.NullCache? == c.NullCache?
    ensures c.NullCache? ==> Contents(r) == map[]
    ensures !c.NullCache? ==> Contents(r).Keys == (Contents(c).Keys + {k}) - victims
    ensures forall j :: j in Contents(r) ==> j in Contents(c)[k := v] && Contents(r)[j] == Contents(c)[k := v][j]
  {
    match c
    case NullCache => c
    case Simple(t) => Simple(TtlCache.Set(t, k, v, now, victims))
    case Lru(l) => Lru(LruCache.Set(l, k, v, now, victims).state)
  }

  /** `del cache[k]`: a TTL or LRU cache removes `k` (through
      `BaseCache.__delitem__`, leaving LRU recency data alone) and raises
      KeyError when it does not hold it; `NullCache` never raises. Either way
      `k` is no longer held and nothing else changes. */
  function Delete<K(!new), V>(c: Cache<K, V>, k: K): (r: Ret<Cache<K, V>, ()>)
    requires Valid(c)
    ensures Valid(r.state)
    ensures r.state.NullCache? == c.NullCache?
    ensures Contents(r.state) == Contents(c) - {k} && Capacity(r.state) == Capacity(c)
    ensures r.result.Err? ==> r.result.error == KeyError
    ensures r.result.Ok? <==> c.NullCache? || k in Contents(c)
  {
    match c
    case NullCache => Ret(c, Ok(()))
    case Simple(t) =>
      var d := TtlCache.Delete(t, k);
      Ret(Simple(d.state), d.result)
    case Lru(l) =>
      var d := TtlCache.Delete(l.base, k);
      Ret(Lru(l.(base := d.state)), d.result)
  }

  /** A `NullCache` forgets a write at once: the lookup that follows raises
      KeyError. */
  lemma NullCacheForgets<K(!new), V>(k: K, v: V, now: int, victims: set<K>)
    ensures var c: Cache<K, V> := NullCache;
      Get(Set(c, k, v, now, victims), k, now).result == Err(KeyError)
  {
  }
}
