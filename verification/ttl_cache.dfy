/** `BaseCache` over a dict store, i.e. `SimpleCache` (shove/cache.py): a
    bounded cache whose entries carry an absolute expiry time.

    The clock is an explicit `now` argument in whole ticks. The random cull of
    `_cull` (`random.sample`) is an explicit argument too: the set of keys the
    sample picked, constrained by `IsCull` to what `random.sample` can return.
    `MemoryCache` is the same cache behind a lock with a copy-on-read, which on
    immutable model values is the identity.
 */
module TtlCache {
  import opened Results
  import Mapping

  /** The stored entries, the expiry map `_key_ttl_map`, `_max_entries` and
      `_key_timeout`. */
  datatype Cache<K, V> = Cache(store: map<K, V>, ttl: map<K, int>, maxEntries: nat, timeout: int)

  /** Every stored key has an expiry entry. A fresh cache has neither; every
      operation below keeps it. */
  ghost predicate Valid<K(!new), V>(c: Cache<K, V>) {
    c.store.Keys <= c.ttl.Keys
  }

  /** `ttl` is the expiry map of `c` with `k` set to expire at `now + timeout`
      and every other expiry left as it was. */
  ghost predicate ExpiryReset<K(!new), V>(c: Cache<K, V>, ttl: map<K, int>, k: K, now: int) {
    && k in ttl && ttl[k] == now + c.timeout
    && (forall j :: j != k ==> (j in ttl <==> j in c.ttl))
    && (forall j :: j != k && j in c.ttl ==> ttl[j] == c.ttl[j])
  }

  /** `_reset_timeout`. */
  function ResetTimeout<K(!new), V>(c: Cache<K, V>, k: K, now: int): (r: Cache<K, V>)
    ensures r.store == c.store && r.maxEntries == c.maxEntries && r.timeout == c.timeout
    ensures ExpiryReset(c, r.ttl, k, now)
    ensures Valid(c) ==> Valid(r)
  {
    c.(ttl := c.ttl[k := now + c.timeout])
  }

  /** The key sets `random.sample(list(self), len(self) - max_entries)` can
      return for a cache holding `keys`: that many distinct stored keys when
      over capacity. Below capacity `_cull` is not called, so nothing is picked. */
  predicate IsCull<K(!new)>(keys: set<K>, maxEntries: nat, victims: set<K>) {
    && victims <= keys
    && |victims| == if |keys| > maxEntries then |keys| - maxEntries else 0
  }

  /** Some `n` keys of `keys`: the deterministic stand-in for one outcome of
      `random.sample`. */
  ghost function Sample<K(!new)>(keys: set<K>, n: nat): (s: set<K>)
    requires n <= |keys|
    ensures s <= keys && |s| == n
    decreases n
  {
    if n == 0 then {}
    else
      var x :| x in keys;
      {x} + Sample(keys - {x}, n - 1)
  }

  /** Whatever the cache holds, the random cull has an outcome, so `IsCull`
      never stops a `__setitem__`. */
  lemma CullChoiceExists<K(!new)>(keys: set<K>, maxEntries: nat)
    ensures exists victims :: IsCull(keys, maxEntries, victims)
  {
    var n := if |keys| > maxEntries then |keys| - maxEntries else 0;
    var victims := Sample(keys, n);
    assert IsCull(keys, maxEntries, victims);
  }

  lemma CardDiff<K>(a: set<K>, b: set<K>)
    requires b <= a
    ensures |a - b| == |a| - |b|
  {
    assert a == (a - b) + b;
    assert (a - b) * b == {};
  }

  /** `BaseCache.__getitem__`: the expiry of `k` is reset before the lookup,
      so even a lookup that raises KeyError records an expiry for `k`. */
  function Get<K(!new), V>(c: Cache<K, V>, k: K, now: int): (r: Ret<Cache<K, V>, V>)
    ensures r.state.store == c.store && r.state.maxEntries == c.maxEntries && r.state.timeout == c.timeout
    ensures ExpiryReset(c, r.state.ttl, k, now)
    ensures r.result.Ok? <==> k in c.store
    ensures r.result.Ok? ==> r.result.value == c.store[k]
    ensures r.result.Err? ==> r.result.error == KeyError
    ensures Valid(c) ==> Valid(r.state)
  {
    var reset := ResetTimeout(c, k, now);
    Ret(reset, Mapping.Get(reset.store, k))
  }

  /** `_cull` applied to chosen `victims`: each goes through
      `BaseCache.__delitem__`, which removes it from the store and from the
      expiry map. */
  function Cull<K(!new), V>(c: Cache<K, V>, victims: set<K>): (r: Cache<K, V>)
    requires Valid(c) && victims <= c.store.Keys
    ensures Valid(r) && r.maxEntries == c.maxEntries && r.timeout == c.timeout
    ensures r.store.Keys == c.store.Keys - victims && r.ttl.Keys == c.ttl.Keys - victims
    ensures forall j :: j in r.store ==> r.store[j] == c.store[j]
    ensures forall j :: j in r.ttl ==> r.ttl[j] == c.ttl[j]
  {
    c.(store := c.store - victims, ttl := c.ttl - victims)
  }

  /** `BaseCache.__setitem__`: reset the expiry of `k`, store `v`, then, when
      over capacity, cull exactly the excess, at random. Afterwards the cache
      is within capacity, holds nothing it was not given, and keeps `k` unless
      the cull picked it. */
  function Set<K(!new), V>(c: Cache<K, V>, k: K, v: V, now: int, victims: set<K>): (r: Cache<K, V>)
    requires Valid(c)
    requires IsCull(c.store.Keys + {k}, c.maxEntries, victims)
    ensures Valid(r) && r.maxEntries == c.maxEntries && r.timeout == c.timeout
    ensures |r.store| <= c.maxEntries || |r.store| == |c.store.Keys + {k}|
    ensures |r.store| == if |c.store.Keys + {k}| > c.maxEntries then c.maxEntries else |c.store.Keys + {k}|
    ensures r.store.Keys == (c.store.Keys + {k}) - victims
    ensures forall j :: j in r.store ==> r.store[j] == if j == k then v else c.store[j]
    ensures forall j :: j in r.ttl <==> (j in c.ttl || j == k) && j !in victims
    ensures k in r.ttl ==> r.ttl[k] == now + c.timeout
    ensures forall j :: j in r.ttl && j != k ==> r.ttl[j] == c.ttl[j]
  {
    var reset := ResetTimeout(c, k, now);
    var stored := reset.(store := Mapping.Set(reset.store, k, v));
    assert stored.store.Keys == c.store.Keys + {k};
    CardDiff(c.store.Keys + {k}, victims);
    if |stored.store| > c.maxEntries then Cull(stored, victims) else stored
  }

  /** `BaseCache.__delitem__`: the store deletion comes first, so an absent
      key raises KeyError before the expiry map is touched. */
  function Delete<K(!new), V>(c: Cache<K, V>, k: K): (r: Ret<Cache<K, V>, ()>)
    ensures r.state.maxEntries == c.maxEntries && r.state.timeout == c.timeout
    ensures r.result.Ok? <==> k in c.store && k in c.ttl
    ensures r.result.Err? ==> r.result.error == KeyError
    ensures k !in c.store ==> r.state == c
    ensures r.state.store.Keys == c.store.Keys - {k}
    ensures forall j :: j in r.state.store ==> r.state.store[j] == c.store[j]
    ensures k in c.store ==> r.state.ttl.Keys == c.ttl.Keys - {k}
    ensures forall j :: j in r.state.ttl ==> j in c.ttl && r.state.ttl[j] == c.ttl[j]
    ensures Valid(c) ==> Valid(r.state)
  {
    match Mapping.Delete(c.store, k)
    case Err(e) => Ret(c, Err(e))
    case Ok(store) =>
      if k in c.ttl then Ret(c.(store := store, ttl := c.ttl - {k}), Ok(()))
      else Ret(c.(store := store), Err(KeyError))
  }

  /** The keys whose expiry time is strictly before `now`. */
  function Expired<K(!new), V>(c: Cache<K, V>, now: int): set<K> {
    set k | k in c.ttl && c.ttl[k] < now
  }

  /** The cache one pass of `_purge_daemon_loop` leaves at time `now`.
      Expired stored keys are gone from store and expiry map; everything not
      expired is untouched. An expired key that is not stored makes the store
      deletion raise before its expiry entry is removed, and the pass swallows
      that KeyError, so such an entry stays behind. */
  function Swept<K(!new), V>(c: Cache<K, V>, now: int): (r: Cache<K, V>)
    ensures r.maxEntries == c.maxEntries && r.timeout == c.timeout
    ensures forall k :: k in c.ttl && c.ttl[k] < now ==> k !in r.store
    ensures forall k :: k in c.store && (k !in c.ttl || c.ttl[k] >= now) ==> k in r.store
    ensures forall k :: k in r.store ==> k in c.store && r.store[k] == c.store[k]
    ensures forall k :: k in c.ttl && (c.ttl[k] >= now || k !in c.store) ==> k in r.ttl
    ensures forall k :: k in c.ttl && k in c.store && c.ttl[k] < now ==> k !in r.ttl
    ensures forall k :: k in r.ttl ==> k in c.ttl && r.ttl[k] == c.ttl[k]
    ensures Valid(c) ==> Valid(r)
  {
    var gone := Expired(c, now) * c.store.Keys;
    c.(store := c.store - gone, ttl := c.ttl - gone)
  }

  /** One pass of `_purge_daemon_loop`, as the source runs it: collect the
      expired keys, then delete them one by one through `__delitem__`,
      swallowing KeyError. The pass never raises, and whatever order the keys
      come in it leaves the cache `Swept` describes. */
  method Purge<K(!new), V>(c: Cache<K, V>, now: int) returns (r: Cache<K, V>)
    ensures r == Swept(c, now)
  {
    var expired := set k | k in c.ttl && c.ttl[k] < now;
    r := c;
    var todo := expired;
    while todo != {}
      invariant todo <= expired
      invariant PurgedSoFar(c, r, expired - todo)
      decreases todo
    {
      var k :| k in todo;
      PurgeStep(c, r, expired - todo, k);
      assert expired - (todo - {k}) == (expired - todo) + {k};
      r := Delete(r, k).state;
      todo := todo - {k};
    }
    assert expired == Expired(c, now);
    SweptByParts(c, now, r);
  }

  /** After deleting the keys of `done`: the stored keys of `done` are gone
      from store and expiry map, everything else is as it was. */
  ghost predicate PurgedSoFar<K(!new), V>(c: Cache<K, V>, r: Cache<K, V>, done: set<K>) {
    && r.maxEntries == c.maxEntries && r.timeout == c.timeout
    && r.store.Keys == c.store.Keys - done
    && (forall j :: j in r.store ==> r.store[j] == c.store[j])
    && r.ttl.Keys == c.ttl.Keys - (done * c.store.Keys)
    && (forall j :: j in r.ttl ==> r.ttl[j] == c.ttl[j])
  }

  /** One deletion of the purge pass, KeyError swallowed. */
  lemma PurgeStep<K(!new), V>(c: Cache<K, V>, r: Cache<K, V>, done: set<K>, k: K)
    requires PurgedSoFar(c, r, done)
    ensures PurgedSoFar(c, Delete(r, k).state, done + {k})
  {
    if k in c.store && k !in done {
      assert k in r.store;
    }
  }

  lemma SweptByParts<K(!new), V>(c: Cache<K, V>, now: int, r: Cache<K, V>)
    requires r.maxEntries == c.maxEntries && r.timeout == c.timeout
    requires r.store.Keys == c.store.Keys - Expired(c, now)
    requires forall j :: j in r.store ==> r.store[j] == c.store[j]
    requires r.ttl.Keys == c.ttl.Keys - (Expired(c, now) * c.store.Keys)
    requires forall j :: j in r.ttl ==> r.ttl[j] == c.ttl[j]
    ensures r == Swept(c, now)
  {
    var gone := Expired(c, now) * c.store.Keys;
    assert r.store == c.store - gone;
    assert r.ttl == c.ttl - gone;
  }

  /** A key last written at time `t` and not touched since is gone from the
      store after any sweep later than `t + timeout`. */
  lemma ExpiresAfterTimeout<K(!new), V>(c: Cache<K, V>, k: K, v: V, t: int, victims: set<K>, now: int)
    requires Valid(c) && IsCull(c.store.Keys + {k}, c.maxEntries, victims)
    requires now > t + c.timeout
    ensures k !in Swept(Set(c, k, v, t, victims), now).store
  {
    var s := Set(c, k, v, t, victims);
    if k in s.ttl {
      assert s.ttl[k] < now;
    } else {
      assert k !in s.store;
    }
  }

  /** A lookup that misses still records an expiry for the key, and no later
      sweep removes it: the expiry map keeps one entry per missed key. */
  lemma MissLeavesExpiryEntry<K(!new), V>(c: Cache<K, V>, k: K, t: int, now: int)
    requires k !in c.store
    ensures Get(c, k, t).result == Err(KeyError)
    ensures k in Swept(Get(c, k, t).state, now).ttl
  {
  }
}
