/** The `Shove` frontend (shove/core.py): a mapping that writes through a
    cache into a write buffer, flushes the buffer into a backing store once
    it holds `sync` entries, and answers reads from the cache first and from
    the store after a flush.

    The backing store is the dict-backed `Mapping` of shove/base.py, a finite
    map. The clock and the random cull of the cache are explicit arguments.
    After `close` the handles are None, so every later use raises the
    TypeError or AttributeError Python raises on None.
 */
module Shove {
  import opened Results
  import Mapping
  import Caches
  import TtlCache

  datatype Frontend<K, V> =
    | Open(store: map<K, V>, cache: Caches.Cache<K, V>, buffer: map<K, V>, syncAt: int)
      /** Closed, remembering what the backing store held when it was closed. */
    | Closed(final: map<K, V>)

  /** The mapping the frontend presents: the store overridden by the
      writes still waiting in the buffer. */
  function View<K(!new), V>(f: Frontend<K, V>): map<K, V>
    requires f.Open?
  {
    f.store + f.buffer
  }

  ghost predicate Valid<K(!new), V>(f: Frontend<K, V>) {
    f.Open? ==> Caches.Valid(f.cache)
  }

  /** Whatever the cache holds agrees with the presented mapping. Every
      operation but `clear` keeps this. */
  ghost predicate Coherent<K(!new), V>(f: Frontend<K, V>)
    requires f.Open?
  {
    forall k :: k in Caches.Contents(f.cache) ==> k in View(f) && View(f)[k] == Caches.Contents(f.cache)[k]
  }

  /** `sync`: `store.update(buffer)` then `buffer.clear()`. The presented
      mapping does not change; the store now holds all of it and the buffer
      is empty. */
  function Sync<K(!new), V>(f: Frontend<K, V>): (r: Ret<Frontend<K, V>, ()>)
    ensures f.Closed? ==> r == Ret(f, Err(AttributeError))
    ensures f.Open? ==> r.result.Ok? && r.state.Open?
    ensures f.Open? ==>
      && r.state.buffer == map[]
      && r.state.cache == f.cache && r.state.syncAt == f.syncAt
      && r.state.store.Keys == f.store.Keys + f.buffer.Keys
      && (forall k :: k in f.buffer ==> r.state.store[k] == f.buffer[k])
      && (forall k :: k in f.store && k !in f.buffer ==> r.state.store[k] == f.store[k])
  {
    if f.Closed? then Ret(f, Err(AttributeError))
    else Ret(f.(store := f.store + f.buffer, buffer := map[]), Ok(()))
  }

  /** A flush keeps the presented mapping and coherence, and a second flush
      with no write in between changes nothing. */
  lemma SyncIdempotent<K(!new), V>(f: Frontend<K, V>)
    requires f.Open?
    ensures View(Sync(f).state) == View(f)
    ensures Coherent(f) ==> Coherent(Sync(f).state)
    ensures Sync(Sync(f).state) == Sync(f)
  {
    var s := Sync(f).state;
    assert View(s) == View(f);
    assert s.store + map[] == s.store;
  }

  /** `__getitem__`: a cache hit answers at once. On a miss the buffer is
      flushed, the store is read (KeyError when it lacks `k`) and the value is
      put into the cache. The presented mapping does not change. */
  function Get<K(!new), V>(f: Frontend<K, V>, k: K, now: int, victims: set<K>): (r: Ret<Frontend<K, V>, V>)
    requires Valid(f)
    requires f.Open? ==> Caches.CullFits(f.cache, k, victims)
    ensures Valid(r.state)
    ensures f.Closed? ==> r == Ret(f, Err(TypeError))
    ensures f.Open? ==> r.state.Open? && View(r.state) == View(f) && r.state.syncAt == f.syncAt
    ensures f.Open? && k in Caches.Contents(f.cache) ==>
      && r.result == Ok(Caches.Contents(f.cache)[k])
      && r.state.store == f.store && r.state.buffer == f.buffer
    ensures f.Open? && k !in Caches.Contents(f.cache) ==>
      && r.state.buffer == map[]
      && (r.result.Ok? <==> k in View(f))
      && (r.result.Ok? ==> r.result.value == View(f)[k])
      && (r.result.Err? ==> r.result.error == KeyError)
    ensures f.Open? && k !in Caches.Contents(f.cache) && r.result.Ok? ==>
      r.state.cache == Caches.Set(Caches.Get(f.cache, k, now).state, k, r.result.value, now, victims)
  {
    if f.Closed? then Ret(f, Err(TypeError))
    else
      var hit := Caches.Get(f.cache, k, now);
      var looked := f.(cache := hit.state);
      if hit.result.Ok? then Ret(looked, hit.result)
      else
        var flushed := Sync(looked).state;
        SyncIdempotent(looked);
        match Mapping.Get(flushed.store, k)
        case Err(e) => Ret(flushed, Err(e))
        case Ok(v) => Ret(flushed.(cache := Caches.Set(flushed.cache, k, v, now, victims)), Ok(v))
  }

  /** On a coherent frontend a lookup answers with the presented mapping and
      leaves the frontend coherent: a value the cache holds is the presented
      one, and a value read from the store after a flush is too. */
  lemma GetAnswersView<K(!new), V>(f: Frontend<K, V>, k: K, now: int, victims: set<K>)
    requires f.Open? && Valid(f) && Coherent(f)
    requires Caches.CullFits(f.cache, k, victims)
    ensures Get(f, k, now, victims).result.Ok? <==> k in View(f)
    ensures Get(f, k, now, victims).result.Ok? ==> Get(f, k, now, victims).result.value == View(f)[k]
    ensures Coherent(Get(f, k, now, victims).state)
  {
    var r := Get(f, k, now, victims);
    var hit := Caches.Get(f.cache, k, now);
    if k !in Caches.Contents(f.cache) && r.result.Ok? {
      var flushed := Sync(f.(cache := hit.state)).state;
      assert r.state == flushed.(cache := Caches.Set(flushed.cache, k, View(f)[k], now, victims));
      CoherentAfterCacheWrite(flushed, k, View(f)[k], now, victims);
    }
  }

  /** Storing a value of the presented mapping in the cache keeps coherence. */
  lemma CoherentAfterCacheWrite<K(!new), V>(f: Frontend<K, V>, k: K, v: V, now: int, victims: set<K>)
    requires f.Open? && Valid(f) && Coherent(f)
    requires Caches.CullFits(f.cache, k, victims)
    requires k in View(f) && View(f)[k] == v
    ensures Coherent(f.(cache := Caches.Set(f.cache, k, v, now, victims)))
  {
  }

  /** `__contains__`, inherited from the abstract `Mapping` mixin: a lookup
      that does not raise KeyError, with the lookup's side effects. A key the
      cache holds is contained; any other is contained exactly when the
      presented mapping has it. */
  function Contains<K(!new), V>(f: Frontend<K, V>, k: K, now: int, victims: set<K>): (r: Ret<Frontend<K, V>, bool>)
    requires Valid(f)
    requires f.Open? ==> Caches.CullFits(f.cache, k, victims)
    ensures Valid(r.state)
    ensures f.Closed? ==> r == Ret(f, Err(TypeError))
    ensures f.Open? ==> r.state == Get(f, k, now, victims).state
    ensures f.Open? && k in Caches.Contents(f.cache) ==> r.result == Ok(true)
    ensures f.Open? && k !in Caches.Contents(f.cache) ==> r.result == Ok(k in View(f))
  {
    var g := Get(f, k, now, victims);
    if g.result.Ok? then Ret(g.state, Ok(true))
    else if g.result.error == KeyError then Ret(g.state, Ok(false))
    else Ret(g.state, Err(g.result.error))
  }

  /** On a coherent frontend membership is membership in the presented
      mapping. */
  lemma ContainsAnswersView<K(!new), V>(f: Frontend<K, V>, k: K, now: int, victims: set<K>)
    requires f.Open? && Valid(f) && Coherent(f)
    requires Caches.CullFits(f.cache, k, victims)
    ensures Contains(f, k, now, victims).result == Ok(k in View(f))
    ensures Coherent(Contains(f, k, now, victims).state)
  {
    GetAnswersView(f, k, now, victims);
  }

  lemma WriteView<K(!new), V>(store: map<K, V>, buffer: map<K, V>, k: K, v: V)
    ensures store + buffer[k := v] == (store + buffer)[k := v]
  {
  }

  /** `__setitem__`: `cache[k] = buffer[k] = v`, then a flush once the buffer
      holds `sync` entries. The presented mapping becomes the old one with `k`
      mapped to `v`; afterwards the buffer is empty or below the threshold. */
  function Set<K(!new), V>(f: Frontend<K, V>, k: K, v: V, now: int, victims: set<K>): (r: Ret<Frontend<K, V>, ()>)
    requires Valid(f)
    requires f.Open? ==> Caches.CullFits(f.cache, k, victims)
    ensures Valid(r.state)
    ensures f.Closed? ==> r == Ret(f, Err(TypeError))
    ensures f.Open? ==> r.result.Ok? && r.state.Open? && r.state.syncAt == f.syncAt
    ensures f.Open? ==> View(r.state) == View(f)[k := v]
    ensures f.Open? ==> r.state.cache == Caches.Set(f.cache, k, v, now, victims)
    ensures f.Open? ==> r.state.buffer == map[] || |r.state.buffer| < f.syncAt
    ensures f.Open? && f.syncAt <= 1 ==> r.state.buffer == map[]
  {
    if f.Closed? then Ret(f, Err(TypeError))
    else
      var cached := f.(cache := Caches.Set(f.cache, k, v, now, victims));
      var written := cached.(buffer := cached.buffer[k := v]);
      WriteView(f.store, f.buffer, k, v);
      SyncIdempotent(written);
      if |written.buffer| >= f.syncAt then Sync(written)
      else Ret(written, Ok(()))
  }

  /** A write keeps the frontend coherent: the cache holds `v` for `k` or
      nothing, and whatever else it keeps it held before. */
  lemma SetKeepsCoherent<K(!new), V>(f: Frontend<K, V>, k: K, v: V, now: int, victims: set<K>)
    requires f.Open? && Valid(f) && Coherent(f)
    requires Caches.CullFits(f.cache, k, victims)
    ensures Coherent(Set(f, k, v, now, victims).state)
  {
    var r := Set(f, k, v, now, victims).state;
    forall j | j in Caches.Contents(r.cache)
      ensures j in View(r) && View(r)[j] == Caches.Contents(r.cache)[j]
    {
    }
  }

  /** `__delitem__`: flush, drop `k` from the cache ignoring its absence,
      then delete it from the store, raising KeyError exactly when the
      flushed store lacks it. Either way `k` is gone from the presented
      mapping and nothing else is. */
  function Delete<K(!new), V>(f: Frontend<K, V>, k: K): (r: Ret<Frontend<K, V>, ()>)
    requires Valid(f)
    ensures Valid(r.state)
    ensures f.Closed? ==> r == Ret(f, Err(AttributeError))
    ensures f.Open? ==> r.state.Open? && r.state.buffer == map[] && r.state.syncAt == f.syncAt
    ensures f.Open? ==> (r.result.Ok? <==> k in View(f))
    ensures f.Open? ==> r.result.Err? ==> r.result.error == KeyError
    ensures f.Open? ==> r.state.store == View(f) - {k}
    ensures f.Open? ==> Caches.Contents(r.state.cache) == Caches.Contents(f.cache) - {k}
  {
    if f.Closed? then Ret(f, Err(AttributeError))
    else
      var flushed := Sync(f).state;
      assert flushed.store == View(f);
      Unstore(flushed.(cache := Caches.Delete(flushed.cache, k).state), k)
  }

  /** `del store[k]` on an open frontend: KeyError when the store lacks `k`;
      only the store changes. */
  function Unstore<K(!new), V>(f: Frontend<K, V>, k: K): (r: Ret<Frontend<K, V>, ()>)
    requires f.Open?
    ensures r.state == f.(store := f.store - {k})
    ensures r.result.Ok? <==> k in f.store
    ensures r.result.Err? ==> r.result.error == KeyError
  {
    match Mapping.Delete(f.store, k)
    case Err(e) =>
      assert f.store - {k} == f.store;
      Ret(f, Err(e))
    case Ok(store) =>
      assert store == f.store - {k};
      Ret(f.(store := store), Ok(()))
  }

  /** A deletion keeps the frontend coherent. */
  lemma DeleteKeepsCoherent<K(!new), V>(f: Frontend<K, V>, k: K)
    requires f.Open? && Valid(f) && Coherent(f)
    ensures Coherent(Delete(f, k).state)
  {
    var r := Delete(f, k).state;
    assert View(r) == View(f) - {k};
  }

  /** `__len__`: the size of the store alone. It does not flush, so it agrees
      with the presented mapping only once the buffer is empty. */
  function Len<K(!new), V>(f: Frontend<K, V>): (r: Result<nat>)
    ensures f.Closed? ==> r == Err(TypeError)
    ensures f.Open? && f.buffer == map[] ==> r == Ok(|View(f)|)
    ensures f.Open? ==> r == Ok(|View(f)| - |f.buffer.Keys - f.store.Keys|)
  {
    if f.Closed? then Err(TypeError)
    else
      assert f.store.Keys <= View(f).Keys;
      assert f.buffer == map[] ==> View(f) == f.store;
      TtlCache.CardDiff(View(f).Keys, f.store.Keys);
      assert View(f).Keys - f.store.Keys == f.buffer.Keys - f.store.Keys;
      Ok(|f.store|)
  }

  /** With a write still buffered, the length misses it. */
  lemma LenIgnoresBuffer()
    ensures
      var f := Open(map[], Caches.NullCache, map[1 := 10], 2);
      Len(f) == Ok(0) && |View(f)| == 1
  {
    var f: Frontend<int, int> := Open(map[], Caches.NullCache, map[1 := 10], 2);
    assert View(f) == map[1 := 10];
  }

  /** `__iter__`: flush, then every key of the store exactly once, which is
      every key of the presented mapping. */
  method Iter<K(!new), V>(f: Frontend<K, V>) returns (r: Ret<Frontend<K, V>, seq<K>>)
    ensures f.Closed? ==> r == Ret(f, Err(AttributeError))
    ensures f.Open? ==> r.state == Sync(f).state && r.result.Ok?
    ensures f.Open? ==> |r.result.value| == |View(f)|
    ensures f.Open? ==> forall k :: k in r.result.value <==> k in View(f)
    ensures f.Open? ==> forall i, j :: 0 <= i < j < |r.result.value| ==> r.result.value[i] != r.result.value[j]
  {
    if f.Closed? {
      return Ret(f, Err(AttributeError));
    }
    var flushed := Sync(f).state;
    var keys := Mapping.Iter(flushed.store);
    r := Ret(flushed, Ok(keys));
  }

  /** `close`: flush, close the store and drop every handle. What the store
      held at that point is the presented mapping. Closing a closed frontend
      does nothing. */
  function Close<K(!new), V>(f: Frontend<K, V>): (r: Frontend<K, V>)
    ensures r.Closed?
    ensures f.Open? ==> r.final == View(f)
    ensures f.Closed? ==> r == f
  {
    if f.Closed? then f
    else Closed(Sync(f).state.store)
  }

  lemma CloseIdempotent<K(!new), V>(f: Frontend<K, V>)
    ensures Close(Close(f)) == Close(f)
    ensures Sync(Close(f)).result == Err(AttributeError)
  {
  }

  /** `clear`: empty the store and the buffer. The cache is left as it was,
      so coherence is lost. */
  function Clear<K(!new), V>(f: Frontend<K, V>): (r: Ret<Frontend<K, V>, ()>)
    ensures f.Closed? ==> r == Ret(f, Err(AttributeError))
    ensures f.Open? ==> r.result.Ok? && r.state.Open? && View(r.state) == map[]
    ensures f.Open? ==> r.state.cache == f.cache && r.state.syncAt == f.syncAt
  {
    if f.Closed? then Ret(f, Err(AttributeError))
    else Ret(f.(store := map[], buffer := map[]), Ok(()))
  }

  /** A value read back right after it was written, and again after an
      explicit flush. */
  lemma ReadYourWrite<K(!new), V>(f: Frontend<K, V>, k: K, v: V, now: int, victims: set<K>, victims2: set<K>)
    requires f.Open? && Valid(f)
    requires Caches.CullFits(f.cache, k, victims)
    requires Caches.CullFits(Set(f, k, v, now, victims).state.cache, k, victims2)
    ensures Get(Set(f, k, v, now, victims).state, k, now, victims2).result == Ok(v)
    ensures
      var s := Sync(Set(f, k, v, now, victims).state).state;
      Caches.CullFits(s.cache, k, victims2) && Get(s, k, now, victims2).result == Ok(v)
  {
    var s := Set(f, k, v, now, victims).state;
    assert k in View(s) && View(s)[k] == v;
    SyncIdempotent(s);
  }

  /** A deleted key is no longer contained, whether or not it was there. */
  lemma DeleteThenAbsent<K(!new), V>(f: Frontend<K, V>, k: K, now: int, victims: set<K>)
    requires f.Open? && Valid(f)
    requires Caches.CullFits(Delete(f, k).state.cache, k, victims)
    ensures Contains(Delete(f, k).state, k, now, victims).result == Ok(false)
  {
  }

  /** After `clear` a cache that still holds a key keeps answering with the
      cleared value, though the presented mapping is empty. */
  lemma ClearKeepsStaleCache<K(!new), V>(f: Frontend<K, V>, k: K, now: int, victims: set<K>)
    requires f.Open? && Valid(f) && k in Caches.Contents(f.cache)
    requires Caches.CullFits(f.cache, k, victims)
    ensures Get(Clear(f).state, k, now, victims).result == Ok(Caches.Contents(f.cache)[k])
    ensures !Coherent(Clear(f).state)
  {
  }
}
