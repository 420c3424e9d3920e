/** The older `Shove` of trunk/shove/__init__.py together with the mapping
    methods it inherits from `Base` and `BaseStore`.

    The frontend is the same write-buffered design as the newer one, with
    three differences that show in the model: its `keys()` (and so `len`,
    iteration, `clear` and `popitem`) flushes the buffer first; `del` drops
    the key from the cache before flushing; and `clear` deletes key by key,
    so it also empties the cache.

    The cache and store backends of that tree are not part of this model:
    both are finite maps that only the frontend changes. After `close` the
    handles are None, so a later lookup, write or delete raises TypeError
    and anything that flushes raises AttributeError.
 */
module LegacyShove {
  import opened Results
  import Mapping

  datatype Frontend<K, V> =
    | Open(store: map<K, V>, cache: map<K, V>, buffer: map<K, V>, syncAt: int)
      /** Closed, remembering what the backing store held when it was closed. */
    | Closed(final: map<K, V>)

  /** The flush threshold when none is configured (`kw.get('sync', 2)`). */
  const DefaultSync := 2

  /** A frontend as `__init__` leaves it, over empty backends. */
  function Fresh<K, V>(): Frontend<K, V> {
    Open(map[], map[], map[], DefaultSync)
  }

  /** The mapping the frontend presents: the store overridden by the
      buffered writes. */
  function View<K(!new), V>(f: Frontend<K, V>): map<K, V>
    requires f.Open?
  {
    f.store + f.buffer
  }

  /** Whatever the cache holds agrees with the presented mapping. */
  ghost predicate Coherent<K(!new), V>(f: Frontend<K, V>)
    requires f.Open?
  {
    forall k :: k in f.cache ==> k in View(f) && View(f)[k] == f.cache[k]
  }

  /** `sync`: each buffered item is written to the store, then the buffer is
      cleared. Nothing the frontend presents changes. */
  function Sync<K(!new), V>(f: Frontend<K, V>): (r: Ret<Frontend<K, V>, ()>)
    ensures f.Closed? ==> r == Ret(f, Err(AttributeError))
    ensures f.Open? ==> r.result.Ok? && r.state.Open?
    ensures f.Open? ==>
      && r.state.buffer == map[]
      && r.state.cache == f.cache && r.state.syncAt == f.syncAt
      && r.state.store.Keys == f.store.Keys + f.buffer.Keys
      && (forall k :: k in f.buffer ==> r.state.store[k] == f.buffer[k])
      && (forall k :: k in f.store && k !in f.buffer ==> r.state.store[k] == f.store[k])
  {
    if f.Closed? then Ret(f, Err(AttributeError))
    else Ret(f.(store := f.store + f.buffer, buffer := map[]), Ok(()))
  }

  /** A flush keeps the presented mapping and coherence, and flushing twice
      is flushing once. */
  lemma SyncIdempotent<K(!new), V>(f: Frontend<K, V>)
    requires f.Open?
    ensures View(Sync(f).state) == View(f)
    ensures Coherent(f) ==> Coherent(Sync(f).state)
    ensures Sync(Sync(f).state) == Sync(f)
  {
    var s := Sync(f).state;
    assert View(s) == View(f);
    assert s.store + map[] == s.store;
  }

  /** `__getitem__`: a cache hit answers at once and changes nothing. On a
      miss the buffer is flushed, the store is read (KeyError when it lacks
      `k`) and the value found is put into the cache. */
  function Get<K(!new), V>(f: Frontend<K, V>, k: K): (r: Ret<Frontend<K, V>, V>)
    ensures f.Closed? ==> r == Ret(f, Err(TypeError))
    ensures f.Open? ==> r.state.Open? && View(r.state) == View(f) && r.state.syncAt == f.syncAt
    ensures f.Open? && k in f.cache ==> r == Ret(f, Ok(f.cache[k]))
    ensures f.Open? && k !in f.cache ==>
      && r.state.buffer == map[]
      && (r.result.Ok? <==> k in View(f))
      && (r.result.Ok? ==> r.result.value == View(f)[k] && r.state.cache == f.cache[k := r.result.value])
      && (r.result.Err? ==> r.result.error == KeyError && r.state.cache == f.cache)
  {
    if f.Closed? then Ret(f, Err(TypeError))
    else if k in f.cache then Ret(f, Ok(f.cache[k]))
    else
      var flushed := Sync(f).state;
      SyncIdempotent(f);
      match Mapping.Get(flushed.store, k)
      case Err(e) => Ret(flushed, Err(e))
      case Ok(v) => Ret(flushed.(cache := flushed.cache[k := v]), Ok(v))
  }

  /** On a coherent frontend a lookup answers with the presented mapping and
      leaves the frontend coherent. */
  lemma GetAnswersView<K(!new), V>(f: Frontend<K, V>, k: K)
    ensures f.Open? && Coherent(f) ==>
      && (Get(f, k).result.Ok? <==> k in View(f))
      && (Get(f, k).result.Ok? ==> Get(f, k).result.value == View(f)[k])
      && (Get(f, k).result.Err? ==> Get(f, k).result.error == KeyError)
      && Coherent(Get(f, k).state)
  {
    if f.Open? {
      var r := Get(f, k);
      assert View(r.state) == View(f);
    }
  }

  /** `__setitem__`: the value goes into the cache and the buffer, and the
      buffer is flushed once it holds `sync` entries or more. */
  function Set<K(!new), V>(f: Frontend<K, V>, k: K, v: V): (r: Ret<Frontend<K, V>, ()>)
    ensures f.Closed? ==> r == Ret(f, Err(TypeError))
    ensures f.Open? ==>
      && r.result.Ok? && r.state.Open?
      && View(r.state) == View(f)[k := v]
      && r.state.cache == f.cache[k := v]
      && r.state.syncAt == f.syncAt
      && (r.state.buffer == map[] || |r.state.buffer| < f.syncAt)
    ensures f.Open? && Coherent(f) ==> Coherent(r.state)
  {
    if f.Closed? then Ret(f, Err(TypeError))
    else
      var written := f.(cache := f.cache[k := v], buffer := f.buffer[k := v]);
      assert View(written) == View(f)[k := v];
      SyncIdempotent(written);
      if |written.buffer| >= f.syncAt then Sync(written) else Ret(written, Ok(()))
  }

  /** `__delitem__`: the cache forgets `k` (a KeyError from the cache is
      ignored), the buffer is flushed, then the store entry is deleted, with
      KeyError when the store lacks it. */
  function Delete<K(!new), V>(f: Frontend<K, V>, k: K): (r: Ret<Frontend<K, V>, ()>)
    ensures f.Closed? ==> r == Ret(f, Err(TypeError))
    ensures f.Open? ==>
      && r.state.Open? && r.state.buffer == map[] && r.state.syncAt == f.syncAt
      && r.state.store == View(f) - {k}
      && r.state.cache == f.cache - {k}
      && (r.result.Ok? <==> k in View(f))
      && (r.result.Err? ==> r.result.error == KeyError)
    ensures f.Open? && Coherent(f) ==> Coherent(r.state)
  {
    if f.Closed? then Ret(f, Err(TypeError))
    else
      var flushed := Sync(f.(cache := f.cache - {k})).state;
      assert flushed.store == View(f);
      Unstore(flushed, k)
  }

  /** `del store[k]` on an open frontend: KeyError when the store lacks `k`;
      only the store changes. */
  function Unstore<K(!new), V>(f: Frontend<K, V>, k: K): (r: Ret<Frontend<K, V>, ()>)
    requires f.Open?
    ensures r.state == f.(store := f.store - {k})
    ensures r.result.Ok? <==> k in f.store
    ensures r.result.Err? ==> r.result.error == KeyError
  {
    match Mapping.Delete(f.store, k)
    case Err(e) =>
      assert f.store - {k} == f.store;
      Ret(f, Err(e))
    case Ok(store) =>
      assert store == f.store - {k};
      Ret(f.(store := store), Ok(()))
  }

  /** `keys()`: flush, then list the store's keys, each once. `__iter__`
      walks this list. */
  method Keys<K(!new), V>(f: Frontend<K, V>) returns (r: Ret<Frontend<K, V>, seq<K>>)
    ensures f.Closed? ==> r == Ret(f, Err(AttributeError))
    ensures f.Open? ==> r.state == Sync(f).state && r.result.Ok?
    ensures f.Open? ==> |r.result.value| == |View(f)|
    ensures f.Open? ==> forall k :: k in r.result.value <==> k in View(f)
    ensures f.Open? ==> forall i, j :: 0 <= i < j < |r.result.value| ==> r.result.value[i] != r.result.value[j]
  {
    if f.Closed? {
      return Ret(f, Err(AttributeError));
    }
    var flushed := Sync(f).state;
    var keys := Mapping.Iter(flushed.store);
    r := Ret(flushed, Ok(keys));
  }

  /** `__len__`: the length of `keys()`, so it flushes too and counts the
      presented mapping. */
  method Len<K(!new), V>(f: Frontend<K, V>) returns (r: Ret<Frontend<K, V>, nat>)
    ensures f.Closed? ==> r == Ret(f, Err(AttributeError))
    ensures f.Open? ==> r.state == Sync(f).state && r.result == Ok(|View(f)|)
  {
    var keys := Keys(f);
    if keys.result.Err? {
      return Ret(keys.state, Err(keys.result.error));
    }
    r := Ret(keys.state, Ok(|keys.result.value|));
  }

  /** `close`: flush, close the store and drop every handle; a second close
      finds the store handle None and does nothing. */
  function Close<K(!new), V>(f: Frontend<K, V>): (r: Frontend<K, V>)
    ensures r.Closed?
    ensures f.Open? ==> r.final == View(f)
    ensures f.Closed? ==> r == f
  {
    if f.Closed? then f
    else Closed(Sync(f).state.store)
  }

  /** Closing twice is closing once, and a closed frontend refuses to flush,
      read, write and delete. */
  lemma CloseIdempotent<K(!new), V>(f: Frontend<K, V>, k: K, v: V)
    ensures Close(Close(f)) == Close(f)
    ensures Sync(Close(f)).result == Err(AttributeError)
    ensures Get(Close(f), k).result == Err(TypeError)
    ensures Set(Close(f), k, v).result == Err(TypeError)
    ensures Delete(Close(f), k).result == Err(TypeError)
  {
  }

  /** `Base.__contains__`: a lookup that does not raise KeyError, with the
      lookup's side effects. */
  function Contains<K(!new), V>(f: Frontend<K, V>, k: K): (r: Ret<Frontend<K, V>, bool>)
    ensures r.state == Get(f, k).state
    ensures f.Closed? ==> r.result == Err(TypeError)
    ensures f.Open? ==> r.result == Ok(Get(f, k).result.Ok?)
    ensures f.Open? && Coherent(f) ==> r.result == Ok(k in View(f)) && Coherent(r.state)
  {
    var g := Get(f, k);
    GetAnswersView(f, k);
    match g.result
    case Ok(_) => Ret(g.state, Ok(true))
    case Err(KeyError) => Ret(g.state, Ok(false))
    case Err(e) => Ret(g.state, Err(e))
  }

  /** `Base.get`: the lookup, or `default` where the lookup raises KeyError. */
  function GetOr<K(!new), V>(f: Frontend<K, V>, k: K, default: V): (r: Ret<Frontend<K, V>, V>)
    ensures r.state == Get(f, k).state
    ensures f.Closed? ==> r.result == Err(TypeError)
    ensures f.Open? && Coherent(f) ==>
      && r.result == Ok(if k in View(f) then View(f)[k] else default)
      && Coherent(r.state)
  {
    var g := Get(f, k);
    GetAnswersView(f, k);
    match g.result
    case Err(KeyError) => Ret(g.state, Ok(default))
    case _ => g
  }

  /** `BaseStore.pop(key, *args)`: more than one default is a TypeError.
      Otherwise the value is looked up and then deleted; a missing key gives
      back the default when there is one, and without one the `del` that
      follows raises KeyError. */
  function Pop<K(!new), V>(f: Frontend<K, V>, k: K, defaults: seq<V>): (r: Ret<Frontend<K, V>, V>)
    ensures |defaults| > 1 ==> r == Ret(f, Err(TypeError))
    ensures f.Closed? ==> r == Ret(f, Err(TypeError))
  {
    if |defaults| > 1 then Ret(f, Err(TypeError))
    else
      var g := Get(f, k);
      match g.result
      case Ok(v) =>
        var d := Delete(g.state, k);
        if d.result.Ok? then Ret(d.state, Ok(v)) else Ret(d.state, Err(d.result.error))
      case Err(KeyError) =>
        if |defaults| == 1 then Ret(g.state, Ok(defaults[0]))
        else
          var d := Delete(g.state, k);
          assert d.result.Err?;
          Ret(d.state, Err(d.result.error))
      case Err(e) => Ret(g.state, Err(e))
  }

  /** On a coherent frontend `pop` of a present key removes it and returns
      its presented value. */
  lemma PopPresent<K(!new), V>(f: Frontend<K, V>, k: K, defaults: seq<V>)
    requires f.Open? && Coherent(f) && |defaults| <= 1 && k in View(f)
    ensures Pop(f, k, defaults).result == Ok(View(f)[k])
    ensures Pop(f, k, defaults).state.Open?
    ensures View(Pop(f, k, defaults).state) == View(f) - {k}
    ensures Coherent(Pop(f, k, defaults).state)
  {
    GetAnswersView(f, k);
    var g := Get(f, k);
    var d := Delete(g.state, k);
    assert View(d.state) == View(f) - {k};
  }

  /** For a missing key `pop` returns the default, or raises KeyError
      without one; either way the presented mapping stays as it was. */
  lemma PopMissing<K(!new), V>(f: Frontend<K, V>, k: K, defaults: seq<V>)
    requires f.Open? && Coherent(f) && |defaults| <= 1 && k !in View(f)
    ensures Pop(f, k, defaults).result == (if defaults == [] then Err(KeyError) else Ok(defaults[0]))
    ensures Pop(f, k, defaults).state.Open?
    ensures View(Pop(f, k, defaults).state) == View(f)
    ensures Coherent(Pop(f, k, defaults).state)
  {
    GetAnswersView(f, k);
    var g := Get(f, k);
    if defaults == [] {
      var d := Delete(g.state, k);
      assert View(d.state) == View(f);
    }
  }

  /** `BaseStore.setdefault`: the looked-up value, or else `default`, which
      is then also stored. */
  function SetDefault<K(!new), V>(f: Frontend<K, V>, k: K, default: V): (r: Ret<Frontend<K, V>, V>)
    ensures f.Closed? ==> r == Ret(f, Err(TypeError))
    ensures f.Open? ==> r.result.Ok? && r.state.Open?
    ensures f.Open? && Coherent(f) ==>
      && r.result.value == (if k in View(f) then View(f)[k] else default)
      && View(r.state) == (if k in View(f) then View(f) else View(f)[k := default])
      && Coherent(r.state)
  {
    var g := Get(f, k);
    GetAnswersView(f, k);
    match g.result
    case Err(KeyError) =>
      var s := Set(g.state, k, default);
      Ret(s.state, Ok(default))
    case _ => g
  }

  /** Writing `pairs` one after another, as every branch of `update` does.
      On a closed frontend the first write raises TypeError. */
  method WriteAll<K(!new), V>(f: Frontend<K, V>, pairs: seq<(K, V)>) returns (r: Ret<Frontend<K, V>, ()>)
    ensures f.Closed? ==> r == Ret(f, if pairs == [] then Ok(()) else Err(TypeError))
    ensures f.Open? ==> r.result.Ok? && r.state.Open? && r.state.syncAt == f.syncAt
    ensures f.Open? ==> View(r.state) == View(f) + Mapping.FromPairs(pairs)
    ensures f.Open? && Coherent(f) ==> Coherent(r.state)
  {
    if f.Closed? {
      return Ret(f, if pairs == [] then Ok(()) else Err(TypeError));
    }
    var s := f;
    var i := 0;
    while i < |pairs|
      invariant 0 <= i <= |pairs|
      invariant s.Open? && s.syncAt == f.syncAt
      invariant View(s) == View(f) + Mapping.FromPairs(pairs[..i])
      invariant Coherent(f) ==> Coherent(s)
    {
      WriteStep(View(f), pairs, i);
      s := Set(s, pairs[i].0, pairs[i].1).state;
      i := i + 1;
    }
    assert pairs[..i] == pairs;
    r := Ret(s, Ok(()));
  }

  /** One more write extends the pairs written so far. */
  lemma WriteStep<K(!new), V>(m: map<K, V>, pairs: seq<(K, V)>, i: nat)
    requires i < |pairs|
    ensures m + Mapping.FromPairs(pairs[..i + 1]) == (m + Mapping.FromPairs(pairs[..i]))[pairs[i].0 := pairs[i].1]
  {
    assert pairs[..i + 1] == pairs[..i] + [pairs[i]];
    Mapping.FromPairsSnoc(pairs[..i], pairs[i]);
    var before := Mapping.FromPairs(pairs[..i]);
    assert m + before[pairs[i].0 := pairs[i].1] == (m + before)[pairs[i].0 := pairs[i].1];
  }

  /** `BaseStore.update(other, **kw)`: the pairs of `other` (its items, its
      keys with their values, or the pairs it yields, in order) are written,
      then the keyword items. Later writes win. Nothing is touched when
      there is nothing to write, so on a closed frontend only an empty
      update succeeds. */
  method Update<K(!new), V>(f: Frontend<K, V>, other: Option<seq<(K, V)>>, kw: seq<(K, V)>)
    returns (r: Ret<Frontend<K, V>, ()>)
    ensures var pairs := if other.Some? then other.value else [];
      && (f.Closed? ==> r == Ret(f, if pairs == [] && kw == [] then Ok(()) else Err(TypeError)))
      && (f.Open? ==> r.result.Ok? && r.state.Open?
                      && View(r.state) == View(f) + Mapping.FromPairs(pairs) + Mapping.FromPairs(kw))
    ensures f.Open? && Coherent(f) ==> Coherent(r.state)
  {
    r := Ret(f, Ok(()));
    if other.Some? {
      r := WriteAll(f, other.value);
      if r.result.Err? {
        return;
      }
    }
    if kw != [] {
      r := WriteAll(r.state, kw);
    }
    if f.Open? {
      var pairs := if other.Some? then other.value else [];
      NoPairs(View(f));
      NoPairs(View(f) + Mapping.FromPairs(pairs));
    }
  }

  lemma NoPairs<K(!new), V>(m: map<K, V>)
    ensures m + Mapping.FromPairs<K, V>([]) == m
  {
  }

  /** `BaseStore.popitem`: the first pair of the item iteration (which lists
      `keys()`, so flushes, and looks the key up), then deleted; KeyError
      when the frontend is empty. */
  method PopItem<K(!new), V>(f: Frontend<K, V>) returns (r: Ret<Frontend<K, V>, (K, V)>)
    ensures f.Closed? ==> r == Ret(f, Err(AttributeError))
    ensures f.Open? ==> r.state.Open? && (r.result.Ok? <==> View(f) != map[])
    ensures f.Open? && r.result.Err? ==> r.result.error == KeyError && View(r.state) == View(f)
    ensures f.Open? && r.result.Ok? ==>
      && r.result.value.0 in View(f)
      && View(r.state) == View(f) - {r.result.value.0}
    ensures f.Open? && Coherent(f) ==> Coherent(r.state)
    ensures f.Open? && Coherent(f) && r.result.Ok? ==> r.result.value.1 == View(f)[r.result.value.0]
  {
    var keys := Keys(f);
    if keys.result.Err? {
      return Ret(keys.state, Err(keys.result.error));
    }
    var s := keys.state;
    SyncIdempotent(f);
    if keys.result.value == [] {
      assert View(f).Keys == {};
      return Ret(s, Err(KeyError));
    }
    var k := keys.result.value[0];
    assert k in View(s);
    r := TakeItem(s, k);
  }

  /** The rest of `popitem` once the first key `k` is known: look it up, then
      delete it. */
  function TakeItem<K(!new), V>(f: Frontend<K, V>, k: K): (r: Ret<Frontend<K, V>, (K, V)>)
    requires f.Open? && f.buffer == map[] && k in f.store
    ensures r.state.Open? && r.result.Ok? && r.result.value.0 == k
    ensures View(r.state) == View(f) - {k}
    ensures Coherent(f) ==> Coherent(r.state) && r.result.value.1 == View(f)[k]
  {
    var g := Get(f, k);
    GetAnswersView(f, k);
    assert g.result.Ok? && View(g.state) == View(f);
    var d := Delete(g.state, k);
    Ret(d.state, Ok((k, g.result.value)))
  }

  lemma MinusStep<K, V>(m: map<K, V>, done: set<K>, k: K)
    ensures (m - done) - {k} == m - (done + {k})
  {
  }

  lemma PrefixStep<K>(ks: seq<K>, i: nat, done: set<K>)
    requires i < |ks|
    requires forall k :: k in done <==> k in ks[..i]
    ensures forall k :: k in done + {ks[i]} <==> k in ks[..i + 1]
  {
    assert ks[..i + 1] == ks[..i] + [ks[i]];
  }

  /** With nothing buffered, deleting a held key drops it from the store and
      the cache and changes nothing else. */
  lemma DeleteHeld<K(!new), V>(f: Frontend<K, V>, k: K)
    requires f.Open? && f.buffer == map[] && k in f.store
    ensures Delete(f, k) == Ret(f.(store := f.store - {k}, cache := f.cache - {k}), Ok(()))
  {
    assert f.store + map[] == f.store;
  }

  lemma PrefixAll<K>(ks: seq<K>, done: set<K>)
    requires forall k :: k in done <==> k in ks[..|ks|]
    ensures done == (set k | k in ks)
  {
    assert ks[..|ks|] == ks;
  }

  /** Deleting the distinct keys `ks`, all held, one after another. */
  method DeleteEach<K(!new), V>(f: Frontend<K, V>, ks: seq<K>) returns (s: Frontend<K, V>)
    requires f.Open? && f.buffer == map[]
    requires forall i, j :: 0 <= i < j < |ks| ==> ks[i] != ks[j]
    requires forall i :: 0 <= i < |ks| ==> ks[i] in f.store
    ensures s.Open? && s.buffer == map[] && s.syncAt == f.syncAt
    ensures s.store == f.store - (set k | k in ks)
    ensures s.cache == f.cache - (set k | k in ks)
  {
    s := f;
    var i := 0;
    ghost var done: set<K> := {};
    while i < |ks|
      invariant 0 <= i <= |ks|
      invariant s.Open? && s.buffer == map[] && s.syncAt == f.syncAt
      invariant forall k :: k in done <==> k in ks[..i]
      invariant s.store == f.store - done
      invariant s.cache == f.cache - done
    {
      assert ks[i] !in ks[..i];
      var d := Delete(s, ks[i]);
      DeleteHeld(s, ks[i]);
      MinusStep(f.store, done, ks[i]);
      MinusStep(f.cache, done, ks[i]);
      PrefixStep(ks, i, done);
      done := done + {ks[i]};
      s := d.state;
      i := i + 1;
    }
    PrefixAll(ks, done);
  }

  lemma ListedKeys<K, V>(ks: seq<K>, m: map<K, V>)
    requires forall k :: k in ks <==> k in m
    ensures (set k | k in ks) == m.Keys
  {
  }

  /** A coherent cache holds only presented keys. */
  lemma CoherentCacheKeys<K(!new), V>(f: Frontend<K, V>)
    requires f.Open?
    ensures Coherent(f) ==> f.cache - View(f).Keys == map[]
  {
  }

  /** `BaseStore.clear`: deletes every key `keys()` lists, one at a time.
      The presented mapping ends empty and the cache loses every key it
      showed, so a coherent frontend ends with an empty cache. */
  method Clear<K(!new), V>(f: Frontend<K, V>) returns (r: Ret<Frontend<K, V>, ()>)
    ensures f.Closed? ==> r == Ret(f, Err(AttributeError))
    ensures f.Open? ==>
      && r.result.Ok? && r.state.Open? && r.state.syncAt == f.syncAt
      && View(r.state) == map[]
      && r.state.cache == f.cache - View(f).Keys
    ensures f.Open? && Coherent(f) ==> r.state.cache == map[]
  {
    var keys := Keys(f);
    if keys.result.Err? {
      return Ret(keys.state, Err(keys.result.error));
    }
    var ks := keys.result.value;
    SyncIdempotent(f);
    var s := DeleteEach(keys.state, ks);
    ListedKeys(ks, View(f));
    CoherentCacheKeys(f);
    r := Ret(s, Ok(()));
  }

  /** With the default threshold the first write to a fresh frontend stays
      buffered and the second, of another key, flushes both to the store. */
  lemma DefaultSyncFlushesSecondWrite<K(!new), V>(k1: K, v1: V, k2: K, v2: V)
    requires k1 != k2
    ensures var a := Set(Fresh(), k1, v1).state;
      && a.Open? && a.buffer == map[k1 := v1] && a.store == map[]
      && Set(a, k2, v2).state.Open?
      && Set(a, k2, v2).state.buffer == map[]
      && Set(a, k2, v2).state.store == map[k1 := v1, k2 := v2]
  {
    var a := Set(Fresh<K, V>(), k1, v1).state;
    assert |a.buffer| == 1;
    var b := a.buffer[k2 := v2];
    assert b.Keys == {k1, k2};
    assert |b| == 2;
  }
}
