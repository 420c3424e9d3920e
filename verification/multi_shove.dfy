/** The `MultiShove` frontend (shove/core.py): a mapping over several
    backing stores. Writes go through the cache into a buffer; a flush asks
    the dispatcher, item by item, which stores to write and records those
    store indices in a placement map (`_key_stores_map`). Lookups and
    deletions follow the placement map; membership, length and iteration
    read nothing else.

    The backing stores are dict-backed `Mapping`s (shove/base.py), finite
    maps held in a list. The clock and the random cull of the cache are
    explicit arguments. The flush runs on `dict.iteritems`, so the buffer is
    a Python 2 dict whose iteration order is not fixed.
 */
module MultiShove {
  import opened Results
  import Mapping
  import Caches
  import Dispatch

  datatype Multi<K, V> =
    | Open(
        stores: seq<map<K, V>>,
        cache: Caches.Cache<K, V>,
        buffer: map<K, V>,
        syncAt: int,
        dispatcher: Dispatch.Dispatcher,
        placement: map<K, seq<nat>>)
      /** `close` drops stores, cache and buffer but not the placement map.
          `final` is what each store held when it was closed. */
    | Closed(final: seq<map<K, V>>, placement: map<K, seq<nat>>)

  ghost predicate Valid<K(!new), V>(m: Multi<K, V>) {
    m.Open? ==> Caches.Valid(m.cache) && Dispatch.InRange(m.dispatcher, |m.stores|)
  }

  /** The placement `map(k -> ix)` for every buffered key. */
  function Placements<K(!new), V>(buffer: map<K, V>, ix: seq<nat>): (r: map<K, seq<nat>>)
    ensures r.Keys == buffer.Keys
    ensures forall k :: k in r ==> r[k] == ix
  {
    map k | k in buffer :: ix
  }

  /** `sync`, in closed form. The dispatcher is called once per buffered
      item. The copy dispatcher names every store, so every store ends up
      overridden by the buffer, every buffered key is placed on every store,
      and the buffer is emptied; the order of the items does not matter. The
      round-robin dispatcher answers the first item with a bare `int`, which
      the flush then tries to iterate: TypeError, after the cursor has moved
      and before anything is written; the buffer stays full. */
  function Sync<K(!new), V>(m: Multi<K, V>): (r: Ret<Multi<K, V>, ()>)
    requires Valid(m)
    ensures Valid(r.state)
    ensures m.Closed? ==> r == Ret(m, Err(AttributeError))
    ensures m.Open? ==> r.state.Open? && r.state.cache == m.cache && r.state.syncAt == m.syncAt
    ensures m.Open? && m.buffer == map[] ==> r == Ret(m, Ok(()))
    ensures m.Open? && m.dispatcher.Copy? ==>
      && r.result.Ok?
      && r.state.buffer == map[]
      && r.state.dispatcher == Dispatch.Copy
      && |r.state.stores| == |m.stores|
      && (forall i :: 0 <= i < |m.stores| ==> r.state.stores[i] == m.stores[i] + m.buffer)
      && r.state.placement == m.placement + Placements(m.buffer, Dispatch.AllIndices(|m.stores|))
    ensures m.Open? && m.dispatcher.RoundRobin? && m.buffer != map[] ==>
      && r.result == Err(if |m.stores| == 0 then StopIteration else TypeError)
      && r.state == m.(dispatcher := Dispatch.Call(m.dispatcher, |m.stores|).state)
  {
    if m.Closed? then Ret(m, Err(AttributeError))
    else if m.buffer == map[] then Ret(m, Ok(()))
    else
      var call := Dispatch.Call(m.dispatcher, |m.stores|);
      var called := m.(dispatcher := call.state);
      match call.result
      case Err(e) => Ret(called, Err(e))
      case Ok(Index(_)) => Ret(called, Err(TypeError))
      case Ok(Indices(ix)) =>
        var stores := seq(|m.stores|, i requires 0 <= i < |m.stores| => m.stores[i] + m.buffer);
        Ret(called.(stores := stores, placement := m.placement + Placements(m.buffer, ix), buffer := map[]), Ok(()))
  }

  /** `for store in stores: self._stores[store][key] = value`: the stores
      named by `ix`, in order, get `k` mapped to `v`. An index past the end
      of the store list raises IndexError, with the earlier writes done. */
  method WriteEach<K(!new), V>(stores: seq<map<K, V>>, ix: seq<nat>, k: K, v: V) returns (r: Ret<seq<map<K, V>>, ()>)
    ensures |r.state| == |stores|
    ensures r.result.Ok? <==> forall p :: 0 <= p < |ix| ==> ix[p] < |stores|
    ensures r.result.Err? ==> r.result.error == IndexError
    ensures r.result.Ok? ==> forall i :: 0 <= i < |stores| ==>
      r.state[i] == if i in ix then stores[i][k := v] else stores[i]
  {
    var out := stores;
    var p := 0;
    while p < |ix|
      invariant 0 <= p <= |ix|
      invariant |out| == |stores|
      invariant forall q :: 0 <= q < p ==> ix[q] < |stores|
      invariant forall i :: 0 <= i < |stores| ==> out[i] == if i in ix[..p] then stores[i][k := v] else stores[i]
    {
      if ix[p] >= |out| {
        return Ret(out, Err(IndexError));
      }
      out := out[ix[p] := out[ix[p]][k := v]];
      assert ix[..p + 1] == ix[..p] + [ix[p]];
      p := p + 1;
    }
    assert ix[..p] == ix;
    r := Ret(out, Ok(()));
  }

  /** `sync` as the source runs it: the buffered items one at a time, in
      whatever order the dict yields them, each written to the stores its
      dispatcher call names and placed there, then the buffer cleared. Every
      order leaves the frontend `Sync` describes. */
  method SyncLoop<K(!new), V>(m: Multi<K, V>) returns (r: Ret<Multi<K, V>, ()>)
    requires Valid(m)
    ensures r == Sync(m)
  {
    if m.Closed? {
      return Ret(m, Err(AttributeError));
    }
    var n := |m.stores|;
    var stores := m.stores;
    var placement := m.placement;
    var dispatcher := m.dispatcher;
    var todo := m.buffer.Keys;
    while todo != {}
      invariant todo <= m.buffer.Keys
      invariant |stores| == n
      invariant m.dispatcher.RoundRobin? ==>
        todo == m.buffer.Keys && stores == m.stores && placement == m.placement && dispatcher == m.dispatcher
      invariant m.dispatcher.Copy? ==> dispatcher == Dispatch.Copy
      invariant m.dispatcher.Copy? ==> forall i :: 0 <= i < n ==>
        Overridden(stores[i], m.stores[i], m.buffer, m.buffer.Keys - todo)
      invariant m.dispatcher.Copy? ==>
        Placed(placement, m.placement, m.buffer.Keys - todo, Dispatch.AllIndices(n))
      decreases todo
    {
      var k :| k in todo;
      var call := Dispatch.Call(dispatcher, n);
      dispatcher := call.state;
      if call.result.Err? {
        return Ret(m.(dispatcher := dispatcher), Err(call.result.error));
      }
      if call.result.value.Index? {
        return Ret(m.(dispatcher := dispatcher), Err(TypeError));
      }
      var ix := call.result.value.ix;
      var written := WriteEach(stores, ix, k, m.buffer[k]);
      AllIndicesListed(n);
      CopyStep(m, stores, placement, todo, k, written.state);
      stores := written.state;
      placement := placement[k := ix];
      todo := todo - {k};
    }
    if m.buffer == map[] {
      return Ret(m, Ok(()));
    }
    assert m.dispatcher.Copy? by {
      var k :| k in m.buffer;
    }
    CopiedAll(m, stores, placement);
    r := Ret(m.(stores := stores, placement := placement, buffer := map[]), Ok(()));
  }

  lemma AllIndicesListed(n: nat)
    ensures forall i :: 0 <= i < n ==> i in Dispatch.AllIndices(n)
  {
    forall i | 0 <= i < n
      ensures i in Dispatch.AllIndices(n)
    {
      assert Dispatch.AllIndices(n)[i] == i;
    }
  }

  /** Writing one more buffered item to every store, and placing it on every
      store, extends what the copy loop has done by that item. */
  lemma CopyStep<K(!new), V>(m: Multi<K, V>, stores: seq<map<K, V>>, placement: map<K, seq<nat>>, todo: set<K>, k: K, written: seq<map<K, V>>)
    requires m.Open? && todo <= m.buffer.Keys && k in todo
    requires |stores| == |m.stores| && |written| == |m.stores|
    requires forall i :: 0 <= i < |m.stores| ==> Overridden(stores[i], m.stores[i], m.buffer, m.buffer.Keys - todo)
    requires Placed(placement, m.placement, m.buffer.Keys - todo, Dispatch.AllIndices(|m.stores|))
    requires forall i :: 0 <= i < |m.stores| ==> written[i] == stores[i][k := m.buffer[k]]
    ensures forall i :: 0 <= i < |m.stores| ==> Overridden(written[i], m.stores[i], m.buffer, m.buffer.Keys - (todo - {k}))
    ensures Placed(placement[k := Dispatch.AllIndices(|m.stores|)], m.placement, m.buffer.Keys - (todo - {k}), Dispatch.AllIndices(|m.stores|))
  {
    var done := m.buffer.Keys - todo;
    assert m.buffer.Keys - (todo - {k}) == done + {k};
    OverrideStep(stores, m.stores, m.buffer, done, k, |m.stores|);
  }

  /** Once the copy dispatcher's loop has written every buffered item, the
      stores and the placement are those `Sync` describes. */
  lemma CopiedAll<K(!new), V>(m: Multi<K, V>, stores: seq<map<K, V>>, placement: map<K, seq<nat>>)
    requires Valid(m) && m.Open? && m.dispatcher.Copy? && m.buffer != map[]
    requires |stores| == |m.stores|
    requires forall i :: 0 <= i < |m.stores| ==> Overridden(stores[i], m.stores[i], m.buffer, m.buffer.Keys - {})
    requires Placed(placement, m.placement, m.buffer.Keys - {}, Dispatch.AllIndices(|m.stores|))
    ensures Sync(m) == Ret(m.(stores := stores, placement := placement, buffer := map[]), Ok(()))
  {
    var n := |m.stores|;
    assert m.buffer.Keys - {} == m.buffer.Keys;
    forall i | 0 <= i < n
      ensures stores[i] == m.stores[i] + m.buffer
    {
      OverriddenAll(stores[i], m.stores[i], m.buffer);
    }
    PlacedAll(placement, m.placement, m.buffer, Dispatch.AllIndices(n));
    assert stores == Sync(m).state.stores;
  }

  /** `s` is `base` overridden by the entries of `buffer` whose keys are in
      `done`. */
  ghost predicate Overridden<K(!new), V>(s: map<K, V>, base: map<K, V>, buffer: map<K, V>, done: set<K>)
    requires done <= buffer.Keys
  {
    && s.Keys == base.Keys + done
    && (forall j :: j in done ==> s[j] == buffer[j])
    && (forall j :: j in base && j !in done ==> s[j] == base[j])
  }

  ghost predicate Placed<K(!new)>(p: map<K, seq<nat>>, base: map<K, seq<nat>>, done: set<K>, ix: seq<nat>) {
    && p.Keys == base.Keys + done
    && (forall j :: j in done ==> p[j] == ix)
    && (forall j :: j in base && j !in done ==> p[j] == base[j])
  }

  lemma OverrideStep<K(!new), V>(stores: seq<map<K, V>>, base: seq<map<K, V>>, buffer: map<K, V>, done: set<K>, k: K, n: nat)
    requires |stores| == n && |base| == n && done <= buffer.Keys && k in buffer && k !in done
    requires forall i :: 0 <= i < n ==> Overridden(stores[i], base[i], buffer, done)
    ensures forall i :: 0 <= i < n ==> Overridden(stores[i][k := buffer[k]], base[i], buffer, done + {k})
  {
  }

  lemma OverriddenAll<K(!new), V>(s: map<K, V>, base: map<K, V>, buffer: map<K, V>)
    requires Overridden(s, base, buffer, buffer.Keys)
    ensures s == base + buffer
  {
  }

  lemma PlacedAll<K(!new), V>(p: map<K, seq<nat>>, base: map<K, seq<nat>>, buffer: map<K, V>, ix: seq<nat>)
    requires Placed(p, base, buffer.Keys, ix)
    ensures p == base + Placements(buffer, ix)
  {
  }

  /** The position in `ix` of the first store holding `k`: a lookup tries
      the placed stores in order and takes the first that does not raise
      KeyError. An index past the end of the store list raises IndexError,
      which the lookup does not catch; no holder at all is KeyError. */
  function FirstHolder<K(!new), V>(stores: seq<map<K, V>>, ix: seq<nat>, k: K): (r: Result<nat>)
    ensures r.Ok? ==> r.value < |ix| && ix[r.value] < |stores| && k in stores[ix[r.value]]
    ensures r.Ok? ==> forall q :: 0 <= q < r.value ==> ix[q] < |stores| && k !in stores[ix[q]]
    ensures r == Err(KeyError) <==> forall q :: 0 <= q < |ix| ==> ix[q] < |stores| && k !in stores[ix[q]]
    ensures r.Err? && r.error != KeyError ==> r.error == IndexError
    decreases |ix|
  {
    if ix == [] then Err(KeyError)
    else if ix[0] >= |stores| then Err(IndexError)
    else if k in stores[ix[0]] then Ok(0)
    else
      match FirstHolder(stores, ix[1..], k)
      case Ok(p) => Ok(p + 1)
      case Err(e) => Err(e)
  }

  /** A flush neither reads nor writes the cache. */
  lemma SyncIgnoresCache<K(!new), V>(m: Multi<K, V>, c: Caches.Cache<K, V>)
    requires m.Open? && Valid(m) && Caches.Valid(c)
    ensures Sync(m.(cache := c)).result == Sync(m).result
    ensures Sync(m.(cache := c)).state == Sync(m).state.(cache := c)
  {
  }

  /** `__getitem__`: a cache hit answers at once. On a miss the buffer is
      flushed (a failing flush raises out of the lookup), then the placed
      stores are tried in order; the first holder's value is cached and
      returned. An unplaced key, or one no placed store holds, is KeyError. */
  function Get<K(!new), V>(m: Multi<K, V>, k: K, now: int, victims: set<K>): (r: Ret<Multi<K, V>, V>)
    requires Valid(m)
    requires m.Open? ==> Caches.CullFits(m.cache, k, victims)
    ensures Valid(r.state)
    ensures m.Closed? ==> r == Ret(m, Err(TypeError))
    ensures m.Open? ==> r.state.Open? && r.state.syncAt == m.syncAt
    ensures m.Open? && k in Caches.Contents(m.cache) ==>
      && r.result == Ok(Caches.Contents(m.cache)[k])
      && r.state == m.(cache := r.state.cache)
      && Caches.Contents(r.state.cache) == Caches.Contents(m.cache)
    ensures m.Open? && k !in Caches.Contents(m.cache) ==>
      var s := Sync(m).state;
      && r.state.stores == s.stores && r.state.buffer == s.buffer
      && r.state.placement == s.placement && r.state.dispatcher == s.dispatcher
    ensures m.Open? && k !in Caches.Contents(m.cache) && Sync(m).result.Err? ==> r.result == Err(Sync(m).result.error)
    ensures m.Open? && k !in Caches.Contents(m.cache) && Sync(m).result.Ok? ==>
      var s := Sync(m).state;
      && (k !in s.placement ==> r.result == Err(KeyError))
      && (k in s.placement && FirstHolder(s.stores, s.placement[k], k).Err? ==>
            r.result == Err(FirstHolder(s.stores, s.placement[k], k).error))
      && (k in s.placement && FirstHolder(s.stores, s.placement[k], k).Ok? ==>
            r.result == Ok(s.stores[s.placement[k][FirstHolder(s.stores, s.placement[k], k).value]][k]))
    ensures m.Open? && k !in Caches.Contents(m.cache) && r.result.Ok? ==>
      r.state.cache == Caches.Set(Caches.Get(m.cache, k, now).state, k, r.result.value, now, victims)
  {
    if m.Closed? then Ret(m, Err(TypeError))
    else
      var hit := Caches.Get(m.cache, k, now);
      var looked := m.(cache := hit.state);
      if hit.result.Ok? then Ret(looked, hit.result)
      else
        var synced := Sync(looked);
        SyncIgnoresCache(m, hit.state);
        var s := synced.state;
        if synced.result.Err? then Ret(s, Err(synced.result.error))
        else if k !in s.placement then Ret(s, Err(KeyError))
        else
          match FirstHolder(s.stores, s.placement[k], k)
          case Err(e) => Ret(s, Err(e))
          case Ok(p) =>
            var v := s.stores[s.placement[k][p]][k];
            Ret(s.(cache := Caches.Set(s.cache, k, v, now, victims)), Ok(v))
  }

  /** `__setitem__`: `cache[k] = buffer[k] = v`, then a flush once the
      buffer holds `sync` entries. */
  function Set<K(!new), V>(m: Multi<K, V>, k: K, v: V, now: int, victims: set<K>): (r: Ret<Multi<K, V>, ()>)
    requires Valid(m)
    requires m.Open? ==> Caches.CullFits(m.cache, k, victims)
    ensures Valid(r.state)
    ensures m.Closed? ==> r == Ret(m, Err(TypeError))
    ensures m.Open? ==> r.state.Open? && r.state.cache == Caches.Set(m.cache, k, v, now, victims)
    ensures m.Open? && |m.buffer[k := v]| < m.syncAt ==>
      r == Ret(m.(cache := r.state.cache, buffer := m.buffer[k := v]), Ok(()))
    ensures m.Open? && |m.buffer[k := v]| >= m.syncAt ==>
      r == Sync(m.(cache := r.state.cache, buffer := m.buffer[k := v]))
    ensures m.Open? && r.result.Ok? ==> r.state.buffer == map[] || |r.state.buffer| < m.syncAt
  {
    if m.Closed? then Ret(m, Err(TypeError))
    else
      var written := m.(cache := Caches.Set(m.cache, k, v, now, victims), buffer := m.buffer[k := v]);
      if |written.buffer| >= m.syncAt then Sync(written)
      else Ret(written, Ok(()))
  }

  predicate Distinct(ix: seq<nat>) {
    forall p, q :: 0 <= p < q < |ix| ==> ix[p] != ix[q]
  }

  /** `del stores[i][key]` for each placed index in turn: KeyError from a
      store that lacks `k`, IndexError past the end of the list, each with
      the earlier deletions done. */
  function DeleteEach<K(!new), V>(stores: seq<map<K, V>>, ix: seq<nat>, k: K): (r: Ret<seq<map<K, V>>, ()>)
    ensures |r.state| == |stores|
    ensures forall i :: 0 <= i < |stores| ==> r.state[i].Keys <= stores[i].Keys
    ensures forall i, j :: 0 <= i < |stores| && j in r.state[i] ==> r.state[i][j] == stores[i][j]
    ensures forall i, j :: 0 <= i < |stores| && j != k && j in stores[i] ==> j in r.state[i]
    ensures r.result.Ok? ==> forall p :: 0 <= p < |ix| ==> ix[p] < |stores| && k in stores[ix[p]]
    ensures r.result.Err? ==> r.result.error in {KeyError, IndexError}
    decreases |ix|
  {
    if ix == [] then Ret(stores, Ok(()))
    else if ix[0] >= |stores| then Ret(stores, Err(IndexError))
    else
      match Mapping.Delete(stores[ix[0]], k)
      case Err(e) => Ret(stores, Err(e))
      case Ok(s) =>
        var rest := DeleteEach(stores[ix[0] := s], ix[1..], k);
        assert forall p :: 0 <= p < |ix| - 1 ==> ix[1..][p] == ix[p + 1];
        rest
  }

  /** Distinct placed indices whose stores all hold `k` let every deletion
      succeed. */
  lemma {:induction false} DeleteEachSucceeds<K(!new), V>(stores: seq<map<K, V>>, ix: seq<nat>, k: K)
    requires Distinct(ix) && forall p :: 0 <= p < |ix| ==> ix[p] < |stores| && k in stores[ix[p]]
    ensures DeleteEach(stores, ix, k).result.Ok?
    decreases |ix|
  {
    if ix != [] {
      var next := stores[ix[0] := stores[ix[0]] - {k}];
      forall p | 0 <= p < |ix[1..]|
        ensures ix[1..][p] < |next| && k in next[ix[1..][p]]
      {
        assert ix[1..][p] == ix[p + 1] != ix[0];
      }
      DeleteEachSucceeds(next, ix[1..], k);
    }
  }

  /** A successful run removes `k` from exactly the placed stores. */
  lemma {:induction false} DeleteEachRemoves<K(!new), V>(stores: seq<map<K, V>>, ix: seq<nat>, k: K)
    ensures DeleteEach(stores, ix, k).result.Ok? ==>
      forall i :: 0 <= i < |stores| ==> (k in DeleteEach(stores, ix, k).state[i] <==> k in stores[i] && i !in ix)
    decreases |ix|
  {
    if ix != [] && ix[0] < |stores| && k in stores[ix[0]] {
      var next := stores[ix[0] := stores[ix[0]] - {k}];
      DeleteEachRemoves(next, ix[1..], k);
      assert forall i :: i in ix <==> i == ix[0] || i in ix[1..];
    }
  }

  /** `__delitem__` after its flush: delete `k` from every placed store
      (KeyError for an unplaced key), unplace it, then drop it from the cache
      ignoring its absence. A failure part way leaves the earlier deletions
      done and the key still placed. */
  function Unplace<K(!new), V>(s: Multi<K, V>, k: K): (r: Ret<Multi<K, V>, ()>)
    requires s.Open? && Valid(s)
    ensures Valid(r.state) && r.state.Open?
    ensures r.state.buffer == s.buffer && r.state.dispatcher == s.dispatcher && r.state.syncAt == s.syncAt
    ensures |r.state.stores| == |s.stores|
    ensures k !in s.placement ==> r == Ret(s, Err(KeyError))
    ensures r.result.Ok? <==> k in s.placement && DeleteEach(s.stores, s.placement[k], k).result.Ok?
    ensures r.result.Err? ==> r.result.error in {KeyError, IndexError}
    ensures r.result.Err? ==> r.state.placement == s.placement && r.state.cache == s.cache
    ensures r.result.Ok? ==>
      && r.state.placement == s.placement - {k}
      && r.state.stores == DeleteEach(s.stores, s.placement[k], k).state
      && Caches.Contents(r.state.cache) == Caches.Contents(s.cache) - {k}
  {
    if k !in s.placement then Ret(s, Err(KeyError))
    else
      var deleted := DeleteEach(s.stores, s.placement[k], k);
      if deleted.result.Err? then Ret(s.(stores := deleted.state), Err(deleted.result.error))
      else
        var unplaced := s.(stores := deleted.state, placement := s.placement - {k});
        Ret(unplaced.(cache := Caches.Delete(unplaced.cache, k).state), Ok(()))
  }

  /** `__delitem__`: flush (a failing flush raises out of the deletion),
      then `Unplace`. */
  function Delete<K(!new), V>(m: Multi<K, V>, k: K): (r: Ret<Multi<K, V>, ()>)
    requires Valid(m)
    ensures Valid(r.state)
    ensures m.Closed? ==> r == Ret(m, Err(AttributeError))
    ensures m.Open? ==> r.state.Open?
    ensures m.Open? && Sync(m).result.Err? ==> r == Sync(m)
    ensures m.Open? && Sync(m).result.Ok? ==> r == Unplace(Sync(m).state, k)
  {
    if m.Closed? then Ret(m, Err(AttributeError))
    else
      var synced := Sync(m);
      if synced.result.Err? then synced
      else Unplace(synced.state, k)
  }

  /** `__contains__`: placement alone decides, so a buffered key is not
      contained until a flush places it. It still answers after `close`,
      which keeps the placement map. */
  function Contains<K(!new), V>(m: Multi<K, V>, k: K): (b: bool)
    ensures b <==> k in m.placement
  {
    Mapping.Contains(m.placement, k)
  }

  /** `__len__`: the number of placed keys, however many stores hold each
      and whatever the buffer holds. */
  function Len<K(!new), V>(m: Multi<K, V>): (n: nat)
    ensures n == |m.placement.Keys|
  {
    |m.placement|
  }

  /** `__iter__`: every placed key exactly once; no flush. */
  method Iter<K(!new), V>(m: Multi<K, V>) returns (keys: seq<K>)
    ensures |keys| == Len(m)
    ensures forall k :: k in keys <==> Contains(m, k)
    ensures forall i, j :: 0 <= i < j < |keys| ==> keys[i] != keys[j]
  {
    keys := Mapping.Iter(m.placement);
  }

  /** `close`: flush, close every store and drop stores, cache and buffer. A
      flush that raises aborts the close with nothing closed. Closing a
      closed frontend does nothing. */
  function Close<K(!new), V>(m: Multi<K, V>): (r: Ret<Multi<K, V>, ()>)
    requires Valid(m)
    ensures m.Closed? ==> r == Ret(m, Ok(()))
    ensures m.Open? && Sync(m).result.Err? ==> r == Sync(m)
    ensures m.Open? && Sync(m).result.Ok? ==>
      r == Ret(Closed(Sync(m).state.stores, Sync(m).state.placement), Ok(()))
    ensures r.result.Ok? ==> r.state.Closed? && r.state.placement.Keys >= m.placement.Keys
  {
    if m.Closed? then Ret(m, Ok(()))
    else
      var synced := Sync(m);
      if synced.result.Err? then synced
      else Ret(Closed(synced.state.stores, synced.state.placement), Ok(()))
  }

  /** With the round-robin dispatcher over at least one store, the first
      flush of a non-empty buffer raises TypeError: a write that reaches the
      threshold raises, stays in the buffer, reaches no store and is never
      placed, so the frontend does not contain it. */
  lemma RoundRobinSyncFails<K(!new), V>(m: Multi<K, V>, k: K, v: V, now: int, victims: set<K>)
    requires m.Open? && Valid(m) && m.dispatcher.RoundRobin? && |m.stores| > 0
    requires m.syncAt <= |m.buffer[k := v]|
    requires Caches.CullFits(m.cache, k, victims)
    ensures Set(m, k, v, now, victims).result == Err(TypeError)
    ensures Set(m, k, v, now, victims).state.stores == m.stores
    ensures k in Set(m, k, v, now, victims).state.buffer
    ensures Contains(Set(m, k, v, now, victims).state, k) == Contains(m, k)
  {
  }

  /** The copy dispatcher's replication invariant: every placed key is placed
      on every store, and every store holds the same value for it. */
  ghost predicate Mirrored<K(!new), V>(m: Multi<K, V>)
    requires m.Open?
  {
    && m.dispatcher.Copy?
    && |m.stores| > 0
    && (forall k :: k in m.placement ==> m.placement[k] == Dispatch.AllIndices(|m.stores|))
    && (forall k :: k in m.placement ==> k in m.stores[0])
    && (forall k, i :: k in m.placement && 0 <= i < |m.stores| ==> k in m.stores[i] && m.stores[i][k] == m.stores[0][k])
  }

  /** The mapping a replicated frontend presents: the placed entries (read
      from the first store) overridden by the buffer. */
  function View<K(!new), V>(m: Multi<K, V>): map<K, V>
    requires m.Open? && |m.stores| > 0
  {
    (map k | k in m.placement && k in m.stores[0] :: m.stores[0][k]) + m.buffer
  }

  /** Whatever the cache holds agrees with the presented mapping. */
  ghost predicate Coherent<K(!new), V>(m: Multi<K, V>)
    requires m.Open? && |m.stores| > 0
  {
    forall k :: k in Caches.Contents(m.cache) ==> k in View(m) && View(m)[k] == Caches.Contents(m.cache)[k]
  }

  /** A flush of a replicated frontend succeeds, keeps it replicated and keeps
      the presented mapping, which the first store now holds by itself. */
  lemma SyncKeepsMirrored<K(!new), V>(m: Multi<K, V>)
    requires m.Open? && Valid(m) && Mirrored(m)
    ensures Sync(m).result.Ok? && Sync(m).state.Open? && |Sync(m).state.stores| == |m.stores|
    ensures Mirrored(Sync(m).state)
    ensures View(Sync(m).state) == View(m)
    ensures Coherent(m) ==> Coherent(Sync(m).state)
  {
    var s := Sync(m).state;
    var n := |m.stores|;
    forall k, i | k in s.placement && 0 <= i < n
      ensures k in s.stores[i] && s.stores[i][k] == s.stores[0][k]
    {
      assert s.stores[i] == m.stores[i] + m.buffer;
      assert s.stores[0] == m.stores[0] + m.buffer;
    }
    assert Mirrored(s);
    assert s.stores[0] == m.stores[0] + m.buffer;
    MirroredView(m, s);
  }

  lemma MirroredView<K(!new), V>(m: Multi<K, V>, s: Multi<K, V>)
    requires m.Open? && s.Open? && Mirrored(m) && |s.stores| > 0
    requires s.buffer == map[] && s.stores[0] == m.stores[0] + m.buffer
    requires s.placement.Keys == m.placement.Keys + m.buffer.Keys
    ensures View(s) == View(m)
  {
    forall k
      ensures k in View(s) <==> k in View(m)
    {
    }
  }

  /** On a replicated, coherent frontend a lookup answers with the presented
      mapping (the first placed store holds every placed key) and leaves the
      frontend replicated and coherent, presenting the same mapping. */
  lemma GetAnswersView<K(!new), V>(m: Multi<K, V>, k: K, now: int, victims: set<K>)
    requires m.Open? && Valid(m) && Mirrored(m) && Coherent(m)
    requires Caches.CullFits(m.cache, k, victims)
    ensures Get(m, k, now, victims).state.Open?
    ensures |Get(m, k, now, victims).state.stores| == |m.stores|
    ensures Mirrored(Get(m, k, now, victims).state)
    ensures View(Get(m, k, now, victims).state) == View(m)
    ensures Coherent(Get(m, k, now, victims).state)
    ensures Get(m, k, now, victims).result.Ok? <==> k in View(m)
    ensures Get(m, k, now, victims).result.Ok? ==> Get(m, k, now, victims).result.value == View(m)[k]
  {
    if k in Caches.Contents(m.cache) {
      var r := Get(m, k, now, victims);
      assert View(r.state) == View(m);
    } else {
      GetMissAnswersView(m, k, now, victims);
    }
  }

  /** The miss case: after the flush the first placed store is the first
      holder, and its value is the presented one. */
  lemma GetMissAnswersView<K(!new), V>(m: Multi<K, V>, k: K, now: int, victims: set<K>)
    requires m.Open? && Valid(m) && Mirrored(m) && Coherent(m)
    requires Caches.CullFits(m.cache, k, victims)
    requires k !in Caches.Contents(m.cache)
    ensures Get(m, k, now, victims).state.Open?
    ensures |Get(m, k, now, victims).state.stores| == |m.stores|
    ensures Mirrored(Get(m, k, now, victims).state)
    ensures View(Get(m, k, now, victims).state) == View(m)
    ensures Coherent(Get(m, k, now, victims).state)
    ensures Get(m, k, now, victims).result.Ok? <==> k in View(m)
    ensures Get(m, k, now, victims).result.Ok? ==> Get(m, k, now, victims).result.value == View(m)[k]
  {
    var r := Get(m, k, now, victims);
    SyncKeepsMirrored(m);
    var s := Sync(m).state;
    if k in s.placement {
      assert s.placement[k][0] == 0;
      assert FirstHolder(s.stores, s.placement[k], k) == Ok(0);
      assert k in View(s) && View(s)[k] == s.stores[0][k];
    }
    assert r.state.stores == s.stores && r.state.buffer == s.buffer && r.state.placement == s.placement;
    assert View(r.state) == View(s);
  }

  /** A write to a replicated frontend maps `k` to `v` in the presented
      mapping and keeps it replicated and coherent, flushed or not. */
  lemma SetKeepsMirrored<K(!new), V>(m: Multi<K, V>, k: K, v: V, now: int, victims: set<K>)
    requires m.Open? && Valid(m) && Mirrored(m)
    requires Caches.CullFits(m.cache, k, victims)
    ensures Set(m, k, v, now, victims).result.Ok?
    ensures Set(m, k, v, now, victims).state.Open?
    ensures |Set(m, k, v, now, victims).state.stores| == |m.stores|
    ensures Mirrored(Set(m, k, v, now, victims).state)
    ensures View(Set(m, k, v, now, victims).state) == View(m)[k := v]
    ensures Coherent(m) ==> Coherent(Set(m, k, v, now, victims).state)
  {
    var cache := Caches.Set(m.cache, k, v, now, victims);
    BufferKeepsMirrored(m, k, v, cache);
    if Coherent(m) {
      BufferKeepsCoherent(m, k, v, cache);
    }
    if |m.buffer[k := v]| >= m.syncAt {
      SyncKeepsMirrored(m.(cache := cache, buffer := m.buffer[k := v]));
    }
  }

  /** The buffered half of a write: the buffer takes `k`, the stores and the
      placement do not move, so the presented mapping takes `k` too. */
  lemma BufferKeepsMirrored<K(!new), V>(m: Multi<K, V>, k: K, v: V, cache: Caches.Cache<K, V>)
    requires m.Open? && Mirrored(m)
    ensures Mirrored(m.(cache := cache, buffer := m.buffer[k := v]))
    ensures View(m.(cache := cache, buffer := m.buffer[k := v])) == View(m)[k := v]
  {
    var w := m.(cache := cache, buffer := m.buffer[k := v]);
    assert View(w) == View(m)[k := v];
  }

  /** A cache that holds only what the old cache held, or `k` mapped to
      `v`, agrees with the presented mapping after the write. */
  lemma BufferKeepsCoherent<K(!new), V>(m: Multi<K, V>, k: K, v: V, cache: Caches.Cache<K, V>)
    requires m.Open? && Mirrored(m) && Coherent(m)
    requires forall j :: j in Caches.Contents(cache) ==>
      j in Caches.Contents(m.cache)[k := v] && Caches.Contents(cache)[j] == Caches.Contents(m.cache)[k := v][j]
    ensures Coherent(m.(cache := cache, buffer := m.buffer[k := v]))
  {
    var w := m.(cache := cache, buffer := m.buffer[k := v]);
    BufferKeepsMirrored(m, k, v, cache);
    forall j | j in Caches.Contents(w.cache)
      ensures j in View(w) && View(w)[j] == Caches.Contents(w.cache)[j]
    {
    }
  }

  /** A deletion from a replicated frontend succeeds exactly when the key is
      presented (KeyError otherwise), removes it from the presented mapping
      and from every store, and keeps the frontend replicated and coherent. */
  lemma DeleteKeepsMirrored<K(!new), V>(m: Multi<K, V>, k: K)
    requires m.Open? && Valid(m) && Mirrored(m)
    ensures Delete(m, k).state.Open?
    ensures |Delete(m, k).state.stores| == |m.stores|
    ensures Delete(m, k).result.Ok? <==> k in View(m)
    ensures Delete(m, k).result.Err? ==> Delete(m, k).result.error == KeyError
    ensures Mirrored(Delete(m, k).state)
    ensures View(Delete(m, k).state) == View(m) - {k}
    ensures Delete(m, k).result.Ok? ==> forall i :: 0 <= i < |m.stores| ==> k !in Delete(m, k).state.stores[i]
    ensures Coherent(m) ==> Coherent(Delete(m, k).state)
  {
    SyncKeepsMirrored(m);
    UnplaceKeepsMirrored(Sync(m).state, k);
  }

  /** `Unplace` on a flushed replicated frontend: it succeeds exactly for a
      placed key, removing it from every store and from the presented
      mapping, and keeps the frontend replicated and coherent. */
  lemma UnplaceKeepsMirrored<K(!new), V>(s: Multi<K, V>, k: K)
    requires s.Open? && Valid(s) && Mirrored(s) && s.buffer == map[]
    ensures Unplace(s, k).result.Ok? <==> k in View(s)
    ensures Unplace(s, k).result.Err? ==> Unplace(s, k).result.error == KeyError
    ensures Mirrored(Unplace(s, k).state)
    ensures View(Unplace(s, k).state) == View(s) - {k}
    ensures Unplace(s, k).result.Ok? ==> forall i :: 0 <= i < |s.stores| ==> k !in Unplace(s, k).state.stores[i]
    ensures Coherent(s) ==> Coherent(Unplace(s, k).state)
  {
    var r := Unplace(s, k);
    if k in s.placement {
      DeleteEverywhere(s.stores, k);
      DeleteKeepsMirroredStep(s, r.state, k);
    } else {
      assert k !in View(s);
      assert View(s) - {k} == View(s);
    }
    if Coherent(s) {
      var after, left := View(r.state), Caches.Contents(r.state.cache);
      forall j | j in left
        ensures j in after && after[j] == left[j]
      {
      }
    }
  }

  /** Deleting a key every store holds from every store in index order
      succeeds and leaves no store holding it. */
  lemma DeleteEverywhere<K(!new), V>(stores: seq<map<K, V>>, k: K)
    requires forall i :: 0 <= i < |stores| ==> k in stores[i]
    ensures DeleteEach(stores, Dispatch.AllIndices(|stores|), k).result.Ok?
    ensures forall i :: 0 <= i < |stores| ==> k !in DeleteEach(stores, Dispatch.AllIndices(|stores|), k).state[i]
  {
    var ix := Dispatch.AllIndices(|stores|);
    assert Distinct(ix);
    AllIndicesListed(|stores|);
    DeleteEachSucceeds(stores, ix, k);
    DeleteEachRemoves(stores, ix, k);
  }

  lemma DeleteKeepsMirroredStep<K(!new), V>(s: Multi<K, V>, r: Multi<K, V>, k: K)
    requires s.Open? && r.Open? && Mirrored(s) && s.buffer == map[]
    requires r.dispatcher == s.dispatcher && r.buffer == map[]
    requires r.placement == s.placement - {k}
    requires |r.stores| == |s.stores|
    requires forall i :: 0 <= i < |s.stores| ==> r.stores[i].Keys <= s.stores[i].Keys
    requires forall i, j :: 0 <= i < |s.stores| && j in r.stores[i] ==> r.stores[i][j] == s.stores[i][j]
    requires forall i, j :: 0 <= i < |s.stores| && j != k && j in s.stores[i] ==> j in r.stores[i]
    requires forall i :: 0 <= i < |s.stores| ==> k !in r.stores[i]
    ensures Mirrored(r)
    ensures View(r) == View(s) - {k}
  {
  }

  /** Replication round trip: on a replicated, coherent frontend a written
      value reads back; once the write triggers a flush, every store holds
      it and it is placed on every store. */
  lemma ReplicatedReadYourWrite<K(!new), V>(m: Multi<K, V>, k: K, v: V, now: int, victims: set<K>, victims2: set<K>)
    requires m.Open? && Valid(m) && Mirrored(m) && Coherent(m)
    requires Caches.CullFits(m.cache, k, victims)
    requires Caches.CullFits(Set(m, k, v, now, victims).state.cache, k, victims2)
    ensures Get(Set(m, k, v, now, victims).state, k, now, victims2).result == Ok(v)
    ensures m.syncAt <= |m.buffer[k := v]| ==>
      var w := Set(m, k, v, now, victims).state;
      && k in w.placement && w.placement[k] == Dispatch.AllIndices(|m.stores|)
      && forall i :: 0 <= i < |m.stores| ==> k in w.stores[i] && w.stores[i][k] == v
  {
    SetKeepsMirrored(m, k, v, now, victims);
    var w := Set(m, k, v, now, victims).state;
    GetAnswersView(w, k, now, victims2);
    if m.syncAt <= |m.buffer[k := v]| {
      assert w.buffer == map[];
      assert k in View(w);
    }
  }

  /** A write that stays in the buffer changes neither membership nor
      length: both read the placement map alone. */
  lemma BufferedWriteInvisible<K(!new), V>(m: Multi<K, V>, k: K, v: V, now: int, victims: set<K>, j: K)
    requires m.Open? && Valid(m) && Caches.CullFits(m.cache, k, victims)
    requires |m.buffer[k := v]| < m.syncAt
    ensures Contains(Set(m, k, v, now, victims).state, j) == Contains(m, j)
    ensures Len(Set(m, k, v, now, victims).state) == Len(m)
  {
  }

  /** On a replicated frontend with nothing buffered, membership and length
      are those of the presented mapping. */
  lemma ObserversAnswerView<K(!new), V>(m: Multi<K, V>, k: K)
    requires m.Open? && Mirrored(m) && m.buffer == map[]
    ensures Contains(m, k) <==> k in View(m)
    ensures Len(m) == |View(m)|
  {
    assert View(m).Keys == m.placement.Keys;
  }

  /** A write of a new key that stays buffered reads back, yet is not
      contained until a flush places it. */
  lemma BufferedKeyReadButNotContained<K(!new), V>(m: Multi<K, V>, k: K, v: V, now: int, victims: set<K>, victims2: set<K>)
    requires m.Open? && Valid(m) && Mirrored(m) && Coherent(m)
    requires Caches.CullFits(m.cache, k, victims)
    requires Caches.CullFits(Set(m, k, v, now, victims).state.cache, k, victims2)
    requires k !in m.placement && |m.buffer[k := v]| < m.syncAt
    ensures !Contains(Set(m, k, v, now, victims).state, k)
    ensures Get(Set(m, k, v, now, victims).state, k, now, victims2).result == Ok(v)
  {
    ReplicatedReadYourWrite(m, k, v, now, victims, victims2);
  }
}
