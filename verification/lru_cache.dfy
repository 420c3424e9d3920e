/** `BaseLRUCache` over a dict store, i.e. `SimpleLRUCache` (shove/cache.py):
    the TTL cache plus an approximate least-recently-used bookkeeping.

    Every successful access appends a token for its key to a queue and bumps
    the key's reference count; the count is the number of the key's tokens in
    the queue. Once the queue is longer than four times the capacity it is
    compacted to the newest token of each key. `MemoryLRUCache` is the same
    cache behind a lock with a copy-on-read, the identity on model values.
 */
module LruCache {
  import opened Results
  import TtlCache

  /** The underlying `BaseCache` state, the recency queue `_queue`, the
      reference counts `_refcount`, and the `_hits`/`_misses` counters. */
  datatype Cache<K, V> = Cache(
    base: TtlCache.Cache<K, V>,
    queue: seq<K>,
    refcount: map<K, int>,
    hits: nat,
    misses: nat)

  /** Every queued token has a reference count: `_housekeep` and the
      eviction loop index `_refcount` by queued keys. */
  ghost predicate TokensCounted<K(!new)>(queue: seq<K>, refcount: map<K, int>) {
    forall i :: 0 <= i < |queue| ==> queue[i] in refcount
  }

  /** The reference count of each key is the number of its tokens in the
      queue, and only queued keys have a count. */
  ghost predicate Tracked<K(!new)>(queue: seq<K>, refcount: map<K, int>) {
    && (forall k :: k in refcount <==> k in queue)
    && (forall k :: k in refcount ==> refcount[k] == multiset(queue)[k])
  }

  /** The LRU cache invariant: the TTL cache's own, the refcount invariant,
      and a reference count for every stored key. */
  ghost predicate Valid<K(!new), V>(c: Cache<K, V>) {
    && TtlCache.Valid(c.base)
    && Tracked(c.queue, c.refcount)
    && c.base.store.Keys <= c.refcount.Keys
  }

  /** The queue reduced to the newest token of each key, in the order of
      those tokens. */
  function KeepLast<K(==,!new)>(q: seq<K>): (r: seq<K>)
    ensures forall k :: k in r <==> k in q
    ensures forall i, j :: 0 <= i < j < |r| ==> r[i] != r[j]
    ensures q != [] ==> r != [] && r[|r| - 1] == q[|q| - 1]
    decreases |q|
  {
    if q == [] then []
    else if q[0] in q[1..] then KeepLast(q[1..])
    else [q[0]] + KeepLast(q[1..])
  }

  /** The compaction loop of `_housekeep` after it has walked past some
      tokens: `rest` are the tokens still to pop, `kept` the tokens already
      re-appended. A token whose count is exactly 1 is re-appended; any
      other is dropped and its count decremented. */
  function CompactFrom<K(!new)>(rest: seq<K>, kept: seq<K>, rc: map<K, int>): (r: (seq<K>, map<K, int>))
    requires TokensCounted(rest, rc)
    ensures r.1.Keys == rc.Keys
    ensures forall k :: k in r.0 ==> k in kept || k in rest
    decreases |rest|
  {
    if rest == [] then (kept, rc)
    else
      var k := rest[0];
      if rc[k] == 1 then CompactFrom(rest[1..], kept + [k], rc)
      else CompactFrom(rest[1..], kept, rc[k := rc[k] - 1])
  }

  /** The compaction of `_housekeep`, one pass over the whole queue. */
  function Compact<K(!new)>(queue: seq<K>, rc: map<K, int>): (seq<K>, map<K, int>)
    requires TokensCounted(queue, rc)
  {
    CompactFrom(queue, [], rc)
  }

  lemma MultisetSplit<K(!new)>(q: seq<K>)
    requires q != []
    ensures multiset(q) == multiset{q[0]} + multiset(q[1..])
  {
    assert q == [q[0]] + q[1..];
  }

  /** The counts of the walk: each is the number of the key's tokens still to
      pop plus those already kept, and no kept key has a token left. */
  ghost predicate WalkCounts<K(!new)>(rest: seq<K>, kept: seq<K>, rc: map<K, int>) {
    && (forall k :: k in rc ==> rc[k] == multiset(rest)[k] + multiset(kept)[k])
    && (forall k :: k in kept ==> k !in rest)
  }

  /** While `WalkCounts` holds, the walk keeps exactly the newest token of
      each remaining key and ends with every count equal to the number of its
      kept tokens. */
  lemma {:induction false} CompactFromKeepsLast<K(!new)>(rest: seq<K>, kept: seq<K>, rc: map<K, int>)
    requires TokensCounted(rest, rc)
    requires WalkCounts(rest, kept, rc)
    ensures CompactFrom(rest, kept, rc).0 == kept + KeepLast(rest)
    ensures forall k :: k in rc ==> CompactFrom(rest, kept, rc).1[k] == multiset(kept + KeepLast(rest))[k]
    decreases |rest|, 1
  {
    if rest == [] {
      assert kept + KeepLast(rest) == kept;
    } else if rc[rest[0]] == 1 {
      KeepBranch(rest, kept, rc);
    } else {
      DropBranch(rest, kept, rc);
    }
  }

  /** The walk re-appends a token whose count is 1. */
  lemma {:induction false} KeepBranch<K(!new)>(rest: seq<K>, kept: seq<K>, rc: map<K, int>)
    requires TokensCounted(rest, rc) && WalkCounts(rest, kept, rc)
    requires rest != [] && rc[rest[0]] == 1
    ensures CompactFrom(rest, kept, rc).0 == kept + KeepLast(rest)
    ensures forall k :: k in rc ==> CompactFrom(rest, kept, rc).1[k] == multiset(kept + KeepLast(rest))[k]
    decreases |rest|, 0
  {
    var k, tail := rest[0], rest[1..];
    KeepStep(rest, kept, rc);
    CompactFromKeepsLast(tail, kept + [k], rc);
    assert CompactFrom(rest, kept, rc) == CompactFrom(tail, kept + [k], rc);
    calc {
      kept + KeepLast(rest);
      kept + ([k] + KeepLast(tail));
      { AppendAssoc(kept, [k], KeepLast(tail)); }
      (kept + [k]) + KeepLast(tail);
    }
  }

  /** The walk drops a token whose count is not 1 and decrements the count. */
  lemma {:induction false} DropBranch<K(!new)>(rest: seq<K>, kept: seq<K>, rc: map<K, int>)
    requires TokensCounted(rest, rc) && WalkCounts(rest, kept, rc)
    requires rest != [] && rc[rest[0]] != 1
    ensures CompactFrom(rest, kept, rc).0 == kept + KeepLast(rest)
    ensures forall k :: k in rc ==> CompactFrom(rest, kept, rc).1[k] == multiset(kept + KeepLast(rest))[k]
    decreases |rest|, 0
  {
    DropStep(rest, kept, rc);
    CompactFromKeepsLast(rest[1..], kept, rc[rest[0] := rc[rest[0]] - 1]);
    DropFinish(rest, kept, rc);
  }

  lemma DropFinish<K(!new)>(rest: seq<K>, kept: seq<K>, rc: map<K, int>)
    requires TokensCounted(rest, rc)
    requires rest != [] && rc[rest[0]] != 1
    requires KeepLast(rest) == KeepLast(rest[1..])
    requires TokensCounted(rest[1..], rc[rest[0] := rc[rest[0]] - 1])
    requires CompactFrom(rest[1..], kept, rc[rest[0] := rc[rest[0]] - 1]).0 == kept + KeepLast(rest[1..])
    requires forall k :: k in rc[rest[0] := rc[rest[0]] - 1] ==>
      CompactFrom(rest[1..], kept, rc[rest[0] := rc[rest[0]] - 1]).1[k] == multiset(kept + KeepLast(rest[1..]))[k]
    ensures CompactFrom(rest, kept, rc).0 == kept + KeepLast(rest)
    ensures forall k :: k in rc ==> CompactFrom(rest, kept, rc).1[k] == multiset(kept + KeepLast(rest))[k]
  {
    assert CompactFrom(rest, kept, rc) == CompactFrom(rest[1..], kept, rc[rest[0] := rc[rest[0]] - 1]);
  }

  lemma AppendAssoc<K>(a: seq<K>, b: seq<K>, c: seq<K>)
    ensures a + (b + c) == (a + b) + c
  {
  }

  /** A token whose count is 1 is its key's newest, and re-appending it keeps
      the walk's counts. */
  lemma KeepStep<K(!new)>(rest: seq<K>, kept: seq<K>, rc: map<K, int>)
    requires rest != [] && rest[0] in rc && rc[rest[0]] == 1
    requires WalkCounts(rest, kept, rc)
    ensures rest[0] !in rest[1..]
    ensures KeepLast(rest) == [rest[0]] + KeepLast(rest[1..])
    ensures WalkCounts(rest[1..], kept + [rest[0]], rc)
  {
    var k := rest[0];
    MultisetSplit(rest);
    assert multiset(rest[1..])[k] == 0;
    assert multiset(kept + [k]) == multiset(kept) + multiset{k};
  }

  /** A token whose count is not 1 has a newer token of its key, and dropping
      it with a decrement keeps the walk's counts. */
  lemma DropStep<K(!new)>(rest: seq<K>, kept: seq<K>, rc: map<K, int>)
    requires rest != [] && rest[0] in rc && rc[rest[0]] != 1
    requires WalkCounts(rest, kept, rc)
    requires TokensCounted(rest, rc)
    ensures rest[0] in rest[1..]
    ensures KeepLast(rest) == KeepLast(rest[1..])
    ensures WalkCounts(rest[1..], kept, rc[rest[0] := rc[rest[0]] - 1])
    ensures TokensCounted(rest[1..], rc[rest[0] := rc[rest[0]] - 1])
  {
    var k := rest[0];
    MultisetSplit(rest);
    assert k !in kept;
    assert multiset(kept)[k] == 0;
    assert multiset(rest[1..])[k] > 0;
  }

  /** Compaction keeps each queued key exactly once, at the place of its
      newest token, with a reference count of 1; the refcount invariant
      survives it. */
  lemma CompactKeepsNewest<K(!new)>(queue: seq<K>, rc: map<K, int>)
    requires TokensCounted(queue, rc) && Tracked(queue, rc)
    ensures Compact(queue, rc).0 == KeepLast(queue)
    ensures Tracked(Compact(queue, rc).0, Compact(queue, rc).1)
    ensures forall k :: k in Compact(queue, rc).1 ==> Compact(queue, rc).1[k] == 1
  {
    CompactCounts(queue, rc);
    var r := Compact(queue, rc);
    assert forall k :: k in r.1 <==> k in r.0 by {
      assert r.1.Keys == rc.Keys;
    }
    DistinctCountsOne(r.0, r.1);
  }

  lemma CompactCounts<K(!new)>(queue: seq<K>, rc: map<K, int>)
    requires TokensCounted(queue, rc) && Tracked(queue, rc)
    ensures Compact(queue, rc).0 == KeepLast(queue)
    ensures forall k :: k in rc ==> Compact(queue, rc).1[k] == multiset(KeepLast(queue))[k]
  {
    var none: seq<K> := [];
    assert multiset(none) == multiset{};
    assert WalkCounts(queue, none, rc);
    CompactFromKeepsLast(queue, none, rc);
    assert none + KeepLast(queue) == KeepLast(queue);
  }

  /** Counts that match a queue without repeated keys are all 1. */
  lemma DistinctCountsOne<K(!new)>(q: seq<K>, rc: map<K, int>)
    requires forall i, j :: 0 <= i < j < |q| ==> q[i] != q[j]
    requires forall k :: k in rc <==> k in q
    requires forall k :: k in rc ==> rc[k] == multiset(q)[k]
    ensures Tracked(q, rc)
    ensures forall k :: k in rc ==> rc[k] == 1
  {
    forall k | k in rc
      ensures rc[k] == 1
    {
      DistinctCount(q, k);
    }
  }

  lemma {:induction false} DistinctCount<K(!new)>(q: seq<K>, k: K)
    requires forall i, j :: 0 <= i < j < |q| ==> q[i] != q[j]
    ensures multiset(q)[k] == if k in q then 1 else 0
    decreases |q|
  {
    if q != [] {
      MultisetSplit(q);
      DistinctCount(q[1..], k);
      if q[0] == k {
        assert k !in q[1..];
      }
    }
  }

  /** `_housekeep`: record an access to `k` by appending a token and bumping
      its count, compacting once the queue exceeds four times the capacity.
      The newest token is always `k`'s, and nothing outside the recency data
      changes. */
  function Housekeep<K(!new), V>(c: Cache<K, V>, k: K): (r: Cache<K, V>)
    requires TokensCounted(c.queue, c.refcount)
    ensures r.base == c.base && r.hits == c.hits && r.misses == c.misses
    ensures TokensCounted(r.queue, r.refcount)
    ensures r.refcount.Keys == c.refcount.Keys + {k}
    ensures forall j :: j in r.queue ==> j in c.queue || j == k
    ensures |c.queue| + 1 <= 4 * c.base.maxEntries ==> r.queue == c.queue + [k]
  {
    var queue := c.queue + [k];
    var rc := c.refcount[k := (if k in c.refcount then c.refcount[k] else 0) + 1];
    assert TokensCounted(queue, rc);
    if |queue| > c.base.maxEntries * 4 then
      var compacted := Compact(queue, rc);
      assert forall i :: 0 <= i < |compacted.0| ==> compacted.0[i] in queue;
      assert compacted.1.Keys == rc.Keys;
      c.(queue := compacted.0, refcount := compacted.1)
    else
      c.(queue := queue, refcount := rc)
  }

  /** Appending a token and bumping its count keeps the counts equal to the
      token numbers. */
  lemma RecordKeepsTracked<K(!new)>(queue: seq<K>, rc: map<K, int>, k: K)
    requires Tracked(queue, rc)
    ensures Tracked(queue + [k], rc[k := (if k in rc then rc[k] else 0) + 1])
  {
    assert multiset(queue + [k]) == multiset(queue) + multiset{k};
  }

  /** `_housekeep` keeps the refcount invariant and leaves `k`'s token
      newest. Past the threshold it leaves just the newest token of each key,
      each counted once. */
  lemma HousekeepKeepsTracked<K(!new), V>(c: Cache<K, V>, k: K)
    requires TokensCounted(c.queue, c.refcount) && Tracked(c.queue, c.refcount)
    ensures Tracked(Housekeep(c, k).queue, Housekeep(c, k).refcount)
    ensures Housekeep(c, k).queue != [] && Housekeep(c, k).queue[|Housekeep(c, k).queue| - 1] == k
    ensures |c.queue| + 1 > 4 * c.base.maxEntries ==>
      && Housekeep(c, k).queue == KeepLast(c.queue + [k])
      && forall j :: j in Housekeep(c, k).refcount ==> Housekeep(c, k).refcount[j] == 1
  {
    RecordKeepsTracked(c.queue, c.refcount, k);
    if |c.queue| + 1 > c.base.maxEntries * 4 {
      HousekeepCompacts(c, k);
      KeepLastEndsWith(c.queue, k);
    }
  }

  lemma HousekeepCompacts<K(!new), V>(c: Cache<K, V>, k: K)
    requires TokensCounted(c.queue, c.refcount)
    requires Tracked(c.queue + [k], c.refcount[k := (if k in c.refcount then c.refcount[k] else 0) + 1])
    requires |c.queue| + 1 > 4 * c.base.maxEntries
    ensures Tracked(Housekeep(c, k).queue, Housekeep(c, k).refcount)
    ensures Housekeep(c, k).queue == KeepLast(c.queue + [k])
    ensures forall j :: j in Housekeep(c, k).refcount ==> Housekeep(c, k).refcount[j] == 1
  {
    var queue := c.queue + [k];
    var rc := c.refcount[k := (if k in c.refcount then c.refcount[k] else 0) + 1];
    HousekeepIsCompact(c, k);
    CompactKeepsNewest(queue, rc);
  }

  /** The newest token survives the reduction to newest tokens. */
  lemma KeepLastEndsWith<K(!new)>(q: seq<K>, k: K)
    ensures KeepLast(q + [k]) != [] && KeepLast(q + [k])[|KeepLast(q + [k])| - 1] == k
  {
    assert (q + [k])[|q + [k]| - 1] == k;
  }

  /** Past the threshold, `_housekeep` leaves the compaction of the queue
      with `k`'s token appended and its count bumped. */
  lemma HousekeepIsCompact<K(!new), V>(c: Cache<K, V>, k: K)
    requires TokensCounted(c.queue, c.refcount)
    requires |c.queue| + 1 > 4 * c.base.maxEntries
    ensures var queue := c.queue + [k];
      var rc := c.refcount[k := (if k in c.refcount then c.refcount[k] else 0) + 1];
      && TokensCounted(queue, rc)
      && Housekeep(c, k).queue == Compact(queue, rc).0
      && Housekeep(c, k).refcount == Compact(queue, rc).1
  {
    var queue := c.queue + [k];
    var rc := c.refcount[k := (if k in c.refcount then c.refcount[k] else 0) + 1];
    assert TokensCounted(queue, rc);
  }

  /** The eviction loop of `BaseLRUCache.__setitem__`: while the store is
      over capacity, pop the oldest token and decrement its count; a key whose
      count reaches 0 is deleted through `BaseCache.__delitem__` and loses its
      count. Popping an empty queue raises IndexError; a deletion of a key the
      store no longer holds raises KeyError. */
  function Evict<K(!new), V>(c: Cache<K, V>): (r: Ret<Cache<K, V>, ()>)
    ensures r.state.hits == c.hits && r.state.misses == c.misses
    ensures r.state.base.maxEntries == c.base.maxEntries && r.state.base.timeout == c.base.timeout
    ensures |c.base.store| <= c.base.maxEntries ==> r == Ret(c, Ok(()))
    ensures r.result.Ok? ==> |r.state.base.store| <= c.base.maxEntries
    ensures r.state.base.store.Keys <= c.base.store.Keys
    ensures forall j :: j in r.state.base.store ==> r.state.base.store[j] == c.base.store[j]
    ensures r.state.refcount.Keys <= c.refcount.Keys
    decreases |c.queue|
  {
    if |c.base.store| <= c.base.maxEntries then Ret(c, Ok(()))
    else if c.queue == [] then Ret(c, Err(IndexError))
    else
      var k := c.queue[0];
      var popped := c.(queue := c.queue[1..]);
      if k !in c.refcount then Ret(popped, Err(KeyError))
      else
        var n := c.refcount[k] - 1;
        if n != 0 then
          Evict(popped.(refcount := c.refcount[k := n]))
        else
          var del := TtlCache.Delete(c.base, k);
          if del.result.Err? then Ret(popped.(refcount := c.refcount[k := n], base := del.state), Err(del.result.error))
          else Evict(popped.(refcount := c.refcount - {k}, base := del.state))
  }

  /** Popping the oldest token and decrementing its count keeps the counts
      equal to the token numbers, dropping the key once its count is 0. */
  lemma PopKeepsTracked<K(!new)>(queue: seq<K>, rc: map<K, int>)
    requires queue != [] && Tracked(queue, rc)
    ensures queue[0] in rc
    ensures rc[queue[0]] == 1 ==> Tracked(queue[1..], rc - {queue[0]})
    ensures rc[queue[0]] != 1 ==> Tracked(queue[1..], rc[queue[0] := rc[queue[0]] - 1])
  {
    var k := queue[0];
    MultisetSplit(queue);
    assert k in queue;
    if rc[k] == 1 {
      assert forall j :: j in queue[1..] ==> j in queue;
      assert forall j :: j in queue && j != k ==> j in queue[1..] by {
        forall j | j in queue && j != k
          ensures j in queue[1..]
        {
          var i :| 0 <= i < |queue| && queue[i] == j;
          assert queue[1..][i - 1] == j;
        }
      }
    } else {
      assert multiset(queue[1..])[k] > 0;
      assert forall j :: j in queue && j != k ==> j in queue[1..] by {
        forall j | j in queue && j != k
          ensures j in queue[1..]
        {
          var i :| 0 <= i < |queue| && queue[i] == j;
          assert queue[1..][i - 1] == j;
        }
      }
    }
  }

  /** On a valid, over-capacity cache the eviction loop finds a token to
      pop, and that token's key has a count. When its count runs out but the
      key is no longer stored, the loop stops on a KeyError with the store
      untouched. */
  lemma EvictPops<K(!new), V>(c: Cache<K, V>)
    requires Valid(c) && |c.base.store| > c.base.maxEntries
    ensures c.queue != [] && c.queue[0] in c.refcount
    ensures var k := c.queue[0];
      c.refcount[k] == 1 && TtlCache.Delete(c.base, k).result.Err? ==>
        k !in c.base.store && Evict(c).result == Err(KeyError) && Evict(c).state.base == c.base
  {
    assert c.queue != [] by {
      var j :| j in c.base.store;
      assert j in c.refcount;
    }
    assert c.queue[0] in c.queue;
  }

  /** A pass that pops a token of a key with more tokens left keeps the
      cache valid. */
  lemma EvictDecrements<K(!new), V>(c: Cache<K, V>)
    requires Valid(c) && |c.base.store| > c.base.maxEntries
    requires c.queue != [] && c.queue[0] in c.refcount && c.refcount[c.queue[0]] != 1
    ensures var k := c.queue[0];
      var next := c.(queue := c.queue[1..], refcount := c.refcount[k := c.refcount[k] - 1]);
      Valid(next) && Evict(c) == Evict(next)
  {
    PopKeepsTracked(c.queue, c.refcount);
  }

  /** A pass that pops the last token of a stored key deletes the key from
      the store and from the counts, and keeps the cache valid. */
  lemma EvictDeletes<K(!new), V>(c: Cache<K, V>)
    requires Valid(c) && |c.base.store| > c.base.maxEntries
    requires c.queue != [] && c.queue[0] in c.refcount && c.refcount[c.queue[0]] == 1
    requires TtlCache.Delete(c.base, c.queue[0]).result.Ok?
    ensures var k := c.queue[0];
      var next := c.(queue := c.queue[1..], refcount := c.refcount - {k}, base := TtlCache.Delete(c.base, k).state);
      && Valid(next) && Evict(c) == Evict(next)
      && next.base.store.Keys == c.base.store.Keys - {k} && k !in next.refcount
  {
    PopKeepsTracked(c.queue, c.refcount);
  }

  /** On a valid cache the eviction loop never pops an empty queue, and when
      it completes the cache is valid again. */
  lemma {:induction false} EvictKeepsValid<K(!new), V>(c: Cache<K, V>)
    requires Valid(c)
    ensures Evict(c).result != Err(IndexError)
    ensures Evict(c).result.Ok? ==> Valid(Evict(c).state)
    decreases |c.queue|
  {
    if |c.base.store| > c.base.maxEntries {
      EvictPops(c);
      var k := c.queue[0];
      if c.refcount[k] != 1 {
        EvictDecrements(c);
        EvictKeepsValid(c.(queue := c.queue[1..], refcount := c.refcount[k := c.refcount[k] - 1]));
      } else {
        var del := TtlCache.Delete(c.base, k);
        if del.result.Ok? {
          EvictDeletes(c);
          EvictKeepsValid(c.(queue := c.queue[1..], refcount := c.refcount - {k}, base := del.state));
        }
      }
    }
  }

  /** On a valid cache, a key the eviction loop removes from the store has
      lost its reference count as well. */
  lemma {:induction false} EvictDropsCounts<K(!new), V>(c: Cache<K, V>)
    requires Valid(c)
    ensures forall j :: j in c.base.store && j !in Evict(c).state.base.store ==> j !in Evict(c).state.refcount
    decreases |c.queue|
  {
    if |c.base.store| <= c.base.maxEntries {
      assert Evict(c).state == c;
    } else {
      EvictPops(c);
      var k := c.queue[0];
      if c.refcount[k] != 1 {
        EvictDecrements(c);
        var next := c.(queue := c.queue[1..], refcount := c.refcount[k := c.refcount[k] - 1]);
        EvictDropsCounts(next);
        assert next.base.store == c.base.store;
      } else {
        var del := TtlCache.Delete(c.base, k);
        if del.result.Ok? {
          EvictDeletes(c);
          var next := c.(queue := c.queue[1..], refcount := c.refcount - {k}, base := del.state);
          EvictDropsCounts(next);
          var e := Evict(next).state;
          forall j | j in c.base.store && j !in e.base.store
            ensures j !in e.refcount
          {
            if j == k {
              assert j !in next.refcount;
            } else {
              assert j in next.base.store;
            }
          }
        } else {
          assert Evict(c).state.base == c.base;
        }
      }
    }
  }

  /** `BaseLRUCache.__getitem__`: the `BaseCache` lookup (which resets the
      expiry even on a miss), then exactly one of the counters moves; only a
      hit appends a recency token. */
  function Get<K(!new), V>(c: Cache<K, V>, k: K, now: int): (r: Ret<Cache<K, V>, V>)
    requires Valid(c)
    ensures Valid(r.state)
    ensures r.state.base.store == c.base.store
    ensures r.state.base.maxEntries == c.base.maxEntries && r.state.base.timeout == c.base.timeout
    ensures TtlCache.ExpiryReset(c.base, r.state.base.ttl, k, now)
    ensures r.result.Ok? <==> k in c.base.store
    ensures r.result.Ok? ==> r.result.value == c.base.store[k]
    ensures r.result.Ok? ==> r.state.hits == c.hits + 1 && r.state.misses == c.misses
    ensures r.result.Ok? ==> r.state.queue != [] && r.state.queue[|r.state.queue| - 1] == k
    ensures r.result.Err? ==> r.result.error == KeyError && r.state.misses == c.misses + 1 && r.state.hits == c.hits
    ensures r.result.Err? ==> r.state.queue == c.queue && r.state.refcount == c.refcount
  {
    var g := TtlCache.Get(c.base, k, now);
    match g.result
    case Err(e) => Ret(c.(base := g.state, misses := c.misses + 1), Err(e))
    case Ok(v) =>
      var hit := c.(base := g.state, hits := c.hits + 1);
      HousekeepKeepsTracked(hit, k);
      Ret(Housekeep(hit, k), Ok(v))
  }

  /** `BaseLRUCache.__setitem__`. The `BaseCache` store already culls at
      random down to capacity, so the eviction loop that follows finds the
      store within capacity and never runs: the store is exactly what the TTL
      cache's own `__setitem__` leaves. Culled keys keep their tokens and
      counts. */
  function Set<K(!new), V>(c: Cache<K, V>, k: K, v: V, now: int, victims: set<K>): (r: Ret<Cache<K, V>, ()>)
    requires Valid(c)
    requires TtlCache.IsCull(c.base.store.Keys + {k}, c.base.maxEntries, victims)
    ensures r.result.Ok? && Valid(r.state)
    ensures r.state.base == TtlCache.Set(c.base, k, v, now, victims)
    ensures r.state.hits == c.hits && r.state.misses == c.misses
    ensures r.state.queue != [] && r.state.queue[|r.state.queue| - 1] == k
    ensures forall j :: j in victims && j in c.refcount ==> j !in r.state.base.store && j in r.state.refcount
  {
    var base := TtlCache.Set(c.base, k, v, now, victims);
    var kept := Housekeep(c.(base := base), k);
    HousekeepKeepsTracked(c.(base := base), k);
    if |kept.base.store| > kept.base.maxEntries then Evict(kept) else Ret(kept, Ok(()))
  }

  /** Were the eviction loop to run on recency data a cull left stale, it
      would pop the last token of a culled key, try to delete it from the
      store, and raise KeyError. */
  lemma EvictTripsOnCulledKey()
    ensures
      var base := TtlCache.Cache(map[2 := 0, 3 := 0], map[2 := 0, 3 := 0], 1, 0);
      var c := Cache(base, [1, 2, 3], map[1 := 1, 2 := 1, 3 := 1], 0, 0);
      Valid(c) && Evict(c).result == Err(KeyError)
  {
    var base := TtlCache.Cache(map[2 := 0, 3 := 0], map[2 := 0, 3 := 0], 1, 0);
    var c := Cache(base, [1, 2, 3], map[1 := 1, 2 := 1, 3 := 1], 0, 0);
    assert multiset(c.queue) == multiset{1, 2, 3};
    assert |base.store| == 2 by {
      assert base.store.Keys == {2, 3};
    }
  }
}
