/** The dict-backed `Mapping` every in-memory store and cache builds on
    (shove/base.py), the `__contains__` that shove's `Base` classes derive
    from lookup, and `CloseStore.close`.

    A backing store is a finite map; the `Mapping` methods wrap the dict's own
    operations and re-raise its KeyError.
 */
module Mapping {
  import opened Results

  /** `Mapping.__getitem__`: the stored value, or KeyError when absent. */
  function Get<K(!new), V>(m: map<K, V>, k: K): (r: Result<V>)
    ensures r.Ok? <==> k in m
    ensures r.Ok? ==> r.value == m[k]
    ensures r.Err? ==> r.error == KeyError
  {
    if k in m then Ok(m[k]) else Err(KeyError)
  }

  /** `Mapping.__setitem__`: a later lookup of `k` finds `v`; every other
      lookup is answered as before. */
  function Set<K(!new), V>(m: map<K, V>, k: K, v: V): (r: map<K, V>)
    ensures Get(r, k) == Ok(v)
    ensures forall j :: j != k ==> Get(r, j) == Get(m, j)
    ensures |r| == if k in m then |m| else |m| + 1
  {
    m[k := v]
  }

  /** `Mapping.__delitem__`: removes `k` and nothing else; an absent key raises
      KeyError and the caller keeps the map it had. */
  function Delete<K(!new), V>(m: map<K, V>, k: K): (r: Result<map<K, V>>)
    ensures r.Ok? <==> k in m
    ensures r.Err? ==> r.error == KeyError
    ensures r.Ok? ==> Get(r.value, k).Err? && |r.value| == |m| - 1
    ensures r.Ok? ==> forall j :: j != k ==> Get(r.value, j) == Get(m, j)
  {
    if k in m then Ok(m - {k}) else Err(KeyError)
  }

  /** `Base.__contains__`: true exactly when the lookup does not raise
      KeyError. */
  function Contains<K(!new), V>(m: map<K, V>, k: K): (b: bool)
    ensures b <==> k in m
  {
    Get(m, k).Ok?
  }

  /** `Mapping.__iter__` together with `Mapping.__len__`: every stored key
      exactly once, in an order the dict chooses, and as many keys as the
      length reports. */
  method Iter<K(!new), V>(m: map<K, V>) returns (keys: seq<K>)
    ensures |keys| == |m|
    ensures forall k :: k in keys <==> k in m
    ensures forall i, j :: 0 <= i < j < |keys| ==> keys[i] != keys[j]
  {
    keys := [];
    var rest := m.Keys;
    while rest != {}
      invariant rest <= m.Keys
      invariant forall k :: k in keys <==> k in m.Keys - rest
      invariant forall i, j :: 0 <= i < j < |keys| ==> keys[i] != keys[j]
      invariant |keys| + |rest| == |m.Keys|
      decreases rest
    {
      var k :| k in rest;
      assert forall i :: 0 <= i < |keys| ==> keys[i] != k by {
        assert forall i :: 0 <= i < |keys| ==> keys[i] in keys;
      }
      keys := keys + [k];
      rest := rest - {k};
    }
  }

  /** `CloseStore.close` (and the identical `BaseStore.close` of the older
      tree): the inner store handle becomes None whether or not it was open, so
      closing again is harmless. */
  function Close<K(!new), V>(handle: Option<map<K, V>>): (r: Option<map<K, V>>)
    ensures r.None?
  {
    None
  }

  /** Writing every entry of `other` into `m`, one `__setitem__` per key in
      whatever order the dict yields them: afterwards `m` is overridden by
      `other`, whatever that order was. */
  method Update<K(!new), V>(m: map<K, V>, other: map<K, V>) returns (r: map<K, V>)
    ensures r.Keys == m.Keys + other.Keys
    ensures forall k :: k in other ==> r[k] == other[k]
    ensures forall k :: k in m && k !in other ==> r[k] == m[k]
    ensures r == m + other
  {
    r := m;
    var rest := other.Keys;
    while rest != {}
      invariant rest <= other.Keys
      invariant r.Keys == m.Keys + (other.Keys - rest)
      invariant forall k :: k in other.Keys - rest ==> r[k] == other[k]
      invariant forall k :: k in m && k !in other.Keys - rest ==> r[k] == m[k]
      decreases rest
    {
      var k :| k in rest;
      r := r[k := other[k]];
      rest := rest - {k};
    }
    assert r.Keys == (m + other).Keys;
  }

  /** The entries left by writing `pairs` one after another into an empty
      mapping; a later pair for the same key overrides an earlier one. */
  function FromPairs<K(!new), V>(pairs: seq<(K, V)>): map<K, V>
    decreases |pairs|
  {
    if pairs == [] then map[]
    else map[pairs[0].0 := pairs[0].1] + FromPairs(pairs[1..])
  }

  /** Position `i` holds the last pair of `pairs` whose key is `k`. */
  ghost predicate LastWrite<K(!new), V>(pairs: seq<(K, V)>, k: K, i: int) {
    && 0 <= i < |pairs|
    && pairs[i].0 == k
    && forall j :: i < j < |pairs| ==> pairs[j].0 != k
  }

  /** `FromPairs` holds exactly the keys some pair writes, each with the value
      of its last write. */
  lemma {:induction false} FromPairsLastWriteWins<K(!new), V>(pairs: seq<(K, V)>, k: K)
    ensures k in FromPairs(pairs) <==> exists i :: 0 <= i < |pairs| && pairs[i].0 == k
    ensures forall i :: LastWrite(pairs, k, i) ==> FromPairs(pairs)[k] == pairs[i].1
    decreases |pairs|
  {
    if pairs != [] {
      var rest := pairs[1..];
      FromPairsLastWriteWins(rest, k);
      if k in FromPairs(rest) {
        var i0 :| 0 <= i0 < |rest| && rest[i0].0 == k;
        assert pairs[i0 + 1].0 == k;
      }
      if exists i :: 0 <= i < |pairs| && pairs[i].0 == k {
        var i :| 0 <= i < |pairs| && pairs[i].0 == k;
        if i > 0 {
          assert rest[i - 1].0 == k;
        }
      }
      forall i | LastWrite(pairs, k, i)
        ensures FromPairs(pairs)[k] == pairs[i].1
      {
        if i > 0 {
          assert LastWrite(rest, k, i - 1);
        } else {
          forall j | 0 <= j < |rest|
            ensures rest[j].0 != k
          {
            assert pairs[j + 1].0 != k;
          }
        }
      }
    }
  }

  /** Writing one more pair after `pairs` overrides its key. */
  lemma {:induction false} FromPairsSnoc<K(!new), V>(pairs: seq<(K, V)>, p: (K, V))
    ensures FromPairs(pairs + [p]) == FromPairs(pairs)[p.0 := p.1]
    decreases |pairs|
  {
    if pairs == [] {
      assert pairs + [p] == [p];
    } else {
      assert (pairs + [p])[1..] == pairs[1..] + [p];
      FromPairsSnoc(pairs[1..], p);
    }
  }
}
