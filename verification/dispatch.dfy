/** The store dispatchers of `MultiShove` (shove/core.py): given the list of
    stores at construction, a dispatcher is called once per buffered item and
    names the stores that item goes to.

    `copy_dispatcher` returns `range(len(stores))`, every index.
    `round_robin_dispatch` returns the next value of
    `itertools.cycle(range(len(stores)))`: a single `int`, not a collection
    of indices. Neither looks at the key or the value.
 */
module Dispatch {
  import opened Results

  /** A round-robin dispatcher carries the position of its cycle. */
  datatype Dispatcher = Copy | RoundRobin(cursor: nat)

  /** What one call returns: a range of indices, or one bare index. */
  datatype Choice = Indices(ix: seq<nat>) | Index(i: nat)

  /** `range(n)`: 0, 1, ..., n - 1. */
  function AllIndices(n: nat): (r: seq<nat>)
    ensures |r| == n
    ensures forall i :: 0 <= i < n ==> r[i] == i
  {
    seq(n, i requires 0 <= i => i)
  }


  /** A cursor is in range for `n` stores (trivially so for a cycle over no
      stores, which never moves). */
  predicate InRange(d: Dispatcher, n: nat) {
    d.RoundRobin? ==> (n == 0 && d.cursor == 0) || d.cursor < n
  }

  /** One call of `inner_dispatcher(key, value)` on a dispatcher built over
      `n` stores. The copy dispatcher names every store. The round-robin one
      names the store at its cursor and moves the cursor on cyclically; over
      no stores `next` raises StopIteration. */
  function Call(d: Dispatcher, n: nat): (r: Ret<Dispatcher, Choice>)
    requires InRange(d, n)
    ensures InRange(r.state, n)
    ensures d.Copy? ==> r == Ret(Copy, Ok(Indices(AllIndices(n))))
    ensures d.RoundRobin? && n == 0 ==> r == Ret(d, Err(StopIteration))
    ensures d.RoundRobin? && n > 0 ==>
      && r.result == Ok(Index(d.cursor))
      && r.state.RoundRobin?
      && r.state.cursor == (d.cursor + 1) % n
  {
    match d
    case Copy => Ret(Copy, Ok(Indices(AllIndices(n))))
    case RoundRobin(c) =>
      if n == 0 then Ret(d, Err(StopIteration))
      else Ret(RoundRobin((c + 1) % n), Ok(Index(c)))
  }

  /** The dispatcher after `j` calls. */
  function After(d: Dispatcher, n: nat, j: nat): (r: Dispatcher)
    requires InRange(d, n)
    ensures InRange(r, n)
    decreases j
  {
    if j == 0 then d else After(Call(d, n).state, n, j - 1)
  }

  /** The `j`-th call of a fresh round-robin dispatcher over `n > 0` stores
      names store `j mod n`: successive calls yield 0, 1, ..., n - 1, 0, ... */
  lemma {:induction false} RoundRobinCycles(n: nat, c: nat, j: nat)
    requires 0 < n && c < n
    ensures After(RoundRobin(c), n, j) == RoundRobin((c + j) % n)
    ensures Call(After(RoundRobin(c), n, j), n).result == Ok(Index((c + j) % n))
    decreases j
  {
    if j > 0 {
      RoundRobinCycles(n, (c + 1) % n, j - 1);
      ModStep(n, c, j);
    }
  }

  lemma ModStep(n: nat, c: nat, j: nat)
    requires 0 < n && c < n && 0 < j
    ensures ((c + 1) % n + (j - 1)) % n == (c + j) % n
  {
    if c + 1 == n {
      ModUnique(c + 1, n, 1, 0);
      AddNMod(j - 1, n);
      assert c + j == (j - 1) + n;
    } else {
      ModUnique(c + 1, n, 0, c + 1);
    }
  }

  lemma AddNMod(x: nat, n: nat)
    requires n > 0
    ensures (x + n) % n == x % n
  {
    var q, r := x / n, x % n;
    assert x + n == (q + 1) * n + r by {
      assert (q + 1) * n == q * n + n;
    }
    ModUnique(x + n, n, q + 1, r);
  }

  /** The remainder is the unique `r` in range with `x == q * n + r`. */
  lemma ModUnique(x: int, n: int, q: int, r: int)
    requires n > 0 && 0 <= r < n && x == q * n + r
    ensures x % n == r
  {
    var q', r' := x / n, x % n;
    var d := q - q';
    assert d * n == q * n - q' * n;
    assert d * n == r' - r;
    assert (q' - q) * n == r - r';
    if d > 0 { MulAtLeast(d, n); }
    if d < 0 { MulAtLeast(q' - q, n); }
  }

  lemma MulAtLeast(d: int, n: int)
    requires d >= 1 && n > 0
    ensures d * n >= n
  {
    assert d * n == (d - 1) * n + n;
    assert (d - 1) * n >= 0;
  }

  /** The copy dispatcher names every store, the same ones on every call. */
  lemma CopyIsConstant(n: nat, j: nat)
    ensures After(Copy, n, j) == Copy
    ensures Call(After(Copy, n, j), n).result == Ok(Indices(AllIndices(n)))
    decreases j
  {
    if j > 0 {
      CopyIsConstant(n, j - 1);
    }
  }
}
