/**
 * Count and age filters: MinBloomFilter.h over the arrays of CountBloomFilter.cpp and
 * AgeBloomFilter.cpp.  Each key is hashed to a cell per hash function.  The rows of cells
 * are shared by all hash functions, or there is one for each.
 */
module MinFilter {
  const INT_MAX := 0x7FFF_FFFF

  /** The hash functions, the number of cells in a row, and whether there is a single row. */
  datatype Params<!K> = Params(hash: (K, nat) -> nat, hashes: nat, size: nat, shared: bool) {
    function Row(i: nat): nat { if shared then 0 else i }

    function Rows(): nat { if shared then 1 else hashes }

    predicate HashesTo(k: K, i: nat, r: nat, c: nat) { Row(i) == r && hash(k, i) == c }
  }

  /** The hash functions stay below the size, as hashU does. */
  ghost predicate InRange<K(!new)>(p: Params<K>) { forall k, i :: p.hash(k, i) < p.size }

  // ----- What the cells hold

  /** A cell after the first n hash functions of one call of set. */
  function Touched<K>(p: Params<K>, update: (int, int) -> int, k: K, v: int, n: nat, r: nat, c: nat, x: int): int {
    if n == 0 then x
    else
      var x' := Touched(p, update, k, v, n - 1, r, c, x);
      if p.HashesTo(k, n - 1, r, c) then update(x', v) else x'
  }

  datatype Entry<K> = Entry(key: K, value: int)

  /** A cell after a history of calls of set. */
  function Cell<K>(p: Params<K>, update: (int, int) -> int, h: seq<Entry<K>>, r: nat, c: nat): int {
    if h == [] then 0
    else
      var e := h[|h| - 1];
      Touched(p, update, e.key, e.value, p.hashes, r, c, Cell(p, update, h[..|h| - 1], r, c))
  }

  /** The value that hash function i finds for the key. */
  function Found<K>(p: Params<K>, update: (int, int) -> int, h: seq<Entry<K>>, k: K, i: nat): int {
    if p.hash(k, i) < p.size then Cell(p, update, h, p.Row(i), p.hash(k, i)) else 0
  }

  /** The result of get: the smallest value found, or INT_MAX. */
  ghost predicate IsLeast<K>(p: Params<K>, update: (int, int) -> int, h: seq<Entry<K>>, k: K, n: nat, least: int) {
    && least <= INT_MAX && (forall i :: 0 <= i < n ==> least <= Found(p, update, h, k, i))
    && (least == INT_MAX || exists i :: 0 <= i < n && least == Found(p, update, h, k, i))
  }

  class Filter<K(!new)> {
    const p: Params<K>
    const update: (int, int) -> int
    const cells: array2<int>
    ghost var history: seq<Entry<K>>

    ghost predicate Valid()
      reads this, cells
    {
      && cells.Length0 == p.Rows() && cells.Length1 == p.size
      && forall r, c :: 0 <= r < cells.Length0 && 0 <= c < cells.Length1 ==>
           cells[r, c] == Cell(p, update, history, r, c)
    }

    constructor (p: Params<K>, update: (int, int) -> int)
      ensures Valid() && fresh(cells) && this.p == p && this.update == update && history == []
    {
      this.p, this.update := p, update;
      cells := new int[p.Rows(), p.size]((_, _) => 0);
      history := [];
    }

    method Set(k: K, v: int)
      requires Valid()
      modifies this, cells
      ensures Valid() && history == old(history) + [Entry(k, v)]
    {
      ghost var h := history;
      for i := 0 to p.hashes
        invariant history == h && cells.Length0 == p.Rows() && cells.Length1 == p.size
        invariant forall r, c :: 0 <= r < cells.Length0 && 0 <= c < cells.Length1 ==>
                    cells[r, c] == Touched(p, update, k, v, i, r, c, Cell(p, update, h, r, c))
      {
        var row, index := p.Row(i), p.hash(k, i);
        if index < p.size {
          cells[row, index] := update(cells[row, index], v);
        }
      }
      history := h + [Entry(k, v)];
      assert history[..|h|] == h;
    }

    method Get(k: K) returns (least: int)
      requires Valid()
      ensures IsLeast(p, update, history, k, p.hashes, least)
    {
      least := INT_MAX;
      for i := 0 to p.hashes
        invariant IsLeast(p, update, history, k, i, least)
      {
        var row, index := p.Row(i), p.hash(k, i);
        var current := if index < p.size then cells[row, index] else 0;
        assert current == Found(p, update, history, k, i);
        if current < least {
          least := current;
        }
      }
    }
  }

  // ----- The count filter

  function Add(x: int, v: int): int { x + v }

  /** How many of the first n hash functions lead the key to the cell. */
  function Hits<K>(p: Params<K>, k: K, n: nat, r: nat, c: nat): nat {
    if n == 0 then 0 else Hits(p, k, n - 1, r, c) + if p.HashesTo(k, n - 1, r, c) then 1 else 0
  }

  /** All that has been added to a cell, by whatever key. */
  function Weight<K>(p: Params<K>, h: seq<Entry<K>>, r: nat, c: nat): int {
    if h == [] then 0
    else Weight(p, h[..|h| - 1], r, c) + h[|h| - 1].value * Hits(p, h[|h| - 1].key, p.hashes, r, c)
  }

  lemma {:induction false} TouchedByAdd<K>(p: Params<K>, k: K, v: int, n: nat, r: nat, c: nat, x: int)
    ensures Touched(p, Add, k, v, n, r, c, x) == x + v * Hits(p, k, n, r, c)
  {
    if n > 0 {
      TouchedByAdd(p, k, v, n - 1, r, c, x);
    }
  }

  /** A cell of the count filter holds the weight of its keys, each as often as it is hashed there. */
  lemma {:induction false} CountIsWeight<K>(p: Params<K>, h: seq<Entry<K>>, r: nat, c: nat)
    ensures Cell(p, Add, h, r, c) == Weight(p, h, r, c)
  {
    if h != [] {
      CountIsWeight(p, h[..|h| - 1], r, c);
      TouchedByAdd(p, h[|h| - 1].key, h[|h| - 1].value, p.hashes, r, c, Weight(p, h[..|h| - 1], r, c));
    }
  }

  /** What has really been added for the key. */
  function Total<K(==)>(h: seq<Entry<K>>, k: K): int {
    if h == [] then 0 else Total(h[..|h| - 1], k) + if h[|h| - 1].key == k then h[|h| - 1].value else 0
  }

  predicate NonNegative<K>(h: seq<Entry<K>>) { forall i :: 0 <= i < |h| ==> h[i].value >= 0 }

  lemma {:induction false} OwnHit<K>(p: Params<K>, k: K, i: nat, n: nat)
    requires i < n
    ensures Hits(p, k, n, p.Row(i), p.hash(k, i)) >= 1
  {
    if i < n - 1 {
      OwnHit(p, k, i, n - 1);
    }
  }

  lemma {:induction false} WeightAtLeast<K>(p: Params<K>, h: seq<Entry<K>>, k: K, i: nat)
    requires NonNegative(h) && i < p.hashes
    ensures Weight(p, h, p.Row(i), p.hash(k, i)) >= Total(h, k)
  {
    if h != [] {
      var init, e := h[..|h| - 1], h[|h| - 1];
      WeightAtLeast(p, init, k, i);
      var hits := Hits(p, e.key, p.hashes, p.Row(i), p.hash(k, i));
      if e.key == k {
        OwnHit(p, k, i, p.hashes);
        assert e.value * hits >= e.value;
      } else {
        assert e.value * hits >= 0;
      }
    }
  }

  /** The count filter never reports less than what was added, as far as INT_MAX can say it. */
  lemma CountNeverUnder<K(!new)>(p: Params<K>, h: seq<Entry<K>>, k: K, least: int)
    requires InRange(p) && NonNegative(h) && IsLeast(p, Add, h, k, p.hashes, least)
    ensures least >= if Total(h, k) < INT_MAX then Total(h, k) else INT_MAX
  {
    if i :| 0 <= i < p.hashes && least == Found(p, Add, h, k, i) {
      CountIsWeight(p, h, p.Row(i), p.hash(k, i));
      WeightAtLeast(p, h, k, i);
    }
  }

  function Sum<K>(h: seq<Entry<K>>): int {
    if h == [] then 0 else Sum(h[..|h| - 1]) + h[|h| - 1].value
  }

  lemma {:induction false} HitsAtMost<K>(p: Params<K>, k: K, n: nat, r: nat, c: nat)
    ensures Hits(p, k, n, r, c) <= n
  {
    if n > 0 {
      HitsAtMost(p, k, n - 1, r, c);
    }
  }

  lemma Scaled(v: int, a: nat, b: nat)
    requires v >= 0 && a <= b
    ensures 0 <= v * a <= v * b
  {
  }

  lemma Distributes(x: int, y: int, n: int)
    ensures (x + y) * n == x * n + y * n
  {
  }

  lemma {:induction false} WeightFits<K>(p: Params<K>, h: seq<Entry<K>>, r: nat, c: nat)
    requires NonNegative(h)
    ensures 0 <= Weight(p, h, r, c) <= Sum(h) * p.hashes
  {
    if h != [] {
      var init, e := h[..|h| - 1], h[|h| - 1];
      WeightFits(p, init, r, c);
      HitsAtMost(p, e.key, p.hashes, r, c);
      Scaled(e.value, Hits(p, e.key, p.hashes, r, c), p.hashes);
      Distributes(Sum(init), e.value, p.hashes);
    }
  }

  /** No cell grows beyond the sum of all values, once for each hash function: the user can rule out an overflow. */
  lemma CountFits<K>(p: Params<K>, h: seq<Entry<K>>, r: nat, c: nat)
    requires NonNegative(h)
    ensures 0 <= Cell(p, Add, h, r, c) <= Sum(h) * p.hashes
  {
    CountIsWeight(p, h, r, c);
    WeightFits(p, h, r, c);
  }

  // ----- The age filter

  function Overwrite(x: int, v: int): int { v }

  /** The last time the key was set, 0 if it never was. */
  function LastTime<K(==)>(h: seq<Entry<K>>, k: K): int {
    if h == [] then 0 else if h[|h| - 1].key == k then h[|h| - 1].value else LastTime(h[..|h| - 1], k)
  }

  /** Time does not run backwards. */
  predicate Ordered<K>(h: seq<Entry<K>>) {
    && (forall i :: 0 <= i < |h| ==> h[i].value >= 0)
    && (forall i, j :: 0 <= i <= j < |h| ==> h[i].value <= h[j].value)
  }

  lemma {:induction false} LastTimeAtMost<K>(h: seq<Entry<K>>, k: K, t: int)
    requires Ordered(h) && t >= 0 && (h != [] ==> h[|h| - 1].value <= t)
    ensures LastTime(h, k) <= t
  {
    if h != [] {
      LastTimeAtMost(h[..|h| - 1], k, t);
    }
  }

  /** A cell is overwritten exactly when a hash function leads there. */
  lemma {:induction false} TouchedByTime<K>(p: Params<K>, k: K, v: int, n: nat, r: nat, c: nat, x: int)
    ensures Touched(p, Overwrite, k, v, n, r, c, x) == if Hits(p, k, n, r, c) > 0 then v else x
  {
    if n > 0 {
      TouchedByTime(p, k, v, n - 1, r, c, x);
    }
  }

  lemma {:induction false} AgeAtLeast<K>(p: Params<K>, h: seq<Entry<K>>, k: K, i: nat)
    requires Ordered(h) && i < p.hashes
    ensures Cell(p, Overwrite, h, p.Row(i), p.hash(k, i)) >= LastTime(h, k)
  {
    if h != [] {
      var init, e := h[..|h| - 1], h[|h| - 1];
      var r, c := p.Row(i), p.hash(k, i);
      TouchedByTime(p, e.key, e.value, p.hashes, r, c, Cell(p, Overwrite, init, r, c));
      if e.key == k {
        OwnHit(p, k, i, p.hashes);
      } else {
        AgeAtLeast(p, init, k, i);
        LastTimeAtMost(init, k, e.value);
      }
    }
  }

  /** The age filter never reports an earlier time than the key's last one, as far as INT_MAX can say it. */
  lemma AgeNeverUnder<K(!new)>(p: Params<K>, h: seq<Entry<K>>, k: K, least: int)
    requires InRange(p) && Ordered(h) && IsLeast(p, Overwrite, h, k, p.hashes, least)
    ensures least >= if LastTime(h, k) < INT_MAX then LastTime(h, k) else INT_MAX
  {
    if i :| 0 <= i < p.hashes && least == Found(p, Overwrite, h, k, i) {
      AgeAtLeast(p, h, k, i);
    }
  }
}
