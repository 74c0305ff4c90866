/*
 * Applying a permutation: as a pure map, and in place by following each
 * cycle of `indices` with swaps.
 */
module Permutation {

  /** Every index is a position of `values` (the subscript `values[$0]` traps otherwise). */
  ghost predicate InRange(indices: seq<int>, n: int) {
    forall p :: 0 <= p < |indices| ==> 0 <= indices[p] < n
  }

  /** `indices` is a permutation of 0..<n. */
  ghost predicate IsPermutation(indices: seq<int>) {
    InRange(indices, |indices|) &&
    forall p, q :: 0 <= p < q < |indices| ==> indices[p] != indices[q]
  }

  /** `applyPermutation(values, indices)`: position `p` of the result holds `values[indices[p]]`. */
  function Apply<T>(values: seq<T>, indices: seq<int>): (r: seq<T>)
    requires |indices| == |values| && InRange(indices, |values|)
    ensures |r| == |values|
    ensures forall p :: 0 <= p < |r| ==> r[p] == values[indices[p]]
  {
    seq(|indices|, p requires 0 <= p < |indices| => values[indices[p]])
  }

  /** No two positions share an index. */
  ghost predicate Injective(ix: seq<int>) {
    forall p, q :: 0 <= p < q < |ix| ==> ix[p] != ix[q]
  }

  /** The positions whose index has not yet been reset to themselves. */
  ghost function Pending(idx: seq<int>): set<int> {
    set p | 0 <= p < |idx| && idx[p] != p
  }

  /** Exchange two elements, as `swapAt` does. */
  function Swap<T>(s: seq<T>, a: int, b: int): (r: seq<T>)
    requires 0 <= a < |s| && 0 <= b < |s|
    ensures |r| == |s| && r[a] == s[b] && r[b] == s[a]
    ensures forall p :: 0 <= p < |s| && p != a && p != b ==> r[p] == s[p]
    ensures multiset(r) == multiset(s)
  {
    s[a := s[b]][b := s[a]]
  }

  /** The sizes and ranges every state of the in-place loop keeps. */
  ghost predicate Shape<T>(vals: seq<T>, idx: seq<int>, v0: seq<T>, ix: seq<int>) {
    |vals| == |idx| && |v0| == |idx| && |ix| == |idx| && InRange(ix, |idx|)
  }

  /**
   * Position `p` is either done (its index reset to `p`), holding its target
   * `v0[ix[p]]`, or pending, with its original index and its original value
   * (or, at `current`, the value carried from position `carried`).
   */
  ghost predicate Cell<T>(vals: seq<T>, idx: seq<int>, v0: seq<T>, ix: seq<int>, carried: int, current: int, p: int)
    requires Shape(vals, idx, v0, ix) && 0 <= carried < |idx| && 0 <= p < |idx|
  {
    if idx[p] == p then vals[p] == v0[ix[p]]
    else idx[p] == ix[p] && vals[p] == v0[if p == current then carried else p]
  }

  /** A pending position other than `current` points at a pending one (or at `exempt`). */
  ghost predicate Link(idx: seq<int>, ix: seq<int>, exempt: int, current: int, q: int)
    requires |ix| == |idx| && InRange(ix, |idx|) && 0 <= q < |idx|
  {
    idx[q] != q && q != current ==> idx[ix[q]] != ix[q] || ix[q] == exempt
  }

  /** Every position below `i` is done. */
  ghost predicate DoneBelow(idx: seq<int>, i: int) {
    forall p :: 0 <= p < i && p < |idx| ==> idx[p] == p
  }

  /**
   * Between cycles (before cycle `i`): positions below `i` are done, every
   * position is a good `Cell`, and done positions form whole cycles.
   */
  ghost predicate Settled<T>(vals: seq<T>, idx: seq<int>, v0: seq<T>, ix: seq<int>, i: int) {
    Shape(vals, idx, v0, ix) && 0 <= i <= |idx| && DoneBelow(idx, i) &&
    (forall p :: 0 <= p < |idx| ==> Cell(vals, idx, v0, ix, 0, -1, p)) &&
    (forall q :: 0 <= q < |idx| ==> Link(idx, ix, -1, -1, q)) &&
    multiset(vals) == multiset(v0)
  }

  /**
   * Inside the cycle through `i`, standing at `current` (reached from
   * `prev`): `current` carries the original value at `i`, and the only
   * pending positions that may point at a done one point at `i`.
   */
  ghost predicate InCycle<T>(vals: seq<T>, idx: seq<int>, v0: seq<T>, ix: seq<int>, i: int, current: int, prev: int) {
    var n := |idx|;
    Shape(vals, idx, v0, ix) && 0 <= i < n && 0 <= current < n && 0 <= prev < n && DoneBelow(idx, i) &&
    (forall p :: 0 <= p < n ==> Cell(vals, idx, v0, ix, i, current, p)) &&
    (forall q :: 0 <= q < n ==> Link(idx, ix, i, current, q)) &&
    (idx[current] != current ==> idx[ix[current]] != ix[current] || ix[current] == i) &&
    (current == i || (idx[prev] == prev && ix[prev] == current && prev != current)) &&
    (idx[current] == current ==> current == i && forall q :: 0 <= q < n ==> Link(idx, ix, -1, -1, q)) &&
    (current != i ==> idx[i] == i) &&
    multiset(vals) == multiset(v0)
  }

  lemma CycleStart<T>(vals: seq<T>, idx: seq<int>, v0: seq<T>, ix: seq<int>, i: int)
    requires Settled(vals, idx, v0, ix, i) && i < |idx|
    ensures InCycle(vals, idx, v0, ix, i, i, i)
  {
    var n := |idx|;
    forall p | 0 <= p < n
      ensures Cell(vals, idx, v0, ix, i, i, p)
    {
      assert Cell(vals, idx, v0, ix, 0, -1, p);
    }
    forall q | 0 <= q < n
      ensures Link(idx, ix, i, i, q)
    {
      assert Link(idx, ix, -1, -1, q);
    }
    if idx[i] != i {
      assert Link(idx, ix, -1, -1, i);
    }
  }

  /** Resetting one pending index shrinks the pending set. */
  lemma PendingShrinks(idx: seq<int>, c: int)
    requires 0 <= c < |idx| && idx[c] != c
    ensures |Pending(idx[c := c])| < |Pending(idx)|
  {
    assert Pending(idx[c := c]) == Pending(idx) - {c};
  }

  /** One swap: `current` gets its target value and is done; the carried value moves on. */
  lemma CycleStep<T>(vals: seq<T>, idx: seq<int>, v0: seq<T>, ix: seq<int>, i: int, current: int, prev: int)
    requires InCycle(vals, idx, v0, ix, i, current, prev) && Injective(ix) && i != idx[current]
    ensures 0 <= idx[current] < |idx| && idx[current] != current
    ensures InCycle(Swap(vals, current, idx[current]), idx[current := current], v0, ix, i, idx[current], current)
  {
    var n, next := |idx|, idx[current];
    assert idx[current] != current;
    assert Cell(vals, idx, v0, ix, i, current, current);
    if current != i {
      assert ix[prev] != ix[current];
    }
    assert next != current;
    assert idx[next] != next;
    assert Cell(vals, idx, v0, ix, i, current, next);
    var vals', idx' := Swap(vals, current, next), idx[current := current];
    forall p | 0 <= p < n
      ensures Cell(vals', idx', v0, ix, i, next, p)
    {
      assert Cell(vals, idx, v0, ix, i, current, p);
    }
    forall q | 0 <= q < n
      ensures Link(idx', ix, i, next, q)
    {
      assert Link(idx, ix, i, current, q);
    }
    assert Link(idx, ix, i, current, next);
  }

  /** Closing the cycle: the last position gets the value from `i`, and cycle `i` is settled. */
  lemma CycleEnd<T>(vals: seq<T>, idx: seq<int>, v0: seq<T>, ix: seq<int>, i: int, current: int, prev: int)
    requires InCycle(vals, idx, v0, ix, i, current, prev) && Injective(ix) && i == idx[current]
    ensures Settled(vals, idx[current := current], v0, ix, i + 1)
  {
    var n, idx' := |idx|, idx[current := current];
    if idx[current] == current {
      assert idx' == idx;
      forall p | 0 <= p < n
        ensures Cell(vals, idx, v0, ix, 0, -1, p)
      {
        assert Cell(vals, idx, v0, ix, i, current, p);
      }
    } else {
      assert Cell(vals, idx, v0, ix, i, current, current);
      assert ix[current] == i;
      forall p | 0 <= p < n
        ensures Cell(vals, idx', v0, ix, 0, -1, p)
      {
        assert Cell(vals, idx, v0, ix, i, current, p);
      }
      forall q | 0 <= q < n
        ensures Link(idx', ix, -1, -1, q)
      {
        assert Link(idx, ix, i, current, q);
      }
    }
  }

  /** `swapAt`: exchange two elements of an array in place. */
  method SwapAt<T>(a: array<T>, i: int, j: int)
    requires 0 <= i < a.Length && 0 <= j < a.Length
    modifies a
    ensures a[..] == Swap(old(a[..]), i, j)
  {
    a[i], a[j] := a[j], a[i];
  }

  /**
   * `applyPermutation(&values, &indices)`: for each `i`, carry the value at
   * `i` around the cycle of `i`, pulling each position's target value in by
   * a swap and resetting its index. Afterwards `values` is the permuted
   * sequence, a rearrangement of the original, and `indices` is the identity.
   */
  method ApplyInPlace<T>(values: array<T>, indices: array<int>)
    requires indices.Length == values.Length
    requires IsPermutation(indices[..])
    requires values as object != indices
    modifies values, indices
    ensures values[..] == Apply(old(values[..]), old(indices[..]))
    ensures multiset(values[..]) == multiset(old(values[..]))
    ensures forall p :: 0 <= p < indices.Length ==> indices[p] == p
  {
    ghost var v0 := values[..];
    ghost var ix := indices[..];
    var n := indices.Length;
    for i := 0 to n
      invariant Settled(values[..], indices[..], v0, ix, i)
    {
      var current := i;
      ghost var prev := i;
      CycleStart(values[..], indices[..], v0, ix, i);
      while i != indices[current]
        invariant InCycle(values[..], indices[..], v0, ix, i, current, prev)
        decreases |Pending(indices[..])|
      {
        CycleStep(values[..], indices[..], v0, ix, i, current, prev);
        PendingShrinks(indices[..], current);
        ghost var idx := indices[..];
        var next := indices[current];
        SwapAt(values, current, next);
        indices[current] := current;
        assert indices[..] == idx[current := current];
        prev, current := current, next;
      }
      CycleEnd(values[..], indices[..], v0, ix, i, current, prev);
      ghost var idx := indices[..];
      indices[current] := current;
      assert indices[..] == idx[current := current];
    }
    forall p | 0 <= p < n
      ensures values[p] == v0[ix[p]]
    {
      assert Cell(values[..], indices[..], v0, ix, 0, -1, p);
    }
    assert values[..] == Apply(v0, ix);
  }
}
