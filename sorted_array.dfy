/*
 * Partition-point searches over a random-access collection whose indices
 * run from `start` to `start + |a|` (a Swift collection with `Int`
 * indices, possibly a slice), and the range and membership tests built on
 * them.
 */
module SortedArray {
  import opened Wrappers

  /** Element `i` of a collection whose first index is `start`. */
  function At<T>(a: seq<T>, start: int, i: int): T
    requires start <= i < start + |a|
  {
    a[i - start]
  }

  /** The elements satisfying `p` come first (what lowerBound needs of `comp(e, value)`). */
  ghost predicate TrueFirst<T>(a: seq<T>, p: T -> bool) {
    forall i, j :: 0 <= i < j < |a| && p(a[j]) ==> p(a[i])
  }

  /** The elements satisfying `p` come last (what upperBound needs of `comp(value, e)`). */
  ghost predicate TrueLast<T>(a: seq<T>, p: T -> bool) {
    forall i, j :: 0 <= i < j < |a| && p(a[i]) ==> p(a[j])
  }

  /** Non-decreasing, as `<` orders a sorted collection. */
  ghost predicate Sorted(a: seq<int>) {
    forall i, j :: 0 <= i < j < |a| ==> a[i] <= a[j]
  }

  /** How many elements satisfy `p`: an independent statement of where a partition point lies. */
  function CountWhere<T>(a: seq<T>, p: T -> bool): (n: nat)
    ensures n <= |a|
  {
    if a == [] then 0 else (if p(a[0]) then 1 else 0) + CountWhere(a[1..], p)
  }

  /**
   * `lowerBound(elements, value, comp)`: halve `count` until it is zero.
   * When `comp(e, value)` holds on a prefix, the result is the index of the
   * first element where it fails, or the end index.
   */
  method LowerBound<T, U>(a: seq<T>, start: int, value: U, comp: (T, U) -> bool) returns (first: int)
    requires TrueFirst(a, e => comp(e, value))
    ensures start <= first <= start + |a|
    ensures forall i :: start <= i < first ==> comp(At(a, start, i), value)
    ensures forall i :: first <= i < start + |a| ==> !comp(At(a, start, i), value)
  {
    first := start;
    var count := |a|;
    while count > 0
      invariant start <= first && 0 <= count && first + count <= start + |a|
      invariant forall i :: start <= i < first ==> comp(At(a, start, i), value)
      invariant forall i :: first + count <= i < start + |a| ==> !comp(At(a, start, i), value)
    {
      var step := count / 2;
      var it := first + step;
      if comp(At(a, start, it), value) {
        first := it + 1;
        count := count - (step + 1);
      } else {
        count := step;
      }
    }
  }

  /**
   * `upperBound(elements, value, comp)`: the same halving. When
   * `comp(value, e)` holds on a suffix, the result is the index of the
   * first element where it holds, or the end index.
   */
  method UpperBound<T, U>(a: seq<T>, start: int, value: U, comp: (U, T) -> bool) returns (first: int)
    requires TrueLast(a, e => comp(value, e))
    ensures start <= first <= start + |a|
    ensures forall i :: start <= i < first ==> !comp(value, At(a, start, i))
    ensures forall i :: first <= i < start + |a| ==> comp(value, At(a, start, i))
  {
    first := start;
    var count := |a|;
    while count > 0
      invariant start <= first && 0 <= count && first + count <= start + |a|
      invariant forall i :: start <= i < first ==> !comp(value, At(a, start, i))
      invariant forall i :: first + count <= i < start + |a| ==> comp(value, At(a, start, i))
    {
      var step := count / 2;
      var it := first + step;
      if !comp(value, At(a, start, it)) {
        first := it + 1;
        count := count - (step + 1);
      } else {
        count := step;
      }
    }
  }

  /**
   * A partition point is unique: it sits exactly `CountWhere(a, p)` places
   * after the start, so both searches return the number of elements on the
   * "true" side (lowerBound) or the "false" side (upperBound).
   */
  lemma {:induction false} PartitionPoint<T>(a: seq<T>, p: T -> bool, m: int)
    requires 0 <= m <= |a|
    requires forall i :: 0 <= i < m ==> p(a[i])
    requires forall i :: m <= i < |a| ==> !p(a[i])
    ensures m == CountWhere(a, p)
  {
    if a != [] {
      if m == 0 {
        PartitionPoint(a[1..], p, 0);
      } else {
        PartitionPoint(a[1..], p, m - 1);
      }
    }
  }

  /** `<` on a sorted collection meets the requirements of both searches. */
  lemma SortedPartitions(a: seq<int>, value: int)
    requires Sorted(a)
    ensures TrueFirst(a, e => e < value)
    ensures TrueLast(a, e => value < e)
  {
  }

  /**
   * `intersect(elements, lo...hi)`: the first element not below `lo` comes
   * no later than the last element not above `hi`.
   */
  method IntersectClosed(a: seq<int>, start: int, lo: int, hi: int) returns (r: bool)
    requires Sorted(a)
    ensures r <==> exists i :: 0 <= i < |a| && lo <= a[i] <= hi
  {
    SortedPartitions(a, lo);
    SortedPartitions(a, hi);
    var x := LowerBound(a, start, lo, (e: int, v: int) => e < v);
    var y := UpperBound(a, start, hi, (v: int, e: int) => v < e);
    var b := y - 1;
    r := x <= b;
    forall i | 0 <= i < |a|
      ensures i + start < x ==> a[i] < lo
      ensures x <= i + start ==> lo <= a[i]
      ensures i + start < y ==> a[i] <= hi
      ensures y <= i + start ==> hi < a[i]
    {
      assert At(a, start, i + start) == a[i];
    }
    if r {
      assert lo <= a[x - start] <= hi;
    }
  }

  /**
   * `intersect(elements, lo..<hi)`: the first element not below `lo` comes
   * before the first element not below `hi`.
   */
  method IntersectHalfOpen(a: seq<int>, start: int, lo: int, hi: int) returns (r: bool)
    requires Sorted(a)
    ensures r <==> exists i :: 0 <= i < |a| && lo <= a[i] < hi
  {
    SortedPartitions(a, lo);
    SortedPartitions(a, hi);
    var x := LowerBound(a, start, lo, (e: int, v: int) => e < v);
    var y := LowerBound(a, start, hi, (e: int, v: int) => e < v);
    var b := y - 1;
    r := x <= b;
    forall i | 0 <= i < |a|
      ensures i + start < x ==> a[i] < lo
      ensures x <= i + start ==> lo <= a[i]
      ensures i + start < y ==> a[i] < hi
      ensures y <= i + start ==> hi <= a[i]
    {
      assert At(a, start, i + start) == a[i];
    }
    if r {
      assert lo <= a[x - start] < hi;
    }
  }

  /**
   * `binarySearch`: the lower bound is a valid index holding an element not
   * above `value`. Tested against `endIndex`, this is membership.
   */
  method BinarySearch(a: seq<int>, start: int, value: int) returns (found: bool)
    requires Sorted(a)
    ensures found <==> value in a
  {
    SortedPartitions(a, value);
    var first := LowerBound(a, start, value, (e: int, v: int) => e < v);
    found := !(first == start + |a|) && !(value < At(a, start, first));
    if value in a {
      var i :| 0 <= i < |a| && a[i] == value;
      assert At(a, start, i + start) == a[i];
    }
  }

  /**
   * The outcome of `binary_search` in SortedArrayUtils, which tests the
   * lower bound against `count` instead of `endIndex`: `None` is the
   * out-of-range subscript that traps.
   */
  ghost function BinarySearchByCountOutcome(a: seq<int>, start: int, value: int): Option<bool> {
    var first := start + CountWhere(a, e => e < value);
    if first == |a| then Some(false)
    else if start <= first < start + |a| then Some(!(value < a[first - start]))
    else None
  }

  /** `binary_search` as written in SortedArrayUtils. */
  method BinarySearchByCount(a: seq<int>, start: int, value: int) returns (r: Option<bool>)
    requires Sorted(a)
    ensures r == BinarySearchByCountOutcome(a, start, value)
  {
    SortedPartitions(a, value);
    var first := LowerBound(a, start, value, (e: int, v: int) => e < v);
    forall i | 0 <= i < |a|
      ensures i < first - start ==> a[i] < value
      ensures first - start <= i ==> !(a[i] < value)
    {
      assert At(a, start, i + start) == a[i];
    }
    PartitionPoint(a, e => e < value, first - start);
    if first == |a| {
      r := Some(false);
    } else if start <= first < start + |a| {
      r := Some(!(value < At(a, start, first)));
    } else {
      r := None;
    }
  }

  /** When indices start at 0, `count` is `endIndex` and `binary_search` is membership. */
  lemma BinarySearchByCountAtZero(a: seq<int>, value: int)
    requires Sorted(a)
    ensures BinarySearchByCountOutcome(a, 0, value) == Some(value in a)
  {
    var p := e => e < value;
    var n := CountWhere(a, p);
    var m := 0;
    while m < |a| && a[m] < value
      invariant 0 <= m <= |a|
      invariant forall i :: 0 <= i < m ==> a[i] < value
    {
      m := m + 1;
    }
    PartitionPoint(a, p, m);
    if value in a {
      var i :| 0 <= i < |a| && a[i] == value;
      assert m <= i;
    }
  }

  /** On a slice starting at index 1, `binary_search([5, 7], 7)` answers false. */
  lemma BinarySearchByCountMisses()
    ensures 7 in [5, 7] && BinarySearchByCountOutcome([5, 7], 1, 7) == Some(false)
  {
    var a := [5, 7];
    assert CountWhere(a, e => e < 7) == 1 by {
      assert a[1..] == [7];
      assert CountWhere(a[1..], e => e < 7) == 0 by {
        assert a[1..][1..] == [];
      }
    }
  }

  /** On a slice starting at index 5, `binary_search([1, 2], 3)` subscripts past the end. */
  lemma BinarySearchByCountTraps()
    ensures BinarySearchByCountOutcome([1, 2], 5, 3) == None
  {
    var a := [1, 2];
    assert CountWhere(a, e => e < 3) == 2 by {
      assert a[1..] == [2];
      assert CountWhere(a[1..], e => e < 3) == 1 by {
        assert a[1..][1..] == [];
      }
    }
  }
}
