/*
 * The abstract value of a red-black map: its entries in key order.
 * A tree is read through its in-order sequence of entries; the map
 * operations are specified on that sequence.
 */
module SortedEntries {
  import opened Wrappers

  /** A key-value pair, the `_Entry` stored in every node. Keys are integers here. */
  datatype Entry<V> = Entry(key: int, value: V)

  /** Keys strictly increase along the sequence (binary-search-tree order). */
  ghost predicate Sorted<V>(s: seq<Entry<V>>) {
    forall i, j :: 0 <= i < j < |s| ==> s[i].key < s[j].key
  }

  /** The value stored under `k`: the first entry with that key. */
  function Lookup<V>(s: seq<Entry<V>>, k: int): Option<V> {
    if s == [] then None
    else if s[0].key == k then Some(s[0].value)
    else Lookup(s[1..], k)
  }

  /** The entries whose key is below `k`, in order. */
  function Below<V>(s: seq<Entry<V>>, k: int): seq<Entry<V>> {
    if s == [] then []
    else if s[0].key < k then [s[0]] + Below(s[1..], k)
    else Below(s[1..], k)
  }

  /** The entries whose key is above `k`, in order. */
  function Above<V>(s: seq<Entry<V>>, k: int): seq<Entry<V>> {
    if s == [] then []
    else if k < s[0].key then [s[0]] + Above(s[1..], k)
    else Above(s[1..], k)
  }

  /** `Lookup` finds a value exactly when some entry has the key. */
  lemma {:induction false} LookupFinds<V>(s: seq<Entry<V>>, k: int)
    ensures Lookup(s, k).None? <==> forall i :: 0 <= i < |s| ==> s[i].key != k
  {
    if s != [] {
      LookupFinds(s[1..], k);
      assert forall i :: 1 <= i < |s| ==> s[i] == s[1..][i - 1];
    }
  }

  /** The filters keep exactly the entries on their side of `k`, and keep a sorted sequence sorted. */
  lemma FilterFacts<V>(s: seq<Entry<V>>, k: int)
    ensures forall e :: e in Below(s, k) <==> e in s && e.key < k
    ensures forall e :: e in Above(s, k) <==> e in s && k < e.key
    ensures Sorted(s) ==> Sorted(Below(s, k)) && Sorted(Above(s, k))
  {
    BelowMembers(s, k);
    AboveMembers(s, k);
    if Sorted(s) {
      BelowSorted(s, k);
      AboveSorted(s, k);
    }
  }

  lemma {:induction false} BelowMembers<V>(s: seq<Entry<V>>, k: int)
    ensures forall e :: e in Below(s, k) ==> e in s && e.key < k
    ensures forall e :: e in s && e.key < k ==> e in Below(s, k)
  {
    if s != [] {
      BelowMembers(s[1..], k);
      assert s == [s[0]] + s[1..];
    }
  }

  lemma {:induction false} AboveMembers<V>(s: seq<Entry<V>>, k: int)
    ensures forall e :: e in Above(s, k) ==> e in s && k < e.key
    ensures forall e :: e in s && k < e.key ==> e in Above(s, k)
  {
    if s != [] {
      AboveMembers(s[1..], k);
      assert s == [s[0]] + s[1..];
    }
  }

  /** The tail of a sorted sequence is sorted, with every key above the head's. */
  lemma SortedTail<V>(s: seq<Entry<V>>)
    requires Sorted(s) && s != []
    ensures Sorted(s[1..]) && forall e :: e in s[1..] ==> s[0].key < e.key
  {
    assert forall i :: 0 <= i < |s[1..]| ==> s[1..][i] == s[i + 1];
  }

  lemma {:induction false} BelowSorted<V>(s: seq<Entry<V>>, k: int)
    requires Sorted(s)
    ensures Sorted(Below(s, k))
  {
    if s != [] {
      var rest := s[1..];
      SortedTail(s);
      BelowSorted(rest, k);
      BelowMembers(rest, k);
      SortedCons(s[0], Below(rest, k));
    }
  }

  lemma {:induction false} AboveSorted<V>(s: seq<Entry<V>>, k: int)
    requires Sorted(s)
    ensures Sorted(Above(s, k))
  {
    if s != [] {
      var rest := s[1..];
      SortedTail(s);
      AboveSorted(rest, k);
      AboveMembers(rest, k);
      SortedCons(s[0], Above(rest, k));
    }
  }

  lemma SortedCons<V>(x: Entry<V>, s: seq<Entry<V>>)
    requires Sorted(s) && forall e :: e in s ==> x.key < e.key
    ensures Sorted([x] + s)
  {
    SortedJoin([], x, s);
    assert [] + [x] + s == [x] + s;
  }

  /** Gluing two sorted runs around a separating entry keeps the order. */
  lemma SortedJoin<V>(a: seq<Entry<V>>, x: Entry<V>, b: seq<Entry<V>>)
    requires Sorted(a) && Sorted(b)
    requires forall e :: e in a ==> e.key < x.key
    requires forall e :: e in b ==> x.key < e.key
    ensures Sorted(a + [x] + b)
  {
    var s := a + [x] + b;
    forall i, j | 0 <= i < j < |s| ensures s[i].key < s[j].key {
      if j < |a| {
      } else if j == |a| {
        assert s[i] == a[i];
      } else if i < |a| {
        assert s[i] in a && s[j] == b[j - |a| - 1];
      } else if i == |a| {
        assert s[j] == b[j - |a| - 1];
      } else {
        assert s[i] == b[i - |a| - 1] && s[j] == b[j - |a| - 1];
      }
    }
  }

  /** The two sides of a sorted sequence around one of its entries. */
  lemma SortedSplit<V>(a: seq<Entry<V>>, x: Entry<V>, b: seq<Entry<V>>)
    requires Sorted(a + [x] + b)
    ensures Sorted(a) && Sorted(b)
    ensures forall e :: e in a ==> e.key < x.key
    ensures forall e :: e in b ==> x.key < e.key
  {
    var s := a + [x] + b;
    assert forall i :: 0 <= i < |a| ==> s[i] == a[i];
    assert forall i :: 0 <= i < |b| ==> s[|a| + 1 + i] == b[i];
    assert s[|a|] == x;
  }

  /** Every key of `s` lies above `k`: nothing below, everything above, no value at `k`. */
  lemma AllAbove<V>(s: seq<Entry<V>>, k: int)
    requires forall e :: e in s ==> k < e.key
    ensures Below(s, k) == [] && Above(s, k) == s && Lookup(s, k) == None
  {
    if s != [] {
      assert s[0] in s;
      AllAbove(s[1..], k);
      assert s == [s[0]] + s[1..];
    }
  }

  /** Every key of `s` lies below `k`. */
  lemma AllBelow<V>(s: seq<Entry<V>>, k: int)
    requires forall e :: e in s ==> e.key < k
    ensures Below(s, k) == s && Above(s, k) == [] && Lookup(s, k) == None
  {
    if s != [] {
      assert s[0] in s;
      AllBelow(s[1..], k);
      assert s == [s[0]] + s[1..];
    }
  }

  lemma BelowAboveConcat<V>(a: seq<Entry<V>>, b: seq<Entry<V>>, k: int)
    ensures Below(a + b, k) == Below(a, k) + Below(b, k)
    ensures Above(a + b, k) == Above(a, k) + Above(b, k)
  {
    BelowConcat(a, b, k);
    AboveConcat(a, b, k);
  }

  lemma {:induction false} BelowConcat<V>(a: seq<Entry<V>>, b: seq<Entry<V>>, k: int)
    ensures Below(a + b, k) == Below(a, k) + Below(b, k)
  {
    if a == [] {
      assert a + b == b;
    } else {
      var ab := a + b;
      assert ab[0] == a[0] && ab[1..] == a[1..] + b;
      BelowConcat(a[1..], b, k);
    }
  }

  lemma {:induction false} AboveConcat<V>(a: seq<Entry<V>>, b: seq<Entry<V>>, k: int)
    ensures Above(a + b, k) == Above(a, k) + Above(b, k)
  {
    if a == [] {
      assert a + b == b;
    } else {
      var ab := a + b;
      assert ab[0] == a[0] && ab[1..] == a[1..] + b;
      AboveConcat(a[1..], b, k);
    }
  }

  lemma {:induction false} LookupConcat<V>(a: seq<Entry<V>>, b: seq<Entry<V>>, k: int)
    ensures Lookup(a + b, k) == if Lookup(a, k).Some? then Lookup(a, k) else Lookup(b, k)
  {
    if a != [] {
      assert (a + b)[0] == a[0] && (a + b)[1..] == a[1..] + b;
      LookupConcat(a[1..], b, k);
    } else {
      assert a + b == b;
    }
  }

  /**
   * How a query for `k` divides a sorted sequence `a + [x] + b`:
   * a key below `x` is answered by `a`, a key above by `b`, `x`'s own key by `x`.
   */
  lemma Divide<V>(a: seq<Entry<V>>, x: Entry<V>, b: seq<Entry<V>>, k: int)
    requires Sorted(a + [x] + b)
    ensures k < x.key ==>
      Below(a + [x] + b, k) == Below(a, k) && Above(a + [x] + b, k) == Above(a, k) + [x] + b &&
      Lookup(a + [x] + b, k) == Lookup(a, k)
    ensures k == x.key ==>
      Below(a + [x] + b, k) == a && Above(a + [x] + b, k) == b && Lookup(a + [x] + b, k) == Some(x.value)
    ensures x.key < k ==>
      Below(a + [x] + b, k) == a + [x] + Below(b, k) && Above(a + [x] + b, k) == Above(b, k) &&
      Lookup(a + [x] + b, k) == Lookup(b, k)
  {
    SortedSplit(a, x, b);
    BelowAboveConcat(a + [x], b, k);
    BelowAboveConcat(a, [x], k);
    LookupConcat(a + [x], b, k);
    LookupConcat(a, [x], k);
    assert Below([x], k) == (if x.key < k then [x] else []);
    assert Above([x], k) == (if k < x.key then [x] else []);
    if k < x.key {
      AllAbove(b, k);
    } else if k == x.key {
      AllAbove(b, k);
      AllBelow(a, k);
    } else {
      AllBelow(a, k);
    }
  }

  /** Replacing or adding the entry for `e.key` keeps a sequence sorted. */
  lemma SortedUpdate<V>(s: seq<Entry<V>>, e: Entry<V>)
    requires Sorted(s)
    ensures Sorted(Below(s, e.key) + [e] + Above(s, e.key))
  {
    FilterFacts(s, e.key);
    var a, b := Below(s, e.key), Above(s, e.key);
    assert Sorted(a) && Sorted(b);
    assert forall x :: x in a ==> x.key < e.key;
    assert forall x :: x in b ==> e.key < x.key;
    SortedJoin(a, e, b);
  }

  /** Dropping the entry for `k` keeps a sequence sorted. */
  lemma SortedRemove<V>(s: seq<Entry<V>>, k: int)
    requires Sorted(s)
    ensures Sorted(Below(s, k) + Above(s, k))
  {
    FilterFacts(s, k);
    var a: seq<Entry<V>> := Below(s, k);
    var b: seq<Entry<V>> := Above(s, k);
    var t := a + b;
    assert Sorted(a) && Sorted(b);
    assert forall x :: x in a ==> x.key < k;
    assert forall x :: x in b ==> k < x.key;
    forall i, j | 0 <= i < j < |t| ensures t[i].key < t[j].key {
      if j < |a| {
        assert t[i] == a[i] && t[j] == a[j];
      } else if i < |a| {
        assert t[i] == a[i] && t[j] == b[j - |a|];
        assert t[i] in a && t[j] in b;
      } else {
        assert t[i] == b[i - |a|] && t[j] == b[j - |a|];
      }
    }
  }

  /** In a sorted sequence every entry is below, at, or above `k`, and at most one is at `k`. */
  lemma {:induction false} SortedCount<V>(s: seq<Entry<V>>, k: int)
    requires Sorted(s)
    ensures |s| == |Below(s, k)| + |Above(s, k)| + (if Lookup(s, k).Some? then 1 else 0)
  {
    if s != [] {
      SortedSplit([], s[0], s[1..]);
      assert s == [] + [s[0]] + s[1..];
      if s[0].key < k {
        SortedCount(s[1..], k);
      } else {
        AllAbove(s[1..], k);
        if s[0].key > k {
          assert forall e :: e in s ==> k < e.key;
          AllAbove(s, k);
        }
      }
    }
  }

  /** Map semantics of the sorted update: the new entry answers `e.key`, every other key is unchanged. */
  lemma {:induction false} LookupUpdate<V>(s: seq<Entry<V>>, e: Entry<V>, j: int)
    ensures Lookup(Below(s, e.key) + [e] + Above(s, e.key), j)
         == if j == e.key then Some(e.value) else Lookup(s, j)
  {
    var a, b := Below(s, e.key), Above(s, e.key);
    LookupConcat(a + [e], b, j);
    LookupConcat(a, [e], j);
    LookupFilter(s, e.key, j);
  }

  /** Map semantics of removal: `k` has no value, every other key is unchanged. */
  lemma {:induction false} LookupRemove<V>(s: seq<Entry<V>>, k: int, j: int)
    ensures Lookup(Below(s, k) + Above(s, k), j) == if j == k then None else Lookup(s, j)
  {
    LookupConcat(Below(s, k), Above(s, k), j);
    LookupFilter(s, k, j);
  }

  /** A filter keeps every entry of the keys it lets through. */
  lemma {:induction false} LookupFilter<V>(s: seq<Entry<V>>, k: int, j: int)
    ensures Lookup(Below(s, k), j) == if j < k then Lookup(s, j) else None
    ensures Lookup(Above(s, k), j) == if k < j then Lookup(s, j) else None
  {
    if s != [] {
      LookupFilter(s[1..], k, j);
      if s[0].key < k {
        assert Below(s, k) == [s[0]] + Below(s[1..], k);
        assert ([s[0]] + Below(s[1..], k))[1..] == Below(s[1..], k);
      }
      if k < s[0].key {
        assert Above(s, k) == [s[0]] + Above(s[1..], k);
        assert ([s[0]] + Above(s[1..], k))[1..] == Above(s[1..], k);
      }
    }
  }
}
