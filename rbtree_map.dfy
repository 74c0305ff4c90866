/*
 * The public red-black map: a root and a count that the mutating
 * `insert`/`remove` reassign, and the read-only two-way search behind `get`.
 */
module RBTreeMap {
  import opened Wrappers
  import opened SortedEntries
  import opened RedBlack

  /** What the search has settled so far: a hit below `t`, else the candidate if its key is `k`. */
  ghost function Pending<V>(t: Tree<V>, candidate: Option<Entry<V>>, k: int): Option<V> {
    if Lookup(Elements(t), k).Some? then Lookup(Elements(t), k)
    else if candidate.Some? && candidate.value.key == k then Some(candidate.value.value)
    else None
  }

  /**
   * Two-way search: the descent compares with `<` only and remembers the
   * last node whose key is not above `k`; equality is tested once, at the
   * end, on that candidate. On an ordered tree it finds the entry for `k`.
   */
  method TwoWaySearch<V>(root: Tree<V>, k: int) returns (r: Option<Entry<V>>)
    requires Ordered(root)
    ensures r.Some? ==> r.value.key == k && Lookup(Elements(root), k) == Some(r.value.value)
    ensures r.None? ==> Lookup(Elements(root), k) == None
  {
    var t := root;
    var candidate: Option<Entry<V>> := None;
    while t.Node?
      invariant Ordered(t)
      invariant candidate.Some? ==> forall e :: e in Elements(t) ==> candidate.value.key < e.key
      invariant Lookup(Elements(root), k) == Pending(t, candidate, k)
      decreases t
    {
      var a, x, b := Elements(t.left), t.entry, Elements(t.right);
      SortedSplit(a, x, b);
      Divide(a, x, b, k);
      if k < x.key {
        t := t.left;
      } else {
        assert k == x.key ==> Lookup(b, k) == None by {
          if k == x.key {
            AllAbove(b, k);
          }
        }
        candidate := Some(x);
        t := t.right;
      }
    }
    if candidate.Some? && candidate.value.key == k {
      r := candidate;
    } else {
      r := None;
    }
  }

  /** `doCount` counts the nodes, which are the entries of the tree. */
  lemma {:induction false} SizeIsCount<V>(t: Tree<V>)
    ensures Size(t) == |Elements(t)|
  {
    if t.Node? {
      SizeIsCount(t.left);
      SizeIsCount(t.right);
    }
  }

  /**
   * `RBTree`: a persistent ordered map. `root` is `_root` (nil is `Leaf`),
   * `count` is `_count`.
   */
  class RBTree<V> {
    var root: Tree<V>
    var count: int

    /** The map invariant: a red-black tree whose count is its number of entries. */
    ghost predicate Valid()
      reads this
    {
      IsRedBlack(root) && count == |Elements(root)|
    }

    /** The entries of the map, in key order. */
    ghost function Contents(): seq<Entry<V>>
      reads this
    {
      Elements(root)
    }

    /** `init()`: the empty map. */
    constructor ()
      ensures Valid() && root == Leaf && count == 0
    {
      root := Leaf;
      count := 0;
    }

    /** Copying the struct: a second map that shares the (immutable) nodes. */
    method Copy() returns (c: RBTree<V>)
      requires Valid()
      ensures fresh(c) && c.Valid() && c.root == root && c.count == count
    {
      c := new RBTree();
      c.root := root;
      c.count := count;
    }

    /**
     * `insert(key, value)`: an empty map gets a single black root; otherwise
     * the node insert runs and the root is painted black. The result is true
     * exactly when the key was new, and then the count grows by one.
     */
    method Insert(k: int, v: V) returns (inserted: bool)
      requires Valid()
      modifies this
      ensures Valid() && IsBlack(root)
      ensures Contents() == Below(old(Contents()), k) + [Entry(k, v)] + Above(old(Contents()), k)
      ensures inserted <==> Lookup(old(Contents()), k).None?
      ensures count == old(count) + (if inserted then 1 else 0)
    {
      var e := Entry(k, v);
      SortedCount(Elements(root), k);
      SortedUpdate(Elements(root), e);
      if root.Leaf? {
        root := Node(Black, Leaf, e, Leaf);
        count := count + 1;
        return true;
      }
      InsKeepsInvariant(root, e);
      InsUpdates(root, e);
      var r := Ins(root, e);
      RecolorKeepsElements(r.tree, Black);
      root := r.tree.(color := Black);
      inserted := r.isNew;
      if inserted {
        count := count + 1;
      }
    }

    /**
     * `remove(key)`: delete, then paint a non-empty root black. The result is
     * the value the key had; the count drops by one exactly when there was one.
     */
    method Remove(k: int) returns (value: Option<V>)
      requires Valid()
      modifies this
      ensures Valid()
      ensures Contents() == Below(old(Contents()), k) + Above(old(Contents()), k)
      ensures value == Lookup(old(Contents()), k)
      ensures count == old(count) - (if value.Some? then 1 else 0)
    {
      SortedCount(Elements(root), k);
      SortedRemove(Elements(root), k);
      DelRemoves(root, k);
      var d := Del(root, k);
      if d.tree.Node? {
        RecolorKeepsElements(d.tree, Black);
      }
      root := Paint(Black, d.tree);
      value := d.value;
      if value.Some? {
        count := count - 1;
      }
    }

    /** `get(key)`: the two-way search from the root. */
    method Get(k: int) returns (value: Option<V>)
      requires Valid()
      ensures value == Lookup(Contents(), k)
    {
      var found := TwoWaySearch(root, k);
      if found.Some? {
        value := Some(found.value.value);
      } else {
        value := None;
      }
    }

    /** The older `get`, which returns the whole entry. */
    method GetEntry(k: int) returns (entry: Option<Entry<V>>)
      requires Valid()
      ensures entry.Some? ==> entry.value.key == k && Lookup(Contents(), k) == Some(entry.value.value)
      ensures entry.None? <==> Lookup(Contents(), k).None?
    {
      entry := TwoWaySearch(root, k);
    }
  }
}
