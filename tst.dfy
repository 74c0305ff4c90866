/*
 * The ternary search tree of TSTree (keys are `String`s) and GenericTSTree
 * (keys are arrays of a `Comparable` digit); both are modelled with `char`
 * digits. The node graph is a value (`Node`), the tree object a class whose
 * `root` and `count` its methods reassign.
 */
module TernarySearch {
  import opened Wrappers

  /** `nil` is `Nil`; a node holds its `char`, three children and an optional value. */
  datatype Node<V> = Nil | Node(ch: char, left: Node<V>, mid: Node<V>, right: Node<V>, value: Option<V>)

  /** `hasChild` */
  predicate HasChild<V>(t: Node<V>)
    requires t.Node?
  {
    t.left.Node? || t.mid.Node? || t.right.Node?
  }

  /** `isRemoveable`: no value and no child. */
  predicate IsRemovable<V>(t: Node<V>)
    requires t.Node?
  {
    t.value.None? && !HasChild(t)
  }

  /** `node?.value` */
  function ValueAt<V>(t: Node<V>): Option<V> {
    if t.Nil? then None else t.value
  }

  // ----- Specification: the keys and values a subtree stores -----

  /**
   * The value a subtree stores under `k` (keys relative to the path that
   * leads to it): a node stores `[ch]` when it has a value, `[ch] + s` for
   * every `s` its middle subtree stores, and whatever its left and right
   * subtrees store. The definition searches every branch; only `Ordered`
   * makes the one-branch walk of `get` find the same value.
   */
  ghost function Stored<V>(t: Node<V>, k: string): Option<V> {
    match t
    case Nil => None
    case Node(c, l, m, r, v) =>
      if |k| == 1 && k[0] == c && v.Some? then v
      else if |k| > 1 && k[0] == c && Stored(m, k[1..]).Some? then Stored(m, k[1..])
      else if Stored(l, k).Some? then Stored(l, k)
      else Stored(r, k)
  }

  /** Every stored key is non-empty. */
  lemma {:induction false} EmptyNotStored<V>(t: Node<V>)
    ensures Stored(t, []) == None
  {
    if t.Node? {
      EmptyNotStored(t.left);
      EmptyNotStored(t.right);
    }
  }

  /**
   * Search-tree order: the keys below `left` start with a smaller digit and
   * those below `right` with a larger one.
   */
  ghost predicate Ordered<V>(t: Node<V>) {
    match t
    case Nil => true
    case Node(c, l, m, r, _) =>
      Ordered(l) && Ordered(m) && Ordered(r) &&
      (forall k :: Stored(l, k).Some? ==> |k| > 0 && k[0] < c) &&
      (forall k :: Stored(r, k).Some? ==> |k| > 0 && k[0] > c)
  }

  /** No removable node is left in the tree: every node has a value or a child. */
  ghost predicate Pruned<V>(t: Node<V>) {
    match t
    case Nil => true
    case Node(_, l, m, r, _) => Pruned(l) && Pruned(m) && Pruned(r) && !IsRemovable(t)
  }

  /** One step of every walk: where a key lives, given its first digit. */
  lemma Split<V>(t: Node<V>, k: string)
    requires t.Node? && Ordered(t) && |k| > 0
    ensures k[0] < t.ch ==> Stored(t, k) == Stored(t.left, k)
    ensures k[0] > t.ch ==> Stored(t, k) == Stored(t.right, k)
    ensures k[0] == t.ch && |k| == 1 ==> Stored(t, k) == t.value
    ensures k[0] == t.ch && |k| > 1 ==> Stored(t, k) == Stored(t.mid, k[1..])
  {
  }

  /** A pruned non-empty subtree stores at least one key. */
  lemma {:induction false} PrunedNonEmpty<V>(t: Node<V>) returns (k: string)
    requires t.Node? && Pruned(t)
    ensures Stored(t, k).Some?
  {
    var c := t.ch;
    if t.value.Some? {
      k := [c];
    } else if t.left.Node? {
      k := PrunedNonEmpty(t.left);
    } else if t.right.Node? {
      k := PrunedNonEmpty(t.right);
    } else {
      var s := PrunedNonEmpty(t.mid);
      EmptyNotStored(t.mid);
      k := [c] + s;
      assert k[1..] == s;
    }
  }

  // ----- get: the walk of `_getNode` -----

  /**
   * The node `_getNode` stops at for `key[i..]`: left or right on a smaller
   * or larger digit, down the middle on an equal one, and the node itself
   * at the last digit; `Nil` when the walk falls off the tree.
   */
  function FindNode<V>(t: Node<V>, key: string, i: nat): Node<V>
    requires i < |key|
    decreases |key| - i, t
  {
    match t
    case Nil => Nil
    case Node(c, l, m, r, _) =>
      if key[i] < c then FindNode(l, key, i)
      else if key[i] > c then FindNode(r, key, i)
      else if i == |key| - 1 then t
      else FindNode(m, key, i + 1)
  }

  /** What lies below the node `_getNode` reached: its middle subtree (nothing for `nil`). */
  function Below<V>(t: Node<V>): Node<V> {
    if t.Nil? then Nil else t.mid
  }

  /**
   * The node found for `key[i..]` holds the value of that key, and its
   * middle subtree holds exactly the keys that extend it.
   */
  /** Below a node, a key that starts with a smaller (larger) digit lives on the left (right). */
  lemma ShiftSide<V>(t: Node<V>, k: string)
    requires t.Node? && Ordered(t) && |k| > 0 && k[0] != t.ch
    ensures k[0] < t.ch ==> forall s :: s != [] ==> Stored(t, k + s) == Stored(t.left, k + s)
    ensures k[0] > t.ch ==> forall s :: s != [] ==> Stored(t, k + s) == Stored(t.right, k + s)
  {
    forall s | s != []
      ensures k[0] < t.ch ==> Stored(t, k + s) == Stored(t.left, k + s)
      ensures k[0] > t.ch ==> Stored(t, k + s) == Stored(t.right, k + s)
    {
      Split(t, k + s);
    }
  }

  /** Below a node, a longer key that starts with its digit lives in the middle. */
  lemma ShiftMid<V>(t: Node<V>, k: string)
    requires t.Node? && Ordered(t) && |k| > 0 && k[0] == t.ch
    ensures forall s :: s != [] ==> Stored(t, k + s) == Stored(t.mid, k[1..] + s)
  {
    forall s | s != []
      ensures Stored(t, k + s) == Stored(t.mid, k[1..] + s)
    {
      Split(t, k + s);
      assert (k + s)[1..] == k[1..] + s;
    }
  }

  /**
   * The node found for `key[i..]` holds the value of that key, and its
   * middle subtree holds exactly the keys that extend it.
   */
  lemma {:induction false} FindNodeSound<V>(t: Node<V>, key: string, i: nat)
    requires i < |key| && Ordered(t)
    ensures ValueAt(FindNode(t, key, i)) == Stored(t, key[i..])
    ensures forall s :: s != [] ==> Stored(Below(FindNode(t, key, i)), s) == Stored(t, key[i..] + s)
    decreases |key| - i, t
  {
    if t.Nil? {
      return;
    }
    var c, k := t.ch, key[i..];
    Split(t, k);
    if key[i] < c {
      FindNodeSound(t.left, key, i);
      ShiftSide(t, k);
    } else if key[i] > c {
      FindNodeSound(t.right, key, i);
      ShiftSide(t, k);
    } else if i == |key| - 1 {
      ShiftMid(t, k);
      assert k[1..] == [];
      assert forall s: string :: [] + s == s;
    } else {
      FindNodeSound(t.mid, key, i + 1);
      ShiftMid(t, k);
      assert k[1..] == key[i + 1..];
    }
  }

  // ----- insert -----

  /** Result of `_insert`: the new subtree and whether `count` is incremented. */
  datatype Inserted<V> = Inserted(node: Node<V>, added: bool)

  /** The chain of fresh nodes `_insert` builds below a `nil` for `key[i..]`. */
  function NewPath<V>(key: string, value: V, i: nat): (t: Node<V>)
    requires i < |key|
    ensures t.Node? && t.ch == key[i]
    decreases |key| - i
  {
    if i == |key| - 1 then Node(key[i], Nil, Nil, Nil, Some(value))
    else Node(key[i], Nil, NewPath(key, value, i + 1), Nil, None)
  }

  /** `_insert(node, key, value, index)` */
  function Ins<V>(t: Node<V>, key: string, value: V, i: nat): Inserted<V>
    requires i < |key|
    decreases |key| - i, t
  {
    match t
    case Nil => Inserted(NewPath(key, value, i), true)
    case Node(c, l, m, r, v) =>
      if key[i] < c then
        var sub := Ins(l, key, value, i);
        Inserted(t.(left := sub.node), sub.added)
      else if key[i] > c then
        var sub := Ins(r, key, value, i);
        Inserted(t.(right := sub.node), sub.added)
      else if i < |key| - 1 then
        var sub := Ins(m, key, value, i + 1);
        Inserted(t.(mid := sub.node), sub.added)
      else Inserted(t.(value := Some(value)), v.None?)
  }

  /** A fresh path stores exactly `key[i..]`, is ordered and has no removable node. */
  lemma {:induction false} NewPathSound<V>(key: string, value: V, i: nat)
    requires i < |key|
    ensures forall x :: Stored(NewPath(key, value, i), x) == if x == key[i..] then Some(value) else None
    ensures Ordered(NewPath(key, value, i)) && Pruned(NewPath(key, value, i))
    decreases |key| - i
  {
    if i < |key| - 1 {
      NewPathSound(key, value, i + 1);
      assert key[i..][1..] == key[i + 1..];
      forall x | |x| > 1 && x[0] == key[i] && x[1..] == key[i + 1..]
        ensures x == key[i..]
      {
        assert x == [x[0]] + x[1..];
      }
    } else {
      assert key[i..] == [key[i]];
    }
  }

  /**
   * What `_insert` promises for `key[i..]` below `t`: `value` is stored under
   * it and nothing else changes; `count` grows exactly when the key was
   * absent; order and pruning are kept.
   */
  ghost predicate Inserts<V>(t: Node<V>, key: string, value: V, i: nat, r: Inserted<V>)
    requires i < |key|
  {
    (forall x :: Stored(r.node, x) == if x == key[i..] then Some(value) else Stored(t, x)) &&
    r.added == Stored(t, key[i..]).None? &&
    r.node.Node? && Ordered(r.node) && Pruned(r.node)
  }

  lemma {:induction false} InsSound<V>(t: Node<V>, key: string, value: V, i: nat)
    requires i < |key| && Ordered(t) && Pruned(t)
    ensures Inserts(t, key, value, i, Ins(t, key, value, i))
    decreases |key| - i, t
  {
    if t.Nil? {
      NewPathSound(key, value, i);
    } else if key[i] < t.ch {
      InsSound(t.left, key, value, i);
      InsLeft(t, key, value, i);
    } else if key[i] > t.ch {
      InsSound(t.right, key, value, i);
      InsRight(t, key, value, i);
    } else if i < |key| - 1 {
      InsSound(t.mid, key, value, i + 1);
      InsMid(t, key, value, i);
    } else {
      Split(t, key[i..]);
      assert key[i..] == [t.ch];
    }
  }

  /** Replacing the left child by one that adds `k` stores `k` and changes no other key. */
  lemma LeftStores<V>(t: Node<V>, n: Node<V>, k: string, value: V)
    requires t.Node? && Ordered(t) && |k| > 0 && k[0] < t.ch
    requires forall x :: Stored(n, x) == if x == k then Some(value) else Stored(t.left, x)
    ensures forall x :: Stored(t.(left := n), x) == if x == k then Some(value) else Stored(t, x)
  {
    forall x
      ensures Stored(t.(left := n), x) == if x == k then Some(value) else Stored(t, x)
    {
      if x == k {
        Split(t, k);
      }
    }
  }

  /** ... and keeps the search-tree order. */
  lemma LeftOrdered<V>(t: Node<V>, n: Node<V>, k: string, value: V)
    requires t.Node? && Ordered(t) && Ordered(n) && |k| > 0 && k[0] < t.ch
    requires forall x :: Stored(n, x) == if x == k then Some(value) else Stored(t.left, x)
    ensures Ordered(t.(left := n))
  {
    forall x | Stored(n, x).Some?
      ensures |x| > 0 && x[0] < t.ch
    {
      if x != k {
        assert Stored(t.left, x).Some?;
      }
    }
  }

  lemma InsLeft<V>(t: Node<V>, key: string, value: V, i: nat)
    requires i < |key| && t.Node? && Ordered(t) && Pruned(t) && key[i] < t.ch
    requires Inserts(t.left, key, value, i, Ins(t.left, key, value, i))
    ensures Inserts(t, key, value, i, Ins(t, key, value, i))
  {
    var sub := Ins(t.left, key, value, i);
    assert Ins(t, key, value, i) == Inserted(t.(left := sub.node), sub.added);
    Split(t, key[i..]);
    LeftStores(t, sub.node, key[i..], value);
    LeftOrdered(t, sub.node, key[i..], value);
  }

  /** Replacing the right child by one that adds `k` stores `k` and changes no other key. */
  lemma RightStores<V>(t: Node<V>, n: Node<V>, k: string, value: V)
    requires t.Node? && Ordered(t) && |k| > 0 && k[0] > t.ch
    requires forall x :: Stored(n, x) == if x == k then Some(value) else Stored(t.right, x)
    ensures forall x :: Stored(t.(right := n), x) == if x == k then Some(value) else Stored(t, x)
  {
    forall x
      ensures Stored(t.(right := n), x) == if x == k then Some(value) else Stored(t, x)
    {
      if x == k {
        Split(t, k);
      }
    }
  }

  /** ... and keeps the search-tree order. */
  lemma RightOrdered<V>(t: Node<V>, n: Node<V>, k: string, value: V)
    requires t.Node? && Ordered(t) && Ordered(n) && |k| > 0 && k[0] > t.ch
    requires forall x :: Stored(n, x) == if x == k then Some(value) else Stored(t.right, x)
    ensures Ordered(t.(right := n))
  {
    forall x | Stored(n, x).Some?
      ensures |x| > 0 && x[0] > t.ch
    {
      if x != k {
        assert Stored(t.right, x).Some?;
      }
    }
  }

  lemma InsRight<V>(t: Node<V>, key: string, value: V, i: nat)
    requires i < |key| && t.Node? && Ordered(t) && Pruned(t) && key[i] > t.ch
    requires Inserts(t.right, key, value, i, Ins(t.right, key, value, i))
    ensures Inserts(t, key, value, i, Ins(t, key, value, i))
  {
    var sub := Ins(t.right, key, value, i);
    assert Ins(t, key, value, i) == Inserted(t.(right := sub.node), sub.added);
    Split(t, key[i..]);
    RightStores(t, sub.node, key[i..], value);
    RightOrdered(t, sub.node, key[i..], value);
  }

  lemma InsMid<V>(t: Node<V>, key: string, value: V, i: nat)
    requires i < |key| - 1 && t.Node? && Ordered(t) && Pruned(t) && key[i] == t.ch
    requires Inserts(t.mid, key, value, i + 1, Ins(t.mid, key, value, i + 1))
    ensures Inserts(t, key, value, i, Ins(t, key, value, i))
  {
    var k := key[i..];
    Split(t, k);
    assert k[1..] == key[i + 1..];
    forall x | |x| > 1 && x[0] == t.ch && x[1..] == key[i + 1..]
      ensures x == k
    {
      assert x == [x[0]] + x[1..];
    }
  }

  // ----- delete -----

  /**
   * Result of `delete(node, key, index)`: the node with its subtree updated,
   * whether the parent should unlink it (`shouldDelete`), and whether a
   * value was cleared (`count` is decremented).
   */
  datatype Deleted<V> = Deleted(node: Node<V>, prune: bool, removed: bool)

  /** What the parent holds afterwards: nothing if the node is unlinked. */
  function Kept<V>(d: Deleted<V>): Node<V> {
    if d.prune then Nil else d.node
  }

  /** Unlink or keep the updated left child, then report whether this node is removable. */
  function UnlinkLeft<V>(t: Node<V>, d: Deleted<V>): Deleted<V>
    requires t.Node?
  {
    if d.prune then Deleted(t.(left := Nil), IsRemovable(t.(left := Nil)), d.removed)
    else Deleted(t.(left := d.node), false, d.removed)
  }

  function UnlinkMid<V>(t: Node<V>, d: Deleted<V>): Deleted<V>
    requires t.Node?
  {
    if d.prune then Deleted(t.(mid := Nil), IsRemovable(t.(mid := Nil)), d.removed)
    else Deleted(t.(mid := d.node), false, d.removed)
  }

  function UnlinkRight<V>(t: Node<V>, d: Deleted<V>): Deleted<V>
    requires t.Node?
  {
    if d.prune then Deleted(t.(right := Nil), IsRemovable(t.(right := Nil)), d.removed)
    else Deleted(t.(right := d.node), false, d.removed)
  }

  /** Clear the value of the node holding the key; it is removable if it has no child left. */
  function ClearValue<V>(t: Node<V>): Deleted<V>
    requires t.Node?
  {
    if t.value.Some? then Deleted(t.(value := None), !HasChild(t), true)
    else Deleted(t, false, false)
  }

  /**
   * `delete(node, key, index)` as written: at the last position it clears
   * the value of whatever node it reached, without comparing the digit.
   */
  function DelAsWritten<V>(t: Node<V>, key: string, i: nat): Deleted<V>
    requires i < |key|
    decreases |key| - i, t
  {
    match t
    case Nil => Deleted(Nil, false, false)
    case Node(c, l, m, r, _) =>
      if i == |key| - 1 then ClearValue(t)
      else if key[i] < c then UnlinkLeft(t, DelAsWritten(l, key, i))
      else if key[i] > c then UnlinkRight(t, DelAsWritten(r, key, i))
      else UnlinkMid(t, DelAsWritten(m, key, i + 1))
  }

  /**
   * The delete the comments describe ("key is found"): the digit is compared
   * at every position, the last one included, before the value is cleared.
   */
  function Del<V>(t: Node<V>, key: string, i: nat): Deleted<V>
    requires i < |key|
    decreases |key| - i, t
  {
    match t
    case Nil => Deleted(Nil, false, false)
    case Node(c, l, m, r, _) =>
      if key[i] < c then UnlinkLeft(t, Del(l, key, i))
      else if key[i] > c then UnlinkRight(t, Del(r, key, i))
      else if i == |key| - 1 then ClearValue(t)
      else UnlinkMid(t, Del(m, key, i + 1))
  }

  /**
   * Deleting `"a"` from a tree that stores only `"b"` clears `"b"`: the
   * walk stops at the root at the last (and only) position, and the root is
   * then unlinked and `count` decremented. The corrected delete leaves the
   * tree alone.
   */
  lemma DelAsWrittenClearsOtherKey()
    ensures var t := Node('b', Nil, Nil, Nil, Some(0));
      Stored(t, "a") == None && Stored(t, "b") == Some(0) &&
      DelAsWritten(t, "a", 0) == Deleted(Node('b', Nil, Nil, Nil, None), true, true) &&
      Del(t, "a", 0) == Deleted(t, false, false)
  {
  }

  /**
   * What `delete` promises for `key[i..]` below `t`: the key is no longer
   * stored and nothing else changes; `count` drops exactly when it was
   * stored; the parent unlinks the node only when it is empty; order and
   * pruning are kept.
   */
  ghost predicate Deletes<V>(t: Node<V>, key: string, i: nat, d: Deleted<V>)
    requires i < |key|
  {
    (forall x :: Stored(Kept(d), x) == if x == key[i..] then None else Stored(t, x)) &&
    d.removed == Stored(t, key[i..]).Some? &&
    Ordered(Kept(d)) && Pruned(Kept(d)) &&
    (t.Node? ==> d.node.Node?)
  }

  lemma {:induction false} DelSound<V>(t: Node<V>, key: string, i: nat)
    requires i < |key| && Ordered(t) && Pruned(t)
    ensures Deletes(t, key, i, Del(t, key, i))
    decreases |key| - i, t
  {
    if t.Nil? {
    } else if key[i] < t.ch {
      DelSound(t.left, key, i);
      DelLeft(t, key, i);
    } else if key[i] > t.ch {
      DelSound(t.right, key, i);
      DelRight(t, key, i);
    } else if i < |key| - 1 {
      DelSound(t.mid, key, i + 1);
      DelMid(t, key, i);
    } else {
      Split(t, key[i..]);
      assert key[i..] == [t.ch];
    }
  }

  /** A removable node stores nothing. */
  lemma RemovableStoresNothing<V>(u: Node<V>)
    requires u.Node? && IsRemovable(u)
    ensures forall x :: Stored(u, x) == None
  {
  }

  /**
   * The node after its child was updated: unlinking a pruned child and
   * keeping an updated one both leave `Kept` of the child in its place.
   */
  lemma UnlinkKeeps<V>(t: Node<V>, d: Deleted<V>, u: Node<V>, key: string, i: nat)
    requires i < |key| && t.Node? && Ordered(t) && Pruned(t) && u.Node? && Ordered(u)
    requires u.value == t.value && (!IsRemovable(u) ==> Pruned(u))
    requires forall x :: Stored(u, x) == if x == key[i..] then None else Stored(t, x)
    requires d.node == u && d.prune == IsRemovable(u) && d.removed == Stored(t, key[i..]).Some?
    ensures Deletes(t, key, i, d)
  {
    if d.prune {
      RemovableStoresNothing(u);
    }
  }

  lemma DelLeft<V>(t: Node<V>, key: string, i: nat)
    requires i < |key| && t.Node? && Ordered(t) && Pruned(t) && key[i] < t.ch
    requires Deletes(t.left, key, i, Del(t.left, key, i))
    ensures Deletes(t, key, i, Del(t, key, i))
  {
    var k, dl := key[i..], Del(t.left, key, i);
    var u := t.(left := Kept(dl));
    Split(t, k);
    forall x
      ensures Stored(u, x) == if x == k then None else Stored(t, x)
    {
      if x == k {
        Split(t, x);
      }
    }
    UnlinkKeeps(t, Del(t, key, i), u, key, i);
  }

  lemma DelRight<V>(t: Node<V>, key: string, i: nat)
    requires i < |key| && t.Node? && Ordered(t) && Pruned(t) && key[i] > t.ch
    requires Deletes(t.right, key, i, Del(t.right, key, i))
    ensures Deletes(t, key, i, Del(t, key, i))
  {
    var k, dr := key[i..], Del(t.right, key, i);
    var u := t.(right := Kept(dr));
    Split(t, k);
    forall x
      ensures Stored(u, x) == if x == k then None else Stored(t, x)
    {
      if x == k {
        Split(t, x);
      }
    }
    UnlinkKeeps(t, Del(t, key, i), u, key, i);
  }

  lemma DelMid<V>(t: Node<V>, key: string, i: nat)
    requires i < |key| - 1 && t.Node? && Ordered(t) && Pruned(t) && key[i] == t.ch
    requires Deletes(t.mid, key, i + 1, Del(t.mid, key, i + 1))
    ensures Deletes(t, key, i, Del(t, key, i))
  {
    var k, dm := key[i..], Del(t.mid, key, i + 1);
    var u := t.(mid := Kept(dm));
    Split(t, k);
    assert k[1..] == key[i + 1..];
    forall x
      ensures Stored(u, x) == if x == k then None else Stored(t, x)
    {
      if |x| > 1 && x[0] == t.ch && x[1..] == key[i + 1..] {
        assert x == [x[0]] + x[1..];
      }
    }
    UnlinkKeeps(t, Del(t, key, i), u, key, i);
  }

  /** A pruned tree that stores nothing is `nil`: deleting every key empties the tree. */
  lemma EmptyIsNil<V>(t: Node<V>)
    requires Pruned(t) && forall x :: Stored(t, x).None?
    ensures t == Nil
  {
    if t.Node? {
      var k := PrunedNonEmpty(t);
    }
  }

  // ----- keys and enumeration: the in-order traversal of `collect` / `_enumerate` -----

  /** `p` is a prefix of `x`. */
  predicate IsPrefix(p: string, x: string) {
    |p| <= |x| && x[..|p|] == p
  }

  /**
   * The key-value pairs `collect` / `_enumerate` visit below `t` when the
   * path to `t` spells `p`: the left subtree, the node's own key, the middle
   * subtree (with the node's digit pushed on the prefix), the right subtree.
   */
  function EntriesFrom<V>(t: Node<V>, p: string): seq<(string, V)> {
    match t
    case Nil => []
    case Node(c, l, m, r, v) =>
      EntriesFrom(l, p) + (if v.Some? then [(p + [c], v.value)] else []) + EntriesFrom(m, p + [c]) + EntriesFrom(r, p)
  }

  /** All entries of a tree, from the root with the empty prefix. */
  function Entries<V>(t: Node<V>): seq<(string, V)> {
    EntriesFrom(t, [])
  }

  /** The keys of a list of entries. */
  function KeysOf<V>(es: seq<(string, V)>): (ks: seq<string>)
    ensures |ks| == |es| && forall j :: 0 <= j < |es| ==> ks[j] == es[j].0
  {
    if es == [] then [] else [es[0].0] + KeysOf(es[1..])
  }

  lemma KeysOfAppend<V>(a: seq<(string, V)>, b: seq<(string, V)>)
    ensures KeysOf(a + b) == KeysOf(a) + KeysOf(b)
  {
    assert forall j :: 0 <= j < |a + b| ==> KeysOf(a + b)[j] == (KeysOf(a) + KeysOf(b))[j];
  }

  /** Every visited pair is a stored key (below the prefix) with its value. */
  lemma {:induction false} EntriesSound<V>(t: Node<V>, p: string)
    requires Ordered(t)
    ensures forall e :: e in EntriesFrom(t, p) ==> IsPrefix(p, e.0) && Stored(t, e.0[|p|..]) == Some(e.1)
  {
    if t.Node? {
      var c := t.ch;
      EntriesSound(t.left, p);
      EntriesSound(t.mid, p + [c]);
      EntriesSound(t.right, p);
      EmptyNotStored(t.mid);
      forall e | e in EntriesFrom(t, p)
        ensures IsPrefix(p, e.0) && Stored(t, e.0[|p|..]) == Some(e.1)
      {
        var s := e.0[|p|..];
        if e in EntriesFrom(t.mid, p + [c]) {
          assert s[1..] == e.0[|p + [c]|..];
          assert e.0[..|p|] == e.0[..|p + [c]|][..|p|];
        } else if e !in EntriesFrom(t.left, p) && e !in EntriesFrom(t.right, p) {
          assert s == [c];
        }
        Split(t, s);
      }
    }
  }

  /** Every stored key (below the prefix) is visited, with its value. */
  lemma {:induction false} EntriesComplete<V>(t: Node<V>, p: string, s: string)
    requires Ordered(t) && Stored(t, s).Some?
    ensures (p + s, Stored(t, s).value) in EntriesFrom(t, p)
  {
    EmptyNotStored(t);
    Split(t, s);
    if s[0] < t.ch {
      EntriesComplete(t.left, p, s);
      InLeftBlock(t, p, (p + s, Stored(t, s).value));
    } else if s[0] > t.ch {
      EntriesComplete(t.right, p, s);
      InRightBlock(t, p, (p + s, Stored(t, s).value));
    } else if |s| == 1 {
      CompleteAtNode(t, p, s);
    } else {
      EntriesComplete(t.mid, p + [t.ch], s[1..]);
      CompleteInMid(t, p, s);
    }
  }

  lemma CompleteAtNode<V>(t: Node<V>, p: string, s: string)
    requires t.Node? && Ordered(t) && s == [t.ch] && t.value.Some?
    ensures (p + s, t.value.value) in EntriesFrom(t, p)
  {
  }

  lemma CompleteInMid<V>(t: Node<V>, p: string, s: string)
    requires t.Node? && Ordered(t) && |s| > 1 && s[0] == t.ch && Stored(t.mid, s[1..]).Some?
    requires (p + [t.ch] + s[1..], Stored(t.mid, s[1..]).value) in EntriesFrom(t.mid, p + [t.ch])
    ensures (p + s, Stored(t.mid, s[1..]).value) in EntriesFrom(t, p)
  {
    assert p + [t.ch] + s[1..] == p + s;
  }

  lemma InLeftBlock<V>(t: Node<V>, p: string, e: (string, V))
    requires t.Node? && e in EntriesFrom(t.left, p)
    ensures e in EntriesFrom(t, p)
  {
  }

  lemma InRightBlock<V>(t: Node<V>, p: string, e: (string, V))
    requires t.Node? && e in EntriesFrom(t.right, p)
    ensures e in EntriesFrom(t, p)
  {
  }

  lemma InMidBlock<V>(t: Node<V>, p: string, e: (string, V))
    requires t.Node? && e in EntriesFrom(t.mid, p + [t.ch])
    ensures e in EntriesFrom(t, p)
  {
  }


  // ----- count -----

  /** The number of values held in a subtree. */
  function Size<V>(t: Node<V>): nat {
    match t
    case Nil => 0
    case Node(_, l, m, r, v) => Size(l) + (if v.Some? then 1 else 0) + Size(m) + Size(r)
  }

  /** The traversal visits one entry per value, whatever the prefix. */
  lemma {:induction false} EntriesCount<V>(t: Node<V>, p: string)
    ensures |EntriesFrom(t, p)| == Size(t)
  {
    if t.Node? {
      EntriesCount(t.left, p);
      EntriesCount(t.mid, p + [t.ch]);
      EntriesCount(t.right, p);
    }
  }

  lemma {:induction false} NewPathSize<V>(key: string, value: V, i: nat)
    requires i < |key|
    ensures Size(NewPath(key, value, i)) == 1
    decreases |key| - i
  {
    if i < |key| - 1 {
      NewPathSize(key, value, i + 1);
    }
  }

  /** `_insert` adds one value exactly when it reports `count += 1`. */
  lemma {:induction false} InsSize<V>(t: Node<V>, key: string, value: V, i: nat)
    requires i < |key|
    ensures Size(Ins(t, key, value, i).node) == Size(t) + if Ins(t, key, value, i).added then 1 else 0
    decreases |key| - i, t
  {
    if t.Nil? {
      NewPathSize(key, value, i);
    } else if key[i] < t.ch {
      InsSize(t.left, key, value, i);
    } else if key[i] > t.ch {
      InsSize(t.right, key, value, i);
    } else if i < |key| - 1 {
      InsSize(t.mid, key, value, i + 1);
    }
  }

  /** Deletion removes one value exactly when it reports `count -= 1`. */
  lemma {:induction false} DelSize<V>(t: Node<V>, key: string, i: nat)
    requires i < |key|
    ensures Size(Kept(Del(t, key, i))) + (if Del(t, key, i).removed then 1 else 0) == Size(t)
    ensures Del(t, key, i).prune ==> Size(Del(t, key, i).node) == 0
    decreases |key| - i, t
  {
    if t.Nil? {
    } else if key[i] < t.ch {
      DelSize(t.left, key, i);
    } else if key[i] > t.ch {
      DelSize(t.right, key, i);
    } else if i < |key| - 1 {
      DelSize(t.mid, key, i + 1);
    }
  }

  // ----- order: `collect` lists keys in lexicographic order -----

  /** Lexicographic order on strings, as Swift's `<` on `String`s of single-scalar characters. */
  predicate LexLess(a: string, b: string) {
    if a == [] then b != []
    else b != [] && (a[0] < b[0] || (a[0] == b[0] && LexLess(a[1..], b[1..])))
  }

  /** Keys that agree up to position `n` and differ there are ordered by that digit. */
  lemma {:induction false} LexAtDifference(a: string, b: string, n: nat)
    requires n < |a| && n < |b| && a[..n] == b[..n] && a[n] < b[n]
    ensures LexLess(a, b)
  {
    if n > 0 {
      assert a[0] == a[..n][0] && b[0] == b[..n][0];
      assert a[1..][..n - 1] == a[..n][1..];
      assert b[1..][..n - 1] == b[..n][1..];
      LexAtDifference(a[1..], b[1..], n - 1);
    }
  }

  /** A proper prefix comes first. */
  lemma {:induction false} LexProperPrefix(a: string, b: string)
    requires |a| < |b| && b[..|a|] == a
    ensures LexLess(a, b)
  {
    if a != [] {
      assert b[1..][..|a| - 1] == a[1..];
      LexProperPrefix(a[1..], b[1..]);
    }
  }

  /** The keys of `es` strictly increase. */
  ghost predicate SortedKeys<V>(es: seq<(string, V)>) {
    forall i, j :: 0 <= i < j < |es| ==> LexLess(es[i].0, es[j].0)
  }

  lemma SortedConcat<V>(a: seq<(string, V)>, b: seq<(string, V)>)
    requires SortedKeys(a) && SortedKeys(b)
    requires forall x, y :: x in a && y in b ==> LexLess(x.0, y.0)
    ensures SortedKeys(a + b)
  {
    forall i, j | 0 <= i < j < |a + b|
      ensures LexLess((a + b)[i].0, (a + b)[j].0)
    {
      if j < |a| {
      } else if i >= |a| {
        assert (a + b)[i] == b[i - |a|] && (a + b)[j] == b[j - |a|];
      } else {
        assert (a + b)[i] in a && (a + b)[j] in b;
      }
    }
  }

  /** `x` extends `p` by a digit below `c`. */
  predicate BranchesBelow(p: string, c: char, x: string) {
    IsPrefix(p, x) && |x| > |p| && x[|p|] < c
  }

  /** `x` extends `p` by a digit above `c`. */
  predicate BranchesAbove(p: string, c: char, x: string) {
    IsPrefix(p, x) && |x| > |p| && x[|p|] > c
  }

  /** `x` strictly extends `p + [c]`. */
  predicate Extends(p: string, c: char, x: string) {
    IsPrefix(p + [c], x) && |x| > |p| + 1
  }

  lemma LeftShape<V>(t: Node<V>, p: string)
    requires t.Node? && Ordered(t)
    ensures forall e :: e in EntriesFrom(t.left, p) ==> BranchesBelow(p, t.ch, e.0)
  {
    EntriesSound(t.left, p);
    forall e | e in EntriesFrom(t.left, p)
      ensures BranchesBelow(p, t.ch, e.0)
    {
      assert e.0[|p|..][0] == e.0[|p|];
    }
  }

  lemma RightShape<V>(t: Node<V>, p: string)
    requires t.Node? && Ordered(t)
    ensures forall e :: e in EntriesFrom(t.right, p) ==> BranchesAbove(p, t.ch, e.0)
  {
    EntriesSound(t.right, p);
    forall e | e in EntriesFrom(t.right, p)
      ensures BranchesAbove(p, t.ch, e.0)
    {
      assert e.0[|p|..][0] == e.0[|p|];
    }
  }

  lemma MidShape<V>(t: Node<V>, p: string)
    requires t.Node? && Ordered(t)
    ensures forall e :: e in EntriesFrom(t.mid, p + [t.ch]) ==> Extends(p, t.ch, e.0)
  {
    EntriesSound(t.mid, p + [t.ch]);
    EmptyNotStored(t.mid);
  }

  /** The four parts of a node's traversal, each sorted and placed as the digit says, are sorted together. */
  lemma SortedParts<V>(a: seq<(string, V)>, b: seq<(string, V)>, m: seq<(string, V)>, r: seq<(string, V)>, p: string, c: char)
    requires SortedKeys(a) && SortedKeys(m) && SortedKeys(r)
    requires forall e :: e in a ==> BranchesBelow(p, c, e.0)
    requires forall e :: e in b ==> e.0 == p + [c]
    requires |b| <= 1
    requires forall e :: e in m ==> Extends(p, c, e.0)
    requires forall e :: e in r ==> BranchesAbove(p, c, e.0)
    ensures SortedKeys(a + b + m + r)
  {
    forall x, y | x in a && y in b ensures LexLess(x.0, y.0) {
      LexAtDifference(x.0, y.0, |p|);
    }
    SortedConcat(a, b);
    forall x, y | x in a + b && y in m ensures LexLess(x.0, y.0) {
      assert y.0[..|p|] == (p + [c])[..|p|];
      if x in a {
        LexAtDifference(x.0, y.0, |p|);
      } else {
        LexProperPrefix(x.0, y.0);
      }
    }
    SortedConcat(a + b, m);
    forall x, y | x in a + b + m && y in r ensures LexLess(x.0, y.0) {
      if x in m {
        assert x.0[..|p|] == (p + [c])[..|p|];
      }
      LexAtDifference(x.0, y.0, |p|);
    }
    SortedConcat(a + b + m, r);
  }

  /** `collect` lists the keys below a node in strictly increasing order. */
  lemma {:induction false} EntriesSorted<V>(t: Node<V>, p: string)
    requires Ordered(t)
    ensures SortedKeys(EntriesFrom(t, p))
  {
    if t.Node? {
      EntriesSorted(t.left, p);
      EntriesSorted(t.mid, p + [t.ch]);
      EntriesSorted(t.right, p);
      LeftShape(t, p);
      MidShape(t, p);
      RightShape(t, p);
      SortedParts(EntriesFrom(t.left, p), (if t.value.Some? then [(p + [t.ch], t.value.value)] else []),
        EntriesFrom(t.mid, p + [t.ch]), EntriesFrom(t.right, p), p, t.ch);
    }
  }

  // ----- searchAll(withPrefix:): the node of the prefix and everything below it -----

  lemma {:induction false} FindNodeOrdered<V>(t: Node<V>, key: string, i: nat)
    requires i < |key| && Ordered(t)
    ensures Ordered(FindNode(t, key, i))
    decreases |key| - i, t
  {
    if t.Node? {
      if key[i] < t.ch {
        FindNodeOrdered(t.left, key, i);
      } else if key[i] > t.ch {
        FindNodeOrdered(t.right, key, i);
      } else if i < |key| - 1 {
        FindNodeOrdered(t.mid, key, i + 1);
      }
    }
  }

  lemma {:induction false} FindNodeSize<V>(t: Node<V>, key: string, i: nat)
    requires i < |key|
    ensures Size(FindNode(t, key, i)) <= Size(t)
    decreases |key| - i, t
  {
    if t.Node? {
      if key[i] < t.ch {
        FindNodeSize(t.left, key, i);
      } else if key[i] > t.ch {
        FindNodeSize(t.right, key, i);
      } else if i < |key| - 1 {
        FindNodeSize(t.mid, key, i + 1);
      }
    }
  }

  /**
   * The entries `searchAll(withPrefix:)` and `enumerate(withPrefix:)` visit
   * from the node `_getNode` found for `prefix`: the prefix itself when the
   * node holds a value, then the node's middle subtree in order; nothing
   * when no node was found.
   */
  function NodeEntries<V>(n: Node<V>, prefix: string): seq<(string, V)> {
    if n.Nil? then []
    else (if n.value.Some? then [(prefix, n.value.value)] else []) + EntriesFrom(n.mid, prefix)
  }

  function PrefixEntries<V>(t: Node<V>, prefix: string): seq<(string, V)>
    requires prefix != []
  {
    NodeEntries(FindNode(t, prefix, 0), prefix)
  }

  /** What `FindNodeSound` says about the node found for `prefix`, for a node `n` given by name. */
  ghost predicate FoundFor<V>(t: Node<V>, prefix: string, n: Node<V>) {
    Ordered(n) &&
    ValueAt(n) == Stored(t, prefix) &&
    forall s :: s != [] ==> Stored(Below(n), s) == Stored(t, prefix + s)
  }

  lemma FindNodeFound<V>(t: Node<V>, prefix: string)
    requires prefix != [] && Ordered(t)
    ensures FoundFor(t, prefix, FindNode(t, prefix, 0))
  {
    FindNodeSound(t, prefix, 0);
    FindNodeOrdered(t, prefix, 0);
    assert prefix[0..] == prefix;
  }

  lemma NodeEntriesSound<V>(t: Node<V>, prefix: string, n: Node<V>)
    requires FoundFor(t, prefix, n)
    ensures forall e :: e in NodeEntries(n, prefix) ==> IsPrefix(prefix, e.0) && Stored(t, e.0) == Some(e.1)
  {
    if n.Node? {
      EntriesSound(n.mid, prefix);
      EmptyNotStored(n.mid);
      forall e | e in EntriesFrom(n.mid, prefix)
        ensures Stored(t, e.0) == Some(e.1)
      {
        var s := e.0[|prefix|..];
        assert prefix + s == e.0;
      }
    }
  }

  lemma NodeEntriesComplete<V>(t: Node<V>, prefix: string, n: Node<V>, x: string)
    requires FoundFor(t, prefix, n) && IsPrefix(prefix, x) && Stored(t, x).Some?
    ensures (x, Stored(t, x).value) in NodeEntries(n, prefix)
  {
    if x == prefix {
      assert n.Node?;
    } else {
      var s := x[|prefix|..];
      assert prefix + s == x;
      assert Stored(Below(n), s) == Stored(t, x);
      EntriesComplete(n.mid, prefix, s);
    }
  }

  lemma NodeEntriesSorted<V>(prefix: string, n: Node<V>)
    requires Ordered(n)
    ensures SortedKeys(NodeEntries(n, prefix))
    ensures |NodeEntries(n, prefix)| <= Size(n)
  {
    if n.Node? {
      var head := if n.value.Some? then [(prefix, n.value.value)] else [];
      EntriesSorted(n.mid, prefix);
      EntriesSound(n.mid, prefix);
      EntriesCount(n.mid, prefix);
      EmptyNotStored(n.mid);
      forall x, y | x in head && y in EntriesFrom(n.mid, prefix)
        ensures LexLess(x.0, y.0)
      {
        LexProperPrefix(x.0, y.0);
      }
      SortedConcat(head, EntriesFrom(n.mid, prefix));
    }
  }

  /**
   * `searchAll(withPrefix:)` finds exactly the stored keys that start with
   * the prefix, with their values, in increasing order, and no more than the
   * tree holds.
   */
  lemma PrefixEntriesSpec<V>(t: Node<V>, prefix: string)
    requires prefix != [] && Ordered(t)
    ensures forall e :: e in PrefixEntries(t, prefix) <==> IsPrefix(prefix, e.0) && Stored(t, e.0) == Some(e.1)
    ensures SortedKeys(PrefixEntries(t, prefix))
    ensures |PrefixEntries(t, prefix)| <= Size(t)
  {
    var n := FindNode(t, prefix, 0);
    FindNodeFound(t, prefix);
    FindNodeSize(t, prefix, 0);
    NodeEntriesSound(t, prefix, n);
    NodeEntriesSorted(prefix, n);
    forall e: (string, V) | IsPrefix(prefix, e.0) && Stored(t, e.0) == Some(e.1)
      ensures e in PrefixEntries(t, prefix)
    {
      NodeEntriesComplete(t, prefix, n, e.0);
    }
  }

  // ----- search(_:): keys matching a pattern in which "." is a wildcard -----

  /** `x` matches `pattern` digit by digit, "." matching any digit. */
  predicate Matches(x: string, pattern: string) {
    |x| == |pattern| && forall j :: 0 <= j < |x| ==> pattern[j] == '.' || pattern[j] == x[j]
  }

  /**
   * The keys the pattern `collect` appends below `t` for `pattern[i..]`, the
   * path to `t` spelling `p`: a wildcard visits all three children, a digit
   * only the one it selects; at the last pattern position a node's own key
   * is taken when it holds a value.
   */
  function Wild<V>(t: Node<V>, p: string, pattern: string, i: nat): seq<string>
    requires i < |pattern|
    decreases t, 1
  {
    match t
    case Nil => []
    case Node(c, l, m, r, v) =>
      var here := WildHere(t, p, pattern, i);
      if pattern[i] == '.' then Wild(l, p, pattern, i) + here + Wild(r, p, pattern, i)
      else if pattern[i] < c then Wild(l, p, pattern, i)
      else if pattern[i] == c then here
      else Wild(r, p, pattern, i)
  }

  /**
   * The keys the pattern search takes at a node whose digit the pattern
   * admits: the node's own key at the last pattern position, otherwise
   * those below its middle child.
   */
  function WildHere<V>(t: Node<V>, p: string, pattern: string, i: nat): seq<string>
    requires i < |pattern| && t.Node?
    decreases t, 0
  {
    if i == |pattern| - 1 then (if t.value.Some? then [p + [t.ch]] else []) else Wild(t.mid, p + [t.ch], pattern, i + 1)
  }

  /** Every key the pattern search returns is stored and matches the rest of the pattern. */
  lemma {:induction false} WildSound<V>(t: Node<V>, p: string, pattern: string, i: nat)
    requires i < |pattern| && Ordered(t)
    ensures forall x :: x in Wild(t, p, pattern, i) ==>
      IsPrefix(p, x) && Stored(t, x[|p|..]).Some? && Matches(x[|p|..], pattern[i..])
    decreases t
  {
    if t.Node? {
      WildSound(t.left, p, pattern, i);
      WildSound(t.right, p, pattern, i);
      if i < |pattern| - 1 {
        WildSound(t.mid, p + [t.ch], pattern, i + 1);
      }
      forall x | x in Wild(t, p, pattern, i)
        ensures IsPrefix(p, x) && Stored(t, x[|p|..]).Some? && Matches(x[|p|..], pattern[i..])
      {
        WildSoundAt(t, p, pattern, i, x);
      }
    }
  }

  lemma WildSoundAt<V>(t: Node<V>, p: string, pattern: string, i: nat, x: string)
    requires i < |pattern| && t.Node? && Ordered(t) && x in Wild(t, p, pattern, i)
    requires forall x :: x in Wild(t.left, p, pattern, i) ==>
      IsPrefix(p, x) && Stored(t.left, x[|p|..]).Some? && Matches(x[|p|..], pattern[i..])
    requires forall x :: x in Wild(t.right, p, pattern, i) ==>
      IsPrefix(p, x) && Stored(t.right, x[|p|..]).Some? && Matches(x[|p|..], pattern[i..])
    requires i < |pattern| - 1 ==> forall x :: x in Wild(t.mid, p + [t.ch], pattern, i + 1) ==>
      IsPrefix(p + [t.ch], x) && Stored(t.mid, x[|p| + 1..]).Some? && Matches(x[|p| + 1..], pattern[i + 1..])
    ensures IsPrefix(p, x) && Stored(t, x[|p|..]).Some? && Matches(x[|p|..], pattern[i..])
  {
    var c := t.ch;
    if x in Wild(t.left, p, pattern, i) {
      WildLeftSound(t, p, x);
    } else if x in Wild(t.right, p, pattern, i) {
      WildRightSound(t, p, x);
    } else if i == |pattern| - 1 {
      assert x == p + [c] && t.value.Some? && (pattern[i] == '.' || pattern[i] == c);
      assert x[|p|..] == [c];
      Split(t, [c]);
    } else {
      assert x in Wild(t.mid, p + [c], pattern, i + 1) && (pattern[i] == '.' || pattern[i] == c);
      WildMidSound(t, p, pattern, i, x);
    }
  }

  lemma WildLeftSound<V>(t: Node<V>, p: string, x: string)
    requires t.Node? && Ordered(t) && IsPrefix(p, x) && Stored(t.left, x[|p|..]).Some?
    ensures Stored(t, x[|p|..]) == Stored(t.left, x[|p|..])
  {
    Split(t, x[|p|..]);
  }

  lemma WildRightSound<V>(t: Node<V>, p: string, x: string)
    requires t.Node? && Ordered(t) && IsPrefix(p, x) && Stored(t.right, x[|p|..]).Some?
    ensures Stored(t, x[|p|..]) == Stored(t.right, x[|p|..])
  {
    Split(t, x[|p|..]);
  }

  lemma WildMidSound<V>(t: Node<V>, p: string, pattern: string, i: nat, x: string)
    requires i < |pattern| - 1 && t.Node? && Ordered(t) && (pattern[i] == '.' || pattern[i] == t.ch)
    requires IsPrefix(p + [t.ch], x) && Stored(t.mid, x[|p| + 1..]).Some? && Matches(x[|p| + 1..], pattern[i + 1..])
    ensures IsPrefix(p, x) && Stored(t, x[|p|..]).Some? && Matches(x[|p|..], pattern[i..])
  {
    var s := x[|p|..];
    assert s[0] == t.ch && s[1..] == x[|p| + 1..];
    EmptyNotStored(t.mid);
    Split(t, s);
    assert x[..|p|] == x[..|p| + 1][..|p|];
    forall j | 0 <= j < |s|
      ensures pattern[i..][j] == '.' || pattern[i..][j] == s[j]
    {
      if j > 0 {
        assert pattern[i..][j] == pattern[i + 1..][j - 1] && s[j] == x[|p| + 1..][j - 1];
      }
    }
  }

  /** Every stored key below `t` that matches the rest of the pattern is returned. */
  lemma {:induction false} WildComplete<V>(t: Node<V>, p: string, pattern: string, i: nat, s: string)
    requires i < |pattern| && Ordered(t) && Stored(t, s).Some? && Matches(s, pattern[i..])
    ensures p + s in Wild(t, p, pattern, i)
    decreases t
  {
    EmptyNotStored(t);
    var c := t.ch;
    Split(t, s);
    assert pattern[i] == pattern[i..][0];
    if s[0] < c {
      WildComplete(t.left, p, pattern, i, s);
      WildInLeft(t, p, pattern, i, p + s);
    } else if s[0] > c {
      WildComplete(t.right, p, pattern, i, s);
      WildInRight(t, p, pattern, i, p + s);
    } else if |s| == 1 {
      WildInHere(t, p, pattern, i, s);
    } else {
      assert Matches(s[1..], pattern[i + 1..]) by {
        forall j | 0 <= j < |s[1..]|
          ensures pattern[i + 1..][j] == '.' || pattern[i + 1..][j] == s[1..][j]
        {
          assert pattern[i + 1..][j] == pattern[i..][j + 1];
        }
      }
      WildComplete(t.mid, p + [c], pattern, i + 1, s[1..]);
      WildInMid(t, p, pattern, i, s);
    }
  }

  lemma WildInLeft<V>(t: Node<V>, p: string, pattern: string, i: nat, x: string)
    requires i < |pattern| && t.Node? && (pattern[i] == '.' || pattern[i] < t.ch)
    requires x in Wild(t.left, p, pattern, i)
    ensures x in Wild(t, p, pattern, i)
  {
  }

  lemma WildInRight<V>(t: Node<V>, p: string, pattern: string, i: nat, x: string)
    requires i < |pattern| && t.Node? && (pattern[i] == '.' || pattern[i] > t.ch)
    requires x in Wild(t.right, p, pattern, i)
    ensures x in Wild(t, p, pattern, i)
  {
  }

  lemma WildInHere<V>(t: Node<V>, p: string, pattern: string, i: nat, s: string)
    requires i < |pattern| && t.Node? && s == [t.ch] && t.value.Some?
    requires Matches(s, pattern[i..])
    ensures p + s in Wild(t, p, pattern, i)
  {
    assert pattern[i] == pattern[i..][0];
  }

  lemma WildInMid<V>(t: Node<V>, p: string, pattern: string, i: nat, s: string)
    requires i < |pattern| && t.Node? && |s| > 1 && s[0] == t.ch && Matches(s, pattern[i..])
    requires p + [t.ch] + s[1..] in Wild(t.mid, p + [t.ch], pattern, i + 1)
    ensures p + s in Wild(t, p, pattern, i)
  {
    assert pattern[i] == pattern[i..][0];
    assert p + [t.ch] + s[1..] == p + s;
  }

  // ----- enumerate: a caller's block, threaded through with its own state, may stop the walk -----

  /**
   * `_enumerate`: the block is called on each entry in `collect`'s order and
   * answers whether to go on; a captured variable the block updates is the
   * state `S` threaded through the calls. The result is the final state and
   * whether the walk ran to the end.
   */
  function Enumerate<V, S>(t: Node<V>, p: string, block: (S, string, V) -> (S, bool), st: S): (S, bool) {
    match t
    case Nil => (st, true)
    case Node(c, l, m, r, v) =>
      var a := Enumerate(l, p, block, st);
      if !a.1 then a
      else
        var b := if v.Some? then block(a.0, p + [c], v.value) else (a.0, true);
        if !b.1 then b
        else
          var d := Enumerate(m, p + [c], block, b.0);
          if !d.1 then d else Enumerate(r, p, block, d.0)
  }

  /** Calling the block on a list of entries, in order, until it answers false. */
  function Run<V, S>(es: seq<(string, V)>, block: (S, string, V) -> (S, bool), st: S): (S, bool) {
    if es == [] then (st, true)
    else
      var a := block(st, es[0].0, es[0].1);
      if !a.1 then a else Run(es[1..], block, a.0)
  }

  lemma {:induction false} RunAppend<V, S>(a: seq<(string, V)>, b: seq<(string, V)>, block: (S, string, V) -> (S, bool), st: S)
    ensures Run(a + b, block, st) == (var x := Run(a, block, st); if !x.1 then x else Run(b, block, x.0))
  {
    if a == [] {
      assert a + b == b;
    } else {
      assert (a + b)[0] == a[0] && (a + b)[1..] == a[1..] + b;
      var x := block(st, a[0].0, a[0].1);
      if x.1 {
        RunAppend(a[1..], b, block, x.0);
      }
    }
  }

  /**
   * The block answered false at most on the last of the entries: a walk
   * that calls it on exactly these entries did not go on after it refused
   * one.
   */
  ghost predicate StopsAtLast<V, S>(es: seq<(string, V)>, block: (S, string, V) -> (S, bool), st: S)
    decreases |es|
  {
    es == [] ||
    var a := block(st, es[0].0, es[0].1);
    if a.1 then StopsAtLast(es[1..], block, a.0) else |es| == 1
  }

  /** A run that accepts every entry stops nowhere. */
  lemma {:induction false} RunStopsAtLast<V, S>(es: seq<(string, V)>, block: (S, string, V) -> (S, bool), st: S)
    requires Run(es, block, st).1
    ensures StopsAtLast(es, block, st)
    decreases |es|
  {
    if es != [] {
      RunStopsAtLast(es[1..], block, block(st, es[0].0, es[0].1).0);
    }
  }

  /** Entries all accepted, followed by entries that stop at their last: together they stop at their last. */
  lemma {:induction false} StopsAtLastAppend<V, S>(a: seq<(string, V)>, b: seq<(string, V)>, block: (S, string, V) -> (S, bool), st: S)
    requires Run(a, block, st).1 && StopsAtLast(b, block, Run(a, block, st).0)
    ensures StopsAtLast(a + b, block, st)
    decreases |a|
  {
    if a == [] {
      assert a + b == b;
    } else {
      assert (a + b)[0] == a[0] && (a + b)[1..] == a[1..] + b;
      StopsAtLastAppend(a[1..], b, block, block(st, a[0].0, a[0].1).0);
    }
  }

  /** The recursive walk calls the block on exactly the entries `collect` lists, in that order, stopping where it answers false. */
  lemma {:induction false} EnumerateIsRun<V, S>(t: Node<V>, p: string, block: (S, string, V) -> (S, bool), st: S)
    ensures Enumerate(t, p, block, st) == Run(EntriesFrom(t, p), block, st)
  {
    if t.Node? {
      var c := t.ch;
      var l, h, m, r := EntriesFrom(t.left, p), (if t.value.Some? then [(p + [c], t.value.value)] else []),
        EntriesFrom(t.mid, p + [c]), EntriesFrom(t.right, p);
      assert EntriesFrom(t, p) == l + h + m + r;
      RunAppend(l + h + m, r, block, st);
      RunAppend(l + h, m, block, st);
      RunAppend(l, h, block, st);
      EnumerateIsRun(t.left, p, block, st);
      var a := Run(l, block, st);
      if a.1 {
        var b := Run(h, block, a.0);
        if b.1 {
          EnumerateIsRun(t.mid, p + [c], block, b.0);
          var d := Run(m, block, b.0);
          if d.1 {
            EnumerateIsRun(t.right, p, block, d.0);
          }
        }
      }
    }
  }

  /** `enumerate(withPrefix:using:)` from the node `_getNode` found: its own value first, then its middle subtree. */
  function EnumerateNode<V, S>(n: Node<V>, prefix: string, block: (S, string, V) -> (S, bool), st: S): S {
    if n.Nil? then st
    else
      var a := if n.value.Some? then block(st, prefix, n.value.value) else (st, true);
      if !a.1 then a.0 else Enumerate(n.mid, prefix, block, a.0).0
  }

  /** Enumerating from a prefix calls the block on the entries `searchAll(withPrefix:)` finds, stopping where it answers false. */
  lemma EnumerateNodeIsRun<V, S>(n: Node<V>, prefix: string, block: (S, string, V) -> (S, bool), st: S)
    ensures EnumerateNode(n, prefix, block, st) == Run(NodeEntries(n, prefix), block, st).0
  {
    if n.Node? {
      var h := if n.value.Some? then [(prefix, n.value.value)] else [];
      RunAppend(h, EntriesFrom(n.mid, prefix), block, st);
      var a := Run(h, block, st);
      if a.1 {
        EnumerateIsRun(n.mid, prefix, block, a.0);
      }
    }
  }

  /** At most the first `n` elements of `xs` (none when `n <= 0`). */
  function Take<T>(xs: seq<T>, n: int): (r: seq<T>)
    ensures |r| == if n <= 0 then 0 else if n < |xs| then n else |xs|
    ensures forall j :: 0 <= j < |r| ==> r[j] == xs[j]
  {
    if n <= 0 then [] else if n < |xs| then xs[..n] else xs
  }

  /** The block of `search(withPrefix:maxResults:)`: append the key, go on while fewer than `n` are collected. */
  function Collecting<V>(n: int): (S: (seq<string>, string, V) -> (seq<string>, bool)) {
    (res: seq<string>, k: string, v: V) => (res + [k], |res| + 1 < n)
  }

  /** Running the collecting block appends the first keys until `n` are collected. */
  lemma {:induction false} RunCollecting<V>(es: seq<(string, V)>, n: int, res: seq<string>)
    requires |res| < n
    ensures Run(es, Collecting(n), res).0 == res + Take(KeysOf(es), n - |res|)
  {
    if es != [] {
      var a := Collecting(n)(res, es[0].0, es[0].1);
      assert a == (res + [es[0].0], |res| + 1 < n);
      assert KeysOf(es) == [es[0].0] + KeysOf(es[1..]);
      if a.1 {
        RunCollecting(es[1..], n, a.0);
      }
    }
  }

  // ----- findPrefix(of:): the longest stored prefix of a query -----

  /** The length of the longest stored key among `q[..1]`, ..., `q[..j]`; 0 when there is none. */
  ghost function LongestStored<V>(t: Node<V>, q: string, j: nat): (r: nat)
    requires j <= |q|
    ensures r <= j
    ensures r > 0 ==> Stored(t, q[..r]).Some?
    ensures forall i :: r < i <= j ==> Stored(t, q[..i]).None?
  {
    if j == 0 then 0 else if Stored(t, q[..j]).Some? then j else LongestStored(t, q, j - 1)
  }

  /** Stored prefixes no longer than `j` are all there are when none up to `k` is longer. */
  lemma {:induction false} LongestStoredUpTo<V>(t: Node<V>, q: string, j: nat, k: nat)
    requires j <= k <= |q|
    requires forall i :: j < i <= k ==> Stored(t, q[..i]).None?
    ensures LongestStored(t, q, k) == LongestStored(t, q, j)
    decreases k
  {
    if k > j {
      LongestStoredUpTo(t, q, j, k - 1);
    }
  }

  /**
   * The loop of `findPrefix` at `index` looks at `cur`: every key that goes
   * on with `q[index]` is stored below `cur` exactly when `q[..index]`
   * followed by it is stored in the whole tree.
   */
  ghost predicate Reaches<V>(t: Node<V>, q: string, index: nat, cur: Node<V>) {
    index < |q| ==>
      forall s :: s != [] && s[0] == q[index] ==> Stored(cur, s) == Stored(t, q[..index] + s)
  }

  lemma ReachesStart<V>(t: Node<V>, q: string)
    ensures Reaches(t, q, 0, t)
  {
    if q != [] {
      forall s | s != [] && s[0] == q[0] ensures Stored(t, s) == Stored(t, q[..0] + s) {
        assert q[..0] + s == s;
      }
    }
  }

  lemma ReachesLeft<V>(t: Node<V>, q: string, index: nat, cur: Node<V>)
    requires index < |q| && cur.Node? && Ordered(cur) && q[index] < cur.ch && Reaches(t, q, index, cur)
    ensures Reaches(t, q, index, cur.left)
  {
    forall s | s != [] && s[0] == q[index] ensures Stored(cur.left, s) == Stored(t, q[..index] + s) {
      Split(cur, s);
    }
  }

  lemma ReachesRight<V>(t: Node<V>, q: string, index: nat, cur: Node<V>)
    requires index < |q| && cur.Node? && Ordered(cur) && q[index] > cur.ch && Reaches(t, q, index, cur)
    ensures Reaches(t, q, index, cur.right)
  {
    forall s | s != [] && s[0] == q[index] ensures Stored(cur.right, s) == Stored(t, q[..index] + s) {
      Split(cur, s);
    }
  }

  lemma ReachesMid<V>(t: Node<V>, q: string, index: nat, cur: Node<V>)
    requires index < |q| && cur.Node? && Ordered(cur) && q[index] == cur.ch && Reaches(t, q, index, cur)
    ensures Stored(t, q[..index + 1]) == cur.value
    ensures Reaches(t, q, index + 1, cur.mid)
  {
    var c := cur.ch;
    Split(cur, [c]);
    assert q[..index] + [c] == q[..index + 1];
    if index + 1 < |q| {
      forall s | s != [] && s[0] == q[index + 1] ensures Stored(cur.mid, s) == Stored(t, q[..index + 1] + s) {
        Split(cur, [c] + s);
        assert ([c] + s)[1..] == s;
        assert q[..index] + ([c] + s) == q[..index + 1] + s;
      }
    }
  }

  /** Once the walk falls off the tree, no longer prefix of the query is stored. */
  lemma ReachesNil<V>(t: Node<V>, q: string, index: nat)
    requires index < |q| && Reaches(t, q, index, Nil)
    ensures forall i :: index < i <= |q| ==> Stored(t, q[..i]).None?
  {
    forall i | index < i <= |q| ensures Stored(t, q[..i]).None? {
      var s := q[index..i];
      assert s[0] == q[index];
      assert q[..index] + s == q[..i];
    }
  }

  /** A pruned tree holding no value is empty. */
  lemma {:induction false} SizeZeroIsNil<V>(t: Node<V>)
    requires Pruned(t) && Size(t) == 0
    ensures t == Nil
  {
    if t.Node? {
      SizeZeroIsNil(t.left);
      SizeZeroIsNil(t.mid);
      SizeZeroIsNil(t.right);
    }
  }

  /** The keys of the entries found from a node: the prefix when the node holds a value, then the keys below. */
  lemma NodeKeys<V>(n: Node<V>, prefix: string)
    requires n.Node?
    ensures KeysOf(NodeEntries(n, prefix)) == (if n.value.Some? then [prefix] else []) + KeysOf(EntriesFrom(n.mid, prefix))
  {
    KeysOfAppend(if n.value.Some? then [(prefix, n.value.value)] else [], EntriesFrom(n.mid, prefix));
  }

  /** The keys `searchAll(withPrefix:)` returns. */
  function PrefixKeys<V>(t: Node<V>, prefix: string): seq<string>
    requires prefix != []
  {
    KeysOf(PrefixEntries(t, prefix))
  }

  /** The keys of a list of entries are the first components of its pairs. */
  lemma KeysOfMembership<V>(es: seq<(string, V)>, x: string)
    ensures x in KeysOf(es) <==> exists j :: 0 <= j < |es| && es[j].0 == x
  {
    if x in KeysOf(es) {
      var j :| 0 <= j < |KeysOf(es)| && KeysOf(es)[j] == x;
    }
  }

  /** Keys of entries that are exactly the stored pairs under a prefix are exactly the stored keys under it. */
  lemma PrefixKeysOf<V>(es: seq<(string, V)>, t: Node<V>, prefix: string)
    requires forall e :: e in es <==> IsPrefix(prefix, e.0) && Stored(t, e.0) == Some(e.1)
    ensures forall x :: x in KeysOf(es) <==> IsPrefix(prefix, x) && Stored(t, x).Some?
  {
    forall x | x in KeysOf(es) ensures IsPrefix(prefix, x) && Stored(t, x).Some? {
      KeysOfMembership(es, x);
      var j :| 0 <= j < |es| && es[j].0 == x;
      assert es[j] in es;
    }
    forall x | IsPrefix(prefix, x) && Stored(t, x).Some? ensures x in KeysOf(es) {
      var e := (x, Stored(t, x).value);
      assert e in es;
      var j :| 0 <= j < |es| && es[j] == e;
      KeysOfMembership(es, x);
    }
  }

  /** `searchAll(withPrefix:)` returns exactly the stored keys starting with the prefix, in increasing order, no more than the tree holds. */
  lemma PrefixKeysSpec<V>(t: Node<V>, prefix: string)
    requires prefix != [] && Ordered(t)
    ensures forall x :: x in PrefixKeys(t, prefix) <==> IsPrefix(prefix, x) && Stored(t, x).Some?
    ensures forall i, j :: 0 <= i < j < |PrefixKeys(t, prefix)| ==> LexLess(PrefixKeys(t, prefix)[i], PrefixKeys(t, prefix)[j])
    ensures |PrefixKeys(t, prefix)| <= Size(t)
  {
    PrefixEntriesSpec(t, prefix);
    PrefixKeysOf(PrefixEntries(t, prefix), t, prefix);
  }

  /** `keys()` returns exactly the stored keys, in increasing order, one per value. */
  lemma KeysSpec<V>(t: Node<V>)
    requires Ordered(t)
    ensures forall x :: x in KeysOf(Entries(t)) <==> Stored(t, x).Some?
    ensures forall i, j :: 0 <= i < j < |KeysOf(Entries(t))| ==> LexLess(KeysOf(Entries(t))[i], KeysOf(Entries(t))[j])
    ensures |KeysOf(Entries(t))| == Size(t)
  {
    var es := Entries(t);
    EntriesSound(t, []);
    EntriesSorted(t, []);
    EntriesCount(t, []);
    forall x | x in KeysOf(es) ensures Stored(t, x).Some? {
      KeysOfMembership(es, x);
      var j :| 0 <= j < |es| && es[j].0 == x;
      assert es[j] in es;
      assert x[0..] == x;
    }
    forall x | Stored(t, x).Some? ensures x in KeysOf(es) {
      EntriesComplete(t, [], x);
      assert [] + x == x;
      var j :| 0 <= j < |es| && es[j] == (x, Stored(t, x).value);
      KeysOfMembership(es, x);
    }
  }

  /** `search(_:)` returns exactly the stored keys that match the pattern. */
  lemma WildSpec<V>(t: Node<V>, pattern: string)
    requires pattern != [] && Ordered(t)
    ensures forall x :: x in Wild(t, [], pattern, 0) <==> Stored(t, x).Some? && Matches(x, pattern)
  {
    WildSound(t, [], pattern, 0);
    assert pattern[0..] == pattern;
    forall x ensures x in Wild(t, [], pattern, 0) <==> Stored(t, x).Some? && Matches(x, pattern) {
      assert x[0..] == x;
      if Stored(t, x).Some? && Matches(x, pattern) {
        WildComplete(t, [], pattern, 0, x);
        assert [] + x == x;
      }
    }
  }

  /** Strings in strictly increasing order. */
  ghost predicate Increasing(xs: seq<string>) {
    forall i, j :: 0 <= i < j < |xs| ==> LexLess(xs[i], xs[j])
  }

  /** No string comes before itself, so an increasing list has no repeats. */
  lemma {:induction false} LexIrreflexive(a: string)
    ensures !LexLess(a, a)
  {
    if a != [] {
      LexIrreflexive(a[1..]);
    }
  }

  lemma IncreasingConcat(a: seq<string>, b: seq<string>)
    requires Increasing(a) && Increasing(b)
    requires forall x, y :: x in a && y in b ==> LexLess(x, y)
    ensures Increasing(a + b)
  {
    forall i, j | 0 <= i < j < |a + b|
      ensures LexLess((a + b)[i], (a + b)[j])
    {
      if j < |a| {
      } else if i >= |a| {
        assert (a + b)[i] == b[i - |a|] && (a + b)[j] == b[j - |a|];
      } else {
        assert (a + b)[i] in a && (a + b)[j] in b;
      }
    }
  }

  lemma WildLeftShape<V>(t: Node<V>, p: string, pattern: string, i: nat)
    requires i < |pattern| && t.Node? && Ordered(t)
    ensures forall x :: x in Wild(t.left, p, pattern, i) ==> BranchesBelow(p, t.ch, x)
  {
    WildSound(t.left, p, pattern, i);
    forall x | x in Wild(t.left, p, pattern, i) ensures BranchesBelow(p, t.ch, x) {
      assert Stored(t.left, x[|p|..]).Some?;
      assert x[|p|..][0] == x[|p|];
    }
  }

  lemma WildRightShape<V>(t: Node<V>, p: string, pattern: string, i: nat)
    requires i < |pattern| && t.Node? && Ordered(t)
    ensures forall x :: x in Wild(t.right, p, pattern, i) ==> BranchesAbove(p, t.ch, x)
  {
    WildSound(t.right, p, pattern, i);
    forall x | x in Wild(t.right, p, pattern, i) ensures BranchesAbove(p, t.ch, x) {
      assert Stored(t.right, x[|p|..]).Some?;
      assert x[|p|..][0] == x[|p|];
    }
  }

  lemma WildHereShape<V>(t: Node<V>, p: string, pattern: string, i: nat)
    requires i < |pattern| && t.Node? && Ordered(t)
    ensures forall x :: x in WildHere(t, p, pattern, i) ==> IsPrefix(p, x) && |x| > |p| && x[|p|] == t.ch
  {
    if i < |pattern| - 1 {
      WildSound(t.mid, p + [t.ch], pattern, i + 1);
    }
    forall x | x in WildHere(t, p, pattern, i) ensures IsPrefix(p, x) && |x| > |p| && x[|p|] == t.ch {
      assert IsPrefix(p + [t.ch], x);
      assert x[..|p|] == x[..|p| + 1][..|p|];
      assert x[|p|] == x[..|p| + 1][|p|];
    }
  }

  /** Keys branching below the digit, then those through it, then those above it, each increasing, increase together. */
  lemma WildPartsSorted(a: seq<string>, h: seq<string>, b: seq<string>, p: string, c: char)
    requires Increasing(a) && Increasing(h) && Increasing(b)
    requires forall x :: x in a ==> BranchesBelow(p, c, x)
    requires forall x :: x in h ==> IsPrefix(p, x) && |x| > |p| && x[|p|] == c
    requires forall x :: x in b ==> BranchesAbove(p, c, x)
    ensures Increasing(a + h + b)
  {
    forall x, y | x in a && y in h ensures LexLess(x, y) {
      LexAtDifference(x, y, |p|);
    }
    IncreasingConcat(a, h);
    forall x, y | x in a + h && y in b ensures LexLess(x, y) {
      LexAtDifference(x, y, |p|);
    }
    IncreasingConcat(a + h, b);
  }

  /** The pattern `collect` appends its keys in strictly increasing order. */
  lemma {:induction false} WildSorted<V>(t: Node<V>, p: string, pattern: string, i: nat)
    requires i < |pattern| && Ordered(t)
    ensures Increasing(Wild(t, p, pattern, i))
    decreases t
  {
    if t.Node? {
      WildSorted(t.left, p, pattern, i);
      WildSorted(t.right, p, pattern, i);
      if i < |pattern| - 1 {
        WildSorted(t.mid, p + [t.ch], pattern, i + 1);
      }
      var a, h, b := Wild(t.left, p, pattern, i), WildHere(t, p, pattern, i), Wild(t.right, p, pattern, i);
      if pattern[i] == '.' {
        WildLeftShape(t, p, pattern, i);
        WildHereShape(t, p, pattern, i);
        WildRightShape(t, p, pattern, i);
        WildPartsSorted(a, h, b, p, t.ch);
        assert Wild(t, p, pattern, i) == a + h + b;
      }
    }
  }

  // ----- the tree object -----

  /** `TSTree` / `GenericTSTree`: the root and the number of stored keys, both reassigned by the methods. */
  class TSTree<V> {
    var count: int
    var root: Node<V>

    /** The tree is ordered and pruned, and `count` is the number of values it holds. */
    ghost predicate Valid()
      reads this
    {
      Ordered(root) && Pruned(root) && count == Size(root)
    }

    /** `init()`: an empty tree. */
    constructor ()
      ensures Valid() && root == Nil && count == 0
    {
      count := 0;
      root := Nil;
    }

    /** `_getNode`: walk down from the root, one digit at a time. */
    method GetNode(key: string) returns (n: Node<V>)
      requires key != []
      ensures n == FindNode(root, key, 0)
    {
      var cur := root;
      var index := 0;
      while cur.Node? && index < |key|
        invariant 0 <= index < |key|
        invariant FindNode(cur, key, index) == FindNode(root, key, 0)
        decreases |key| - index, cur
      {
        if key[index] < cur.ch {
          cur := cur.left;
        } else if key[index] > cur.ch {
          cur := cur.right;
        } else {
          if index == |key| - 1 {
            return cur;
          }
          index := index + 1;
          cur := cur.mid;
        }
      }
      return Nil;
    }

    /** `get`: the value stored under the key. */
    method Get(key: string) returns (r: Option<V>)
      requires Valid() && key != []
      ensures r == Stored(root, key)
    {
      var n := GetNode(key);
      FindNodeFound(root, key);
      r := ValueAt(n);
    }

    /** `contains`: whether a value is stored under the key. */
    method Contains(key: string) returns (b: bool)
      requires Valid() && key != []
      ensures b <==> Stored(root, key).Some?
    {
      var r := Get(key);
      b := r.Some?;
    }

    /** `insert`: store the value under the key, replacing an old one; `count` grows when the key is new. */
    method Insert(key: string, value: V)
      requires Valid() && key != []
      modifies this
      ensures Valid()
      ensures forall x :: Stored(root, x) == if x == key then Some(value) else Stored(old(root), x)
      ensures count == old(count) + if Stored(old(root), key).None? then 1 else 0
    {
      var r := Ins(root, key, value, 0);
      InsSound(root, key, value, 0);
      InsSize(root, key, value, 0);
      assert key[0..] == key;
      root := r.node;
      if r.added {
        count := count + 1;
      }
    }

    /** `delete`: remove the key and its value; `count` shrinks when the key was stored; an emptied tree becomes `nil`. */
    method Delete(key: string)
      requires Valid() && key != []
      modifies this
      ensures Valid()
      ensures forall x :: Stored(root, x) == if x == key then None else Stored(old(root), x)
      ensures count == old(count) - if Stored(old(root), key).Some? then 1 else 0
      ensures count == 0 ==> root == Nil
    {
      var d := Del(root, key, 0);
      DelSound(root, key, 0);
      DelSize(root, key, 0);
      assert key[0..] == key;
      if d.prune {
        root := Nil;
      } else {
        root := d.node;
      }
      if d.removed {
        count := count - 1;
      }
      if count == 0 {
        SizeZeroIsNil(root);
      }
    }

    /** `findPrefix(of:)`: the longest prefix of the query that is a stored key (empty when none is). */
    method FindPrefix(query: string) returns (r: string)
      requires Valid() && query != []
      ensures r == query[..LongestStored(root, query, |query|)]
    {
      var length := 0;
      var cur := root;
      var index := 0;
      ReachesStart(root, query);
      while cur.Node? && index < |query|
        invariant 0 <= index <= |query| && Ordered(cur)
        invariant length == LongestStored(root, query, index)
        invariant Reaches(root, query, index, cur)
        decreases |query| - index, cur
      {
        if query[index] < cur.ch {
          ReachesLeft(root, query, index, cur);
          cur := cur.left;
        } else if query[index] > cur.ch {
          ReachesRight(root, query, index, cur);
          cur := cur.right;
        } else {
          ReachesMid(root, query, index, cur);
          index := index + 1;
          if cur.value.Some? {
            length := index;
          }
          cur := cur.mid;
        }
      }
      if index < |query| {
        ReachesNil(root, query, index);
        LongestStoredUpTo(root, query, index, |query|);
      }
      r := query[..length];
    }

    /** `keys()`: every stored key, in increasing order, `count` of them. */
    method Keys() returns (ks: seq<string>)
      requires Valid()
      ensures ks == KeysOf(Entries(root))
      ensures |ks| == count
      ensures forall x :: x in ks <==> Stored(root, x).Some?
      ensures forall i, j :: 0 <= i < j < |ks| ==> LexLess(ks[i], ks[j])
    {
      ks := KeysOf(Entries(root));
      KeysSpec(root);
    }

    /** `searchAll(withPrefix:)`: the prefix when stored, then the keys below its node. */
    method SearchAll(prefix: string) returns (r: seq<string>)
      requires prefix != []
      ensures r == PrefixKeys(root, prefix)
    {
      var n := GetNode(prefix);
      if n.Nil? {
        return [];
      }
      r := [];
      if n.value.Some? {
        r := r + [prefix];
      }
      r := r + KeysOf(EntriesFrom(n.mid, prefix));
      NodeKeys(n, prefix);
    }

    /** `enumerate(withPrefix:using:)`: the block runs on the entries found for the prefix, until it answers false. */
    method EnumerateWithPrefix<S>(prefix: string, block: (S, string, V) -> (S, bool), st: S) returns (st': S)
      requires prefix != []
      ensures st' == Run(PrefixEntries(root, prefix), block, st).0
    {
      var n := GetNode(prefix);
      st' := EnumerateNode(n, prefix, block, st);
      EnumerateNodeIsRun(n, prefix, block, st);
    }

    /** `enumerateKeysAndValues`: the block runs on every entry in key order, until it answers false. */
    method EnumerateKeysAndValues<S>(block: (S, string, V) -> (S, bool), st: S) returns (st': S)
      ensures st' == Run(Entries(root), block, st).0
    {
      st' := Enumerate(root, [], block, st).0;
      EnumerateIsRun(root, [], block, st);
    }

    /** `TSTree.search(withPrefix:maxResults:)`: the first `maxResults` keys with the prefix, by enumeration. */
    method SearchWithPrefix(prefix: string, maxResults: int) returns (r: seq<string>)
      requires maxResults <= 0 || prefix != []
      ensures maxResults > 0 ==> r == Take(PrefixKeys(root, prefix), maxResults)
      ensures maxResults <= 0 ==> r == []
    {
      if maxResults <= 0 {
        return [];
      }
      r := EnumerateWithPrefix(prefix, Collecting(maxResults), []);
      RunCollecting(PrefixEntries(root, prefix), maxResults, []);
    }

    /**
     * `GenericTSTree.search(withPrefix:maxResults:)`: all keys with the prefix
     * when `n` reaches `count`, none when `n` is not positive, otherwise the
     * first `n` by enumeration; whichever way, the first `n` keys.
     */
    method GenericSearchWithPrefix(prefix: string, n: int) returns (r: seq<string>)
      requires Valid()
      requires prefix != [] || (n < count && n <= 0)
      ensures n > 0 ==> r == Take(PrefixKeys(root, prefix), n)
      ensures n <= 0 ==> r == []
    {
      if !(n < count) {
        r := SearchAll(prefix);
        PrefixKeysSpec(root, prefix);
        return;
      }
      if !(n > 0) {
        return [];
      }
      r := EnumerateWithPrefix(prefix, Collecting(n), []);
      RunCollecting(PrefixEntries(root, prefix), n, []);
    }

    /** `search(_:)`: the stored keys matching a pattern in which "." is any digit. */
    method Search(pattern: string) returns (r: seq<string>)
      requires Valid() && pattern != []
      ensures forall x :: x in r <==> Stored(root, x).Some? && Matches(x, pattern)
      ensures Increasing(r)
      ensures forall i, j :: 0 <= i < j < |r| ==> r[i] != r[j]
    {
      r := Wild(root, [], pattern, 0);
      WildSpec(root, pattern);
      WildSorted(root, [], pattern, 0);
      forall i, j | 0 <= i < j < |r| ensures r[i] != r[j] {
        LexIrreflexive(r[i]);
      }
    }
  }
}
