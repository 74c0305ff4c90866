/*
 * The red-black tree nodes of RBTree: Okasaki's insertion balance and
 * Kahrs' deletion (delformLeft/Right, balanceLeft/Right, balanceForRemove,
 * combine). A node is a value; the copy-on-write of the Swift nodes
 * (makeUnique, then an in-place write) has the effect of a path copy, which
 * is what rebuilding a datatype value does.
 */
module RedBlack {
  import opened Wrappers
  import opened SortedEntries

  datatype Color = Red | Black

  /** `nil` is `Leaf`; `Node` carries `_color`, `_left`, `_entry`, `_right`. */
  datatype Tree<V> = Leaf | Node(color: Color, left: Tree<V>, entry: Entry<V>, right: Tree<V>)

  /** Result of the node insert: the new subtree and whether a key was added. */
  datatype Inserted<V> = Inserted(tree: Tree<V>, isNew: bool)

  /** Result of delete: the new subtree and the removed value. */
  datatype Removed<V> = Removed(tree: Tree<V>, value: Option<V>)

  /** `t?._color == .red` */
  predicate IsRed<V>(t: Tree<V>) { t.Node? && t.color == Red }

  /** `t?._color == .black` (false for nil) */
  predicate IsBlack<V>(t: Tree<V>) { t.Node? && t.color == Black }

  // ----- Specification: contents, order, the red-black invariants -----

  /** The entries in key order (in-order traversal). */
  function Elements<V>(t: Tree<V>): seq<Entry<V>> {
    match t
    case Leaf => []
    case Node(_, l, x, r) => Elements(l) + [x] + Elements(r)
  }

  /** Binary-search-tree order. */
  ghost predicate Ordered<V>(t: Tree<V>) { Sorted(Elements(t)) }

  /** Black height along the left spine; `Balanced` makes it the same on every path. */
  function BH<V>(t: Tree<V>): nat {
    match t
    case Leaf => 0
    case Node(c, l, _, _) => BH(l) + (if c == Black then 1 else 0)
  }

  /** Every path from a node to a leaf has the same number of black nodes. */
  ghost predicate Balanced<V>(t: Tree<V>) {
    match t
    case Leaf => true
    case Node(_, l, _, r) => Balanced(l) && Balanced(r) && BH(l) == BH(r)
  }

  /** No red node has a red child. */
  ghost predicate NoRedRed<V>(t: Tree<V>) {
    match t
    case Leaf => true
    case Node(c, l, _, r) => NoRedRed(l) && NoRedRed(r) && (c == Red ==> !IsRed(l) && !IsRed(r))
  }

  /** No red node has a red child, except that a red root may have one (Kahrs' "infrared"). */
  ghost predicate Infrared<V>(t: Tree<V>) {
    t.Leaf? || (NoRedRed(t.left) && NoRedRed(t.right))
  }

  /** The invariant of a whole tree: ordered, balanced, no red-red, black (or empty) root. */
  ghost predicate IsRedBlack<V>(t: Tree<V>) {
    Ordered(t) && Balanced(t) && NoRedRed(t) && !IsRed(t)
  }

  /** Recolour the root; `nil` stays `nil` (`root?._color = c`). */
  function Paint<V>(c: Color, t: Tree<V>): Tree<V> {
    if t.Leaf? then Leaf else t.(color := c)
  }

  /** Recolouring a node does not change its entries. */
  lemma RecolorKeepsElements<V>(t: Tree<V>, c: Color)
    requires t.Node?
    ensures Elements(t.(color := c)) == Elements(t)
  {
  }

  /** Number of nodes (`doCount`). */
  function Size<V>(t: Tree<V>): nat {
    match t
    case Leaf => 0
    case Node(_, l, _, r) => Size(l) + 1 + Size(r)
  }

  // ----- Balancing for insertion: Okasaki's cases 1-4 -----

  /**
   * `lbalance`: cases 1 and 2, a red child on the left with a red child of
   * its own. The left child must exist unless the node is red.
   */
  function LBalance<V>(t: Tree<V>): (r: Tree<V>)
    requires t.Node? && (t.color == Red || t.left.Node?)
    ensures Elements(r) == Elements(t)
    ensures t.color == Red ==> r == t
    ensures r != t ==> r.Node? && r.color == Red && IsBlack(r.left) && IsBlack(r.right)
  {
    if t.color == Red then t
    else if IsRed(t.left) && IsRed(t.left.left) then
      // Case 1
      var l := t.left;
      RecolorKeepsElements(l.left, Black);
      Node(Red, l.left.(color := Black), l.entry, Node(Black, l.right, t.entry, t.right))
    else if IsRed(t.left) && IsRed(t.left.right) then
      // Case 2
      var l := t.left;
      var lr := l.right;
      assert Elements(l) == Elements(l.left) + [l.entry] + Elements(lr.left) + [lr.entry] + Elements(lr.right);
      Node(Red, Node(Black, l.left, l.entry, lr.left), lr.entry, Node(Black, lr.right, t.entry, t.right))
    else t
  }

  /** `rbalance`: cases 3 and 4, the mirror image of `lbalance`. */
  function RBalance<V>(t: Tree<V>): (r: Tree<V>)
    requires t.Node? && (t.color == Red || t.right.Node?)
    ensures Elements(r) == Elements(t)
    ensures t.color == Red ==> r == t
    ensures r != t ==> r.Node? && r.color == Red && IsBlack(r.left) && IsBlack(r.right)
  {
    if t.color == Red then t
    else if IsRed(t.right) && IsRed(t.right.left) then
      // Case 3
      var r := t.right;
      var rl := r.left;
      assert Elements(r) == Elements(rl.left) + [rl.entry] + Elements(rl.right) + [r.entry] + Elements(r.right);
      Node(Red, Node(Black, t.left, t.entry, rl.left), rl.entry, Node(Black, rl.right, r.entry, r.right))
    else if IsRed(t.right) && IsRed(t.right.right) then
      // Case 4
      var r := t.right;
      RecolorKeepsElements(r.right, Black);
      Node(Red, Node(Black, t.left, t.entry, r.left), r.entry, r.right.(color := Black))
    else t
  }

  /** `balance`: cases 1-4 in order on a black node; a red node is left alone. */
  function Balance<V>(t: Tree<V>): (r: Tree<V>)
    requires t.Node?
    ensures Elements(r) == Elements(t)
    ensures t.color == Red ==> r == t
  {
    if t.color == Red then t
    else if IsRed(t.left) && (IsRed(t.left.left) || IsRed(t.left.right)) then LBalance(t)
    else if IsRed(t.right) then RBalance(t)
    else t
  }

  lemma LBalanceKeepsInvariant<V>(t: Tree<V>)
    requires t.Node? && t.left.Node?
    requires Balanced(t.left) && Balanced(t.right) && BH(t.left) == BH(t.right)
    requires Infrared(t.left) && NoRedRed(t.right)
    ensures t.color == Black ==>
      var r := LBalance(t); Balanced(r) && BH(r) == BH(t) && NoRedRed(r)
  {
  }

  lemma RBalanceKeepsInvariant<V>(t: Tree<V>)
    requires t.Node? && t.right.Node?
    requires Balanced(t.left) && Balanced(t.right) && BH(t.left) == BH(t.right)
    requires NoRedRed(t.left) && Infrared(t.right)
    ensures t.color == Black ==>
      var r := RBalance(t); Balanced(r) && BH(r) == BH(t) && NoRedRed(r)
  {
  }

  /**
   * `balance` repairs one red-red violation directly below a black node:
   * the result has no red-red pair anywhere and the same black height.
   */
  lemma BalanceKeepsInvariant<V>(t: Tree<V>)
    requires t.Node? && t.color == Black
    requires Balanced(t.left) && Balanced(t.right) && BH(t.left) == BH(t.right)
    requires (Infrared(t.left) && NoRedRed(t.right)) || (NoRedRed(t.left) && Infrared(t.right))
    ensures var r := Balance(t); Balanced(r) && BH(r) == BH(t) && NoRedRed(r)
  {
    if IsRed(t.left) && (IsRed(t.left.left) || IsRed(t.left.right)) {
      LBalanceKeepsInvariant(t);
    } else if IsRed(t.right) {
      RBalanceKeepsInvariant(t);
    }
  }

  // ----- Insertion -----

  /**
   * The node insert: descend by key; a missing child becomes a red leaf;
   * after a successful insert below, rebalance on the way up; an equal key
   * replaces the entry.
   */
  function Ins<V>(t: Tree<V>, e: Entry<V>): (r: Inserted<V>)
    requires t.Node?
    ensures r.tree.Node?
    ensures |Elements(r.tree)| == |Elements(t)| + (if r.isNew then 1 else 0)
  {
    if e.key < t.entry.key then
      if t.left.Leaf? then Inserted(t.(left := Node(Red, Leaf, e, Leaf)), true)
      else
        var sub := Ins(t.left, e);
        if sub.isNew then Inserted(LBalance(t.(left := sub.tree)), true)
        else Inserted(t.(left := sub.tree), false)
    else if e.key > t.entry.key then
      if t.right.Leaf? then Inserted(t.(right := Node(Red, Leaf, e, Leaf)), true)
      else
        var sub := Ins(t.right, e);
        if sub.isNew then Inserted(RBalance(t.(right := sub.tree)), true)
        else Inserted(t.(right := sub.tree), false)
    else Inserted(t.(entry := e), false)
  }

  /**
   * Insertion keeps the black height and leaves at most a red-red pair at
   * the root, none at all below a black node or when nothing was added.
   */
  lemma {:induction false} InsKeepsInvariant<V>(t: Tree<V>, e: Entry<V>)
    requires t.Node? && Balanced(t) && NoRedRed(t)
    ensures var r := Ins(t, e);
      Balanced(r.tree) && BH(r.tree) == BH(t) && Infrared(r.tree) &&
      (t.color == Black || !r.isNew ==> NoRedRed(r.tree))
  {
    if e.key < t.entry.key {
      if t.left.Node? {
        InsKeepsInvariant(t.left, e);
        var sub := Ins(t.left, e);
        if sub.isNew {
          LBalanceKeepsInvariant(t.(left := sub.tree));
        }
      }
    } else if e.key > t.entry.key {
      if t.right.Node? {
        InsKeepsInvariant(t.right, e);
        var sub := Ins(t.right, e);
        if sub.isNew {
          RBalanceKeepsInvariant(t.(right := sub.tree));
        }
      }
    }
  }

  /** What the node insert does to the entries of `t`, on an ordered tree. */
  ghost predicate InsertsInOrder<V>(t: Tree<V>, e: Entry<V>)
    requires t.Node?
  {
    var s := Elements(t);
    Elements(Ins(t, e).tree) == Below(s, e.key) + [e] + Above(s, e.key) &&
    Ins(t, e).isNew == Lookup(s, e.key).None?
  }

  /**
   * On an ordered tree, insertion is the sorted-map update: `e` takes the
   * place of the entry with its key, or is added between the smaller and
   * the larger keys; a key is added exactly when it had no value.
   */
  lemma {:induction false} InsUpdates<V>(t: Tree<V>, e: Entry<V>)
    requires t.Node? && Ordered(t)
    ensures InsertsInOrder(t, e)
  {
    var a, x, b := Elements(t.left), t.entry, Elements(t.right);
    SortedSplit(a, x, b);
    if e.key < x.key {
      var da := [e];
      if t.left.Node? {
        InsUpdates(t.left, e);
        InsLeftElements(t, e);
        da := Elements(Ins(t.left, e).tree);
      } else {
        assert Elements(Ins(t, e).tree) == [e] + [x] + b;
      }
      InsertLeftOfRoot(a, x, b, e, da, Elements(Ins(t, e).tree));
    } else if e.key > x.key {
      var db := [e];
      if t.right.Node? {
        InsUpdates(t.right, e);
        InsRightElements(t, e);
        db := Elements(Ins(t.right, e).tree);
      } else {
        assert Elements(Ins(t, e).tree) == a + [x] + [e];
      }
      InsertRightOfRoot(a, x, b, e, db, Elements(Ins(t, e).tree));
    } else {
      Divide(a, x, b, e.key);
      assert Elements(Ins(t, e).tree) == a + [e] + b;
    }
  }

  /** Inserting below the root's key inserts in a non-empty left subtree. */
  lemma InsLeftElements<V>(t: Tree<V>, e: Entry<V>)
    requires t.Node? && t.left.Node? && e.key < t.entry.key
    ensures Elements(Ins(t, e).tree) == Elements(Ins(t.left, e).tree) + [t.entry] + Elements(t.right)
    ensures Ins(t, e).isNew == Ins(t.left, e).isNew
  {
    var sub := Ins(t.left, e);
    assert Elements(t.(left := sub.tree)) == Elements(sub.tree) + [t.entry] + Elements(t.right);
  }

  /** Inserting above the root's key inserts in a non-empty right subtree. */
  lemma InsRightElements<V>(t: Tree<V>, e: Entry<V>)
    requires t.Node? && t.right.Node? && e.key > t.entry.key
    ensures Elements(Ins(t, e).tree) == Elements(t.left) + [t.entry] + Elements(Ins(t.right, e).tree)
    ensures Ins(t, e).isNew == Ins(t.right, e).isNew
  {
    var sub := Ins(t.right, e);
    assert Elements(t.(right := sub.tree)) == Elements(t.left) + [t.entry] + Elements(sub.tree);
  }

  /** Inserting `e` with `e.key < x.key` into `a` inserts it into `a + [x] + b`. */
  lemma InsertLeftOfRoot<V>(a: seq<Entry<V>>, x: Entry<V>, b: seq<Entry<V>>, e: Entry<V>, da: seq<Entry<V>>, dt: seq<Entry<V>>)
    requires Sorted(a + [x] + b) && e.key < x.key
    requires da == Below(a, e.key) + [e] + Above(a, e.key) && dt == da + [x] + b
    ensures dt == Below(a + [x] + b, e.key) + [e] + Above(a + [x] + b, e.key)
    ensures Lookup(a + [x] + b, e.key) == Lookup(a, e.key)
  {
    Divide(a, x, b, e.key);
  }

  /** Inserting `e` with `e.key > x.key` into `b` inserts it into `a + [x] + b`. */
  lemma InsertRightOfRoot<V>(a: seq<Entry<V>>, x: Entry<V>, b: seq<Entry<V>>, e: Entry<V>, db: seq<Entry<V>>, dt: seq<Entry<V>>)
    requires Sorted(a + [x] + b) && e.key > x.key
    requires db == Below(b, e.key) + [e] + Above(b, e.key) && dt == a + [x] + db
    ensures dt == Below(a + [x] + b, e.key) + [e] + Above(a + [x] + b, e.key)
    ensures Lookup(a + [x] + b, e.key) == Lookup(b, e.key)
  {
    Divide(a, x, b, e.key);
  }

  // ----- Deletion: Kahrs' scheme -----

  /**
   * `balanceForRemove`: two red children become black under a red node;
   * otherwise the node must be black and is balanced.
   */
  function BalanceRemove<V>(t: Tree<V>): (r: Tree<V>)
    requires t.Node? && ((IsRed(t.left) && IsRed(t.right)) || t.color == Black)
    ensures Elements(r) == Elements(t)
  {
    if IsRed(t.left) && IsRed(t.right) then
      RecolorKeepsElements(t.left, Black);
      RecolorKeepsElements(t.right, Black);
      Node(Red, t.left.(color := Black), t.entry, t.right.(color := Black))
    else Balance(t)
  }

  lemma BalanceRemoveKeepsInvariant<V>(t: Tree<V>)
    requires t.Node? && t.color == Black
    requires Balanced(t.left) && Balanced(t.right) && BH(t.left) == BH(t.right)
    requires (Infrared(t.left) && NoRedRed(t.right)) || (NoRedRed(t.left) && Infrared(t.right))
    ensures var r := BalanceRemove(t); Balanced(r) && BH(r) == BH(t) && NoRedRed(r)
  {
    if !(IsRed(t.left) && IsRed(t.right)) {
      BalanceKeepsInvariant(t);
    }
  }

  /** The cases `balanceLeft` handles; any other shape is its `preconditionFailure`. */
  predicate BalanceLeftCase<V>(t: Tree<V>) {
    t.Node? &&
    (IsRed(t.left) || IsBlack(t.right) ||
     (IsRed(t.right) && IsBlack(t.right.left) && IsBlack(t.right.right)))
  }

  /** The cases `balanceRight` handles. */
  predicate BalanceRightCase<V>(t: Tree<V>) {
    t.Node? &&
    (IsRed(t.right) || IsBlack(t.left) ||
     (IsRed(t.left) && IsBlack(t.left.right) && IsBlack(t.left.left)))
  }

  /**
   * `balanceLeft`: repair a left subtree one black level short (Kahrs' balleft).
   * The third case requires the far nephew to exist and be black (the
   * force-unwrap and the `assert` in the source).
   */
  function BalanceLeft<V>(t: Tree<V>): (r: Tree<V>)
    requires BalanceLeftCase(t)
    ensures Elements(r) == Elements(t)
  {
    if IsRed(t.left) then
      RecolorKeepsElements(t.left, Black);
      t.(color := Red, left := t.left.(color := Black))
    else if IsBlack(t.right) then
      RecolorKeepsElements(t.right, Red);
      BalanceRemove(t.(color := Black, right := t.right.(color := Red)))
    else
      var r := t.right;
      var rl := r.left;
      RecolorKeepsElements(r.right, Red);
      assert Elements(r) == Elements(rl.left) + [rl.entry] + Elements(rl.right) + [r.entry] + Elements(r.right);
      Node(Red, Node(Black, t.left, t.entry, rl.left), rl.entry,
           BalanceRemove(Node(Black, rl.right, r.entry, r.right.(color := Red))))
  }

  /** `balanceRight`: the mirror image of `balanceLeft`. */
  function BalanceRight<V>(t: Tree<V>): (r: Tree<V>)
    requires BalanceRightCase(t)
    ensures Elements(r) == Elements(t)
  {
    if IsRed(t.right) then
      RecolorKeepsElements(t.right, Black);
      t.(color := Red, right := t.right.(color := Black))
    else if IsBlack(t.left) then
      RecolorKeepsElements(t.left, Red);
      BalanceRemove(t.(color := Black, left := t.left.(color := Red)))
    else
      var l := t.left;
      var lr := l.right;
      RecolorKeepsElements(l.left, Red);
      assert Elements(l) == Elements(l.left) + [l.entry] + Elements(lr.left) + [lr.entry] + Elements(lr.right);
      Node(Red, BalanceRemove(Node(Black, l.left.(color := Red), l.entry, lr.left)), lr.entry,
           Node(Black, lr.right, t.entry, t.right))
  }

  lemma NoRedRedIsInfrared<V>(t: Tree<V>)
    requires NoRedRed(t)
    ensures Infrared(t)
  {
  }

  /**
   * A left subtree one black level short of a valid right subtree is
   * always one of the handled shapes (the `preconditionFailure` cannot be
   * reached), and the repair restores the black height of the right side.
   */
  lemma BalanceLeftKeepsInvariant<V>(t: Tree<V>)
    requires t.Node?
    requires Balanced(t.left) && Balanced(t.right) && BH(t.left) + 1 == BH(t.right)
    requires Infrared(t.left) && NoRedRed(t.right)
    ensures BalanceLeftCase(t)
    ensures var r := BalanceLeft(t);
      Balanced(r) && BH(r) == BH(t.right) && Infrared(r) && (!IsRed(t.right) ==> NoRedRed(r))
  {
    if IsRed(t.left) {
    } else if IsBlack(t.right) {
      BalanceRemoveKeepsInvariant(t.(color := Black, right := t.right.(color := Red)));
    } else {
      var r := t.right;
      var rl := r.left;
      BalanceRemoveKeepsInvariant(Node(Black, rl.right, r.entry, r.right.(color := Red)));
    }
  }

  lemma BalanceRightKeepsInvariant<V>(t: Tree<V>)
    requires t.Node?
    requires Balanced(t.left) && Balanced(t.right) && BH(t.right) + 1 == BH(t.left)
    requires NoRedRed(t.left) && Infrared(t.right)
    ensures BalanceRightCase(t)
    ensures var r := BalanceRight(t);
      Balanced(r) && BH(r) == BH(t.left) && Infrared(r) && (!IsRed(t.left) ==> NoRedRed(r))
  {
    if IsRed(t.right) {
    } else if IsBlack(t.left) {
      BalanceRemoveKeepsInvariant(t.(color := Black, left := t.left.(color := Red)));
    } else {
      var l := t.left;
      var lr := l.right;
      BalanceRemoveKeepsInvariant(Node(Black, l.left.(color := Red), l.entry, lr.left));
    }
  }

  lemma RegroupInner<T>(a: seq<T>, x: T, b: seq<T>, c: seq<T>, y: T, d: seq<T>)
    ensures a + [x] + ((b + c) + [y] + d) == (a + [x] + b) + (c + [y] + d)
  {
    calc {
      a + [x] + ((b + c) + [y] + d);
      (a + [x]) + (b + c) + ([y] + d);
      (a + [x] + b) + (c + [y] + d);
    }
  }

  /** `combine` puts a joined middle `bc` back between the outer parts of `l` and `r`. */
  lemma CombineRegroups<V>(l: Tree<V>, r: Tree<V>, bc: Tree<V>)
    requires l.Node? && r.Node?
    requires Elements(bc) == Elements(l.right) + Elements(r.left)
    ensures Elements(l.(right := r.(left := bc))) == Elements(l) + Elements(r)
  {
    var a, x, b, c, y, d := Elements(l.left), l.entry, Elements(l.right), Elements(r.left), r.entry, Elements(r.right);
    assert Elements(l.(right := r.(left := bc))) == a + [x] + ((b + c) + [y] + d);
    RegroupInner(a, x, b, c, y, d);
  }

  lemma RegroupAtMiddle<T>(a: seq<T>, x: T, p: seq<T>, z: T, q: seq<T>, b: seq<T>, c: seq<T>, y: T, d: seq<T>)
    requires b + c == p + [z] + q
    ensures (a + [x] + p) + [z] + (q + [y] + d) == (a + [x] + b) + (c + [y] + d)
  {
    calc {
      (a + [x] + p) + [z] + (q + [y] + d);
      (a + [x]) + (p + [z] + q) + ([y] + d);
      (a + [x]) + (b + c) + ([y] + d);
      (a + [x] + b) + (c + [y] + d);
    }
  }

  /** The same, when the joined middle is split at its root. */
  lemma CombineRegroupsAtRed<V>(l: Tree<V>, r: Tree<V>, bc: Tree<V>)
    requires l.Node? && r.Node? && bc.Node?
    requires Elements(bc) == Elements(l.right) + Elements(r.left)
    ensures Elements(Node(bc.color, l.(right := bc.left), bc.entry, r.(left := bc.right))) == Elements(l) + Elements(r)
  {
    var a, x, b, c, y, d := Elements(l.left), l.entry, Elements(l.right), Elements(r.left), r.entry, Elements(r.right);
    var p, z, q := Elements(bc.left), bc.entry, Elements(bc.right);
    assert Elements(Node(bc.color, l.(right := bc.left), bc.entry, r.(left := bc.right)))
        == (a + [x] + p) + [z] + (q + [y] + d);
    RegroupAtMiddle(a, x, p, z, q, b, c, y, d);
  }

  /** `combine` (Kahrs' app): join two subtrees whose keys are in order. */
  function Combine<V>(l: Tree<V>, r: Tree<V>): (t: Tree<V>)
    ensures Elements(t) == Elements(l) + Elements(r)
    decreases l, r, 1
  {
    if l.Leaf? then r
    else if r.Leaf? then l
    else if l.color == r.color then CombineSameColor(l, r)
    else if l.color == Black then r.(left := Combine(l, r.left))
    else l.(right := Combine(l.right, r))
  }

  /**
   * The two cases of `combine` for roots of the same colour: join the inner
   * subtrees; a red result is lifted to the top, otherwise it goes between
   * `l` and `r` (rebalanced on the left when both are black).
   */
  function CombineSameColor<V>(l: Tree<V>, r: Tree<V>): (t: Tree<V>)
    requires l.Node? && r.Node? && l.color == r.color
    ensures Elements(t) == Elements(l) + Elements(r)
    decreases l, r, 0
  {
    var bc := Combine(l.right, r.left);
    if IsRed(bc) then
      CombineRegroupsAtRed(l, r, bc);
      Node(bc.color, l.(right := bc.left), bc.entry, r.(left := bc.right))
    else
      CombineRegroups(l, r, bc);
      if l.color == Red then l.(right := r.(left := bc))
      else BalanceLeft(l.(right := r.(left := bc)))
  }

  /**
   * Joining two valid subtrees of equal black height keeps that height and
   * leaves at most a red-red pair at the root, none when both roots are black.
   */
  lemma {:induction false} CombineKeepsInvariant<V>(l: Tree<V>, r: Tree<V>)
    requires Balanced(l) && Balanced(r) && BH(l) == BH(r) && NoRedRed(l) && NoRedRed(r)
    ensures var t := Combine(l, r);
      Balanced(t) && BH(t) == BH(l) && Infrared(t) && (!IsRed(l) && !IsRed(r) ==> NoRedRed(t))
    decreases l, r
  {
    if l.Leaf? || r.Leaf? {
    } else if l.color == r.color {
      CombineKeepsInvariant(l.right, r.left);
      var bc := Combine(l.right, r.left);
      if l.color == Black && !IsRed(bc) {
        BalanceLeftKeepsInvariant(l.(right := r.(left := bc)));
      }
    } else if l.color == Black {
      CombineKeepsInvariant(l, r.left);
    } else {
      CombineKeepsInvariant(l.right, r);
    }
  }

  /**
   * `delete`: remove the entry with key `k` from a valid subtree. Deleting
   * below a black node costs one black level, which the parent repairs;
   * deleting below a red node (or nil) keeps the black height.
   */
  function Del<V>(t: Tree<V>, k: int): (r: Removed<V>)
    requires Balanced(t) && NoRedRed(t)
    ensures Balanced(r.tree)
    ensures IsBlack(t) ==> BH(r.tree) + 1 == BH(t) && Infrared(r.tree)
    ensures !IsBlack(t) ==> BH(r.tree) == BH(t) && NoRedRed(r.tree)
    decreases t, 1
  {
    if t.Leaf? then Removed(Leaf, None)
    else if k < t.entry.key then DelformLeft(t, k)
    else if k > t.entry.key then DelformRight(t, k)
    else
      CombineKeepsInvariant(t.left, t.right);
      Removed(Combine(t.left, t.right), Some(t.entry.value))
  }

  /** `delformLeft`: delete in the left subtree, then rebalance or recolour. */
  function DelformLeft<V>(t: Tree<V>, k: int): (r: Removed<V>)
    requires t.Node? && Balanced(t) && NoRedRed(t)
    ensures Balanced(r.tree)
    ensures IsBlack(t) ==> BH(r.tree) + 1 == BH(t) && Infrared(r.tree)
    ensures !IsBlack(t) ==> BH(r.tree) == BH(t) && NoRedRed(r.tree)
    decreases t, 0
  {
    var d := Del(t.left, k);
    if IsBlack(t.left) then
      var n := t.(left := d.tree);
      BalanceLeftKeepsInvariant(n);
      Removed(BalanceLeft(n), d.value)
    else
      Removed(t.(color := Red, left := d.tree), d.value)
  }

  /** `delformRight`: the mirror image of `delformLeft`. */
  function DelformRight<V>(t: Tree<V>, k: int): (r: Removed<V>)
    requires t.Node? && Balanced(t) && NoRedRed(t)
    ensures Balanced(r.tree)
    ensures IsBlack(t) ==> BH(r.tree) + 1 == BH(t) && Infrared(r.tree)
    ensures !IsBlack(t) ==> BH(r.tree) == BH(t) && NoRedRed(r.tree)
    decreases t, 0
  {
    var d := Del(t.right, k);
    if IsBlack(t.right) then
      var n := t.(right := d.tree);
      BalanceRightKeepsInvariant(n);
      Removed(BalanceRight(n), d.value)
    else
      Removed(t.(color := Red, right := d.tree), d.value)
  }

  /** What delete does to the entries of `t`, on an ordered tree. */
  ghost predicate RemovesInOrder<V>(t: Tree<V>, k: int)
    requires Balanced(t) && NoRedRed(t)
  {
    var s := Elements(t);
    Elements(Del(t, k).tree) == Below(s, k) + Above(s, k) && Del(t, k).value == Lookup(s, k)
  }

  /**
   * On an ordered tree, delete is the sorted-map removal: the entries of
   * the other keys stay, in order, and the value returned is the one `k` had.
   */
  lemma {:induction false} DelRemoves<V>(t: Tree<V>, k: int)
    requires Balanced(t) && NoRedRed(t) && Ordered(t)
    ensures RemovesInOrder(t, k)
    decreases t
  {
    if t.Node? {
      var a, x, b := Elements(t.left), t.entry, Elements(t.right);
      SortedSplit(a, x, b);
      if k < x.key {
        DelRemoves(t.left, k);
        DelLeftElements(t, k);
        RemoveLeftOfRoot(a, x, b, k, Elements(Del(t.left, k).tree), Elements(Del(t, k).tree));
      } else if k > x.key {
        DelRemoves(t.right, k);
        DelRightElements(t, k);
        RemoveRightOfRoot(a, x, b, k, Elements(Del(t.right, k).tree), Elements(Del(t, k).tree));
      } else {
        Divide(a, x, b, k);
      }
    }
  }

  /** Removing `k < x.key` from `a` removes it from `a + [x] + b`. */
  lemma RemoveLeftOfRoot<V>(a: seq<Entry<V>>, x: Entry<V>, b: seq<Entry<V>>, k: int, da: seq<Entry<V>>, dt: seq<Entry<V>>)
    requires Sorted(a + [x] + b) && k < x.key
    requires da == Below(a, k) + Above(a, k) && dt == da + [x] + b
    ensures dt == Below(a + [x] + b, k) + Above(a + [x] + b, k)
    ensures Lookup(a + [x] + b, k) == Lookup(a, k)
  {
    Divide(a, x, b, k);
  }

  /** Removing `k > x.key` from `b` removes it from `a + [x] + b`. */
  lemma RemoveRightOfRoot<V>(a: seq<Entry<V>>, x: Entry<V>, b: seq<Entry<V>>, k: int, db: seq<Entry<V>>, dt: seq<Entry<V>>)
    requires Sorted(a + [x] + b) && k > x.key
    requires db == Below(b, k) + Above(b, k) && dt == a + [x] + db
    ensures dt == Below(a + [x] + b, k) + Above(a + [x] + b, k)
    ensures Lookup(a + [x] + b, k) == Lookup(b, k)
  {
    Divide(a, x, b, k);
  }

  /** Deleting a key below the root's deletes it in the left subtree, whatever the rebalancing. */
  lemma DelLeftElements<V>(t: Tree<V>, k: int)
    requires t.Node? && Balanced(t) && NoRedRed(t) && k < t.entry.key
    ensures Elements(Del(t, k).tree) == Elements(Del(t.left, k).tree) + [t.entry] + Elements(t.right)
    ensures Del(t, k).value == Del(t.left, k).value
  {
    var d := Del(t.left, k);
    var n := t.(left := d.tree);
    assert Elements(n) == Elements(d.tree) + [t.entry] + Elements(t.right);
    assert Elements(t.(color := Red, left := d.tree)) == Elements(n);
  }

  /** Deleting a key above the root's deletes it in the right subtree, whatever the rebalancing. */
  lemma DelRightElements<V>(t: Tree<V>, k: int)
    requires t.Node? && Balanced(t) && NoRedRed(t) && k > t.entry.key
    ensures Elements(Del(t, k).tree) == Elements(t.left) + [t.entry] + Elements(Del(t.right, k).tree)
    ensures Del(t, k).value == Del(t.right, k).value
  {
    var d := Del(t.right, k);
    var n := t.(right := d.tree);
    assert Elements(n) == Elements(t.left) + [t.entry] + Elements(d.tree);
    assert Elements(t.(color := Red, right := d.tree)) == Elements(n);
  }
}
