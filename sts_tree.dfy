/*
 * Subsequence search trees: STSTree, SubseqTSTree and SubsequenceTST. Each
 * word is filed under every non-empty subsequence of it (of its lower-cased
 * form when case is ignored), in a ternary search tree whose nodes hold a
 * set of words instead of one value. The node graph is the value `Node` of
 * the ternary search tree module with `set<string>` values: a node whose
 * `words` set is empty is one with no value (`hasValue` is `!words.isEmpty`),
 * so `isRemoveable` and the pruning of `delete` carry over unchanged.
 */
module SubsequenceTrees {
  import opened Wrappers
  import opened Strings
  import TS = TernarySearch
  import Tries
  import ED = EditDistance

  type WordNode = TS.Node<set<string>>

  /** The `words` set a node holds: empty when it holds no value. */
  function WordsOf(v: Option<set<string>>): set<string> {
    if v.Some? then v.value else {}
  }

  /** The words filed under the key `k` (those of the node the key leads to). */
  ghost function Words(t: WordNode, k: string): set<string> {
    WordsOf(TS.Stored(t, k))
  }

  /** A node has a value only while its set is non-empty. */
  ghost predicate NoEmptySet(t: WordNode) {
    forall k :: TS.Stored(t, k) != Some({})
  }

  /** Search-tree order, no removable node, no empty set. */
  ghost predicate WellFormed(t: WordNode) {
    TS.Ordered(t) && TS.Pruned(t) && NoEmptySet(t)
  }

  // ----- case folding -----

  /** The form a word is filed under: lower-cased when case is ignored. */
  function Folded(ignoringCase: bool, s: string): (r: string)
    ensures |r| == |s|
  {
    if ignoringCase then Lower(s) else s
  }

  /** The words of `allWords` that have `k` as a subsequence of their filed form. */
  ghost function Matching(allWords: set<string>, k: string, ignoringCase: bool): set<string> {
    set w | w in allWords && IsSubsequence(k, Folded(ignoringCase, w))
  }

  /**
   * The index invariant: the tree is well formed and every non-empty key
   * leads to exactly the words that have it as a subsequence.
   */
  ghost predicate Indexes(t: WordNode, allWords: set<string>, ignoringCase: bool) {
    WellFormed(t) &&
    forall k :: k != [] ==> Words(t, k) == Matching(allWords, k, ignoringCase)
  }

  // ----- insertSubsequence and deleteSubsequence -----

  /**
   * The nodes `insertSubsequence` creates for `x[i..]` at a missing link,
   * the new node holding the character `c` it is created with: the key's
   * own character on a left or right link (and at the root), but the
   * character just matched on a middle link. The walk then goes on from the
   * new node as from any other, so a middle link whose next character
   * differs gets a node that holds no word and whose only child lies to its
   * left or right.
   */
  function Sprout(x: string, w: string, i: nat, c: char): (t: WordNode)
    requires i < |x|
    ensures t.Node? && t.ch == c
    decreases |x| - i, if c == x[i] then 0 else 1
  {
    if x[i] < c then TS.Node(c, Sprout(x, w, i, x[i]), TS.Nil, TS.Nil, None)
    else if x[i] > c then TS.Node(c, TS.Nil, TS.Nil, Sprout(x, w, i, x[i]), None)
    else if i + 1 < |x| then TS.Node(c, TS.Nil, Sprout(x, w, i + 1, c), TS.Nil, None)
    else TS.Node(c, TS.Nil, TS.Nil, TS.Nil, Some({w}))
  }

  /**
   * The loop of `insertSubsequence` for `x[i..]` below `t` (to be created
   * with the character `c` if missing): left or right on a smaller or
   * larger character, down the middle on an equal one, and `w` joins the
   * words of the node of the last character.
   */
  function Plant(t: WordNode, x: string, w: string, i: nat, c: char): WordNode
    requires i < |x|
    decreases |x| - i, t
  {
    match t
    case Nil => Sprout(x, w, i, c)
    case Node(d, l, m, r, v) =>
      if x[i] < d then t.(left := Plant(l, x, w, i, x[i]))
      else if x[i] > d then t.(right := Plant(r, x, w, i, x[i]))
      else if i + 1 < |x| then t.(mid := Plant(m, x, w, i + 1, x[i]))
      else t.(value := Some(WordsOf(v) + {w}))
  }

  /** What planting promises: `w` joins the words of `x[i..]`, no other key changes, and order and pruning are kept. */
  ghost predicate Plants(t: WordNode, x: string, w: string, i: nat, u: WordNode)
    requires i < |x|
  {
    (forall k :: TS.Stored(u, k) == if k == x[i..] then Some(Words(t, x[i..]) + {w}) else TS.Stored(t, k)) &&
    u.Node? && TS.Ordered(u) && TS.Pruned(u)
  }

  lemma {:induction false} SproutSound(x: string, w: string, i: nat, c: char)
    requires i < |x|
    ensures Plants(TS.Nil, x, w, i, Sprout(x, w, i, c))
    decreases |x| - i, if c == x[i] then 0 else 1
  {
    var u := Sprout(x, w, i, c);
    var none: WordNode := TS.Nil;
    assert TS.Pruned(none);
    forall k ensures TS.Stored(none, k) == None {}
    assert Words(TS.Nil, x[i..]) + {w} == {w};
    if x[i] != c {
      SproutSound(x, w, i, x[i]);
      SproutAside(x, w, i, c);
    } else if i + 1 < |x| {
      SproutSound(x, w, i + 1, c);
      var sub := Sprout(x, w, i + 1, c);
      assert u == TS.Node(c, TS.Nil, sub, TS.Nil, None);
      assert x[i..][1..] == x[i + 1..];
      forall k | |k| > 1 && k[0] == c && k[1..] == x[i + 1..]
        ensures k == x[i..]
      {
        assert k == [k[0]] + k[1..];
      }
      forall k ensures TS.Stored(u, k) == if k == x[i..] then Some({w}) else None {
        if k == [] {
          TS.EmptyNotStored(u);
        }
      }
    } else {
      assert u == TS.Node(c, TS.Nil, TS.Nil, TS.Nil, Some({w}));
      assert x[i..] == [c];
      assert TS.Ordered(u);
      assert TS.Pruned(u);
    }
  }

  /** A node created aside of the key's character leads on to the node for it and stores nothing itself. */
  lemma SproutAside(x: string, w: string, i: nat, c: char)
    requires i < |x| && x[i] != c
    requires Plants(TS.Nil, x, w, i, Sprout(x, w, i, x[i]))
    ensures Plants(TS.Nil, x, w, i, Sprout(x, w, i, c))
  {
    var sub := Sprout(x, w, i, x[i]);
    var u := Sprout(x, w, i, c);
    forall k ensures TS.Stored(u, k) == TS.Stored(sub, k) {
    }
  }

  lemma {:induction false} PlantSound(t: WordNode, x: string, w: string, i: nat, c: char)
    requires i < |x| && TS.Ordered(t) && TS.Pruned(t)
    ensures Plants(t, x, w, i, Plant(t, x, w, i, c))
    decreases |x| - i, t
  {
    if t.Nil? {
      SproutSound(x, w, i, c);
    } else if x[i] < t.ch {
      PlantSound(t.left, x, w, i, x[i]);
      PlantLeft(t, x, w, i, c);
    } else if x[i] > t.ch {
      PlantSound(t.right, x, w, i, x[i]);
      PlantRight(t, x, w, i, c);
    } else if i + 1 < |x| {
      PlantSound(t.mid, x, w, i + 1, x[i]);
      PlantMid(t, x, w, i, c);
    } else {
      PlantHere(t, x, w, i, c);
    }
  }

  lemma PlantHere(t: WordNode, x: string, w: string, i: nat, c: char)
    requires i + 1 == |x| && t.Node? && TS.Ordered(t) && TS.Pruned(t) && x[i] == t.ch
    ensures Plants(t, x, w, i, Plant(t, x, w, i, c))
  {
    var u := Plant(t, x, w, i, c);
    assert u == t.(value := Some(WordsOf(t.value) + {w}));
    TS.Split(t, x[i..]);
    assert x[i..] == [t.ch];
    assert TS.Ordered(u) && TS.Pruned(u);
  }

  lemma PlantLeft(t: WordNode, x: string, w: string, i: nat, c: char)
    requires i < |x| && t.Node? && TS.Ordered(t) && TS.Pruned(t) && x[i] < t.ch
    requires Plants(t.left, x, w, i, Plant(t.left, x, w, i, x[i]))
    ensures Plants(t, x, w, i, Plant(t, x, w, i, c))
  {
    var sub := Plant(t.left, x, w, i, x[i]);
    assert Plant(t, x, w, i, c) == t.(left := sub);
    TS.Split(t, x[i..]);
    TS.LeftStores(t, sub, x[i..], Words(t.left, x[i..]) + {w});
    TS.LeftOrdered(t, sub, x[i..], Words(t.left, x[i..]) + {w});
  }

  lemma PlantRight(t: WordNode, x: string, w: string, i: nat, c: char)
    requires i < |x| && t.Node? && TS.Ordered(t) && TS.Pruned(t) && x[i] > t.ch
    requires Plants(t.right, x, w, i, Plant(t.right, x, w, i, x[i]))
    ensures Plants(t, x, w, i, Plant(t, x, w, i, c))
  {
    var sub := Plant(t.right, x, w, i, x[i]);
    assert Plant(t, x, w, i, c) == t.(right := sub);
    TS.Split(t, x[i..]);
    TS.RightStores(t, sub, x[i..], Words(t.right, x[i..]) + {w});
    TS.RightOrdered(t, sub, x[i..], Words(t.right, x[i..]) + {w});
  }

  lemma PlantMid(t: WordNode, x: string, w: string, i: nat, c: char)
    requires i + 1 < |x| && t.Node? && TS.Ordered(t) && TS.Pruned(t) && x[i] == t.ch
    requires Plants(t.mid, x, w, i + 1, Plant(t.mid, x, w, i + 1, x[i]))
    ensures Plants(t, x, w, i, Plant(t, x, w, i, c))
  {
    var k := x[i..];
    var sub := Plant(t.mid, x, w, i + 1, x[i]);
    assert Plant(t, x, w, i, c) == t.(mid := sub);
    assert TS.Ordered(t.(mid := sub)) && TS.Pruned(t.(mid := sub));
    TS.Split(t, k);
    assert k[1..] == x[i + 1..];
    forall y | |y| > 1 && y[0] == t.ch && y[1..] == x[i + 1..]
      ensures y == k
    {
      assert y == [y[0]] + y[1..];
    }
  }

  /** `insertSubsequence`: the node `x` leads to (created when missing) gains `w`. */
  function AddWord(t: WordNode, x: string, w: string): WordNode
    requires x != []
  {
    Plant(t, x, w, 0, x[0])
  }

  lemma AddWordSound(t: WordNode, x: string, w: string)
    requires x != [] && WellFormed(t)
    ensures WellFormed(AddWord(t, x, w))
    ensures forall k :: Words(AddWord(t, x, w), k) == if k == x then Words(t, k) + {w} else Words(t, k)
  {
    PlantSound(t, x, w, 0, x[0]);
    assert x[0..] == x;
  }

  /**
   * Filing "ab" in an empty tree puts a node for 'a' on the middle link
   * below the root, holding no word, with the node for "ab" to its right:
   * the walk for "aa" stops there, so `search(_:using:)` calls its block
   * with the empty set.
   */
  lemma MiddleLinkNode(w: string)
    ensures var n := TS.FindNode(AddWord(TS.Nil, "ab", w), "aa", 0);
      n.Node? && n.value.None? && Words(AddWord(TS.Nil, "ab", w), "aa") == {}
  {
    var leaf: WordNode := TS.Node('b', TS.Nil, TS.Nil, TS.Nil, Some({w}));
    var extra: WordNode := TS.Node('a', TS.Nil, TS.Nil, leaf, None);
    assert Sprout("ab", w, 1, 'b') == leaf;
    assert Sprout("ab", w, 1, 'a') == extra;
    assert AddWord(TS.Nil, "ab", w) == TS.Node('a', TS.Nil, extra, TS.Nil, None);
    assert "aa"[1..] == "a";
    assert TS.FindNode(AddWord(TS.Nil, "ab", w), "aa", 0) == TS.FindNode(extra, "aa", 1) == extra;
    var none: WordNode := TS.Nil;
    assert TS.Stored(none, "a") == None;
    assert TS.Stored(leaf, "a") == None;
    assert TS.Stored(extra, "a") == None;
    assert TS.Stored(none, "aa") == None;
    assert TS.Stored(TS.Node('a', TS.Nil, extra, TS.Nil, None), "aa") == None;
  }

  /**
   * `deleteSubsequence` and `tryPrune`: the node `x` leads to loses `w`;
   * once it holds no word it is unlinked if it has no child, and so is every
   * ancestor on the path that is left with no word and no child.
   */
  function RemoveWord(t: WordNode, x: string, w: string): WordNode
    requires x != []
  {
    var rest := WordsOf(TS.ValueAt(TS.FindNode(t, x, 0))) - {w};
    if rest == {} then TS.Kept(TS.Del(t, x, 0)) else TS.Ins(t, x, rest, 0).node
  }

  lemma RemoveWordSound(t: WordNode, x: string, w: string)
    requires x != [] && WellFormed(t)
    ensures WellFormed(RemoveWord(t, x, w))
    ensures forall k :: Words(RemoveWord(t, x, w), k) == if k == x then Words(t, k) - {w} else Words(t, k)
  {
    TS.FindNodeSound(t, x, 0);
    assert x[0..] == x;
    var rest := WordsOf(TS.ValueAt(TS.FindNode(t, x, 0))) - {w};
    if rest == {} {
      TS.DelSound(t, x, 0);
    } else {
      TS.InsSound(t, x, rest, 0);
    }
  }

  /** The loop of `insert`: file `w` under every key of `order`, in that order. */
  method AddToAll(t: WordNode, order: seq<string>, w: string) returns (u: WordNode)
    requires WellFormed(t) && forall x :: x in order ==> x != []
    ensures WellFormed(u)
    ensures forall k :: Words(u, k) == if k in order then Words(t, k) + {w} else Words(t, k)
  {
    u := t;
    for i := 0 to |order|
      invariant WellFormed(u)
      invariant forall k :: Words(u, k) == if k in order[..i] then Words(t, k) + {w} else Words(t, k)
    {
      assert order[i] in order;
      AddWordSound(u, order[i], w);
      assert order[..i + 1] == order[..i] + [order[i]];
      u := AddWord(u, order[i], w);
    }
    assert order[..|order|] == order;
  }

  /** The loop of `delete`: take `w` from under every key of `order`. */
  method RemoveFromAll(t: WordNode, order: seq<string>, w: string) returns (u: WordNode)
    requires WellFormed(t) && forall x :: x in order ==> x != []
    ensures WellFormed(u)
    ensures forall k :: Words(u, k) == if k in order then Words(t, k) - {w} else Words(t, k)
  {
    u := t;
    for i := 0 to |order|
      invariant WellFormed(u)
      invariant forall k :: Words(u, k) == if k in order[..i] then Words(t, k) - {w} else Words(t, k)
    {
      assert order[i] in order;
      RemoveWordSound(u, order[i], w);
      assert order[..i + 1] == order[..i] + [order[i]];
      u := RemoveWord(u, order[i], w);
    }
    assert order[..|order|] == order;
  }

  /** Filing a new word under all subsequences of its folded form keeps the index. */
  lemma AddKeepsIndex(t: WordNode, u: WordNode, allWords: set<string>, ignoringCase: bool, w: string)
    requires Indexes(t, allWords, ignoringCase) && WellFormed(u)
    requires forall k :: Words(u, k) == if k in Extensions(Folded(ignoringCase, w), 0, []) then Words(t, k) + {w} else Words(t, k)
    ensures Indexes(u, allWords + {w}, ignoringCase)
  {
    forall k | k != []
      ensures Words(u, k) == Matching(allWords + {w}, k, ignoringCase)
    {
      AllSubsequencesSpec(Folded(ignoringCase, w), k);
    }
  }

  /** Taking a word from under all subsequences of its folded form keeps the index without it. */
  lemma RemoveKeepsIndex(t: WordNode, u: WordNode, allWords: set<string>, ignoringCase: bool, w: string)
    requires Indexes(t, allWords, ignoringCase) && WellFormed(u)
    requires forall k :: Words(u, k) == if k in Extensions(Folded(ignoringCase, w), 0, []) then Words(t, k) - {w} else Words(t, k)
    ensures Indexes(u, allWords - {w}, ignoringCase)
  {
    forall k | k != []
      ensures Words(u, k) == Matching(allWords - {w}, k, ignoringCase)
    {
      AllSubsequencesSpec(Folded(ignoringCase, w), k);
    }
  }

  /** Without case folding a word is matched as it is. */
  lemma MatchingAsIs(allWords: set<string>, k: string, w: string)
    ensures w in Matching(allWords, k, false) <==> w in allWords && IsSubsequence(k, w)
  {
  }

  /** A well-formed tree under which no key leads to a word is `nil`. */
  lemma NoWordsIsNil(t: WordNode)
    requires WellFormed(t) && forall k :: k != [] ==> Words(t, k) == {}
    ensures t == TS.Nil
  {
    forall k ensures TS.Stored(t, k).None? {
      if k == [] {
        TS.EmptyNotStored(t);
      } else {
        assert Words(t, k) == {} && TS.Stored(t, k) != Some({});
      }
    }
    TS.EmptyIsNil(t);
  }

  // ----- search -----

  /**
   * The walk of `search`: left or right on a smaller or larger character,
   * down the middle on an equal one; it stops at the node of the last
   * character, or with `nil` when it falls off the tree.
   */
  method Walk(t: WordNode, pattern: string) returns (n: WordNode)
    requires pattern != []
    ensures n == TS.FindNode(t, pattern, 0)
  {
    var cur := t;
    var i := 0;
    while cur.Node? && i < |pattern|
      invariant 0 <= i < |pattern|
      invariant TS.FindNode(cur, pattern, i) == TS.FindNode(t, pattern, 0)
      decreases |pattern| - i, cur
    {
      if pattern[i] < cur.ch {
        cur := cur.left;
      } else if pattern[i] > cur.ch {
        cur := cur.right;
      } else {
        i := i + 1;
        if i == |pattern| {
          return cur;
        }
        cur := cur.mid;
      }
    }
    return TS.Nil;
  }

  /** The node the walk stops at holds the words filed under the pattern. */
  lemma WalkFinds(t: WordNode, pattern: string)
    requires pattern != [] && TS.Ordered(t)
    ensures WordsOf(TS.ValueAt(TS.FindNode(t, pattern, 0))) == Words(t, pattern)
  {
    TS.FindNodeSound(t, pattern, 0);
    assert pattern[0..] == pattern;
  }

  /** A subset is no larger than its superset, and equal to it when as large. */
  lemma SubsetCard<T>(a: set<T>, b: set<T>)
    requires a <= b
    ensures |a| <= |b|
    ensures |a| == |b| ==> a == b
  {
    assert b == a + (b - a);
    if a != b {
      var x :| x in b - a;
      assert |b - a| >= |{x}|;
    }
  }

  /**
   * `words.prefix(n)` of a `Set`: up to `n` of its elements, in an order
   * the set does not specify.
   */
  method SomeOf(ws: set<string>, n: nat) returns (r: seq<string>)
    ensures Tries.Distinct(r) && |r| == if n < |ws| then n else |ws|
    ensures forall x :: x in r ==> x in ws
    ensures |ws| <= n ==> forall x :: x in ws ==> x in r
  {
    r := [];
    var rest := ws;
    while |r| < n && rest != {}
      invariant Tries.Distinct(r) && |r| <= n
      invariant rest == ws - set x | x in r
      invariant |rest| == |ws| - |r|
      invariant forall x :: x in r ==> x in ws
      decreases rest
    {
      var x :| x in rest;
      r := r + [x];
      rest := rest - {x};
    }
    forall x | |ws| <= n && x in ws ensures x in r {
      assert rest == {};
    }
  }

  /** Feeding words to the block of `enumerate` until it returns `false`. */
  function Feed<S>(ws: seq<string>, block: (S, string) -> (S, bool), st: S): (S, bool) {
    if ws == [] then (st, true)
    else if block(st, ws[0]).1 then Feed(ws[1..], block, block(st, ws[0]).0)
    else (block(st, ws[0]).0, false)
  }

  /** One more word, after all earlier ones were accepted. */
  lemma {:induction false} FeedSnoc<S>(ws: seq<string>, w: string, block: (S, string) -> (S, bool), st: S, s: S)
    requires Feed(ws, block, st) == (s, true)
    ensures Feed(ws + [w], block, st) == block(s, w)
  {
    if ws != [] {
      assert (ws + [w])[1..] == ws[1..] + [w];
      FeedSnoc(ws[1..], w, block, block(st, ws[0]).0, s);
    }
  }

  /** `newBlock` of `enumerate`: hand each word of the set to the block until it returns `false`. */
  method FeedAll<S>(ws: set<string>, block: (S, string) -> (S, bool), st: S) returns (st': S, ghost fed: seq<string>)
    ensures Tries.Distinct(fed) && forall x :: x in fed ==> x in ws
    ensures Feed(fed, block, st).0 == st'
    ensures Feed(fed, block, st).1 ==> forall x :: x in ws ==> x in fed
    ensures fed != [] ==> Feed(fed[..|fed| - 1], block, st).1
  {
    st' := st;
    fed := [];
    var rest := ws;
    while rest != {}
      invariant Tries.Distinct(fed) && forall x :: x in fed ==> x in ws
      invariant rest == ws - set x | x in fed
      invariant Feed(fed, block, st) == (st', true)
      invariant fed != [] ==> Feed(fed[..|fed| - 1], block, st).1
      decreases rest
    {
      var x :| x in rest;
      FeedSnoc(fed, x, block, st, st');
      assert (fed + [x])[..|fed|] == fed;
      var go;
      st', go := block(st', x).0, block(st', x).1;
      fed := fed + [x];
      rest := rest - {x};
      if !go {
        return;
      }
    }
    forall x | x in ws ensures x in fed {
      assert x !in rest;
    }
  }

  // ----- SubsequenceTST's insertSubsequence: the word goes into every node on the path -----

  /** The chain of fresh nodes built for `x[i..]`, each holding `w`. */
  function Chain(x: string, w: string, i: nat): (t: WordNode)
    requires i < |x|
    ensures t.Node? && t.ch == x[i]
    decreases |x| - i
  {
    TS.Node(x[i], TS.Nil, if i + 1 < |x| then Chain(x, w, i + 1) else TS.Nil, TS.Nil, Some({w}))
  }

  /**
   * `insertSubsequence` of SubsequenceTST for `x[i..]`: walk as `insert`
   * does, creating missing nodes, and add `w` to every node whose character
   * is matched, so every non-empty prefix of `x[i..]` leads to `w`.
   */
  function AddAlong(t: WordNode, x: string, w: string, i: nat): WordNode
    requires i < |x|
    decreases |x| - i, t
  {
    match t
    case Nil => Chain(x, w, i)
    case Node(c, l, m, r, v) =>
      if x[i] < c then t.(left := AddAlong(l, x, w, i))
      else if x[i] > c then t.(right := AddAlong(r, x, w, i))
      else t.(value := Some(WordsOf(v) + {w}), mid := if i + 1 < |x| then AddAlong(m, x, w, i + 1) else m)
  }

  /**
   * What `AddAlong` promises: `w` joins the set of every non-empty prefix of
   * `x[i..]`, every other key keeps its set, and the tree stays ordered and
   * pruned.
   */
  ghost predicate AddsAlong(t: WordNode, x: string, w: string, i: nat, u: WordNode)
    requires i < |x|
  {
    (forall k :: TS.Stored(u, k) ==
      if k != [] && TS.IsPrefix(k, x[i..]) then Some(WordsOf(TS.Stored(t, k)) + {w}) else TS.Stored(t, k)) &&
    u.Node? && TS.Ordered(u) && TS.Pruned(u)
  }

  /** A non-empty prefix of `x[i..]` starts with `x[i]`; a longer one goes on with a prefix of `x[i + 1..]`. */
  lemma PrefixStep(k: string, x: string, i: nat)
    requires i < |x| && k != []
    ensures TS.IsPrefix(k, x[i..]) ==> k[0] == x[i]
    ensures |k| > 1 && k[0] == x[i] ==> (TS.IsPrefix(k, x[i..]) <==> i + 1 < |x| && TS.IsPrefix(k[1..], x[i + 1..]))
  {
    if TS.IsPrefix(k, x[i..]) {
      assert k[0] == x[i..][..|k|][0];
    }
    if |k| > 1 && k[0] == x[i] && i + 1 < |x| && TS.IsPrefix(k[1..], x[i + 1..]) {
      assert k == [x[i]] + k[1..];
      assert x[i..] == [x[i]] + x[i + 1..];
    }
  }

  lemma {:induction false} ChainSound(x: string, w: string, i: nat)
    requires i < |x|
    ensures AddsAlong(TS.Nil, x, w, i, Chain(x, w, i))
    decreases |x| - i
  {
    var m: WordNode := if i + 1 < |x| then Chain(x, w, i + 1) else TS.Nil;
    var u := Chain(x, w, i);
    assert u == TS.Node(x[i], TS.Nil, m, TS.Nil, Some({w}));
    if i + 1 < |x| {
      ChainSound(x, w, i + 1);
    }
    forall k
      ensures TS.Stored(u, k) == if k != [] && TS.IsPrefix(k, x[i..]) then Some(WordsOf(TS.Stored(TS.Nil, k)) + {w}) else None
    {
      assert WordsOf(TS.Stored(TS.Nil, k)) + {w} == {w};
      if k == [] {
        TS.EmptyNotStored(u);
      } else {
        PrefixStep(k, x, i);
        if |k| == 1 && k[0] == x[i] {
          assert x[i..][..1] == [x[i]] == k;
        } else if |k| > 1 && k[0] == x[i] {
          assert TS.Stored(u, k) == TS.Stored(m, k[1..]);
        }
      }
    }
  }

  lemma {:induction false} AddAlongSound(t: WordNode, x: string, w: string, i: nat)
    requires i < |x| && TS.Ordered(t) && TS.Pruned(t)
    ensures AddsAlong(t, x, w, i, AddAlong(t, x, w, i))
    decreases |x| - i, t
  {
    if t.Nil? {
      ChainSound(x, w, i);
    } else if x[i] < t.ch {
      AddAlongSound(t.left, x, w, i);
      AlongLeft(t, x, w, i);
    } else if x[i] > t.ch {
      AddAlongSound(t.right, x, w, i);
      AlongRight(t, x, w, i);
    } else {
      if i + 1 < |x| {
        AddAlongSound(t.mid, x, w, i + 1);
      }
      AlongMid(t, x, w, i);
    }
  }

  lemma AlongLeft(t: WordNode, x: string, w: string, i: nat)
    requires i < |x| && t.Node? && TS.Ordered(t) && TS.Pruned(t) && x[i] < t.ch
    requires AddsAlong(t.left, x, w, i, AddAlong(t.left, x, w, i))
    ensures AddsAlong(t, x, w, i, AddAlong(t, x, w, i))
  {
    var u := AddAlong(t, x, w, i);
    forall k | TS.Stored(u.left, k).Some? ensures |k| > 0 && k[0] < t.ch {
      if k != [] {
        PrefixStep(k, x, i);
      }
    }
    assert TS.Ordered(u);
    forall k
      ensures TS.Stored(u, k) == if k != [] && TS.IsPrefix(k, x[i..]) then Some(WordsOf(TS.Stored(t, k)) + {w}) else TS.Stored(t, k)
    {
      if k == [] {
        TS.EmptyNotStored(u);
        TS.EmptyNotStored(t);
      } else {
        PrefixStep(k, x, i);
        TS.Split(u, k);
        TS.Split(t, k);
      }
    }
  }

  lemma AlongRight(t: WordNode, x: string, w: string, i: nat)
    requires i < |x| && t.Node? && TS.Ordered(t) && TS.Pruned(t) && x[i] > t.ch
    requires AddsAlong(t.right, x, w, i, AddAlong(t.right, x, w, i))
    ensures AddsAlong(t, x, w, i, AddAlong(t, x, w, i))
  {
    var u := AddAlong(t, x, w, i);
    forall k | TS.Stored(u.right, k).Some? ensures |k| > 0 && k[0] > t.ch {
      if k != [] {
        PrefixStep(k, x, i);
      }
    }
    assert TS.Ordered(u);
    forall k
      ensures TS.Stored(u, k) == if k != [] && TS.IsPrefix(k, x[i..]) then Some(WordsOf(TS.Stored(t, k)) + {w}) else TS.Stored(t, k)
    {
      if k == [] {
        TS.EmptyNotStored(u);
        TS.EmptyNotStored(t);
      } else {
        PrefixStep(k, x, i);
        TS.Split(u, k);
        TS.Split(t, k);
      }
    }
  }

  lemma AlongMid(t: WordNode, x: string, w: string, i: nat)
    requires i < |x| && t.Node? && TS.Ordered(t) && TS.Pruned(t) && x[i] == t.ch
    requires i + 1 < |x| ==> AddsAlong(t.mid, x, w, i + 1, AddAlong(t.mid, x, w, i + 1))
    ensures AddsAlong(t, x, w, i, AddAlong(t, x, w, i))
  {
    var u := AddAlong(t, x, w, i);
    assert TS.Ordered(u);
    forall k
      ensures TS.Stored(u, k) == if k != [] && TS.IsPrefix(k, x[i..]) then Some(WordsOf(TS.Stored(t, k)) + {w}) else TS.Stored(t, k)
    {
      if k == [] {
        TS.EmptyNotStored(u);
        TS.EmptyNotStored(t);
      } else {
        PrefixStep(k, x, i);
        TS.Split(u, k);
        TS.Split(t, k);
        if |k| == 1 && k[0] == x[i] {
          assert x[i..][..1] == [x[i]] == k;
        }
        if |k| > 1 && k[0] == x[i] && i + 1 < |x| {
          assert TS.Stored(u, k) == TS.Stored(u.mid, k[1..]);
        }
      }
    }
  }

  /** Some key of `xs` goes on with `k`, which is non-empty. */
  ghost predicate Covered(k: string, xs: seq<string>) {
    k != [] && exists x :: x in xs && TS.IsPrefix(k, x)
  }

  /** The loop of SubsequenceTST's `insert`: `insertSubsequence` for every key of `xs`, in order. */
  method AddAlongAll(t: WordNode, xs: seq<string>, w: string) returns (u: WordNode)
    requires WellFormed(t) && forall x :: x in xs ==> x != []
    ensures WellFormed(u)
    ensures forall k :: Words(u, k) == if Covered(k, xs) then Words(t, k) + {w} else Words(t, k)
  {
    u := t;
    for i := 0 to |xs|
      invariant WellFormed(u)
      invariant forall k :: Words(u, k) == if Covered(k, xs[..i]) then Words(t, k) + {w} else Words(t, k)
    {
      var x := xs[i];
      assert x in xs;
      AddAlongSound(u, x, w, 0);
      assert x[0..] == x;
      var u' := AddAlong(u, x, w, 0);
      forall k ensures Covered(k, xs[..i + 1]) <==> Covered(k, xs[..i]) || (k != [] && TS.IsPrefix(k, x)) {
        assert xs[..i + 1] == xs[..i] + [x];
      }
      u := u';
    }
    assert xs[..|xs|] == xs;
  }

  /** The prefixes of all subsequences of `s` are its non-empty subsequences. */
  lemma CoveredSubsequences(k: string, s: string)
    ensures Covered(k, Extensions(s, 0, [])) <==> k in Extensions(s, 0, [])
  {
    if Covered(k, Extensions(s, 0, [])) {
      var x :| x in Extensions(s, 0, []) && TS.IsPrefix(k, x);
      AllSubsequencesSpec(s, x);
      SubsequencePrefix(x, s, |k|);
      AllSubsequencesSpec(s, k);
    }
    if k in Extensions(s, 0, []) {
      AllSubsequencesSpec(s, k);
      assert TS.IsPrefix(k, k);
    }
  }

  /** With case folding a word is matched by its lower-cased form. */
  lemma MatchingLowered(allWords: set<string>, k: string, w: string)
    ensures w in Matching(allWords, k, true) <==> w in allWords && IsSubsequence(k, Lower(w))
  {
  }

  /** `STSTree`: words are filed as they are. */
  class STSTree {
    var root: WordNode
    var allWords: set<string>

    /** Every non-empty key leads to exactly the stored words that have it as a subsequence. */
    ghost predicate Valid()
      reads this
    {
      Indexes(root, allWords, false)
    }

    /** `init()`: an empty tree. */
    constructor ()
      ensures Valid() && root == TS.Nil && allWords == {}
    {
      root := TS.Nil;
      allWords := {};
    }

    /** `count`: the number of stored words. */
    function Count(): (n: nat)
      reads this
      ensures n == 0 <==> allWords == {}
    {
      |allWords|
    }

    /** `isEmpty` */
    function IsEmpty(): (b: bool)
      reads this
      ensures b <==> Count() == 0
    {
      allWords == {}
    }

    /**
     * `search(_:using:)`: the words the block is called with, or `None`
     * when it is not called because the walk fell off the tree; either way
     * the words that have the pattern as a subsequence. The block is called
     * whenever the walk ends on a node, even one that holds no word (see
     * `MiddleLinkNode`).
     */
    method SearchNode(pattern: string) returns (found: Option<set<string>>)
      requires Valid() && pattern != []
      ensures found.Some? <==> TS.FindNode(root, pattern, 0).Node?
      ensures found.Some? ==> found.value == Matching(allWords, pattern, false)
      ensures found.None? ==> Matching(allWords, pattern, false) == {}
    {
      var n := Walk(root, pattern);
      WalkFinds(root, pattern);
      if n.Node? {
        found := Some(WordsOf(n.value));
      } else {
        found := None;
      }
    }

    /**
     * `search(_:maxResults:)`: up to `maxResults` of the words that have the
     * pattern as a subsequence. A negative `maxResults` traps in `prefix(_:)`
     * only when the walk ends on a node; when it falls off the tree the
     * answer is empty whatever the limit.
     */
    method Search(pattern: string, maxResults: int) returns (r: seq<string>)
      requires Valid() && pattern != []
      requires maxResults >= 0 || TS.FindNode(root, pattern, 0).Nil?
      ensures Tries.Distinct(r) && forall w :: w in r ==> w in allWords && IsSubsequence(pattern, w)
      ensures var m := Matching(allWords, pattern, false);
        |r| == if maxResults <= 0 then 0 else if maxResults < |m| then maxResults else |m|
    {
      var found := SearchNode(pattern);
      if found.Some? {
        r := SomeOf(found.value, maxResults);
      } else {
        r := [];
      }
    }

    /**
     * `enumerate(_:using:)`: hand the words that have the pattern as a
     * subsequence to the block, one at a time, until it returns `false`.
     */
    method Enumerate<S>(pattern: string, block: (S, string) -> (S, bool), st: S) returns (st': S, ghost fed: seq<string>)
      requires Valid() && pattern != []
      ensures Tries.Distinct(fed) && forall w :: w in fed ==> w in allWords && IsSubsequence(pattern, w)
      ensures Feed(fed, block, st).0 == st'
      ensures Feed(fed, block, st).1 ==> forall w :: w in allWords && IsSubsequence(pattern, w) ==> w in fed
      ensures fed != [] ==> Feed(fed[..|fed| - 1], block, st).1
    {
      var found := SearchNode(pattern);
      if found.Some? {
        st', fed := FeedAll(found.value, block, st);
      } else {
        st', fed := st, [];
      }
      forall w | w in fed ensures w in allWords && IsSubsequence(pattern, w) {
        MatchingAsIs(allWords, pattern, w);
      }
      forall w | Feed(fed, block, st).1 && w in allWords && IsSubsequence(pattern, w) ensures w in fed {
        MatchingAsIs(allWords, pattern, w);
      }
    }

    /**
     * `insert`: an empty or already stored word is ignored; otherwise the
     * word is stored and filed under each of its subsequences, in an order
     * `shuffled()` leaves open.
     */
    method Insert(word: string)
      requires Valid()
      modifies this
      ensures Valid()
      ensures allWords == if word == [] then old(allWords) else old(allWords) + {word}
      ensures word == [] || word in old(allWords) ==> root == old(root)
    {
      if word == [] || word in allWords {
        return;
      }
      var subsequences := AllSubsequences(word);
      var order: seq<string> :| multiset(order) == multiset(subsequences);
      forall x | x in order ensures x != [] {
        assert x in multiset(order);
        AllSubsequencesSound(word, x);
      }
      var u := AddToAll(root, order, word);
      forall k ensures k in order <==> k in subsequences {
        assert k in order <==> k in multiset(order);
      }
      AddKeepsIndex(root, u, allWords, false, word);
      root := u;
      allWords := allWords + {word};
    }

    /**
     * `delete`: a word that is not stored is ignored; otherwise it is
     * dropped and taken from under each of its subsequences, and nodes left
     * with no word and no child are unlinked, so the last delete leaves
     * `nil`.
     */
    method Delete(word: string)
      requires Valid()
      modifies this
      ensures Valid()
      ensures allWords == old(allWords) - {word}
      ensures word !in old(allWords) ==> root == old(root)
      ensures allWords == {} ==> root == TS.Nil
    {
      if word !in allWords {
        if allWords == {} {
          NoWordsIsNil(root);
        }
        return;
      }
      allWords := allWords - {word};
      var subsequences := AllSubsequences(word);
      forall x | x in subsequences ensures x != [] {
        AllSubsequencesSound(word, x);
      }
      var u := RemoveFromAll(root, subsequences, word);
      RemoveKeepsIndex(root, u, old(allWords), false, word);
      root := u;
      if allWords == {} {
        NoWordsIsNil(root);
      }
    }
  }

  /**
   * `SubseqTSTree`: like `STSTree`, but with `ignoringCase` the words are
   * filed under the subsequences of their lower-cased form (the words
   * themselves are stored as they are) and the pattern is lower-cased too.
   */
  class SubseqTSTree {
    var root: WordNode
    var allWords: set<string>
    const ignoringCase: bool

    ghost predicate Valid()
      reads this
    {
      Indexes(root, allWords, ignoringCase)
    }

    /** `init(ignoringCase:)`: an empty tree. */
    constructor (ignoringCase: bool)
      ensures Valid() && root == TS.Nil && allWords == {} && this.ignoringCase == ignoringCase
    {
      root := TS.Nil;
      allWords := {};
      this.ignoringCase := ignoringCase;
    }

    /** `count` */
    function Count(): (n: nat)
      reads this
      ensures n == 0 <==> allWords == {}
    {
      |allWords|
    }

    /**
     * `search(_:maxResults:)`: the pattern must be non-empty; up to
     * `maxResults` of the words whose filed form has the (folded) pattern
     * as a subsequence, none when the walk falls off the tree (whatever the
     * limit: only a walk that ends on a node reaches the trapping
     * `prefix(_:)` with a negative `maxResults`).
     */
    method Search(pattern: string, maxResults: int) returns (r: seq<string>)
      requires Valid() && pattern != []
      requires maxResults >= 0 || TS.FindNode(root, Folded(ignoringCase, pattern), 0).Nil?
      ensures Tries.Distinct(r)
      ensures forall w :: w in r ==> w in allWords && IsSubsequence(Folded(ignoringCase, pattern), Folded(ignoringCase, w))
      ensures var m := Matching(allWords, Folded(ignoringCase, pattern), ignoringCase);
        |r| == if maxResults <= 0 then 0 else if maxResults < |m| then maxResults else |m|
    {
      var key := if ignoringCase then Lower(pattern) else pattern;
      var n := Walk(root, key);
      WalkFinds(root, key);
      if n.Node? {
        r := SomeOf(WordsOf(n.value), maxResults);
      } else {
        r := [];
      }
    }

    /** `insert`: an empty or already stored word is ignored; otherwise it is filed under every subsequence of its folded form. */
    method Insert(word: string)
      requires Valid()
      modifies this
      ensures Valid()
      ensures allWords == if word == [] then old(allWords) else old(allWords) + {word}
      ensures word == [] || word in old(allWords) ==> root == old(root)
    {
      if word == [] || word in allWords {
        return;
      }
      var folded := if ignoringCase then Lower(word) else word;
      var subsequences := AllSubsequences(folded);
      var order: seq<string> :| multiset(order) == multiset(subsequences);
      forall x | x in order ensures x != [] {
        assert x in multiset(order);
        AllSubsequencesSound(folded, x);
      }
      var u := AddToAll(root, order, word);
      forall k ensures k in order <==> k in subsequences {
        assert k in order <==> k in multiset(order);
      }
      AddKeepsIndex(root, u, allWords, ignoringCase, word);
      root := u;
      allWords := allWords + {word};
    }

    /** `delete`: a word that is not stored is ignored; otherwise it leaves every node of its folded subsequences, and the last delete leaves `nil`. */
    method Delete(word: string)
      requires Valid()
      modifies this
      ensures Valid()
      ensures allWords == old(allWords) - {word}
      ensures word !in old(allWords) ==> root == old(root)
      ensures allWords == {} ==> root == TS.Nil
    {
      if word !in allWords {
        if allWords == {} {
          NoWordsIsNil(root);
        }
        return;
      }
      allWords := allWords - {word};
      var folded := if ignoringCase then Lower(word) else word;
      var subsequences := AllSubsequences(folded);
      forall x | x in subsequences ensures x != [] {
        AllSubsequencesSound(folded, x);
      }
      var u := RemoveFromAll(root, subsequences, word);
      RemoveKeepsIndex(root, u, old(allWords), ignoringCase, word);
      root := u;
      if allWords == {} {
        NoWordsIsNil(root);
      }
    }
  }

  /**
   * `SubsequenceTST`: words are filed under the subsequences of their
   * lower-cased form, with the word added to every node on each path; there
   * is no delete.
   */
  class SubsequenceTST {
    var root: WordNode
    var allWords: set<string>

    ghost predicate Valid()
      reads this
    {
      Indexes(root, allWords, true)
    }

    constructor ()
      ensures Valid() && root == TS.Nil && allWords == {}
    {
      root := TS.Nil;
      allWords := {};
    }

    /**
     * `insert`: no check for an empty or repeated word; the word is added
     * to the node of every prefix of every subsequence (`generateSubsequences`)
     * of its lower-cased form.
     */
    method Insert(word: string)
      requires Valid()
      modifies this
      ensures Valid()
      ensures allWords == old(allWords) + {word}
    {
      var lowerWord := Lower(word);
      var subsequences := AllSubsequences(lowerWord);
      forall x | x in subsequences ensures x != [] {
        AllSubsequencesSound(lowerWord, x);
      }
      var u := AddAlongAll(root, subsequences, word);
      forall k ensures Covered(k, subsequences) <==> k in subsequences {
        CoveredSubsequences(k, lowerWord);
      }
      AddKeepsIndex(root, u, allWords, true, word);
      root := u;
      allWords := allWords + {word};
    }

    /**
     * `search(_:maxResults:)`: up to `maxResults` words whose lower-cased
     * form has the lower-cased pattern as a subsequence; none for an empty
     * pattern or when the walk falls off the tree, whatever the limit (a
     * negative `maxResults` traps in `prefix(_:)` only at a node).
     */
    method Search(pattern: string, maxResults: int) returns (r: seq<string>)
      requires Valid()
      requires maxResults >= 0 || pattern == [] || TS.FindNode(root, Lower(pattern), 0).Nil?
      ensures pattern == [] ==> r == []
      ensures Tries.Distinct(r)
      ensures forall w :: w in r ==> w in allWords && IsSubsequence(Lower(pattern), Lower(w))
      ensures pattern != [] ==> var m := Matching(allWords, Lower(pattern), true);
        |r| == if maxResults <= 0 then 0 else if maxResults < |m| then maxResults else |m|
    {
      var lowerPattern := Lower(pattern);
      if lowerPattern == [] {
        return [];
      }
      var n := Walk(root, lowerPattern);
      WalkFinds(root, lowerPattern);
      if n.Node? {
        r := SomeOf(WordsOf(n.value), maxResults);
      } else {
        r := [];
      }
      forall w | w in r ensures w in allWords && IsSubsequence(Lower(pattern), Lower(w)) {
        MatchingLowered(allWords, lowerPattern, w);
      }
    }

    /** How many words the exact search with its default limit of 5 yields. */
    ghost function ExactCount(query: string): nat
      reads this
    {
      if query == [] then 0
      else var m := |Matching(allWords, Lower(query), true)|; if m < 5 then m else 5
    }

    /** A word the fuzzy search may return: a subsequence match or one within `maxDistance` edits. */
    ghost predicate FuzzyHit(query: string, maxDistance: int, w: string)
      reads this
    {
      w in allWords &&
      ((query != [] && IsSubsequence(Lower(query), Lower(w))) || ED.Distance(Lower(w), Lower(query)) <= maxDistance)
    }

    /** The first phase of `fuzzySearch`: the exact search with its default limit of 5, as a set. */
    method ExactPhase(query: string, ghost maxDistance: int) returns (results: set<string>)
      requires Valid()
      ensures |results| == ExactCount(query)
      ensures forall w :: w in results ==> query != [] && w in allWords && IsSubsequence(Lower(query), Lower(w))
      ensures query != [] && ExactCount(query) < 5 ==>
        forall w :: w in allWords && IsSubsequence(Lower(query), Lower(w)) ==> w in results
      ensures forall w :: w in results ==> FuzzyHit(query, maxDistance, w)
    {
      var lowerQuery := Lower(query);
      LowerIdempotent(query);
      var exact := Search(lowerQuery, 5);
      results := set w | w in exact;
      Tries.DistinctCard(exact, results);
      if query != [] && ExactCount(query) < 5 {
        var m := Matching(allWords, Lower(query), true);
        forall w | w in results ensures w in m {
          MatchingLowered(allWords, Lower(query), w);
        }
        SubsetCard(results, m);
        forall w | w in allWords && IsSubsequence(Lower(query), Lower(w)) ensures w in results {
          MatchingLowered(allWords, Lower(query), w);
        }
      }
    }

    /**
     * The second phase of `fuzzySearch`: visit the words in the unspecified
     * order of the set and add those within `maxDistance` edits, until
     * `maxResults` are found.
     */
    method FuzzyPhase(query: string, maxDistance: int, maxResults: int, found: set<string>) returns (results: set<string>)
      requires (query != [] && [] !in allWords) || allWords == {}
      requires |found| < maxResults
      requires forall w :: w in found ==> FuzzyHit(query, maxDistance, w)
      ensures found <= results && |results| <= maxResults
      ensures forall w :: w in results ==> FuzzyHit(query, maxDistance, w)
      ensures |results| < maxResults ==>
        forall w :: w in allWords && ED.Distance(Lower(w), Lower(query)) <= maxDistance ==> w in results
    {
      results := found;
      var lowerQuery := Lower(query);
      var rest := allWords;
      while rest != {}
        invariant rest <= allWords && found <= results && |results| < maxResults
        invariant forall w :: w in results ==> FuzzyHit(query, maxDistance, w)
        invariant forall w :: w in allWords - rest && ED.Distance(Lower(w), lowerQuery) <= maxDistance ==> w in results
        decreases rest
      {
        var w :| w in rest;
        assert w in allWords;
        rest := rest - {w};
        var hit := ED.IsFuzzyMatch(Lower(w), lowerQuery, maxDistance);
        if hit {
          results := results + {w};
          if |results| >= maxResults {
            return;
          }
        }
      }
    }

    /**
     * `fuzzySearch`: the exact search (limited to 5), then, while fewer than
     * `maxResults` are found, the words whose lower-cased form is within
     * `maxDistance` edits of the lower-cased query; at most `maxResults` of
     * them are returned. The edit distance traps on an empty string, so
     * when the second phase runs and there are words to scan, the query and
     * every word must be non-empty.
     */
    method FuzzySearch(query: string, maxDistance: int, maxResults: int) returns (r: seq<string>)
      requires Valid() && maxResults >= 0
      requires maxResults <= ExactCount(query) || (query != [] && [] !in allWords) || allWords == {}
      ensures Tries.Distinct(r) && |r| <= maxResults
      ensures |r| >= if maxResults < ExactCount(query) then maxResults else ExactCount(query)
      ensures forall w :: w in r ==> FuzzyHit(query, maxDistance, w)
      ensures query != [] && ExactCount(query) < 5 && ExactCount(query) <= maxResults ==>
        forall w :: w in allWords && IsSubsequence(Lower(query), Lower(w)) ==> w in r
      ensures |r| < maxResults ==>
        forall w :: w in allWords && ED.Distance(Lower(w), Lower(query)) <= maxDistance ==> w in r
    {
      var exact := ExactPhase(query, maxDistance);
      var results := exact;
      if |results| < maxResults {
        results := FuzzyPhase(query, maxDistance, maxResults, results);
      }
      SubsetCard(exact, results);
      r := SomeOf(results, maxResults);
    }
  }
}
