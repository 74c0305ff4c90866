/*
 * `Trie`: a trie whose nodes keep their children in a dictionary keyed by
 * character. The node graph is a value (`TrieNode`), the trie object a class
 * whose `root` and `count` its methods reassign. Swift's dictionary iteration
 * order is unspecified, so the traversals pick the next child with `:|` and
 * their contracts say nothing about order.
 */
module Tries {
  import opened Wrappers
  import TS = TernarySearch

  /** A node: the children dictionary and an optional value. */
  datatype TrieNode<V> = TrieNode(children: map<char, TrieNode<V>>, value: Option<V>)

  /** `Node()`: no children, no value. */
  function EmptyNode<V>(): TrieNode<V> {
    TrieNode(map[], None)
  }

  /** The value stored under `k` (relative to `t`): follow one child per character. */
  ghost function Stored<V>(t: TrieNode<V>, k: string): Option<V>
    decreases |k|
  {
    if k == [] then t.value
    else if k[0] in t.children then Stored(t.children[k[0]], k[1..])
    else None
  }

  /** The keys stored below `t`, relative to it. */
  ghost function KeySet<V>(t: TrieNode<V>): set<string>
    decreases t
  {
    (if t.value.Some? then {[]} else {}) +
    (set c, s | c in t.children && s in KeySet(t.children[c]) :: [c] + s)
  }

  lemma {:induction false} KeySetStored<V>(t: TrieNode<V>, k: string)
    ensures k in KeySet(t) <==> Stored(t, k).Some?
    decreases |k|
  {
    if k != [] {
      assert k == [k[0]] + k[1..];
      if k[0] in t.children {
        KeySetStored(t.children[k[0]], k[1..]);
      }
      if k in KeySet(t) {
        var c, s :| c in t.children && s in KeySet(t.children[c]) && k == [c] + s;
        assert c == k[0] && s == k[1..];
      }
    }
  }

  /** Two tries that store the same values have the same key set. */
  lemma KeySetsFromStored<V>(t: TrieNode<V>, u: TrieNode<V>, key: string, added: bool)
    requires forall x :: x != key ==> Stored(u, x) == Stored(t, x)
    requires Stored(u, key).Some? == added
    ensures KeySet(u) == if added then KeySet(t) + {key} else KeySet(t) - {key}
  {
    forall x ensures x in KeySet(u) <==> x in (if added then KeySet(t) + {key} else KeySet(t) - {key}) {
      KeySetStored(t, x);
      KeySetStored(u, x);
    }
  }

  /** Adding or removing one element changes a set's size by one exactly when it was absent or present. */
  lemma CardChange<T>(S: set<T>, U: set<T>, k: T, add: bool)
    requires U == if add then S + {k} else S - {k}
    ensures add ==> |U| == |S| + if k in S then 0 else 1
    ensures !add ==> |U| == |S| - if k in S then 1 else 0
  {
    if add && k in S {
      assert U == S;
    } else if !add && k !in S {
      assert U == S;
    }
  }

  /** A node with neither value nor children. */
  predicate IsEmptyNode<V>(t: TrieNode<V>) {
    t.children == map[] && t.value.None?
  }

  /** No node below the root is left with neither value nor children. */
  ghost predicate Pruned<V>(t: TrieNode<V>)
    decreases t
  {
    forall c :: c in t.children ==> !IsEmptyNode(t.children[c]) && Pruned(t.children[c])
  }

  /** Every node below the root of a pruned trie stores some key. */
  lemma {:induction false} PrunedStores<V>(t: TrieNode<V>) returns (k: string)
    requires Pruned(t) && !IsEmptyNode(t)
    ensures Stored(t, k).Some?
    decreases t
  {
    if t.value.Some? {
      k := [];
    } else {
      var c :| c in t.children;
      var s := PrunedStores(t.children[c]);
      k := [c] + s;
      assert k[1..] == s;
    }
  }

  // ----- descending: `get`, `findPrefixNode` -----

  /** The node reached from `t` by following the characters of `s`; `None` when a child is missing. */
  function Descend<V>(t: TrieNode<V>, s: string): Option<TrieNode<V>>
    decreases |s|
  {
    if s == [] then Some(t)
    else if s[0] in t.children then Descend(t.children[s[0]], s[1..])
    else None
  }

  /** The node reached for `p` stores what the trie stores below `p`; no key extends `p` when there is none. */
  lemma {:induction false} DescendSound<V>(t: TrieNode<V>, p: string)
    ensures Descend(t, p).Some? ==> forall s :: Stored(Descend(t, p).value, s) == Stored(t, p + s)
    ensures Descend(t, p).None? ==> forall s :: Stored(t, p + s).None?
    decreases |p|
  {
    if p != [] {
      forall s ensures (p + s)[0] == p[0] && (p + s)[1..] == p[1..] + s {
      }
      if p[0] in t.children {
        DescendSound(t.children[p[0]], p[1..]);
      }
    } else {
      forall s ensures p + s == s {
      }
    }
  }

  // ----- insert -----

  /** Result of an insertion: the new node and whether `count` is incremented. */
  datatype Inserted<V> = Inserted(node: TrieNode<V>, added: bool)

  /**
   * `insert` below `t` for `key[i..]`: follow or create the child for each
   * character, then set the value; `count` grows when there was none.
   */
  function Put<V>(t: TrieNode<V>, key: string, value: V, i: nat): Inserted<V>
    requires i <= |key|
    decreases |key| - i
  {
    if i == |key| then Inserted(t.(value := Some(value)), t.value.None?)
    else
      var c := key[i];
      var child := if c in t.children then t.children[c] else EmptyNode();
      var sub := Put(child, key, value, i + 1);
      Inserted(t.(children := t.children[c := sub.node]), sub.added)
  }

  /** `insert` stores the value under the key, changes nothing else, keeps the trie pruned, and adds exactly when the key was absent. */
  lemma {:induction false} PutSound<V>(t: TrieNode<V>, key: string, value: V, i: nat)
    requires i <= |key|
    ensures forall x :: Stored(Put(t, key, value, i).node, x) == if x == key[i..] then Some(value) else Stored(t, x)
    ensures Put(t, key, value, i).added == Stored(t, key[i..]).None?
    ensures !IsEmptyNode(Put(t, key, value, i).node)
    ensures Pruned(t) ==> Pruned(Put(t, key, value, i).node)
    decreases |key| - i
  {
    if i < |key| {
      var c := key[i];
      var child := if c in t.children then t.children[c] else EmptyNode();
      PutSound(child, key, value, i + 1);
      var u := Put(t, key, value, i).node;
      assert key[i..][0] == c && key[i..][1..] == key[i + 1..];
      forall x ensures Stored(u, x) == if x == key[i..] then Some(value) else Stored(t, x) {
        if x != [] && x[0] == c {
          assert x == key[i..] <==> x[1..] == key[i + 1..];
        }
      }
    }
  }

  /** `insert` from the root: the key set grows by the key, and `count` with it exactly when the key is new. */
  lemma PutAtRoot<V>(t: TrieNode<V>, key: string, value: V)
    ensures forall x :: Stored(Put(t, key, value, 0).node, x) == if x == key then Some(value) else Stored(t, x)
    ensures Put(t, key, value, 0).added == Stored(t, key).None?
    ensures Pruned(t) ==> Pruned(Put(t, key, value, 0).node)
    ensures |KeySet(Put(t, key, value, 0).node)| == |KeySet(t)| + if Put(t, key, value, 0).added then 1 else 0
  {
    var u := Put(t, key, value, 0).node;
    PutSound(t, key, value, 0);
    assert key[0..] == key;
    KeySetsFromStored(t, u, key, true);
    KeySetStored(t, key);
    CardChange(KeySet(t), KeySet(u), key, true);
  }

  // ----- delete -----

  /** Result of a deletion: the new node and whether `count` is decremented. */
  datatype Deleted<V> = Deleted(node: TrieNode<V>, removed: bool)

  /**
   * `delete(_:from:index:)` below `t` for `key[i..]`: clear the value at the
   * end of the key, then, on the way back, unlink a child left with neither
   * children nor value; a missing child ends the search unchanged.
   */
  function Remove<V>(t: TrieNode<V>, key: string, i: nat): Deleted<V>
    requires i <= |key|
    decreases |key| - i
  {
    if i == |key| then
      if t.value.Some? then Deleted(t.(value := None), true) else Deleted(t, false)
    else
      var c := key[i];
      if c !in t.children then Deleted(t, false)
      else
        var sub := Remove(t.children[c], key, i + 1);
        if IsEmptyNode(sub.node) then Deleted(t.(children := t.children - {c}), sub.removed)
        else Deleted(t.(children := t.children[c := sub.node]), sub.removed)
  }

  /** `delete` removes the key, changes nothing else, keeps the trie pruned, and decrements exactly when the key was stored. */
  lemma {:induction false} RemoveSound<V>(t: TrieNode<V>, key: string, i: nat)
    requires i <= |key|
    ensures forall x :: Stored(Remove(t, key, i).node, x) == if x == key[i..] then None else Stored(t, x)
    ensures Remove(t, key, i).removed == Stored(t, key[i..]).Some?
    ensures Pruned(t) ==> Pruned(Remove(t, key, i).node)
    decreases |key| - i
  {
    if i < |key| && key[i] in t.children {
      var c := key[i];
      RemoveSound(t.children[c], key, i + 1);
      var sub := Remove(t.children[c], key, i + 1);
      var u := Remove(t, key, i).node;
      assert key[i..][0] == c && key[i..][1..] == key[i + 1..];
      forall x ensures Stored(u, x) == if x == key[i..] then None else Stored(t, x) {
        if x != [] && x[0] == c {
          assert x == key[i..] <==> x[1..] == key[i + 1..];
          if IsEmptyNode(sub.node) {
            assert Stored(sub.node, x[1..]).None?;
          }
        }
      }
    } else if i < |key| {
      assert key[i..][0] == key[i];
    }
  }

  /** Deleting a key that is not stored changes nothing. */
  lemma {:induction false} RemoveAbsent<V>(t: TrieNode<V>, key: string, i: nat)
    requires i <= |key| && Pruned(t) && Stored(t, key[i..]).None?
    ensures Remove(t, key, i) == Deleted(t, false)
    decreases |key| - i
  {
    if i < |key| && key[i] in t.children {
      var c := key[i];
      assert key[i..][0] == c && key[i..][1..] == key[i + 1..];
      RemoveAbsent(t.children[c], key, i + 1);
      assert t.children[c := t.children[c]] == t.children;
    }
  }

  /** `delete` from the root: the key set loses the key, and `count` with it exactly when the key was stored. */
  lemma RemoveAtRoot<V>(t: TrieNode<V>, key: string)
    requires Pruned(t)
    ensures forall x :: Stored(Remove(t, key, 0).node, x) == if x == key then None else Stored(t, x)
    ensures Remove(t, key, 0).removed == Stored(t, key).Some?
    ensures Pruned(Remove(t, key, 0).node)
    ensures |KeySet(Remove(t, key, 0).node)| == |KeySet(t)| - if Remove(t, key, 0).removed then 1 else 0
    ensures Stored(t, key).None? ==> Remove(t, key, 0).node == t
  {
    RemoveSound(t, key, 0);
    assert key[0..] == key;
    if Stored(t, key).None? {
      RemoveAbsent(t, key, 0);
    }
    var u := Remove(t, key, 0).node;
    KeySetsFromStored(t, u, key, false);
    KeySetStored(t, key);
    CardChange(KeySet(t), KeySet(u), key, false);
  }

  // ----- findPrefix(of:) -----

  /** The length of the longest non-empty stored key among `q[..1]`, ..., `q[..j]`; 0 when there is none. */
  ghost function Longest<V>(t: TrieNode<V>, q: string, j: nat): (r: nat)
    requires j <= |q|
    ensures r <= j
    ensures r > 0 ==> Stored(t, q[..r]).Some?
    ensures forall i :: r < i <= j ==> Stored(t, q[..i]).None?
  {
    if j == 0 then 0 else if Stored(t, q[..j]).Some? then j else Longest(t, q, j - 1)
  }

  lemma {:induction false} LongestUpTo<V>(t: TrieNode<V>, q: string, j: nat, k: nat)
    requires j <= k <= |q|
    requires forall i :: j < i <= k ==> Stored(t, q[..i]).None?
    ensures Longest(t, q, k) == Longest(t, q, j)
    decreases k
  {
    if k > j {
      LongestUpTo(t, q, j, k - 1);
    }
  }

  /** `node` stands for `q[..i]`: it stores exactly what the trie stores below that prefix. */
  ghost predicate At<V>(t: TrieNode<V>, q: string, i: nat, node: TrieNode<V>)
    requires i <= |q|
  {
    forall s :: Stored(node, s) == Stored(t, q[..i] + s)
  }

  lemma AtStart<V>(t: TrieNode<V>, q: string)
    ensures At(t, q, 0, t)
  {
    assert q[..0] == [];
    forall s ensures Stored(t, s) == Stored(t, q[..0] + s) {
      assert q[..0] + s == s;
    }
  }

  lemma AtChild<V>(t: TrieNode<V>, q: string, i: nat, node: TrieNode<V>)
    requires i < |q| && At(t, q, i, node) && q[i] in node.children
    ensures At(t, q, i + 1, node.children[q[i]])
  {
    forall s ensures Stored(node.children[q[i]], s) == Stored(t, q[..i + 1] + s) {
      var k := [q[i]] + s;
      assert k[0] == q[i] && k[1..] == s;
      assert q[..i] + k == q[..i + 1] + s;
    }
  }

  /** A missing child ends every longer stored prefix. */
  lemma AtMissing<V>(t: TrieNode<V>, q: string, i: nat, node: TrieNode<V>)
    requires i < |q| && At(t, q, i, node) && q[i] !in node.children
    ensures forall j :: i < j <= |q| ==> Stored(t, q[..j]).None?
  {
    forall j | i < j <= |q| ensures Stored(t, q[..j]).None? {
      var s := q[i..j];
      assert s[0] == q[i];
      assert q[..i] + s == q[..j];
    }
  }

  // ----- traversal: `enumerateFromNodeHelper` / `traverse` -----

  /** No two entries share a key. */
  predicate DistinctKeys<V>(es: seq<(string, V)>) {
    forall i, j :: 0 <= i < j < |es| ==> es[i].0 != es[j].0
  }

  /** No element occurs twice. */
  predicate Distinct<T(==)>(xs: seq<T>) {
    forall i, j :: 0 <= i < j < |xs| ==> xs[i] != xs[j]
  }

  lemma DistinctKeysAppend<V>(a: seq<(string, V)>, b: seq<(string, V)>)
    requires DistinctKeys(a) && DistinctKeys(b)
    requires forall x, y :: x in a && y in b ==> x.0 != y.0
    ensures DistinctKeys(a + b)
  {
    forall i, j | 0 <= i < j < |a + b| ensures (a + b)[i].0 != (a + b)[j].0 {
      if j < |a| {
      } else if i >= |a| {
        assert (a + b)[i] == b[i - |a|] && (a + b)[j] == b[j - |a|];
      } else {
        assert (a + b)[i] in a && (a + b)[j] in b;
      }
    }
  }

  /**
   * What the walk below `t` (the path to it spelling `p`) has visited so far,
   * with the children in `rest` still to go: each visited entry is a stored
   * key below `p` with its value, outside the children still to go.
   */
  ghost predicate VisitedSound<V>(t: TrieNode<V>, p: string, visited: seq<(string, V)>, rest: set<char>) {
    forall e :: e in visited ==>
      TS.IsPrefix(p, e.0) && Stored(t, e.0[|p|..]) == Some(e.1) && (|e.0| == |p| || e.0[|p|] !in rest)
  }

  /** Every stored key below `p` outside the children in `rest` has been visited. */
  ghost predicate VisitedComplete<V>(t: TrieNode<V>, p: string, visited: seq<(string, V)>, rest: set<char>) {
    forall s :: Stored(t, s).Some? && (s == [] || s[0] !in rest) ==> (p + s, Stored(t, s).value) in visited
  }

  /** The walk's first step: the node's own value, visited before any child. */
  lemma VisitOwn<V>(t: TrieNode<V>, p: string, own: seq<(string, V)>)
    requires own == if t.value.Some? then [(p, t.value.value)] else []
    ensures VisitedSound(t, p, own, t.children.Keys) && DistinctKeys(own)
    ensures VisitedComplete(t, p, own, t.children.Keys)
  {
    assert p + [] == p && p[|p|..] == [];
  }

  /** Appending the walk of child `c` to what was visited keeps the invariants, with `c` done. */
  lemma VisitChild<V>(t: TrieNode<V>, p: string, visited: seq<(string, V)>, rest: set<char>, c: char, v: seq<(string, V)>, complete: bool)
    requires c in rest && rest <= t.children.Keys
    requires VisitedSound(t, p, visited, rest) && DistinctKeys(visited)
    requires VisitedSound(t.children[c], p + [c], v, {}) && DistinctKeys(v)
    requires complete ==> VisitedComplete(t, p, visited, rest)
    requires complete ==> VisitedComplete(t.children[c], p + [c], v, {})
    ensures VisitedSound(t, p, visited + v, rest - {c}) && DistinctKeys(visited + v)
    ensures complete ==> VisitedComplete(t, p, visited + v, rest - {c})
  {
    var child := t.children[c];
    forall e | e in v
      ensures TS.IsPrefix(p, e.0) && |e.0| > |p| && e.0[|p|] == c && Stored(t, e.0[|p|..]) == Some(e.1)
    {
      assert e.0[..|p|] == e.0[..|p| + 1][..|p|];
      var k := e.0[|p|..];
      assert k[0] == c && k[1..] == e.0[|p| + 1..];
    }
    forall x, y | x in visited && y in v ensures x.0 != y.0 {
    }
    DistinctKeysAppend(visited, v);
    if complete {
      forall s | Stored(t, s).Some? && (s == [] || s[0] !in rest - {c})
        ensures (p + s, Stored(t, s).value) in visited + v
      {
        if s != [] && s[0] == c {
          assert Stored(child, s[1..]).Some?;
          assert p + [c] + s[1..] == p + s;
        }
      }
    }
  }

  /** One turn of the loop over the children: the walk of child `c` appended to what was visited keeps every invariant. */
  lemma VisitStep<V, S>(t: TrieNode<V>, p: string, block: (S, string, V) -> (S, bool), st: S,
                        visited: seq<(string, V)>, rest: set<char>, c: char, v: seq<(string, V)>)
    requires c in rest && rest <= t.children.Keys
    requires TS.Run(visited, block, st).1
    requires VisitedSound(t, p, visited, rest) && DistinctKeys(visited)
    requires VisitedComplete(t, p, visited, rest)
    requires VisitedSound(t.children[c], p + [c], v, {}) && DistinctKeys(v)
    requires TS.Run(v, block, TS.Run(visited, block, st).0).1 ==> VisitedComplete(t.children[c], p + [c], v, {})
    requires TS.StopsAtLast(v, block, TS.Run(visited, block, st).0)
    ensures TS.Run(visited + v, block, st) == TS.Run(v, block, TS.Run(visited, block, st).0)
    ensures VisitedSound(t, p, visited + v, rest - {c}) && DistinctKeys(visited + v)
    ensures TS.Run(visited + v, block, st).1 ==> VisitedComplete(t, p, visited + v, rest - {c})
    ensures !TS.Run(visited + v, block, st).1 ==> VisitedSound(t, p, visited + v, {})
    ensures TS.StopsAtLast(visited + v, block, st)
  {
    TS.RunAppend(visited, v, block, st);
    TS.StopsAtLastAppend(visited, v, block, st);
    VisitChild(t, p, visited, rest, c, v, TS.Run(v, block, TS.Run(visited, block, st).0).1);
  }

  /**
   * `enumerateFromNodeHelper`: the block on the node's own value, then the
   * walk of each child in the dictionary's order, stopping as soon as the
   * block answers false. `visited` lists the entries the block was called
   * on; the walk is complete when it did not stop.
   */
  method Visit<V, S>(t: TrieNode<V>, p: string, block: (S, string, V) -> (S, bool), st: S)
    returns (st': S, cont: bool, ghost visited: seq<(string, V)>)
    ensures (st', cont) == TS.Run(visited, block, st)
    ensures VisitedSound(t, p, visited, {}) && DistinctKeys(visited)
    ensures cont ==> VisitedComplete(t, p, visited, {})
    ensures TS.StopsAtLast(visited, block, st)
    decreases t, 2
  {
    visited := if t.value.Some? then [(p, t.value.value)] else [];
    VisitOwn(t, p, visited);
    st' := st;
    if t.value.Some? {
      var a := block(st, p, t.value.value);
      st' := a.0;
      if !a.1 {
        return st', false, visited;
      }
    }
    st', cont, visited := VisitChildren(t, p, block, st, st', visited);
  }

  /** The loop of `enumerateFromNodeHelper` over the children, after the node's own value was accepted. */
  method VisitChildren<V, S>(t: TrieNode<V>, p: string, block: (S, string, V) -> (S, bool), st: S, st0: S, ghost own: seq<(string, V)>)
    returns (st': S, cont: bool, ghost visited: seq<(string, V)>)
    requires (st0, true) == TS.Run(own, block, st)
    requires VisitedSound(t, p, own, t.children.Keys) && DistinctKeys(own)
    requires VisitedComplete(t, p, own, t.children.Keys)
    ensures (st', cont) == TS.Run(visited, block, st)
    ensures VisitedSound(t, p, visited, {}) && DistinctKeys(visited)
    ensures cont ==> VisitedComplete(t, p, visited, {})
    ensures TS.StopsAtLast(visited, block, st)
    decreases t, 1
  {
    visited := own;
    st' := st0;
    var rest := t.children.Keys;
    while rest != {}
      invariant rest <= t.children.Keys
      invariant (st', true) == TS.Run(visited, block, st)
      invariant VisitedSound(t, p, visited, rest) && DistinctKeys(visited)
      invariant VisitedComplete(t, p, visited, rest)
      decreases rest
    {
      var c :| c in rest;
      var childCont;
      st', childCont, visited := VisitOneChild(t, p, block, st, st', visited, rest, c);
      if !childCont {
        return st', false, visited;
      }
      rest := rest - {c};
    }
    cont := true;
    TS.RunStopsAtLast(visited, block, st);
  }

  /** One turn of the loop over the children: the walk of child `c`, appended to what was visited. */
  method VisitOneChild<V, S>(t: TrieNode<V>, p: string, block: (S, string, V) -> (S, bool), st: S, st0: S,
                             ghost visited: seq<(string, V)>, rest: set<char>, c: char)
    returns (st': S, cont: bool, ghost visited': seq<(string, V)>)
    requires c in rest && rest <= t.children.Keys
    requires (st0, true) == TS.Run(visited, block, st)
    requires VisitedSound(t, p, visited, rest) && DistinctKeys(visited)
    requires VisitedComplete(t, p, visited, rest)
    ensures (st', cont) == TS.Run(visited', block, st)
    ensures VisitedSound(t, p, visited', rest - {c}) && DistinctKeys(visited')
    ensures cont ==> VisitedComplete(t, p, visited', rest - {c})
    ensures !cont ==> VisitedSound(t, p, visited', {})
    ensures TS.StopsAtLast(visited', block, st)
    decreases t, 0
  {
    ghost var v;
    st', cont, v := Visit(t.children[c], p + [c], block, st0);
    VisitStep(t, p, block, st, visited, rest, c, v);
    visited' := visited + v;
  }

  // ----- search(_:): `searchPattern` -----

  /** One digit of a pattern match: the first digits agree (or the pattern has "."), and the rest matches. */
  lemma MatchesStep(x: string, pattern: string)
    requires x != [] && pattern != []
    ensures TS.Matches(x, pattern) <==> (pattern[0] == '.' || pattern[0] == x[0]) && TS.Matches(x[1..], pattern[1..])
  {
    if (pattern[0] == '.' || pattern[0] == x[0]) && TS.Matches(x[1..], pattern[1..]) {
      forall j | 0 <= j < |x| ensures pattern[j] == '.' || pattern[j] == x[j] {
        if j > 0 {
          assert pattern[j] == pattern[1..][j - 1] && x[j] == x[1..][j - 1];
        }
      }
    }
  }

  /** `x` is a stored key below `p` whose part after `p` matches `pattern[i..]`. */
  ghost predicate Hit<V>(t: TrieNode<V>, p: string, pattern: string, i: nat, x: string)
    requires i <= |pattern|
  {
    TS.IsPrefix(p, x) && Stored(t, x[|p|..]).Some? && TS.Matches(x[|p|..], pattern[i..])
  }

  /** A hit below child `c` is a hit below `t` whose digit after `p` is `c`, and conversely. */
  lemma HitChild<V>(t: TrieNode<V>, p: string, pattern: string, i: nat, c: char, x: string)
    requires i < |pattern| && c in t.children && (pattern[i] == '.' || pattern[i] == c)
    ensures Hit(t.children[c], p + [c], pattern, i + 1, x) <==> Hit(t, p, pattern, i, x) && |x| > |p| && x[|p|] == c
  {
    if TS.IsPrefix(p, x) && |x| > |p| {
      var k := x[|p|..];
      assert k[1..] == x[|p| + 1..];
      assert pattern[i..][1..] == pattern[i + 1..];
      MatchesStep(k, pattern[i..]);
      if x[|p|] == c {
        assert x[..|p| + 1] == x[..|p|] + [c];
      }
    }
    if TS.IsPrefix(p + [c], x) {
      assert x[..|p|] == x[..|p| + 1][..|p|];
    }
  }

  /** A hit below `t` for a non-final pattern position continues through a child. */
  lemma HitHasChild<V>(t: TrieNode<V>, p: string, pattern: string, i: nat, x: string)
    requires i < |pattern| && Hit(t, p, pattern, i, x)
    ensures |x| > |p| && x[|p|] in t.children && (pattern[i] == '.' || pattern[i] == x[|p|])
  {
    var k := x[|p|..];
    assert k[0] == x[|p|];
    assert pattern[i..][0] == pattern[i];
  }

  /** At the end of the pattern the only hit is the node's own key. */
  lemma HitAtEnd<V>(t: TrieNode<V>, p: string, pattern: string, x: string)
    ensures Hit(t, p, pattern, |pattern|, x) <==> x == p && t.value.Some?
  {
    assert p[|p|..] == [];
    if TS.IsPrefix(p, x) {
      assert |x[|p|..]| == |x| - |p|;
      assert x[|p|..] == [] ==> x == p;
    }
  }

  /** Under a digit that is not "." and has no child there is no hit. */
  lemma NoHitWithoutChild<V>(t: TrieNode<V>, p: string, pattern: string, i: nat)
    requires i < |pattern| && pattern[i] != '.' && pattern[i] !in t.children
    ensures forall x :: !Hit(t, p, pattern, i, x)
  {
    forall x | Hit(t, p, pattern, i, x) ensures false {
      HitHasChild(t, p, pattern, i, x);
    }
  }

  /** Under a digit that is not ".", the hits are those below its child. */
  lemma HitsOfDigit<V>(t: TrieNode<V>, p: string, pattern: string, i: nat, f: seq<string>)
    requires i < |pattern| && pattern[i] != '.' && pattern[i] in t.children
    requires forall x :: x in f <==> Hit(t.children[pattern[i]], p + [pattern[i]], pattern, i + 1, x)
    ensures forall x :: x in f <==> Hit(t, p, pattern, i, x)
  {
    forall x ensures x in f <==> Hit(t, p, pattern, i, x) {
      HitChild(t, p, pattern, i, pattern[i], x);
      if Hit(t, p, pattern, i, x) {
        HitHasChild(t, p, pattern, i, x);
      }
    }
  }

  /** The hits found so far under ".", with the children in `rest` still to go. */
  ghost predicate FoundSoFar<V>(t: TrieNode<V>, p: string, pattern: string, i: nat, found: seq<string>, rest: set<char>)
    requires i <= |pattern|
  {
    Distinct(found) &&
    (forall x :: x in found ==> Hit(t, p, pattern, i, x) && |x| > |p| && x[|p|] !in rest) &&
    (forall x :: Hit(t, p, pattern, i, x) && |x| > |p| && x[|p|] !in rest ==> x in found)
  }

  /** Under ".", adding the hits below child `d` keeps the bookkeeping, with `d` done. */
  lemma WildcardChild<V>(t: TrieNode<V>, p: string, pattern: string, i: nat, found: seq<string>, rest: set<char>, d: char, f: seq<string>)
    requires i < |pattern| && pattern[i] == '.' && d in rest && rest <= t.children.Keys
    requires FoundSoFar(t, p, pattern, i, found, rest)
    requires Distinct(f) && forall x :: x in f <==> Hit(t.children[d], p + [d], pattern, i + 1, x)
    ensures FoundSoFar(t, p, pattern, i, found + f, rest - {d})
  {
    forall x ensures x in f <==> Hit(t, p, pattern, i, x) && |x| > |p| && x[|p|] == d {
      HitChild(t, p, pattern, i, d, x);
    }
    forall a, b | 0 <= a < b < |found + f| ensures (found + f)[a] != (found + f)[b] {
      if b < |found| {
      } else if a >= |found| {
        assert (found + f)[a] == f[a - |found|] && (found + f)[b] == f[b - |found|];
      } else {
        assert (found + f)[a] in found && (found + f)[b] in f;
      }
    }
  }

  /** Under ".", once every child is done, every hit has been found. */
  lemma WildcardDone<V>(t: TrieNode<V>, p: string, pattern: string, i: nat, found: seq<string>)
    requires i < |pattern| && FoundSoFar(t, p, pattern, i, found, {})
    ensures forall x :: x in found <==> Hit(t, p, pattern, i, x)
  {
    forall x | Hit(t, p, pattern, i, x) ensures x in found {
      HitHasChild(t, p, pattern, i, x);
    }
  }

  /**
   * `searchPattern` below `t` (the path to it spelling `p`) for
   * `pattern[i..]`: at the end of the pattern the node's own key, under "."
   * every child in the dictionary's order, under a digit only that child.
   * It appends `found`: exactly the matching stored keys, each once.
   */
  method SearchPattern<V>(pattern: string, i: nat, t: TrieNode<V>, p: string, results: seq<string>)
    returns (results': seq<string>, found: seq<string>)
    requires i <= |pattern|
    ensures results' == results + found
    ensures Distinct(found)
    ensures forall x :: x in found <==> Hit(t, p, pattern, i, x)
    decreases |pattern| - i, 2
  {
    if i == |pattern| {
      found := if t.value.Some? then [p] else [];
      results' := results + found;
      forall x ensures x in found <==> Hit(t, p, pattern, i, x) {
        HitAtEnd(t, p, pattern, x);
      }
    } else if pattern[i] == '.' {
      results', found := SearchWildcard(pattern, i, t, p, results);
    } else if pattern[i] in t.children {
      var c := pattern[i];
      results', found := SearchPattern(pattern, i + 1, t.children[c], p + [c], results);
      HitsOfDigit(t, p, pattern, i, found);
    } else {
      found := [];
      results' := results;
      NoHitWithoutChild(t, p, pattern, i);
    }
  }

  /** The "." branch of `searchPattern`: the loop over the children of `t`. */
  method SearchWildcard<V>(pattern: string, i: nat, t: TrieNode<V>, p: string, results: seq<string>)
    returns (results': seq<string>, found: seq<string>)
    requires i < |pattern| && pattern[i] == '.'
    ensures results' == results + found
    ensures Distinct(found)
    ensures forall x :: x in found <==> Hit(t, p, pattern, i, x)
    decreases |pattern| - i, 1
  {
    found := [];
    results' := results;
    var rest := t.children.Keys;
    while rest != {}
      invariant rest <= t.children.Keys
      invariant results' == results + found
      invariant FoundSoFar(t, p, pattern, i, found, rest)
      decreases rest
    {
      results', found, rest := WildcardStep(pattern, i, t, p, results, results', found, rest);
    }
    WildcardDone(t, p, pattern, i, found);
  }

  /** One turn of the "." loop: search below one child still to go and append its hits. */
  method WildcardStep<V>(pattern: string, i: nat, t: TrieNode<V>, p: string, results: seq<string>,
                         acc: seq<string>, found: seq<string>, rest: set<char>)
    returns (acc': seq<string>, found': seq<string>, rest': set<char>)
    requires i < |pattern| && pattern[i] == '.' && rest != {} && rest <= t.children.Keys
    requires acc == results + found && FoundSoFar(t, p, pattern, i, found, rest)
    ensures rest' < rest && acc' == results + found' && FoundSoFar(t, p, pattern, i, found', rest')
    decreases |pattern| - i, 0
  {
    var d :| d in rest;
    var f;
    acc', f := SearchPattern(pattern, i + 1, t.children[d], p + [d], acc);
    WildcardChild(t, p, pattern, i, found, rest, d, f);
    AppendAssoc(results, found, f);
    found' := found + f;
    rest' := rest - {d};
  }

  // ----- from a walk below a node to the whole trie -----

  /** A walk below the node reached for `prefix` visits stored keys of the whole trie, and all of those starting with `prefix` when complete. */
  lemma VisitedBelow<V>(t: TrieNode<V>, prefix: string, node: TrieNode<V>, visited: seq<(string, V)>, complete: bool)
    requires forall s :: Stored(node, s) == Stored(t, prefix + s)
    requires VisitedSound(node, prefix, visited, {})
    requires complete ==> VisitedComplete(node, prefix, visited, {})
    ensures forall e :: e in visited ==> TS.IsPrefix(prefix, e.0) && Stored(t, e.0) == Some(e.1)
    ensures complete ==> forall x :: TS.IsPrefix(prefix, x) && Stored(t, x).Some? ==> (x, Stored(t, x).value) in visited
  {
    forall e | e in visited ensures Stored(t, e.0) == Some(e.1) {
      assert prefix + e.0[|prefix|..] == e.0;
    }
    if complete {
      forall x | TS.IsPrefix(prefix, x) && Stored(t, x).Some? ensures (x, Stored(t, x).value) in visited {
        var s := x[|prefix|..];
        assert prefix + s == x;
      }
    }
  }

  /** What a quota walk below the node reached for `prefix` collects: keys of the whole trie starting with `prefix`, each once, all of them when the quota is not used up. */
  lemma CollectedBelow<V>(root: TrieNode<V>, prefix: string, node: TrieNode<V>, n: int, visited: seq<(string, V)>, cont: bool, r: seq<string>)
    requires n > 0 && forall s :: Stored(node, s) == Stored(root, prefix + s)
    requires VisitedSound(node, prefix, visited, {}) && DistinctKeys(visited)
    requires cont ==> VisitedComplete(node, prefix, visited, {})
    requires (r, cont) == TS.Run(visited, TS.Collecting(n), [])
    ensures forall x :: x in r ==> TS.IsPrefix(prefix, x) && Stored(root, x).Some?
    ensures Distinct(r) && |r| <= n
    ensures |r| < n ==> forall x :: TS.IsPrefix(prefix, x) && Stored(root, x).Some? ==> x in r
  {
    VisitedBelow(root, prefix, node, visited, cont);
    TS.RunCollecting(visited, n, []);
    PrependEmpty(TS.Take(TS.KeysOf(visited), n));
    KeysDistinct(visited);
    if !cont {
      RunCollectingStops(visited, n, []);
    }
    TakenKeys(root, prefix, visited, n, r);
    if |r| < n {
      TakenAll(root, prefix, visited, n, r);
    }
  }

  /** The first `n` keys of entries stored in the trie under `prefix` are such keys, each once. */
  lemma TakenKeys<V>(root: TrieNode<V>, prefix: string, visited: seq<(string, V)>, n: int, r: seq<string>)
    requires r == TS.Take(TS.KeysOf(visited), n) && Distinct(TS.KeysOf(visited))
    requires forall e :: e in visited ==> TS.IsPrefix(prefix, e.0) && Stored(root, e.0) == Some(e.1)
    ensures forall x :: x in r ==> TS.IsPrefix(prefix, x) && Stored(root, x).Some?
    ensures Distinct(r)
  {
    forall x | x in r ensures TS.IsPrefix(prefix, x) && Stored(root, x).Some? {
      var j :| 0 <= j < |r| && r[j] == x;
      assert visited[j] in visited;
    }
  }

  /** Taking fewer than `n` keys of a complete walk takes every stored key under `prefix`. */
  lemma TakenAll<V>(root: TrieNode<V>, prefix: string, visited: seq<(string, V)>, n: int, r: seq<string>)
    requires r == TS.Take(TS.KeysOf(visited), n) && |r| < n
    requires forall x :: TS.IsPrefix(prefix, x) && Stored(root, x).Some? ==> (x, Stored(root, x).value) in visited
    ensures forall x :: TS.IsPrefix(prefix, x) && Stored(root, x).Some? ==> x in r
  {
    forall x | TS.IsPrefix(prefix, x) && Stored(root, x).Some? ensures x in r {
      var e := (x, Stored(root, x).value);
      var j :| 0 <= j < |visited| && visited[j] == e;
      assert TS.KeysOf(visited)[j] == x;
    }
  }

  /** The block `keys()` passes: append the key and go on. */
  function KeepAll<V>(): (seq<string>, string, V) -> (seq<string>, bool) {
    (res: seq<string>, k: string, v: V) => (res + [k], true)
  }

  lemma {:induction false} RunKeepAll<V>(es: seq<(string, V)>, res: seq<string>)
    ensures TS.Run(es, KeepAll(), res) == (res + TS.KeysOf(es), true)
  {
    if es == [] {
      assert res + TS.KeysOf(es) == res;
    } else {
      var next := res + [es[0].0];
      assert TS.Run(es, KeepAll(), res) == TS.Run(es[1..], KeepAll(), next) by {
        assert KeepAll<V>()(res, es[0].0, es[0].1) == (next, true);
      }
      RunKeepAll(es[1..], next);
      assert TS.KeysOf(es) == [es[0].0] + TS.KeysOf(es[1..]);
      AppendAssoc(res, [es[0].0], TS.KeysOf(es[1..]));
    }
  }

  /** When the quota block stops the walk, the quota is used up. */
  lemma {:induction false} RunCollectingStops<V>(es: seq<(string, V)>, n: int, res: seq<string>)
    requires |res| < n && !TS.Run(es, TS.Collecting(n), res).1
    ensures |TS.Run(es, TS.Collecting(n), res).0| == n
  {
    var a := TS.Collecting<V>(n)(res, es[0].0, es[0].1);
    if a.1 {
      RunCollectingStops(es[1..], n, a.0);
    }
  }

  lemma KeysDistinct<V>(es: seq<(string, V)>)
    requires DistinctKeys(es)
    ensures Distinct(TS.KeysOf(es))
  {
  }

  /** A list without repetition that holds exactly the elements of a set is as long as the set is large. */
  lemma {:induction false} DistinctCard<T>(xs: seq<T>, S: set<T>)
    requires Distinct(xs) && forall x :: x in xs <==> x in S
    ensures |xs| == |S|
  {
    if xs == [] {
      assert S == {};
    } else {
      var rest := xs[1..];
      forall x ensures x in rest <==> x in S - {xs[0]} {
        if x in rest {
          var j :| 0 <= j < |rest| && rest[j] == x;
          assert xs[j + 1] == x;
        }
      }
      DistinctCard(rest, S - {xs[0]});
    }
  }

  /** The keys of a complete walk of the trie are its stored keys. */
  lemma KeysOfVisited<V>(t: TrieNode<V>, ks: seq<string>, visited: seq<(string, V)>)
    requires ks == TS.KeysOf(visited)
    requires forall e :: e in visited ==> Stored(t, e.0) == Some(e.1)
    requires forall x :: Stored(t, x).Some? ==> (x, Stored(t, x).value) in visited
    ensures forall x :: x in ks <==> Stored(t, x).Some?
  {
    forall x | x in ks ensures Stored(t, x).Some? {
      var j :| 0 <= j < |ks| && ks[j] == x;
      assert visited[j] in visited;
    }
    forall x | Stored(t, x).Some? ensures x in ks {
      var j :| 0 <= j < |visited| && visited[j] == (x, Stored(t, x).value);
      assert ks[j] == x;
    }
  }

  // ----- the trie object -----

  /** `Trie`: the root node (never replaced) and the number of stored keys. */
  class Trie<V> {
    var root: TrieNode<V>
    var count: int

    /** No empty node hangs below the root, and `count` is the number of stored keys. */
    ghost predicate Valid()
      reads this
    {
      Pruned(root) && count == |KeySet(root)|
    }

    /** `init()`: a root with neither children nor value. */
    constructor ()
      ensures Valid() && root == EmptyNode() && count == 0
    {
      root := EmptyNode();
      count := 0;
      assert KeySet(EmptyNode<V>()) == {};
    }

    /** `get`: follow one child per character; the value of the node reached. */
    method Get(key: string) returns (r: Option<V>)
      ensures r == Stored(root, key)
    {
      var node := root;
      AtStart(root, key);
      for i := 0 to |key|
        invariant At(root, key, i, node)
      {
        if key[i] !in node.children {
          AtMissing(root, key, i, node);
          assert key[..|key|] == key;
          return None;
        }
        AtChild(root, key, i, node);
        node := node.children[key[i]];
      }
      assert key[..|key|] + [] == key;
      r := node.value;
    }

    /** `contains`: whether a value is stored under the key. */
    method Contains(key: string) returns (b: bool)
      ensures b <==> Stored(root, key).Some?
    {
      var r := Get(key);
      b := r.Some?;
    }

    /** `insert`: store the value under the key (the empty key at the root), replacing an old one; `count` grows when the key is new. */
    method Insert(key: string, value: V)
      requires Valid()
      modifies this
      ensures Valid()
      ensures forall x :: Stored(root, x) == if x == key then Some(value) else Stored(old(root), x)
      ensures count == old(count) + if Stored(old(root), key).None? then 1 else 0
    {
      var r := Put(root, key, value, 0);
      PutAtRoot(root, key, value);
      root := r.node;
      if r.added {
        count := count + 1;
      }
    }

    /** `delete`: remove the key and its value; `count` shrinks when the key was stored; an absent key changes nothing. */
    method Delete(key: string)
      requires Valid()
      modifies this
      ensures Valid()
      ensures forall x :: Stored(root, x) == if x == key then None else Stored(old(root), x)
      ensures count == old(count) - if Stored(old(root), key).Some? then 1 else 0
      ensures Stored(old(root), key).None? ==> root == old(root)
    {
      var d := Remove(root, key, 0);
      RemoveAtRoot(root, key);
      root := d.node;
      if d.removed {
        count := count - 1;
      }
    }

    /** `findPrefix(of:)`: the longest non-empty prefix of the query that is a stored key, or "". */
    method FindPrefix(query: string) returns (r: string)
      ensures r == query[..Longest(root, query, |query|)]
    {
      var node := root;
      var length := 0;
      var i := 0;
      AtStart(root, query);
      while i < |query|
        invariant i <= |query| && At(root, query, i, node)
        invariant length == Longest(root, query, i)
      {
        if query[i] !in node.children {
          AtMissing(root, query, i, node);
          LongestUpTo(root, query, i, |query|);
          break;
        }
        AtChild(root, query, i, node);
        node := node.children[query[i]];
        i := i + 1;
        assert Stored(root, query[..i]) == node.value by {
          assert query[..i] + [] == query[..i];
        }
        if node.value.Some? {
          length := i;
        }
      }
      r := query[..length];
    }

    /** `findPrefixNode`: the node reached by following the prefix, if any. */
    method FindPrefixNode(prefix: string) returns (n: Option<TrieNode<V>>)
      ensures n == Descend(root, prefix)
    {
      var node := root;
      for i := 0 to |prefix|
        invariant Descend(node, prefix[i..]) == Descend(root, prefix)
      {
        assert prefix[i..][0] == prefix[i] && prefix[i..][1..] == prefix[i + 1..];
        if prefix[i] !in node.children {
          return None;
        }
        node := node.children[prefix[i]];
      }
      assert prefix[|prefix|..] == [];
      n := Some(node);
    }

    /**
     * `enumerateKeysAndValues`: the block runs on stored entries, each once,
     * in the dictionaries' order, until it answers false; every entry when it
     * never does.
     */
    method EnumerateKeysAndValues<S>(block: (S, string, V) -> (S, bool), st: S)
      returns (st': S, ghost visited: seq<(string, V)>)
      ensures st' == TS.Run(visited, block, st).0
      ensures DistinctKeys(visited) && forall e :: e in visited ==> Stored(root, e.0) == Some(e.1)
      ensures TS.Run(visited, block, st).1 ==> forall x :: Stored(root, x).Some? ==> (x, Stored(root, x).value) in visited
      ensures TS.StopsAtLast(visited, block, st)
    {
      var cont;
      st', cont, visited := Visit(root, [], block, st);
      forall s ensures Stored(root, s) == Stored(root, [] + s) {
        assert [] + s == s;
      }
      VisitedBelow(root, [], root, visited, cont);
    }

    /** `enumerate(withPrefix:using:)`: the same, for the entries whose keys start with the prefix. */
    method EnumerateWithPrefix<S>(prefix: string, block: (S, string, V) -> (S, bool), st: S)
      returns (st': S, ghost visited: seq<(string, V)>)
      ensures st' == TS.Run(visited, block, st).0
      ensures DistinctKeys(visited)
      ensures forall e :: e in visited ==> TS.IsPrefix(prefix, e.0) && Stored(root, e.0) == Some(e.1)
      ensures TS.Run(visited, block, st).1 ==>
        forall x :: TS.IsPrefix(prefix, x) && Stored(root, x).Some? ==> (x, Stored(root, x).value) in visited
      ensures TS.StopsAtLast(visited, block, st)
    {
      var n := FindPrefixNode(prefix);
      DescendSound(root, prefix);
      if n.None? {
        st', visited := st, [];
        forall x | TS.IsPrefix(prefix, x) ensures Stored(root, x).None? {
          assert prefix + x[|prefix|..] == x;
        }
        return;
      }
      var cont;
      st', cont, visited := Visit(n.value, prefix, block, st);
      VisitedBelow(root, prefix, n.value, visited, cont);
    }

    /**
     * `search(withPrefix:maxResults:)`: distinct stored keys starting with
     * the prefix, at most `n` of them, and all of them when fewer than `n`
     * are returned; none when `n <= 0`.
     */
    method SearchWithPrefix(prefix: string, n: int) returns (r: seq<string>)
      ensures forall x :: x in r ==> TS.IsPrefix(prefix, x) && Stored(root, x).Some?
      ensures Distinct(r) && |r| <= (if n > 0 then n else 0)
      ensures |r| < n ==> forall x :: TS.IsPrefix(prefix, x) && Stored(root, x).Some? ==> x in r
    {
      if n <= 0 {
        return [];
      }
      var node := FindPrefixNode(prefix);
      DescendSound(root, prefix);
      if node.None? {
        forall x | TS.IsPrefix(prefix, x) ensures Stored(root, x).None? {
          assert prefix + x[|prefix|..] == x;
        }
        return [];
      }
      var cont; ghost var visited;
      r, cont, visited := Visit(node.value, prefix, TS.Collecting(n), []);
      CollectedBelow(root, prefix, node.value, n, visited, cont, r);
    }

    /** `keys()`: every stored key exactly once, `count` of them. */
    method Keys() returns (ks: seq<string>)
      requires Valid()
      ensures Distinct(ks) && |ks| == count
      ensures forall x :: x in ks <==> Stored(root, x).Some?
    {
      ghost var visited;
      ks, visited := EnumerateKeysAndValues(KeepAll(), []);
      RunKeepAll(visited, []);
      KeysDistinct(visited);
      KeysOfVisited(root, ks, visited);
      forall x ensures x in ks <==> x in KeySet(root) {
        KeySetStored(root, x);
      }
      DistinctCard(ks, KeySet(root));
    }

    /** `search(_:)`: each stored key matching a pattern in which "." is any character, once. */
    method Search(pattern: string) returns (r: seq<string>)
      ensures Distinct(r)
      ensures forall x :: x in r <==> Stored(root, x).Some? && TS.Matches(x, pattern)
    {
      var found;
      r, found := SearchPattern(pattern, 0, root, [], []);
      assert pattern[0..] == pattern;
      forall x ensures Hit(root, [], pattern, 0, x) <==> Stored(root, x).Some? && TS.Matches(x, pattern) {
        assert x[0..] == x;
      }
    }
  }
}
