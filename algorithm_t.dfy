/*
 * Knuth's Algorithm T (TAOCP Vol. 1, section 2.2.3): topological sorting of
 * the vertices 1...n. Each vertex has a record holding the number of its
 * not yet output predecessors and the list of its successors; the vertices
 * whose count has dropped to zero form a queue linked through the count
 * field itself, with record 0 as its head. The successor lists, linked
 * nodes in the original, are sequences here.
 */
module AlgorithmT {
  import opened Wrappers
  import opened Digraphs

  /** `_Node`: `count` (read as `qlink` once the vertex is queued) and `top`, the successor list, last recorded first. */
  datatype Node = Node(count: int, top: seq<int>)

  function Last<T>(s: seq<T>): T
    requires s != []
  {
    s[|s| - 1]
  }

  /** The vertex set 1...n. */
  ghost function Vertices(n: int): (vs: set<int>)
    ensures forall v :: v in vs <==> 1 <= v <= n
  {
    if n <= 0 then {} else Vertices(n - 1) + {n}
  }

  lemma {:induction false} VerticesSize(n: nat)
    ensures |Vertices(n)| == n
  {
    if n > 0 {
      VerticesSize(n - 1);
      var prev := Vertices(n - 1);
      assert n !in prev;
      assert Vertices(n) == prev + {n};
    }
  }

  /** A sequence without repeats has as many distinct elements as entries. */
  lemma {:induction false} DistinctCard<T>(s: seq<T>)
    requires Distinct(s)
    ensures |set x | x in s| == |s|
  {
    if s != [] {
      var init := s[..|s| - 1];
      assert s == init + [Last(s)];
      DistinctParts(init, [Last(s)]);
      DistinctCard(init);
      assert (set x | x in s) == (set x | x in init) + {Last(s)};
    }
  }

  /** Every edge joins two of the vertices 1...n. */
  ghost predicate EdgesIn(edges: seq<Arc<int>>, n: int) {
    forall e :: e in edges ==> 1 <= e.source <= n && 1 <= e.target <= n
  }

  /** The edges into `v` whose source is not in `done`, counted with repetition. */
  ghost function Into(edges: seq<Arc<int>>, done: seq<int>, v: int): nat
  {
    if edges == [] then 0
    else
      var e := Last(edges);
      Into(edges[..|edges| - 1], done, v) + (if e.target == v && e.source !in done then 1 else 0)
  }

  /** The successor list steps T2-T3 build for `j`: targets of the edges from `j`, the last edge's first. */
  ghost function Top(edges: seq<Arc<int>>, j: int): seq<int>
  {
    if edges == [] then []
    else
      var e := Last(edges);
      (if e.source == j then [e.target] else []) + Top(edges[..|edges| - 1], j)
  }

  /** Outputting `f` moves the edges out of `f` from the count of their targets to `f`'s successor list. */
  lemma {:induction false} IntoSplit(edges: seq<Arc<int>>, done: seq<int>, f: int, v: int)
    requires f !in done
    ensures Into(edges, done, v) == Into(edges, done + [f], v) + multiset(Top(edges, f))[v]
  {
    if edges != [] {
      IntoSplit(edges[..|edges| - 1], done, f, v);
    }
  }

  /** A vertex without uncounted predecessors has every predecessor in `done`. */
  lemma {:induction false} IntoZero(edges: seq<Arc<int>>, done: seq<int>, v: int, e: Arc<int>)
    requires Into(edges, done, v) == 0 && e in edges && e.target == v
    ensures e.source in done
  {
    var init := edges[..|edges| - 1];
    if e != Last(edges) {
      var i :| 0 <= i < |edges| && edges[i] == e;
      assert init[i] == e;
      IntoZero(init, done, v, e);
    }
  }

  /** A vertex with a positive count has a predecessor outside `done`. */
  lemma {:induction false} IntoPositive(edges: seq<Arc<int>>, done: seq<int>, v: int)
    requires Into(edges, done, v) > 0
    ensures exists e :: e in edges && e.target == v && e.source !in done
  {
    var init := edges[..|edges| - 1];
    if Into(init, done, v) > 0 {
      IntoPositive(init, done, v);
      var e :| e in init && e.target == v && e.source !in done;
      var i :| 0 <= i < |init| && init[i] == e;
      assert edges[i] == e;
    } else {
      assert Last(edges) in edges;
    }
  }

  /** Every entry of a successor list is the target of an edge from its vertex. */
  lemma {:induction false} TopArc(edges: seq<Arc<int>>, j: int, x: int)
    requires x in Top(edges, j)
    ensures Arc(j, x) in edges
  {
    var init := edges[..|edges| - 1];
    if x in Top(init, j) {
      TopArc(init, j, x);
      var i :| 0 <= i < |init| && init[i] == Arc(j, x);
      assert edges[i] == Arc(j, x);
    } else {
      assert Last(edges) == Arc(j, x) && Last(edges) in edges;
    }
  }

  /** A predecessor of `v` outside `done`, as the blocked vertices' witness. */
  ghost function PredecessorOf(edges: seq<Arc<int>>, done: seq<int>, v: int): (u: int)
    requires Into(edges, done, v) > 0
    ensures Arc(u, v) in edges && u !in done
  {
    IntoPositive(edges, done, v);
    var e :| e in edges && e.target == v && e.source !in done;
    e.source
  }

  /** `chain` is threaded through the count fields, each entry naming the next and the last naming 0. */
  ghost predicate Linked(ns: seq<Node>, chain: seq<int>) {
    (forall i :: 0 <= i < |chain| ==> 0 <= chain[i] < |ns|) &&
    (forall i :: 0 <= i < |chain| - 1 ==> ns[chain[i]].count == chain[i + 1]) &&
    (chain != [] ==> ns[Last(chain)].count == 0)
  }

  /** The queue `q` as step T5 reads it: linked, with front `F` (0 when empty) and rear `R`. */
  ghost predicate Queue(ns: seq<Node>, q: seq<int>, F: int, R: int) {
    Linked(ns, q) && (q == [] ==> F == 0) && (q != [] ==> F == q[0] && R == Last(q))
  }

  /** The vertices in `s` are among 1...n, each listed once. */
  ghost predicate Roster(n: int, s: seq<int>) {
    (forall x :: x in s ==> 1 <= x <= n) && Distinct(s)
  }

  /**
   * The counts once `out` has been output: a vertex neither output nor
   * queued counts its edges from outside `out` plus those in `m` (the ones
   * step T6 has yet to erase), which is positive; a queued one has none.
   */
  ghost predicate Counts(n: int, edges: seq<Arc<int>>, ns: seq<Node>, out: seq<int>, q: seq<int>, m: multiset<int>)
    requires |ns| == n + 1
  {
    (forall v :: 1 <= v <= n && v !in out && v !in q ==> ns[v].count == Into(edges, out, v) + m[v] > 0) &&
    (forall v :: v in q ==> Into(edges, out, v) + m[v] == 0)
  }

  /** One record per vertex 0...n, each holding its vertex's successor list. */
  ghost predicate Tops(n: int, edges: seq<Arc<int>>, ns: seq<Node>) {
    |ns| == n + 1 && forall j :: 0 <= j <= n ==> ns[j].top == Top(edges, j)
  }

  /** Steps T2-T3 after the first `i` edges: the counts and successor lists of that prefix. */
  ghost predicate Building(n: int, edges: seq<Arc<int>>, ns: seq<Node>, i: int) {
    |ns| == n + 1 && 0 <= i <= |edges| &&
    forall j :: 0 <= j <= n ==> ns[j].count == Into(edges[..i], [], j) && ns[j].top == Top(edges[..i], j)
  }

  /**
   * Step T4 before vertex `k`: the zero-count vertices below `k` are queued
   * behind record 0 in increasing order, with `R` the rear of the queue.
   */
  ghost predicate Scanning(n: int, edges: seq<Arc<int>>, ns: seq<Node>, q: seq<int>, k: int, R: int) {
    Tops(n, edges, ns) && 1 <= k <= n + 1 &&
    (forall i :: 0 <= i < |q| ==> 1 <= q[i] < k) && Distinct([0] + q) &&
    Linked(ns, [0] + q) && R == Last([0] + q) &&
    (forall v :: 1 <= v < k && v !in q ==> ns[v].count == Into(edges, [], v) > 0) &&
    (forall v :: k <= v <= n ==> ns[v].count == Into(edges, [], v)) &&
    (forall v :: v in q ==> Into(edges, [], v) == 0)
  }

  /**
   * Step T5: `out` has been output, `q` is the queue (front `F`, rear `R`),
   * every other vertex counts its predecessors outside `out`, and every
   * output vertex came after its predecessors.
   */
  ghost predicate Head(n: int, edges: seq<Arc<int>>, ns: seq<Node>, out: seq<int>, q: seq<int>, F: int, R: int) {
    Tops(n, edges, ns) && Roster(n, out + q) && Queue(ns, q, F, R) &&
    Counts(n, edges, ns, out, q, multiset{}) && Respects(edges, out)
  }

  /** The successors of `f` step T6 has not reached yet, counted with repetition. */
  ghost function Unerased(edges: seq<Arc<int>>, f: int, p: int): multiset<int>
    requires 0 <= p <= |Top(edges, f)|
  {
    multiset(Top(edges, f)[p..])
  }

  /**
   * Step T6 on the last output vertex `F`, before entry `p` of its
   * successor list: counts include the edges from `F` not yet erased, and
   * the queue `[F] + rest` ends at `R`.
   */
  ghost predicate Erasing(n: int, edges: seq<Arc<int>>, ns: seq<Node>, out: seq<int>, rest: seq<int>, R: int, p: int) {
    out != [] && 0 <= p <= |Top(edges, Last(out))| &&
    Tops(n, edges, ns) && Roster(n, out + rest) &&
    Distinct([Last(out)] + rest) && Linked(ns, [Last(out)] + rest) && R == Last([Last(out)] + rest) &&
    Counts(n, edges, ns, out, rest, Unerased(edges, Last(out), p)) && Respects(edges, out)
  }

  /** Dropping the first record of a chain leaves a queue whose front is that record's link. */
  lemma LinkedTail(ns: seq<Node>, h: int, q: seq<int>)
    requires Linked(ns, [h] + q)
    ensures 0 <= h < |ns| && Queue(ns, q, ns[h].count, Last([h] + q))
  {
    var c := [h] + q;
    assert c[0] == h;
    forall i | 0 <= i < |q|
      ensures 0 <= q[i] < |ns|
    {
      assert c[i + 1] == q[i];
    }
    forall i | 0 <= i < |q| - 1
      ensures ns[q[i]].count == q[i + 1]
    {
      assert c[i + 1] == q[i] && c[i + 2] == q[i + 1];
    }
    if q != [] {
      assert ns[c[0]].count == c[1] == q[0];
      assert Last(c) == Last(q);
    } else {
      assert Last(c) == h;
    }
  }

  /** Linking a record `s` with count 0 behind the last of a chain extends the chain. */
  lemma LinkedSnoc(ns: seq<Node>, c: seq<int>, s: int)
    requires Linked(ns, c) && c != [] && Distinct(c) && 0 <= s < |ns| && s !in c && ns[s].count == 0
    ensures 0 <= Last(c) < |ns|
    ensures Linked(ns[Last(c) := ns[Last(c)].(count := s)], c + [s])
  {
    var ns', c' := ns[Last(c) := ns[Last(c)].(count := s)], c + [s];
    forall i | 0 <= i < |c'| - 1
      ensures ns'[c'[i]].count == c'[i + 1]
    {
      if i < |c| - 1 {
        assert c[i] != c[|c| - 1];
      }
    }
  }

  /** Changing the count of a record outside a chain keeps the chain. */
  lemma LinkedFrame(ns: seq<Node>, c: seq<int>, s: int, x: int)
    requires Linked(ns, c) && 0 <= s < |ns| && s !in c
    ensures Linked(ns[s := ns[s].(count := x)], c)
  {
    var ns' := ns[s := ns[s].(count := x)];
    forall i | 0 <= i < |c| - 1
      ensures ns'[c[i]].count == c[i + 1]
    {
      assert c[i] != s;
    }
    if c != [] {
      assert Last(c) != s;
    }
  }

  lemma BuildStart(n: nat, edges: seq<Arc<int>>, ns: seq<Node>)
    requires |ns| == n + 1 && forall j :: 0 <= j <= n ==> ns[j] == Node(0, [])
    ensures Building(n, edges, ns, 0)
  {
    assert edges[..0] == [];
  }

  /** T2-T3 for edge `i`: count one more predecessor of its target and push the target on its source's list. */
  lemma BuildStep(n: int, edges: seq<Arc<int>>, ns: seq<Node>, i: int)
    requires Building(n, edges, ns, i) && i < |edges| && EdgesIn(edges, n)
    ensures 0 <= edges[i].source <= n && 0 <= edges[i].target <= n
    ensures var e := edges[i];
      var ns1 := ns[e.target := ns[e.target].(count := ns[e.target].count + 1)];
      Building(n, edges, ns1[e.source := ns1[e.source].(top := [e.target] + ns1[e.source].top)], i + 1)
  {
    assert edges[i] in edges;
    var pre := edges[..i + 1];
    assert pre[..i] == edges[..i] && Last(pre) == edges[i];
  }

  /** T4 starts with an empty queue behind record 0. */
  lemma ScanStart(n: int, edges: seq<Arc<int>>, ns: seq<Node>)
    requires Building(n, edges, ns, |edges|) && n >= 1
    ensures Scanning(n, edges, ns[0 := ns[0].(count := 0)], [], 1, 0)
  {
    assert edges[..|edges|] == edges;
  }

  /** T4 at vertex `k`: a zero count joins the rear of the queue. */
  lemma ScanStep(n: int, edges: seq<Arc<int>>, ns: seq<Node>, q: seq<int>, k: int, R: int)
    requires Scanning(n, edges, ns, q, k, R) && k <= n
    ensures 0 <= R <= n
    ensures if ns[k].count == 0 then Scanning(n, edges, ns[R := ns[R].(count := k)], q + [k], k + 1, k)
            else Scanning(n, edges, ns, q, k + 1, R)
  {
    var c := [0] + q;
    assert c[|c| - 1] == R;
    if ns[k].count == 0 {
      assert k !in c;
      DistinctSnoc(c, k);
      LinkedSnoc(ns, c, k);
      assert [0] + (q + [k]) == c + [k];
    }
  }

  /** After T4 the queue's front is the count field of record 0. */
  lemma ScanDone(n: int, edges: seq<Arc<int>>, ns: seq<Node>, q: seq<int>, R: int)
    requires Scanning(n, edges, ns, q, n + 1, R)
    ensures Head(n, edges, ns, [], q, ns[0].count, R)
  {
    assert [] + q == q;
    assert Roster(n, [] + q) by {
      DistinctParts([0], q);
    }
    LinkedTail(ns, 0, q);
    assert Counts(n, edges, ns, [], q, multiset{});
  }

  /** T5 with a non-empty queue: output the front, which starts T6 on its successors. */
  lemma OutputFront(n: int, edges: seq<Arc<int>>, ns: seq<Node>, out: seq<int>, q: seq<int>, F: int, R: int)
    requires Head(n, edges, ns, out, q, F, R) && EdgesIn(edges, n) && F != 0
    ensures q != [] && |out| < n
    ensures Erasing(n, edges, ns, out + [F], q[1..], R, 0)
  {
    DistinctLength(out + q, Vertices(n));
    VerticesSize(n);
    var out', rest := out + [F], q[1..];
    assert out + q == out' + rest;
    assert [F] + rest == q;
    DistinctParts(out, q);
    assert F !in out;
    assert Top(edges, F)[0..] == Top(edges, F);
    assert Counts(n, edges, ns, out', rest, Unerased(edges, F, 0)) by {
      forall v | 1 <= v <= n && v !in out' && v !in rest
        ensures ns[v].count == Into(edges, out', v) + Unerased(edges, F, 0)[v] > 0
      {
        IntoSplit(edges, out, F, v);
      }
      forall v | v in rest
        ensures Into(edges, out', v) + Unerased(edges, F, 0)[v] == 0
      {
        IntoSplit(edges, out, F, v);
      }
    }
    assert Respects(edges, out') by {
      forall e | e in edges && e.target in out'
        ensures Precedes(out', e.source, e.target)
      {
        if e.target == F {
          IntoZero(edges, out, F, e);
          PrecedesLast(out, e.source, F);
        } else {
          PrecedesExtend(out, F, e.source, e.target);
        }
      }
    }
  }

  /** Nothing follows the last element of a sequence without repeats. */
  lemma LastPrecedesNothing(out: seq<int>, x: int)
    requires Distinct(out) && out != []
    ensures !Precedes(out, Last(out), x)
  {
  }

  /**
   * T6 at entry `p` of `F`'s successor list: the successor `s` there is a
   * vertex neither output nor queued, still counting this edge.
   */
  lemma EraseTarget(n: int, edges: seq<Arc<int>>, ns: seq<Node>, out: seq<int>, rest: seq<int>, R: int, p: int)
    requires Erasing(n, edges, ns, out, rest, R, p) && EdgesIn(edges, n) && p < |Top(edges, Last(out))|
    ensures var s := Top(edges, Last(out))[p];
      1 <= s <= n && s !in out && s !in rest &&
      Unerased(edges, Last(out), p) == Unerased(edges, Last(out), p + 1) + multiset{s}
  {
    var F, T := Last(out), Top(edges, Last(out));
    var s := T[p];
    assert T[p..] == [s] + T[p + 1..];
    TopArc(edges, F, s);
    DistinctParts(out, rest);
    LastPrecedesNothing(out, s);
    assert s !in out;
    assert Into(edges, out, s) + Unerased(edges, F, p)[s] != 0;
  }

  /** Erasing one edge into `s` while its count stays positive. */
  lemma CountsKeep(n: int, edges: seq<Arc<int>>, ns: seq<Node>, out: seq<int>, q: seq<int>, m: multiset<int>, s: int, ns1: seq<Node>)
    requires |ns| == n + 1 && Counts(n, edges, ns, out, q, m + multiset{s}) && 1 <= s <= n && s !in out && s !in q
    requires ns1 == ns[s := ns[s].(count := ns[s].count - 1)] && ns1[s].count != 0
    ensures Counts(n, edges, ns1, out, q, m)
  {
  }

  /** Erasing the last edge into `s`: it joins the queue, whose old rear now links to it. */
  lemma CountsQueue(n: int, edges: seq<Arc<int>>, ns: seq<Node>, out: seq<int>, q: seq<int>, m: multiset<int>, s: int, ns1: seq<Node>, R: int)
    requires |ns| == n + 1 && Counts(n, edges, ns, out, q, m + multiset{s}) && 1 <= s <= n && s !in out && s !in q
    requires ns1 == ns[s := ns[s].(count := ns[s].count - 1)] && ns1[s].count == 0
    requires 0 <= R <= n && (R in out || R in q)
    ensures Counts(n, edges, ns1[R := ns1[R].(count := s)], out, q + [s], m)
  {
  }

  /** T6 when the count of `s` stays positive: only that count changes. */
  lemma EraseKeep(n: int, edges: seq<Arc<int>>, ns: seq<Node>, out: seq<int>, rest: seq<int>, R: int, p: int, s: int, ns1: seq<Node>)
    requires Erasing(n, edges, ns, out, rest, R, p) && p < |Top(edges, Last(out))|
    requires 1 <= s <= n && s !in out && s !in rest
    requires Unerased(edges, Last(out), p) == Unerased(edges, Last(out), p + 1) + multiset{s}
    requires ns1 == ns[s := ns[s].(count := ns[s].count - 1)] && ns1[s].count != 0
    ensures Erasing(n, edges, ns1, out, rest, R, p + 1)
  {
    var c := [Last(out)] + rest;
    CountsKeep(n, edges, ns, out, rest, Unerased(edges, Last(out), p + 1), s, ns1);
    LinkedFrame(ns, c, s, ns[s].count - 1);
  }

  /** T6 when the count of `s` reaches zero: `s` joins the rear of the queue. */
  lemma EraseQueue(n: int, edges: seq<Arc<int>>, ns: seq<Node>, out: seq<int>, rest: seq<int>, R: int, p: int, s: int, ns1: seq<Node>)
    requires Erasing(n, edges, ns, out, rest, R, p) && p < |Top(edges, Last(out))|
    requires 1 <= s <= n && s !in out && s !in rest
    requires Unerased(edges, Last(out), p) == Unerased(edges, Last(out), p + 1) + multiset{s}
    requires ns1 == ns[s := ns[s].(count := ns[s].count - 1)] && ns1[s].count == 0
    ensures 0 <= R <= n
    ensures Erasing(n, edges, ns1[R := ns1[R].(count := s)], out, rest + [s], s, p + 1)
  {
    var F := Last(out);
    var c := [F] + rest;
    assert c[|c| - 1] == R;
    assert R in out || R in rest;
    assert F in out + rest;
    CountsQueue(n, edges, ns, out, rest, Unerased(edges, F, p + 1), s, ns1, R);
    LinkedFrame(ns, c, s, 0);
    LinkedSnoc(ns1, c, s);
    assert [F] + (rest + [s]) == c + [s];
    DistinctSnoc(c, s);
    assert Roster(n, out + (rest + [s])) by {
      DistinctSnoc(out + rest, s);
      AppendAssoc(out, rest, [s]);
    }
  }

  /** T7: after the last successor the front leaves the queue; the next front is its link. */
  lemma EraseDone(n: int, edges: seq<Arc<int>>, ns: seq<Node>, out: seq<int>, rest: seq<int>, R: int)
    requires out != [] && Erasing(n, edges, ns, out, rest, R, |Top(edges, Last(out))|)
    ensures 0 <= Last(out) <= n
    ensures Head(n, edges, ns, out, rest, ns[Last(out)].count, R)
  {
    var F := Last(out);
    assert F in out + rest;
    assert Unerased(edges, F, |Top(edges, F)|) == multiset{};
    LinkedTail(ns, F, rest);
  }

  /** T5 stops at front 0, which only an empty queue has. */
  lemma HeadStop(n: int, edges: seq<Arc<int>>, ns: seq<Node>, out: seq<int>, q: seq<int>, R: int)
    requires Head(n, edges, ns, out, q, 0, R)
    ensures q == []
  {
    assert forall i :: 0 <= i < |q| ==> q[i] in out + q;
  }

  /** An empty queue with all n vertices output: the output is a topological order. */
  lemma FinishSorted(n: int, edges: seq<Arc<int>>, ns: seq<Node>, out: seq<int>, R: int)
    requires Head(n, edges, ns, out, [], 0, R) && EdgesIn(edges, n) && |out| == n
    ensures IsTopologicalOrder(out, Vertices(n), edges)
  {
    assert out + [] == out;
    var listed := set x | x in out;
    DistinctCard(out);
    VerticesSize(n);
    assert listed <= Vertices(n);
    assert Vertices(n) == listed + (Vertices(n) - listed);
    assert |Vertices(n) - listed| == 0;
  }

  /** Fewer than n distinct vertices of 1...n leave one out. */
  lemma Unlisted(n: int, out: seq<int>) returns (v: int)
    requires Roster(n, out) && |out| < n
    ensures 1 <= v <= n && v !in out
  {
    var listed := set x | x in out;
    DistinctCard(out);
    VerticesSize(n);
    assert listed <= Vertices(n);
    var missing := Vertices(n) - listed;
    assert Vertices(n) == listed + missing;
    assert |missing| > 0;
    v :| v in missing;
  }

  /** The vertices never output all keep a predecessor that was never output, so no order exists. */
  lemma Blocked(n: int, edges: seq<Arc<int>>, ns: seq<Node>, out: seq<int>, v0: int)
    requires |ns| == n + 1 && Counts(n, edges, ns, out, [], multiset{}) && EdgesIn(edges, n)
    requires 1 <= v0 <= n && v0 !in out
    ensures forall order :: !IsTopologicalOrder(order, Vertices(n), edges)
  {
    var blocked := set v | v in Vertices(n) && v !in out;
    assert v0 in blocked;
    var pred := map v | v in blocked :: PredecessorOf(edges, out, v);
    forall v | v in blocked
      ensures pred[v] in blocked && Arc(pred[v], v) in edges
    {
      assert Arc(pred[v], v) in edges;
    }
    NoTopologicalOrder(Vertices(n), edges, blocked, pred);
  }

  /** An empty queue with fewer than n vertices output: the rest wait on each other, so no order exists. */
  lemma FinishBlocked(n: int, edges: seq<Arc<int>>, ns: seq<Node>, out: seq<int>, R: int)
    requires Head(n, edges, ns, out, [], 0, R) && EdgesIn(edges, n) && |out| < n
    ensures forall order :: !IsTopologicalOrder(order, Vertices(n), edges)
  {
    assert out + [] == out;
    var v0 := Unlisted(n, out);
    Blocked(n, edges, ns, out, v0);
  }

  /** Steps T1-T3: a record per vertex 0...n, then each edge counted at its target and listed at its source. */
  method RecordRelations(n: int, edges: seq<Arc<int>>) returns (nodes: array<Node>)
    requires n >= 1 && EdgesIn(edges, n)
    ensures fresh(nodes) && Building(n, edges, nodes[..], |edges|)
  {
    nodes := new Node[n + 1](_ => Node(0, []));
    BuildStart(n, edges, nodes[..]);
    for i := 0 to |edges|
      invariant Building(n, edges, nodes[..], i)
    {
      BuildStep(n, edges, nodes[..], i);
      var j, k := edges[i].source, edges[i].target;
      nodes[k] := nodes[k].(count := nodes[k].count + 1);
      nodes[j] := nodes[j].(top := [k] + nodes[j].top);
    }
  }

  /** Step T4: link the vertices with count zero, in increasing order, into the queue behind record 0. */
  method ScanZeros(nodes: array<Node>, n: int, ghost edges: seq<Arc<int>>) returns (R: int, ghost q: seq<int>)
    requires n >= 1 && Building(n, edges, nodes[..], |edges|)
    modifies nodes
    ensures Scanning(n, edges, nodes[..], q, n + 1, R)
  {
    R := 0;
    ghost var ns := nodes[..];
    ScanStart(n, edges, ns);
    nodes[0] := nodes[0].(count := 0);
    assert nodes[..] == ns[0 := ns[0].(count := 0)];
    q := [];
    for k := 1 to n + 1
      invariant Scanning(n, edges, nodes[..], q, k, R)
    {
      R, q := ScanVertex(nodes, n, edges, q, k, R);
    }
  }

  /** Step T4 at vertex `k`: a zero count is linked behind the rear `R` and becomes the rear. */
  method ScanVertex(nodes: array<Node>, n: int, ghost edges: seq<Arc<int>>, ghost q: seq<int>, k: int, R: int)
    returns (R': int, ghost q': seq<int>)
    requires Scanning(n, edges, nodes[..], q, k, R) && k <= n
    modifies nodes
    ensures Scanning(n, edges, nodes[..], q', k + 1, R')
  {
    ghost var ns := nodes[..];
    ScanStep(n, edges, ns, q, k, R);
    R', q' := R, q;
    if nodes[k].count == 0 {
      nodes[R] := nodes[R].(count := k);
      assert nodes[..] == ns[R := ns[R].(count := k)];
      R', q' := k, q + [k];
    }
  }

  /**
   * Step T6 for the vertex `F` just output: walk its successor list,
   * decrementing each successor's count and queueing those that reach zero.
   */
  method EraseRelations(nodes: array<Node>, n: int, ghost edges: seq<Arc<int>>, ghost out: seq<int>, F: int, ghost rest: seq<int>, R0: int)
    returns (R: int, ghost q: seq<int>)
    requires out != [] && F == Last(out) && Erasing(n, edges, nodes[..], out, rest, R0, 0) && EdgesIn(edges, n)
    modifies nodes
    ensures Erasing(n, edges, nodes[..], out, q, R, |Top(edges, Last(out))|)
  {
    R, q := R0, rest;
    assert F in out + rest;
    var P := nodes[F].top;
    ghost var p := 0;
    assert Top(edges, F)[0..] == Top(edges, F);
    while P != []
      invariant Erasing(n, edges, nodes[..], out, q, R, p)
      invariant P == Top(edges, F)[p..]
      decreases |P|
    {
      R, q := EraseSuccessor(nodes, n, edges, out, q, R, p, P[0]);
      P := P[1..];
      p := p + 1;
    }
  }

  /** One iteration of T6: `s` loses one from its count and, at zero, joins the rear of the queue. */
  method EraseSuccessor(nodes: array<Node>, n: int, ghost edges: seq<Arc<int>>, ghost out: seq<int>, ghost rest: seq<int>, R0: int, ghost p: int, s: int)
    returns (R: int, ghost q: seq<int>)
    requires Erasing(n, edges, nodes[..], out, rest, R0, p) && EdgesIn(edges, n)
    requires p < |Top(edges, Last(out))| && s == Top(edges, Last(out))[p]
    modifies nodes
    ensures Erasing(n, edges, nodes[..], out, q, R, p + 1)
  {
    EraseTarget(n, edges, nodes[..], out, rest, R0, p);
    R, q := R0, rest;
    ghost var ns := nodes[..];
    nodes[s] := nodes[s].(count := nodes[s].count - 1);
    ghost var ns1 := nodes[..];
    assert ns1 == ns[s := ns[s].(count := ns[s].count - 1)];
    if nodes[s].count == 0 {
      EraseQueue(n, edges, ns, out, rest, R0, p, s, ns1);
      nodes[R] := nodes[R].(count := s);
      assert nodes[..] == ns1[R := ns1[R].(count := s)];
      R := s;
      q := q + [s];
    } else {
      EraseKeep(n, edges, ns, out, rest, R0, p, s, ns1);
    }
  }

  /**
   * `_AlgorithmT.tsort(n, edges)`: a topological order of 1...n, or nil when
   * the edges contain a cycle. The source traps for n < 1 (the range
   * `1 ... n` in T4) and documents the vertices as 1...n.
   */
  method TSort(n: int, edges: seq<Arc<int>>) returns (r: Option<seq<int>>)
    requires n >= 1 && EdgesIn(edges, n)
    ensures r.Some? ==> IsTopologicalOrder(r.value, Vertices(n), edges)
    ensures r.None? ==> forall order :: !IsTopologicalOrder(order, Vertices(n), edges)
  {
    var output: seq<int> := [];
    var nodes := RecordRelations(n, edges);
    var N := n;
    var R, q := ScanZeros(nodes, n, edges);
    ScanDone(n, edges, nodes[..], q, R);
    var F := nodes[0].count;
    ghost var out: seq<int> := [];
    while true
      invariant Head(n, edges, nodes[..], out, q, F, R)
      invariant output == out && N == n - |out| && |out| <= n
      decreases n - |out|
    {
      // T5
      output := output + [F];
      if F == 0 {
        break;
      }
      N := N - 1;
      out, q, F, R := OutputVertex(nodes, n, edges, out, q, F, R);
    }
    assert output[..|output| - 1] == out;
    HeadStop(n, edges, nodes[..], out, q, R);
    if N == 0 {
      FinishSorted(n, edges, nodes[..], out, R);
      r := Some(output[..|output| - 1]);
    } else {
      FinishBlocked(n, edges, nodes[..], out, R);
      r := None;
    }
  }

  /** Steps T5-T7 for the front `F`: output it, erase its relations, and take the next front. */
  method OutputVertex(nodes: array<Node>, n: int, ghost edges: seq<Arc<int>>, ghost out: seq<int>, ghost q: seq<int>, F: int, R: int)
    returns (ghost out': seq<int>, ghost q': seq<int>, F': int, R': int)
    requires Head(n, edges, nodes[..], out, q, F, R) && EdgesIn(edges, n) && F != 0
    modifies nodes
    ensures out' == out + [F] && |out'| <= n
    ensures Head(n, edges, nodes[..], out', q', F', R')
  {
    OutputFront(n, edges, nodes[..], out, q, F, R);
    out' := out + [F];
    R', q' := EraseRelations(nodes, n, edges, out', F, q[1..], R);
    EraseDone(n, edges, nodes[..], out', q', R');
    F' := nodes[F].count;
  }

  /** `_BiMap`: the i-th listed vertex is numbered i + 1, with both directions of the lookup. */
  datatype BiMap<V> = BiMap(toInt: map<V, int>, toVertex: map<int, V>)

  /** `_BiMap.init`: pair the listed vertices with 1...count, one entry at a time in both dictionaries. */
  function MakeBiMap<V(!new)>(list: seq<V>): (b: BiMap<V>)
    requires Distinct(list)
    ensures forall v :: v in b.toInt <==> v in list
    ensures forall i :: i in b.toVertex <==> 1 <= i <= |list|
    ensures forall v :: v in b.toInt ==> b.toInt[v] in b.toVertex && b.toVertex[b.toInt[v]] == v
    ensures forall i :: i in b.toVertex ==> b.toVertex[i] in b.toInt && b.toInt[b.toVertex[i]] == i
  {
    if list == [] then BiMap(map[], map[])
    else
      var init := list[..|list| - 1];
      assert list == init + [Last(list)];
      DistinctParts(init, [Last(list)]);
      var b := MakeBiMap(init);
      BiMap(b.toInt[Last(list) := |list|], b.toVertex[|list| := Last(list)])
  }

  /** `edges.map { bimap.int(...) }`: the edges over vertex numbers. */
  function Renumber<V(!new)>(edges: seq<Arc<V>>, b: BiMap<V>): (r: seq<Arc<int>>)
    requires forall e :: e in edges ==> e.source in b.toInt && e.target in b.toInt
    ensures |r| == |edges|
    ensures forall k :: 0 <= k < |r| ==> r[k] == Arc(b.toInt[edges[k].source], b.toInt[edges[k].target])
  {
    seq(|edges|, k requires 0 <= k < |edges| => Arc(b.toInt[edges[k].source], b.toInt[edges[k].target]))
  }

  /** `sorted?.map { bimap.vertex($0) }`: an order over numbers back to vertices. */
  function Relabel<V(!new)>(order: seq<int>, b: BiMap<V>): (r: seq<V>)
    requires forall k :: 0 <= k < |order| ==> order[k] in b.toVertex
    ensures |r| == |order|
    ensures forall k :: 0 <= k < |r| ==> r[k] == b.toVertex[order[k]]
  {
    seq(|order|, k requires 0 <= k < |order| => b.toVertex[order[k]])
  }

  /** `b` numbers `vertices` as 1...n, the two lookups inverse to each other. */
  ghost predicate Numbering<V(!new)>(b: BiMap<V>, vertices: set<V>, n: int) {
    (forall v :: v in b.toInt <==> v in vertices) &&
    (forall i :: i in b.toVertex <==> 1 <= i <= n) &&
    (forall v :: v in b.toInt ==> b.toInt[v] in b.toVertex && b.toVertex[b.toInt[v]] == v) &&
    (forall i :: i in b.toVertex ==> b.toVertex[i] in b.toInt && b.toInt[b.toVertex[i]] == i)
  }

  /** Relabelling keeps precedence: numbers in order name their vertices in the same order. */
  lemma RelabelPrecedes<V(!new)>(order: seq<int>, r: seq<V>, b: BiMap<V>, x: V, y: V)
    requires |r| == |order| && x in b.toInt && y in b.toInt
    requires forall k :: 0 <= k < |order| ==> order[k] in b.toVertex && r[k] == b.toVertex[order[k]]
    requires forall v :: v in b.toInt ==> b.toInt[v] in b.toVertex && b.toVertex[b.toInt[v]] == v
    ensures Precedes(order, b.toInt[x], b.toInt[y]) ==> Precedes(r, x, y)
  {
    if Precedes(order, b.toInt[x], b.toInt[y]) {
      var i, j :| 0 <= i < j < |order| && order[i] == b.toInt[x] && order[j] == b.toInt[y];
      assert r[i] == x && r[j] == y;
    }
  }

  /** An order of 1...n without repeats names every vertex once. */
  lemma RelabelOrder<V(!new)>(vertices: set<V>, b: BiMap<V>, n: int, order: seq<int>)
    requires Numbering(b, vertices, n) && Distinct(order) && forall x :: x in order <==> x in Vertices(n)
    ensures forall k :: 0 <= k < |order| ==> order[k] in b.toVertex
    ensures Distinct(Relabel(order, b)) && forall v :: v in Relabel(order, b) <==> v in vertices
  {
    assert forall k :: 0 <= k < |order| ==> order[k] in Vertices(n);
    var r := Relabel(order, b);
    forall i, j | 0 <= i < j < |r|
      ensures r[i] != r[j]
    {
      assert b.toInt[r[i]] == order[i] && b.toInt[r[j]] == order[j];
    }
    forall v | v in vertices
      ensures v in r
    {
      var x := b.toInt[v];
      assert x in Vertices(n);
      var k :| 0 <= k < |order| && order[k] == x;
      assert r[k] == v;
    }
  }

  /** A topological order of the numbered graph names the vertices in a topological order of the graph. */
  lemma RelabelSorted<V(!new)>(vertices: set<V>, edges: seq<Arc<V>>, b: BiMap<V>, n: int, order: seq<int>)
    requires Numbering(b, vertices, n) && Validate(vertices, edges)
    requires IsTopologicalOrder(order, Vertices(n), Renumber(edges, b))
    ensures forall k :: 0 <= k < |order| ==> order[k] in b.toVertex
    ensures IsTopologicalOrder(Relabel(order, b), vertices, edges)
  {
    assert forall k :: 0 <= k < |order| ==> order[k] in Vertices(n);
    var r := Relabel(order, b);
    RelabelOrder(vertices, b, n, order);
    var internal := Renumber(edges, b);
    forall e | e in edges
      ensures Precedes(r, e.source, e.target)
    {
      var k :| 0 <= k < |edges| && edges[k] == e;
      assert internal[k] in internal;
      RelabelPrecedes(order, r, b, e.source, e.target);
    }
  }

  /** Numbering keeps precedence: an order of the vertices maps to an order of their numbers. */
  lemma NumberPrecedes<V(!new)>(order: seq<V>, numbered: seq<int>, b: BiMap<V>, x: V, y: V)
    requires |numbered| == |order| && x in b.toInt && y in b.toInt
    requires forall k :: 0 <= k < |order| ==> order[k] in b.toInt && numbered[k] == b.toInt[order[k]]
    ensures Precedes(order, x, y) ==> Precedes(numbered, b.toInt[x], b.toInt[y])
  {
    if Precedes(order, x, y) {
      var i, j :| 0 <= i < j < |order| && order[i] == x && order[j] == y;
      assert numbered[i] == b.toInt[x] && numbered[j] == b.toInt[y];
    }
  }

  /** An order of the vertices, numbered, is an order of 1...n without repeats. */
  lemma NumberOrder<V(!new)>(vertices: set<V>, b: BiMap<V>, n: int, order: seq<V>) returns (numbered: seq<int>)
    requires Numbering(b, vertices, n) && Distinct(order) && forall v :: v in order <==> v in vertices
    ensures |numbered| == |order|
    ensures forall k :: 0 <= k < |order| ==> order[k] in b.toInt && numbered[k] == b.toInt[order[k]]
    ensures Distinct(numbered) && forall x :: x in numbered <==> x in Vertices(n)
  {
    numbered := seq(|order|, k requires 0 <= k < |order| => b.toInt[order[k]]);
    forall i, j | 0 <= i < j < |numbered|
      ensures numbered[i] != numbered[j]
    {
      assert b.toVertex[numbered[i]] == order[i] && b.toVertex[numbered[j]] == order[j];
    }
    forall x | x in Vertices(n)
      ensures x in numbered
    {
      var v := b.toVertex[x];
      var k :| 0 <= k < |order| && order[k] == v;
      assert numbered[k] == x;
    }
  }

  /** No topological order of the numbered graph means none of the graph. */
  lemma RelabelBlocked<V(!new)>(vertices: set<V>, edges: seq<Arc<V>>, b: BiMap<V>, n: int)
    requires Numbering(b, vertices, n) && Validate(vertices, edges)
    requires forall order :: !IsTopologicalOrder(order, Vertices(n), Renumber(edges, b))
    ensures forall order :: !IsTopologicalOrder(order, vertices, edges)
  {
    var internal := Renumber(edges, b);
    forall order | Distinct(order) && forall v :: v in order <==> v in vertices
      ensures exists e :: e in edges && !Precedes(order, e.source, e.target)
    {
      var numbered := NumberOrder(vertices, b, n, order);
      assert !IsTopologicalOrder(numbered, Vertices(n), internal);
      var ie :| ie in internal && !Precedes(numbered, ie.source, ie.target);
      var k :| 0 <= k < |internal| && internal[k] == ie;
      var e := edges[k];
      NumberPrecedes(order, numbered, b, e.source, e.target);
      assert e in edges && !Precedes(order, e.source, e.target);
    }
  }

  /**
   * `GenericAlgorithmT.tsort(vertices, edges)`: number the vertices 1...count
   * in the set's iteration order, sort the numbered edges with Algorithm T
   * and map the result back. The source traps on an empty vertex set (the
   * range `1 ... 0`) and on an edge endpoint outside the set (`int(_)`
   * force-unwraps).
   */
  method GenericTSort<V(==, !new)>(vertices: set<V>, edges: seq<Arc<V>>) returns (r: Option<seq<V>>)
    requires |vertices| >= 1 && Validate(vertices, edges)
    ensures r.Some? ==> IsTopologicalOrder(r.value, vertices, edges)
    ensures r.None? ==> forall order :: !IsTopologicalOrder(order, vertices, edges)
  {
    var list := ListSet(vertices);
    DistinctCard(list);
    assert (set x | x in list) == vertices;
    var bimap := MakeBiMap(list);
    assert Numbering(bimap, vertices, |vertices|);
    var internal := Renumber(edges, bimap);
    forall e | e in internal
      ensures 1 <= e.source <= |list| && 1 <= e.target <= |list|
    {
      var k :| 0 <= k < |internal| && internal[k] == e;
      assert edges[k] in edges;
    }
    var sorted := TSort(|vertices|, internal);
    match sorted
    case None =>
      RelabelBlocked(vertices, edges, bimap, |vertices|);
      r := None;
    case Some(order) =>
      RelabelSorted(vertices, edges, bimap, |vertices|, order);
      r := Some(Relabel(order, bimap));
  }
}
