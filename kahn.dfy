/*
 * Kahn's algorithm: repeatedly output a vertex with no incoming edges and
 * delete its outgoing edges. The result is a topological order, or `None`
 * when edges remain, in which case no topological order exists.
 */
module Kahn {
  import opened Wrappers
  import opened Digraphs

  /** Output and queue hold distinct vertices. */
  ghost predicate Listed<V>(vs: set<V>, output: seq<V>, queue: seq<V>) {
    Distinct(output + queue) && forall x :: x in output + queue ==> x in vs
  }

  /** No remaining edge enters an output or queued vertex. */
  ghost predicate Cleared<V>(arcs: set<Arc<V>>, output: seq<V>, queue: seq<V>) {
    forall e :: e in arcs ==> e.target !in output && e.target !in queue
  }

  /** Every vertex neither output nor queued still has an incoming edge. */
  ghost predicate Waiting<V(!new)>(vs: set<V>, arcs: set<Arc<V>>, output: seq<V>, queue: seq<V>) {
    forall v :: v in vs && v !in output && v !in queue ==> SourcesOf(arcs, v) != {}
  }

  /** The invariant of the main loop, on the current edges, the output and the queue. */
  ghost predicate Sorting<V(!new)>(vs: set<V>, edges: seq<Arc<V>>, arcs: set<Arc<V>>, output: seq<V>, queue: seq<V>) {
    Listed(vs, output, queue) && Cleared(arcs, output, queue) && Respects(edges, output) && Waiting(vs, arcs, output, queue)
  }

  /** Between steps, exactly the edges out of vertices not yet output remain. */
  ghost function Remaining<V>(edges: seq<Arc<V>>, output: seq<V>): set<Arc<V>> {
    set e | e in edges && e.source !in output
  }

  /** While the edges of `n` are deleted, so do those from `n` to the targets still to visit. */
  ghost function RemainingDuring<V>(edges: seq<Arc<V>>, output: seq<V>, n: V, targets: set<V>): set<Arc<V>> {
    set e | e in edges && (e.source !in output || (e.source == n && e.target in targets))
  }

  /** The queue of in-degree-zero vertices starts the main loop. */
  lemma StartSorting<V(!new)>(vs: set<V>, edges: seq<Arc<V>>, arcs: set<Arc<V>>, vertices: seq<V>, queue: seq<V>)
    requires Validate(vs, edges) && arcs == set e | e in edges
    requires forall v :: v in vertices <==> v in vs
    requires forall v :: v in vertices ==> (v in queue <==> SourcesOf(arcs, v) == {})
    requires Distinct(queue) && forall x :: x in queue ==> x in vs
    ensures Sorting(vs, edges, arcs, [], queue)
    ensures arcs == Remaining(edges, [])
  {
    assert [] + queue == queue;
    forall e | e in arcs
      ensures e.target !in queue
    {
      assert e.source in SourcesOf(arcs, e.target);
    }
  }

  /** Outputting the front of the queue keeps the invariant, with the deletion of its edges still to do. */
  lemma PopQueue<V(!new)>(vs: set<V>, edges: seq<Arc<V>>, arcs: set<Arc<V>>, output: seq<V>, queue: seq<V>, targets: set<V>)
    requires Sorting(vs, edges, arcs, output, queue) && queue != []
    requires arcs == Remaining(edges, output)
    requires forall v :: v in targets <==> Arc(queue[0], v) in arcs
    ensures |output| < |vs|
    ensures Sorting(vs, edges, arcs, output + [queue[0]], queue[1..])
    ensures arcs == RemainingDuring(edges, output + [queue[0]], queue[0], targets)
  {
    var n := queue[0];
    DistinctLength(output + queue, vs);
    assert output + [n] + queue[1..] == output + queue;
    forall k | 0 <= k < |output|
      ensures output[k] != n
    {
      assert (output + queue)[k] == output[k] && (output + queue)[|output|] == n;
    }
    forall e | e in edges && e.target in output + [n]
      ensures Precedes(output + [n], e.source, e.target)
    {
      if e.target == n {
        assert e !in arcs;
        PrecedesLast(output, e.source, n);
      } else {
        PrecedesExtend(output, n, e.source, e.target);
      }
    }
    forall e | e in RemainingDuring(edges, output + [n], n, targets)
      ensures e in arcs
    {
      if e.source == n {
        assert e == Arc(n, e.target);
      }
    }
  }

  /** Deleting `n -> m`: `m` joins the queue exactly when no edge into it is left. */
  lemma ReleaseOne<V(!new)>(vs: set<V>, edges: seq<Arc<V>>, arcs: set<Arc<V>>, output: seq<V>, queue: seq<V>, n: V, targets: set<V>, m: V)
    requires Validate(vs, edges)
    requires Sorting(vs, edges, arcs, output, queue) && n in output && m in targets
    requires arcs == RemainingDuring(edges, output, n, targets)
    requires forall t :: t in targets ==> Arc(n, t) in arcs
    ensures var arcs' := arcs - {Arc(n, m)};
      var queue' := if SourcesOf(arcs', m) == {} then queue + [m] else queue;
      Sorting(vs, edges, arcs', output, queue') &&
      arcs' == RemainingDuring(edges, output, n, targets - {m}) &&
      forall t :: t in targets - {m} ==> Arc(n, t) in arcs'
  {
    var arcs' := arcs - {Arc(n, m)};
    assert Arc(n, m) in arcs;
    forall v | v != m
      ensures SourcesOf(arcs', v) == SourcesOf(arcs, v)
    {
      forall u | u in SourcesOf(arcs, v)
        ensures u in SourcesOf(arcs', v)
      {
        var e :| e in arcs && e.target == v && e.source == u;
        assert e in arcs';
      }
    }
    if SourcesOf(arcs', m) == {} {
      assert m !in output + queue;
      DistinctSnoc(output + queue, m);
      AppendAssoc(output, queue, [m]);
      forall e | e in arcs'
        ensures e.target != m
      {
        assert e.source in SourcesOf(arcs', e.target);
      }
    }
  }

  /** No edge left: the output is a topological order. */
  lemma FinishSorted<V(!new)>(vs: set<V>, edges: seq<Arc<V>>, arcs: set<Arc<V>>, output: seq<V>)
    requires Validate(vs, edges) && arcs == {}
    requires Sorting(vs, edges, arcs, output, [])
    ensures IsTopologicalOrder(output, vs, edges)
  {
    assert output + [] == output;
    forall v | v in vs
      ensures v in output
    {
      assert SourcesOf(arcs, v) == {};
    }
  }

  /** Some element of a non-empty set. */
  ghost function Pick<T>(s: set<T>): (x: T)
    requires s != {}
    ensures x in s
  {
    var x :| x in s; x
  }

  /** A predecessor along a remaining edge is a vertex not yet output. */
  lemma RemainingSource<V>(vs: set<V>, edges: seq<Arc<V>>, output: seq<V>, u: V, v: V)
    requires Validate(vs, edges) && u in SourcesOf(Remaining(edges, output), v)
    ensures u in vs && u !in output && Arc(u, v) in edges
  {
    var e :| e in Remaining(edges, output) && e.target == v && e.source == u;
    assert e == Arc(u, v);
  }

  /** Each vertex not yet output, mapped to a predecessor along a remaining edge. */
  lemma WaitingPredecessors<V(!new)>(vs: set<V>, edges: seq<Arc<V>>, output: seq<V>, blocked: set<V>) returns (pred: map<V, V>)
    requires Validate(vs, edges) && Waiting(vs, Remaining(edges, output), output, [])
    requires blocked == set v | v in vs && v !in output
    ensures forall v :: v in blocked ==> v in pred && pred[v] in blocked && Arc(pred[v], v) in edges
  {
    var arcs := Remaining(edges, output);
    pred := map v | v in blocked :: Pick(SourcesOf(arcs, v));
    forall v | v in blocked
      ensures pred[v] in blocked && Arc(pred[v], v) in edges
    {
      RemainingSource(vs, edges, output, pred[v], v);
    }
  }

  /** Edges left and nothing queued: every vertex not output waits on another, so no order exists. */
  lemma FinishBlocked<V(!new)>(vs: set<V>, edges: seq<Arc<V>>, arcs: set<Arc<V>>, output: seq<V>)
    requires Validate(vs, edges) && arcs != {}
    requires Waiting(vs, arcs, output, []) && arcs == Remaining(edges, output)
    ensures forall order :: !IsTopologicalOrder(order, vs, edges)
  {
    var blocked := set v | v in vs && v !in output;
    var pred := WaitingPredecessors(vs, edges, output, blocked);
    var e :| e in arcs;
    RemainingSource(vs, edges, output, e.source, e.target) by {
      assert e.source in SourcesOf(arcs, e.target);
    }
    assert e.source in blocked;
    NoTopologicalOrder(vs, edges, blocked, pred);
  }

  /** The vertices of in-degree zero, in vertex-list order. */
  method ZeroInDegree<V(==, !new)>(g: Digraph<V>) returns (queue: seq<V>)
    requires g.Valid()
    ensures Distinct(queue) && forall x :: x in queue ==> x in g.vertices
    ensures forall v :: v in g.vertices ==> (v in queue <==> SourcesOf(g.Arcs(), v) == {})
  {
    queue := [];
    for i := 0 to |g.vertices|
      invariant Distinct(queue) && forall x :: x in queue ==> x in g.vertices[..i]
      invariant forall v :: v in g.vertices[..i] ==> (v in queue <==> SourcesOf(g.Arcs(), v) == {})
    {
      var v := g.vertices[i];
      assert g.vertices[..i + 1] == g.vertices[..i] + [v];
      assert v !in g.vertices[..i];
      if g.InDegree(v) == 0 {
        DistinctSnoc(queue, v);
        queue := queue + [v];
      }
    }
    assert g.vertices[..|g.vertices|] == g.vertices;
  }

  /**
   * The inner loop of `tsort`: delete every edge from `n`, enqueueing each
   * target that is left with in-degree zero.
   */
  method ReleaseTargets<V(==, !new)>(g: Digraph<V>, ghost vs: set<V>, ghost edges: seq<Arc<V>>, ghost output: seq<V>,
                                     queue: seq<V>, n: V, targets: set<V>) returns (queue': seq<V>)
    requires Validate(vs, edges) && n in output
    requires g.Valid() && Sorting(vs, edges, g.Arcs(), output, queue)
    requires g.Arcs() == RemainingDuring(edges, output, n, targets)
    requires forall t :: t in targets ==> Arc(n, t) in g.Arcs()
    modifies g
    ensures g.Valid() && Sorting(vs, edges, g.Arcs(), output, queue')
    ensures g.Arcs() == Remaining(edges, output)
  {
    queue' := queue;
    var rest := targets;
    while rest != {}
      invariant g.Valid() && Sorting(vs, edges, g.Arcs(), output, queue')
      invariant g.Arcs() == RemainingDuring(edges, output, n, rest)
      invariant forall t :: t in rest ==> Arc(n, t) in g.Arcs()
      decreases rest
    {
      var m :| m in rest;
      ReleaseOne(vs, edges, g.Arcs(), output, queue', n, rest, m);
      rest := rest - {m};
      var _ := g.RemoveEdge(Arc(n, m));
      if g.InDegree(m) == 0 {
        queue' := queue' + [m];
      }
    }
    assert g.Arcs() == Remaining(edges, output);
  }

  /**
   * `tsort(vertices, edges)`: start from the vertices of in-degree zero;
   * output the front of the queue, delete its outgoing edges and enqueue
   * every target left with in-degree zero. The result is the output when no
   * edge is left, and `None` otherwise.
   */
  method KahnSort<V(==, !new)>(vs: set<V>, edges: seq<Arc<V>>) returns (r: Option<seq<V>>)
    requires Validate(vs, edges)
    ensures r.Some? ==> IsTopologicalOrder(r.value, vs, edges)
    ensures r.None? ==> forall order :: !IsTopologicalOrder(order, vs, edges)
  {
    var g := new Digraph(vs, edges);
    var output: seq<V> := [];
    var queue := ZeroInDegree(g);
    StartSorting(vs, edges, g.Arcs(), g.vertices, queue);
    while queue != []
      invariant g.Valid() && Sorting(vs, edges, g.Arcs(), output, queue)
      invariant g.Arcs() == Remaining(edges, output)
      decreases |vs| - |output|
    {
      var n := queue[0];
      var targets := g.Targets(n);
      PopQueue(vs, edges, g.Arcs(), output, queue, targets);
      queue := queue[1..];
      output := output + [n];
      queue := ReleaseTargets(g, vs, edges, output, queue, n, targets);
    }
    if g.HasEdges() {
      FinishBlocked(vs, edges, g.Arcs(), output);
      r := None;
    } else {
      FinishSorted(vs, edges, g.Arcs(), output);
      r := Some(output);
    }
  }

  /** `tsort(edges)`: the same, over exactly the vertices the edges touch. */
  method KahnSortEdges<V(==, !new)>(edges: seq<Arc<V>>) returns (r: Option<seq<V>>)
    ensures r.Some? ==> IsTopologicalOrder(r.value, IncidentVertices(edges), edges)
    ensures r.None? ==> forall order :: !IsTopologicalOrder(order, IncidentVertices(edges), edges)
  {
    r := KahnSort(IncidentVertices(edges), edges);
  }
}
