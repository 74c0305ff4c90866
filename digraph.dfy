/*
 * Dynamic directed graphs: a fixed vertex list, successor and predecessor
 * maps kept mirror images of each other, and an edge count; plus the
 * incident-vertex and validation helpers and the notion of a topological
 * order that the sorting algorithms are proved against.
 */
module Digraphs {

  /** A directed edge (`Arc`). */
  datatype Arc<V> = Arc(source: V, target: V)

  /** No element occurs twice. */
  ghost predicate Distinct<V>(s: seq<V>) {
    forall i, j :: 0 <= i < j < |s| ==> s[i] != s[j]
  }

  /** `incidentVertices(of:)` / `vertices(of:)`: the endpoints of every edge and nothing else. */
  function IncidentVertices<V>(edges: seq<Arc<V>>): (r: set<V>)
    ensures forall e :: e in edges ==> e.source in r && e.target in r
    ensures forall x :: x in r ==> exists e :: e in edges && (e.source == x || e.target == x)
  {
    if edges == [] then {}
    else
      var rest := IncidentVertices(edges[1..]);
      assert forall e :: e in edges[1..] ==> e in edges;
      {edges[0].source, edges[0].target} + rest
  }

  /** `validateDigraph` / `validate`: the vertex set covers every edge's endpoints. */
  function Validate<V>(vertices: set<V>, edges: seq<Arc<V>>): (r: bool)
    ensures r <==> forall e :: e in edges ==> e.source in vertices && e.target in vertices
  {
    vertices >= IncidentVertices(edges)
  }

  /** `map[u] ?? []`: the set stored under `u`, or the empty set. */
  function Successors<V>(adj: map<V, set<V>>, u: V): set<V> {
    if u in adj then adj[u] else {}
  }

  /** The edges an adjacency map represents. */
  ghost function ArcsOf<V>(adj: map<V, set<V>>): set<Arc<V>> {
    set u, v | u in adj && v in adj[u] :: Arc(u, v)
  }

  /** The edges leaving the keys in `keys`. */
  ghost function ArcsFrom<V>(adj: map<V, set<V>>, keys: set<V>): set<Arc<V>> {
    set u, v | u in keys && u in adj && v in adj[u] :: Arc(u, v)
  }

  /** The sources of the edges into `v`. */
  ghost function SourcesOf<V>(arcs: set<Arc<V>>, v: V): set<V> {
    set e | e in arcs && e.target == v :: e.source
  }

  /** The targets of the edges out of `u`. */
  ghost function TargetsOf<V>(arcs: set<Arc<V>>, u: V): set<V> {
    set e | e in arcs && e.source == u :: e.target
  }

  /** `v` is a successor of `u` exactly when `u` is a predecessor of `v`. */
  ghost predicate Mirrored<V(!new)>(adj: map<V, set<V>>, inv: map<V, set<V>>) {
    forall u, v :: v in Successors(adj, u) <==> u in Successors(inv, v)
  }

  lemma MirroredQueries<V(!new)>(adj: map<V, set<V>>, inv: map<V, set<V>>, x: V)
    requires Mirrored(adj, inv)
    ensures Successors(adj, x) == TargetsOf(ArcsOf(adj), x)
    ensures Successors(inv, x) == SourcesOf(ArcsOf(adj), x)
  {
    forall v | v in TargetsOf(ArcsOf(adj), x)
      ensures v in Successors(adj, x)
    {
      var e :| e in ArcsOf(adj) && e.source == x && e.target == v;
    }
    forall v | v in Successors(adj, x)
      ensures v in TargetsOf(ArcsOf(adj), x)
    {
      assert Arc(x, v) in ArcsOf(adj);
    }
    forall u | u in Successors(inv, x)
      ensures u in SourcesOf(ArcsOf(adj), x)
    {
      assert x in Successors(adj, u);
      assert Arc(u, x) in ArcsOf(adj);
    }
    forall u | u in SourcesOf(ArcsOf(adj), x)
      ensures u in Successors(inv, x)
    {
      var e :| e in ArcsOf(adj) && e.target == x && e.source == u;
      assert x in Successors(adj, u);
    }
  }

  /** The edge `s -> t` is in the graph exactly when `t` is a successor of `s`. */
  lemma ArcMember<V>(adj: map<V, set<V>>, s: V, t: V)
    ensures Arc(s, t) in ArcsOf(adj) <==> t in Successors(adj, s)
  {
    if t in Successors(adj, s) {
      assert Arc(s, t) in ArcsOf(adj);
    }
  }

  /** Adding `t` after `s` and `s` before `t` keeps the maps mirrored. */
  lemma MirroredInsert<V(!new)>(adj: map<V, set<V>>, inv: map<V, set<V>>, s: V, t: V)
    requires Mirrored(adj, inv)
    ensures Mirrored(adj[s := Successors(adj, s) + {t}], inv[t := Successors(inv, t) + {s}])
  {
    var adj', inv' := adj[s := Successors(adj, s) + {t}], inv[t := Successors(inv, t) + {s}];
    forall u, v
      ensures v in Successors(adj', u) <==> u in Successors(inv', v)
    {
      assert v in Successors(adj, u) <==> u in Successors(inv, v);
    }
  }

  /** `map[k]?.remove(x)`: remove `x` from the set under `k`, if there is one. */
  function RemoveFrom<V(!new)>(m: map<V, set<V>>, k: V, x: V): (r: map<V, set<V>>)
    ensures Successors(r, k) == Successors(m, k) - {x}
    ensures forall u :: u != k ==> Successors(r, u) == Successors(m, u)
  {
    if k in m then m[k := m[k] - {x}] else m
  }

  /** Removing `t` after `s` and `s` before `t` keeps the maps mirrored. */
  lemma MirroredRemove<V(!new)>(adj: map<V, set<V>>, inv: map<V, set<V>>, s: V, t: V)
    requires Mirrored(adj, inv)
    ensures Mirrored(RemoveFrom(adj, s, t), RemoveFrom(inv, t, s))
  {
    var adj', inv' := RemoveFrom(adj, s, t), RemoveFrom(inv, t, s);
    forall u, v
      ensures v in Successors(adj', u) <==> u in Successors(inv', v)
    {
      assert v in Successors(adj, u) <==> u in Successors(inv, v);
    }
  }

  /** Inserting `t` into the successors of `s` adds exactly the edge `s -> t`. */
  lemma ArcsAfterInsert<V(!new)>(adj: map<V, set<V>>, s: V, t: V)
    ensures ArcsOf(adj[s := Successors(adj, s) + {t}]) == ArcsOf(adj) + {Arc(s, t)}
  {
  }

  /** Removing `t` from the successors of `s` removes exactly the edge `s -> t`. */
  lemma ArcsAfterRemove<V(!new)>(adj: map<V, set<V>>, s: V, t: V)
    ensures ArcsOf(RemoveFrom(adj, s, t)) == ArcsOf(adj) - {Arc(s, t)}
  {
  }

  /** The edges out of one vertex are as many as its successors. */
  lemma {:induction false} OutArcsCount<V>(u: V, succ: set<V>)
    ensures |set v | v in succ :: Arc(u, v)| == |succ|
    decreases |succ|
  {
    if succ != {} {
      var x :| x in succ;
      OutArcsCount(u, succ - {x});
      assert (set v | v in succ :: Arc(u, v)) == (set v | v in succ - {x} :: Arc(u, v)) + {Arc(u, x)};
    }
  }

  /** Splitting off one key: its out-edges plus those of the other keys. */
  lemma ArcsFromSplit<V>(adj: map<V, set<V>>, keys: set<V>, k: V)
    requires k in keys && k in adj
    ensures |ArcsFrom(adj, keys)| == |adj[k]| + |ArcsFrom(adj, keys - {k})|
  {
    var out := set v | v in adj[k] :: Arc(k, v);
    OutArcsCount(k, adj[k]);
    assert ArcsFrom(adj, keys) == ArcsFrom(adj, keys - {k}) + out;
    assert ArcsFrom(adj, keys - {k}) * out == {};
  }

  /** A distinct sequence drawn from a set is no longer than the set. */
  lemma {:induction false} DistinctLength<V>(s: seq<V>, vs: set<V>)
    requires Distinct(s) && forall x :: x in s ==> x in vs
    ensures |s| <= |vs|
    decreases |s|
  {
    if s != [] {
      var x, s' := s[|s| - 1], s[..|s| - 1];
      forall i | 0 <= i < |s'|
        ensures s'[i] in vs - {x}
      {
        assert s'[i] == s[i];
      }
      DistinctLength(s', vs - {x});
    }
  }

  /** `vertices.map { $0 }`: list a set's elements, each once, in an unspecified order. */
  method ListSet<V>(s: set<V>) returns (r: seq<V>)
    ensures Distinct(r) && forall x :: x in r <==> x in s
  {
    r := [];
    var rest := s;
    while rest != {}
      invariant Distinct(r)
      invariant forall x :: x in r <==> x in s && x !in rest
      invariant rest <= s
      decreases rest
    {
      var x :| x in rest;
      r := r + [x];
      rest := rest - {x};
    }
  }

  /** `a` comes strictly before `b` in `order`. */
  ghost predicate Precedes<V>(order: seq<V>, a: V, b: V) {
    exists i, j :: 0 <= i < j < |order| && order[i] == a && order[j] == b
  }

  /** `order` lists every vertex once, each edge's source before its target. */
  ghost predicate IsTopologicalOrder<V(!new)>(order: seq<V>, vs: set<V>, edges: seq<Arc<V>>) {
    Distinct(order) && (forall v :: v in order <==> v in vs) &&
    forall e :: e in edges ==> Precedes(order, e.source, e.target)
  }

  /** Every edge into an output vertex has its source earlier in the output. */
  ghost predicate Respects<V>(edges: seq<Arc<V>>, output: seq<V>) {
    forall e :: e in edges && e.target in output ==> Precedes(output, e.source, e.target)
  }

  /** The parts of a repeat-free concatenation are repeat-free and share nothing. */
  lemma DistinctParts<V>(a: seq<V>, b: seq<V>)
    requires Distinct(a + b)
    ensures Distinct(a) && Distinct(b) && forall x :: x in a ==> x !in b
  {
    forall i, j | 0 <= i < j < |a|
      ensures a[i] != a[j]
    {
      assert (a + b)[i] == a[i] && (a + b)[j] == a[j];
    }
    forall i, j | 0 <= i < j < |b|
      ensures b[i] != b[j]
    {
      assert (a + b)[|a| + i] == b[i] && (a + b)[|a| + j] == b[j];
    }
    forall x | x in a
      ensures x !in b
    {
      var i :| 0 <= i < |a| && a[i] == x;
      forall j | 0 <= j < |b|
        ensures b[j] != x
      {
        assert (a + b)[i] == x && (a + b)[|a| + j] == b[j];
      }
    }
  }

  /** Appending keeps every earlier precedence. */
  lemma PrecedesExtend<V>(order: seq<V>, x: V, a: V, b: V)
    requires Precedes(order, a, b)
    ensures Precedes(order + [x], a, b)
  {
    var i, j :| 0 <= i < j < |order| && order[i] == a && order[j] == b;
    assert (order + [x])[i] == a && (order + [x])[j] == b;
  }

  /** An element already listed precedes the one appended. */
  lemma PrecedesLast<V>(order: seq<V>, a: V, x: V)
    requires a in order
    ensures Precedes(order + [x], a, x)
  {
    var i :| 0 <= i < |order| && order[i] == a;
    assert (order + [x])[i] == a && (order + [x])[|order|] == x;
  }

  /** Appending a new element keeps a sequence free of repeats. */
  lemma DistinctSnoc<V>(s: seq<V>, x: V)
    requires Distinct(s) && x !in s
    ensures Distinct(s + [x])
  {
    forall i, j | 0 <= i < j < |s| + 1
      ensures (s + [x])[i] != (s + [x])[j]
    {
      if j == |s| {
        assert (s + [x])[i] == s[i];
      }
    }
  }

  /**
   * A non-empty set of vertices each of which has an incoming edge from
   * inside the set (`pred` names one such predecessor) rules out every
   * topological order: the first of them in the order would have to come
   * after its predecessor.
   */
  lemma NoTopologicalOrder<V(!new)>(vs: set<V>, edges: seq<Arc<V>>, blocked: set<V>, pred: map<V, V>)
    requires blocked != {} && blocked <= vs
    requires forall v :: v in blocked ==> v in pred && pred[v] in blocked && Arc(pred[v], v) in edges
    ensures forall order :: !IsTopologicalOrder(order, vs, edges)
  {
    forall order | Distinct(order) && forall v :: v in order <==> v in vs
      ensures !IsTopologicalOrder(order, vs, edges)
    {
      var e := BlockedArc(order, edges, blocked, pred);
      assert e in edges && !Precedes(order, e.source, e.target);
    }
  }

  /** The edge into the first blocked vertex of `order` from its predecessor goes backwards. */
  lemma BlockedArc<V>(order: seq<V>, edges: seq<Arc<V>>, blocked: set<V>, pred: map<V, V>) returns (e: Arc<V>)
    requires blocked != {} && Distinct(order) && forall v :: v in blocked ==> v in order
    requires forall v :: v in blocked ==> v in pred && pred[v] in blocked && Arc(pred[v], v) in edges
    ensures e in edges && !Precedes(order, e.source, e.target)
  {
    var x :| x in blocked;
    var p := FirstIn(order, blocked, x);
    var v := order[p];
    e := Arc(pred[v], v);
  }

  /** The position of the first element of `order` in `s`, given one that is. */
  lemma FirstIn<V>(order: seq<V>, s: set<V>, x: V) returns (p: int)
    requires x in s && x in order
    ensures 0 <= p < |order| && order[p] in s
    ensures forall q :: 0 <= q < |order| && order[q] in s && q != p ==> p < q
  {
    var k :| 0 <= k < |order| && order[k] == x;
    p := 0;
    while order[p] !in s
      invariant 0 <= p <= k
      invariant forall q :: 0 <= q < p ==> order[q] !in s
      decreases k - p
    {
      p := p + 1;
    }
  }

  /** The loop of `init`: insert every edge into both maps. */
  method BuildAdjacency<V(!new)>(edges: seq<Arc<V>>) returns (adj: map<V, set<V>>, inv: map<V, set<V>>)
    ensures Mirrored(adj, inv)
    ensures ArcsOf(adj) == set e | e in edges
  {
    adj, inv := map[], map[];
    for i := 0 to |edges|
      invariant Mirrored(adj, inv)
      invariant ArcsOf(adj) == set e | e in edges[..i]
    {
      var e := edges[i];
      ArcsAfterInsert(adj, e.source, e.target);
      MirroredInsert(adj, inv, e.source, e.target);
      adj := adj[e.source := Successors(adj, e.source) + {e.target}];
      inv := inv[e.target := Successors(inv, e.target) + {e.source}];
      assert edges[..i + 1] == edges[..i] + [e];
    }
    assert edges[..|edges|] == edges;
  }

  /** `reduce(0) { $0 + $1.value.count }`: the successor-set sizes add up to the number of edges. */
  method CountArcs<V>(adj: map<V, set<V>>) returns (total: int)
    ensures total == |ArcsOf(adj)|
  {
    total := 0;
    var rest := adj.Keys;
    assert ArcsFrom(adj, rest) == ArcsOf(adj);
    while rest != {}
      invariant rest <= adj.Keys
      invariant total + |ArcsFrom(adj, rest)| == |ArcsOf(adj)|
      decreases rest
    {
      var k :| k in rest;
      ArcsFromSplit(adj, rest, k);
      total := total + |adj[k]|;
      rest := rest - {k};
    }
    assert ArcsFrom(adj, rest) == {};
  }

  /** The graph invariant, on the values of the four fields. */
  ghost predicate WellFormed<V(!new)>(vertices: seq<V>, edgeCount: int, adj: map<V, set<V>>, inv: map<V, set<V>>) {
    Mirrored(adj, inv) && edgeCount == |ArcsOf(adj)| && Distinct(vertices) &&
    forall e :: e in ArcsOf(adj) ==> e.source in vertices && e.target in vertices
  }

  /** `addEdge` on the field values: one edge more exactly when it was new, and still well formed. */
  lemma InsertKeepsWellFormed<V(!new)>(vertices: seq<V>, edgeCount: int, adj: map<V, set<V>>, inv: map<V, set<V>>, s: V, t: V)
    requires WellFormed(vertices, edgeCount, adj, inv) && s in vertices && t in vertices
    ensures var adj' := adj[s := Successors(adj, s) + {t}];
      var isNew := t !in Successors(adj, s);
      (isNew <==> Arc(s, t) !in ArcsOf(adj)) &&
      ArcsOf(adj') == ArcsOf(adj) + {Arc(s, t)} &&
      WellFormed(vertices, edgeCount + (if isNew then 1 else 0), adj', inv[t := Successors(inv, t) + {s}])
  {
    ArcMember(adj, s, t);
    ArcsAfterInsert(adj, s, t);
    MirroredInsert(adj, inv, s, t);
    var arcs := ArcsOf(adj);
    if t !in Successors(adj, s) {
      assert |arcs + {Arc(s, t)}| == |arcs| + 1;
    } else {
      assert arcs + {Arc(s, t)} == arcs;
    }
  }

  /** `removeEdge` on the field values: one edge fewer exactly when it was present, and still well formed. */
  lemma RemoveKeepsWellFormed<V(!new)>(vertices: seq<V>, edgeCount: int, adj: map<V, set<V>>, inv: map<V, set<V>>, s: V, t: V)
    requires WellFormed(vertices, edgeCount, adj, inv)
    ensures var adj' := RemoveFrom(adj, s, t);
      var present := t in Successors(adj, s);
      (present <==> Arc(s, t) in ArcsOf(adj)) &&
      ArcsOf(adj') == ArcsOf(adj) - {Arc(s, t)} &&
      WellFormed(vertices, edgeCount - (if present then 1 else 0), adj', RemoveFrom(inv, t, s))
  {
    ArcMember(adj, s, t);
    ArcsAfterRemove(adj, s, t);
    MirroredRemove(adj, inv, s, t);
  }

  /**
   * `Digraph` / `DynamicDigraph`: the vertex list fixed at construction,
   * successor and predecessor maps, and the number of edges.
   */
  class Digraph<V(==, !new)> {
    const vertices: seq<V>
    var edgeCount: int
    var adjacency: map<V, set<V>>
    var inverseAdjacency: map<V, set<V>>

    /** The maps mirror each other, the count is the number of edges, and every edge joins two vertices. */
    ghost predicate Valid()
      reads this
    {
      WellFormed(vertices, edgeCount, adjacency, inverseAdjacency)
    }

    /** The edges of the graph. */
    ghost function Arcs(): set<Arc<V>>
      reads this
    {
      ArcsOf(adjacency)
    }

    /**
     * `init(vertices, edges)`: every vertex must cover the edges' endpoints;
     * duplicate edges collapse; the edge count is the sum of the successor
     * set sizes, which is the number of distinct edges.
     */
    constructor (vs: set<V>, edges: seq<Arc<V>>)
      requires Validate(vs, edges)
      ensures Valid() && (forall v :: v in vertices <==> v in vs)
      ensures Arcs() == set e | e in edges
    {
      var list := ListSet(vs);
      var adj, inv := BuildAdjacency(edges);
      var total := CountArcs(adj);
      vertices := list;
      adjacency := adj;
      inverseAdjacency := inv;
      edgeCount := total;
    }

    /** `hasEdges` (and its negation `hasNoEdges`). */
    function HasEdges(): (b: bool)
      reads this
      requires Valid()
      ensures b <==> Arcs() != {}
    {
      edgeCount > 0
    }

    /** `inDegree(of:)`: the number of distinct predecessors. */
    function InDegree(v: V): (d: nat)
      reads this
      requires Valid()
      ensures d == |SourcesOf(Arcs(), v)|
    {
      MirroredQueries(adjacency, inverseAdjacency, v);
      |Successors(inverseAdjacency, v)|
    }

    /** `outDegree(of:)`: the number of distinct successors. */
    function OutDegree(u: V): (d: nat)
      reads this
      requires Valid()
      ensures d == |TargetsOf(Arcs(), u)|
    {
      MirroredQueries(adjacency, inverseAdjacency, u);
      |Successors(adjacency, u)|
    }

    /** `sources(of:)`: the predecessors of `v`. */
    function Sources(v: V): (s: set<V>)
      reads this
      requires Valid()
      ensures forall u :: u in s <==> Arc(u, v) in Arcs()
    {
      MirroredQueries(adjacency, inverseAdjacency, v);
      Successors(inverseAdjacency, v)
    }

    /** `targets(of:)`: the successors of `u`. */
    function Targets(u: V): (s: set<V>)
      reads this
      requires Valid()
      ensures forall v :: v in s <==> Arc(u, v) in Arcs()
    {
      MirroredQueries(adjacency, inverseAdjacency, u);
      Successors(adjacency, u)
    }

    /** `addEdge`: both endpoints must be vertices; true exactly when the edge is new. */
    method AddEdge(e: Arc<V>) returns (inserted: bool)
      requires Valid() && e.source in vertices && e.target in vertices
      modifies this
      ensures Valid()
      ensures inserted <==> e !in old(Arcs())
      ensures Arcs() == old(Arcs()) + {e}
      ensures edgeCount == old(edgeCount) + (if inserted then 1 else 0)
    {
      var succ := Successors(adjacency, e.source);
      inserted := e.target !in succ;
      assert e == Arc(e.source, e.target);
      InsertKeepsWellFormed(vertices, edgeCount, adjacency, inverseAdjacency, e.source, e.target);
      adjacency := adjacency[e.source := succ + {e.target}];
      inverseAdjacency := inverseAdjacency[e.target := Successors(inverseAdjacency, e.target) + {e.source}];
      if inserted {
        edgeCount := edgeCount + 1;
      }
    }

    /** `removeEdge`: true (the edge, for `DynamicDigraph`) exactly when the edge was present. */
    method RemoveEdge(e: Arc<V>) returns (removed: bool)
      requires Valid()
      modifies this
      ensures Valid()
      ensures removed <==> e in old(Arcs())
      ensures Arcs() == old(Arcs()) - {e}
      ensures edgeCount == old(edgeCount) - (if removed then 1 else 0)
    {
      removed := e.target in Successors(adjacency, e.source);
      assert e == Arc(e.source, e.target);
      RemoveKeepsWellFormed(vertices, edgeCount, adjacency, inverseAdjacency, e.source, e.target);
      adjacency := RemoveFrom(adjacency, e.source, e.target);
      inverseAdjacency := RemoveFrom(inverseAdjacency, e.target, e.source);
      if removed {
        edgeCount := edgeCount - 1;
      }
    }
  }
}
