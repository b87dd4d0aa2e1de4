/** The directed graph of src/common/graph.cpp: a map from each vertex to the set of
    its successors. Iteration over the unordered containers picks any element next.
 */
module Graph {

  type Adjacency = map<nat, set<nat>>

  type Edge = (nat, nat)

  /** Every successor is a vertex. */
  predicate Closed(g: Adjacency) {
    forall v, w :: v in g && w in g[v] ==> w in g
  }

  ghost function Edges(g: Adjacency): (es: set<Edge>) {
    set v, w | v in g && w in g[v] :: (v, w)
  }

  predicate NoDuplicates<T(==)>(s: seq<T>) {
    forall i, j :: 0 <= i < j < |s| ==> s[i] != s[j]
  }

  ghost predicate Enumerates<T(!new)>(s: seq<T>, elements: set<T>) {
    NoDuplicates(s) && forall x :: x in s <==> x in elements
  }

  lemma {:induction false} EnumerationSize<T(!new)>(s: seq<T>, elements: set<T>)
    requires Enumerates(s, elements)
    ensures |s| == |elements|
    decreases |s|
  {
    if s == [] {
      assert elements == {};
    } else {
      var x := s[0];
      assert s == [x] + s[1..] && x in s;
      EnumerationSize(s[1..], elements - {x});
    }
  }

  function WithVertex(g: Adjacency, v: nat): (g': Adjacency) {
    if v in g then g else g[v := {}]
  }

  function WithEdge(g: Adjacency, e: Edge): (g': Adjacency) {
    var from := if e.0 in g then g[e.0] else {};
    WithVertex(g[e.0 := from + {e.1}], e.1)
  }

  function WithEdges(g: Adjacency, es: seq<Edge>): (g': Adjacency)
    decreases |es|
  {
    if es == [] then g else WithEdges(WithEdge(g, es[0]), es[1..])
  }

  class Graph {
    var graph: Adjacency

    ghost predicate Valid()
      reads this
    {
      Closed(graph)
    }

    constructor ()
      ensures Valid() && graph == map[]
    {
      graph := map[];
    }

    method AddVertex(id: nat)
      requires Valid()
      modifies this
      ensures Valid() && graph == WithVertex(old(graph), id)
    {
      if id !in graph { graph := graph[id := {}]; }
    }

    method AddEdge(src: nat, dst: nat)
      requires Valid()
      modifies this
      ensures Valid() && graph == WithEdge(old(graph), (src, dst))
    {
      if src !in graph { graph := graph[src := {}]; }
      graph := graph[src := graph[src] + {dst}];
      if dst !in graph { graph := graph[dst := {}]; }
    }

    function Order(): (n: nat)
      reads this
    {
      |graph|
    }

    /** The number of edges, added up vertex by vertex. */
    method Size() returns (n: nat)
      ensures n == |Edges(graph)|
    {
      n := 0;
      var rest := graph.Keys;
      ghost var done: set<Edge> := {};
      while rest != {}
        invariant rest <= graph.Keys
        invariant n == |done|
        invariant forall e :: e in done <==> e in Edges(graph) && e.0 !in rest
      {
        var v :| v in rest;
        ghost var out := Out(v, graph[v]);
        OutSize(v, graph[v]);
        rest := rest - {v};
        n := n + |graph[v]|;
        assert done !! out;
        done := done + out;
      }
      assert done == Edges(graph);
    }

    method VertexSet() returns (vs: seq<nat>)
      ensures Enumerates(vs, graph.Keys) && |vs| == Order()
    {
      vs := Enumerate(graph.Keys);
      EnumerationSize(vs, graph.Keys);
      assert |graph| == |graph.Keys|;
    }

    method EdgeSet() returns (es: seq<Edge>)
      ensures Enumerates(es, Edges(graph)) && |es| == |Edges(graph)|
    {
      es := [];
      var rest := graph.Keys;
      while rest != {}
        invariant rest <= graph.Keys
        invariant NoDuplicates(es)
        invariant forall e :: e in es <==> e in Edges(graph) && e.0 !in rest
      {
        var v :| v in rest;
        var adjacent := graph[v];
        rest := rest - {v};
        while adjacent != {}
          invariant adjacent <= graph[v]
          invariant NoDuplicates(es)
          invariant forall e :: e in es <==> e in Edges(graph) && e.0 !in rest && (e.0 == v ==> e.1 !in adjacent)
        {
          var w :| w in adjacent;
          adjacent := adjacent - {w};
          assert (v, w) !in es;
          es := es + [(v, w)];
        }
      }
      EnumerationSize(es, Edges(graph));
    }

    /** Both ways of counting the edges agree. */
    method SizeIsEdgeCount() returns (n: nat, es: seq<Edge>)
      ensures n == |es| && Enumerates(es, Edges(graph))
    {
      n := Size();
      es := EdgeSet();
    }

    static method FromEdgeSet(es: seq<Edge>) returns (g: Graph)
      ensures fresh(g) && g.Valid() && g.graph == WithEdges(map[], es)
    {
      g := new Graph();
      for i := 0 to |es|
        invariant fresh(g) && g.Valid()
        invariant WithEdges(g.graph, es[i..]) == WithEdges(map[], es)
      {
        assert es[i..][1..] == es[i + 1..];
        g.AddEdge(es[i].0, es[i].1);
      }
    }
  }

  method Enumerate(s: set<nat>) returns (r: seq<nat>)
    ensures Enumerates(r, s)
  {
    r := [];
    var rest := s;
    while rest != {}
      invariant rest <= s && NoDuplicates(r)
      invariant forall x :: x in r <==> x in s && x !in rest
    {
      var x :| x in rest;
      rest, r := rest - {x}, r + [x];
    }
  }

  ghost function Out(v: nat, ws: set<nat>): (es: set<Edge>) {
    set w | w in ws :: (v, w)
  }

  lemma {:induction false} OutSize(v: nat, ws: set<nat>)
    ensures |Out(v, ws)| == |ws|
    decreases |ws|
  {
    if ws != {} {
      var w :| w in ws;
      OutSize(v, ws - {w});
      assert Out(v, ws) == Out(v, ws - {w}) + {(v, w)};
      assert (v, w) !in Out(v, ws - {w});
    } else {
      assert Out(v, ws) == {};
    }
  }

  // ---- What a graph built from edges is ----

  /** The vertices with an edge in or out. */
  ghost predicate Connected(g: Adjacency, v: nat) {
    exists e :: e in Edges(g) && (e.0 == v || e.1 == v)
  }

  ghost function Trim(g: Adjacency): (g': Adjacency) {
    map v | v in g && Connected(g, v) :: g[v]
  }

  lemma {:induction false} WithEdgesIs(g: Adjacency, es: seq<Edge>)
    requires Closed(g)
    ensures Closed(WithEdges(g, es))
    ensures forall v :: v in WithEdges(g, es) <==> v in g || exists e :: e in es && (e.0 == v || e.1 == v)
    ensures forall v, w :: v in WithEdges(g, es) ==>
              (w in WithEdges(g, es)[v] <==> (v in g && w in g[v]) || (v, w) in es)
    decreases |es|
  {
    if es != [] {
      WithEdgesIs(WithEdge(g, es[0]), es[1..]);
      assert forall e :: e in es <==> e == es[0] || e in es[1..];
    }
  }

  /** Building a graph and reading its edges gives the distinct edges put in. */
  lemma {:induction false} EdgesOfFromEdgeSet(es: seq<Edge>)
    ensures Closed(WithEdges(map[], es))
    ensures Edges(WithEdges(map[], es)) == set e | e in es
  {
    WithEdgesIs(map[], es);
    var g := WithEdges(map[], es);
    forall e ensures e in Edges(g) <==> e in es {
      assert e == (e.0, e.1);
    }
  }

  lemma {:induction false} TouchedIsConnected(g: Adjacency, es: seq<Edge>, v: nat)
    requires Closed(g) && forall e :: e in es <==> e in Edges(g)
    ensures (exists e :: e in es && (e.0 == v || e.1 == v)) <==> v in g && Connected(g, v)
  {
    if exists e :: e in es && (e.0 == v || e.1 == v) {
      var e :| e in es && (e.0 == v || e.1 == v);
      assert e in Edges(g);
    }
    if Connected(g, v) {
      var e :| e in Edges(g) && (e.0 == v || e.1 == v);
      assert e in es;
    }
  }

  lemma {:induction false} VertexAgrees(g: Adjacency, es: seq<Edge>, v: nat)
    requires Closed(g) && forall e :: e in es <==> e in Edges(g)
    ensures v in WithEdges(map[], es) <==> v in Trim(g)
  {
    WithEdgesIs(map[], es);
    TouchedIsConnected(g, es, v);
  }

  lemma {:induction false} SuccessorsAgree(g: Adjacency, es: seq<Edge>, v: nat)
    requires Closed(g) && forall e :: e in es <==> e in Edges(g)
    requires v in WithEdges(map[], es) && v in g
    ensures WithEdges(map[], es)[v] == g[v]
  {
    WithEdgesIs(map[], es);
    var h := WithEdges(map[], es);
    forall w ensures w in h[v] <==> w in g[v] {
      assert w in h[v] <==> (v, w) in es;
      assert (v, w) in Edges(g) <==> w in g[v];
    }
  }

  /** Reading the edges of a graph, in any order, and building a graph from them gives
      the graph without its isolated vertices. */
  lemma {:induction false} FromEdgeSetOfEdges(g: Adjacency, es: seq<Edge>)
    requires Closed(g) && forall e :: e in es <==> e in Edges(g)
    ensures WithEdges(map[], es) == Trim(g)
  {
    var h := WithEdges(map[], es);
    forall v ensures v in h <==> v in Trim(g) { VertexAgrees(g, es, v); }
    forall v | v in h ensures h[v] == Trim(g)[v] {
      assert v in Trim(g);
      SuccessorsAgree(g, es, v);
    }
  }
}
