/** graph::TopologicalSort of src/common/graph_algorithm.cpp. Its "finishing time" is
    two more than the depth at which the depth-first search met the vertex, because
    the time is passed down by value. The module shows what follows for the order
    that it returns.
 */
module TopologicalSort {
  import opened Graph
  import opened GraphAlgorithm

  /** In which order the unordered containers of one graph are iterated. */
  datatype Iteration = Iteration(vertices: seq<nat>, adjacent: map<nat, seq<nat>>)

  ghost predicate IterationOf(it: Iteration, g: Adjacency) {
    && Enumerates(it.vertices, g.Keys)
    && it.adjacent.Keys == g.Keys
    && forall v :: v in g ==> Enumerates(it.adjacent[v], g[v])
  }

  /** The vertices still white, and the finishing times set so far. Gray and black are
      never told apart. */
  datatype Search = Search(white: set<nat>, times: map<nat, nat>)

  function Visit(it: Iteration, v: nat, s: Search, time: nat): (r: Search)
    requires v in s.white && s.white <= it.adjacent.Keys
    ensures r.white <= s.white
    decreases s.white, 0
  {
    var r := VisitAll(it, it.adjacent[v], s.(white := s.white - {v}), time + 1);
    r.(times := r.times[v := time + 2])
  }

  function VisitAll(it: Iteration, vs: seq<nat>, s: Search, time: nat): (r: Search)
    requires s.white <= it.adjacent.Keys
    ensures r.white <= s.white
    decreases s.white, 1 + |vs|
  {
    if vs == [] then s
    else VisitAll(it, vs[1..], if vs[0] in s.white then Visit(it, vs[0], s, time) else s, time)
  }

  /** FinishingTimeDFSVisit */
  method FinishingTimeDFSVisit(it: Iteration, v: nat, s: Search, time: nat) returns (r: Search)
    requires v in s.white && s.white <= it.adjacent.Keys
    ensures r == Visit(it, v, s, time)
    decreases s.white
  {
    r := s.(white := s.white - {v});
    var vs := it.adjacent[v];
    for i := 0 to |vs|
      invariant r.white <= s.white - {v}
      invariant VisitAll(it, vs[i..], r, time + 1) == VisitAll(it, vs, s.(white := s.white - {v}), time + 1)
    {
      assert vs[i..][1..] == vs[i + 1..];
      if vs[i] in r.white {
        r := FinishingTimeDFSVisit(it, vs[i], r, time + 1);
      }
    }
    r := r.(times := r.times[v := time + 2]);
  }

  /** FinishingTimeDFS */
  method FinishingTimeDFS(it: Iteration) returns (times: map<nat, nat>)
    ensures times == FinishingTimes(it)
  {
    var r := Search(it.adjacent.Keys, map[]);
    var vs := it.vertices;
    for i := 0 to |vs|
      invariant r.white <= it.adjacent.Keys
      invariant VisitAll(it, vs[i..], r, 0) == VisitAll(it, vs, Search(it.adjacent.Keys, map[]), 0)
    {
      assert vs[i..][1..] == vs[i + 1..];
      if vs[i] in r.white {
        r := FinishingTimeDFSVisit(it, vs[i], r, 0);
      }
    }
    times := r.times;
  }

  function FinishingTimes(it: Iteration): (times: map<nat, nat>) {
    VisitAll(it, it.vertices, Search(it.adjacent.Keys, map[]), 0).times
  }

  /** What the visit of a list leaves behind: what was not white is as it was, and what
      is no longer white has a time from its depth on. */
  ghost predicate Progress(s: Search, r: Search, least: nat) {
    && r.white <= s.white
    && (forall v :: v !in s.white ==> (v in r.times <==> v in s.times))
    && (forall v :: v !in s.white && v in s.times ==> r.times[v] == s.times[v])
    && (forall v :: v in s.white && v !in r.white ==> v in r.times && r.times[v] >= least)
  }

  lemma {:induction false} VisitProgress(it: Iteration, v: nat, s: Search, time: nat)
    requires v in s.white && s.white <= it.adjacent.Keys
    ensures Progress(s, Visit(it, v, s, time), time + 2)
    ensures v !in Visit(it, v, s, time).white && Visit(it, v, s, time).times[v] == time + 2
    ensures forall w :: w in s.white && w != v && w in it.adjacent[v] ==>
              var r := Visit(it, v, s, time); w !in r.white && w in r.times && r.times[w] >= time + 3
    decreases s.white, 0
  {
    VisitAllProgress(it, it.adjacent[v], s.(white := s.white - {v}), time + 1);
  }

  lemma {:induction false} VisitAllProgress(it: Iteration, vs: seq<nat>, s: Search, time: nat)
    requires s.white <= it.adjacent.Keys
    ensures Progress(s, VisitAll(it, vs, s, time), time + 2)
    ensures forall v :: v in vs ==> v !in VisitAll(it, vs, s, time).white
    decreases s.white, 1 + |vs|
  {
    if vs != [] {
      var s1 := s;
      if vs[0] in s.white {
        s1 := Visit(it, vs[0], s, time);
        VisitProgress(it, vs[0], s, time);
      }
      VisitAllProgress(it, vs[1..], s1, time);
    }
  }

  /** Every vertex gets a time; the first one iterated gets 2, and its successors more. */
  lemma {:induction false} FirstIsShallow(g: Adjacency, it: Iteration, v: nat)
    requires IterationOf(it, g) && it.vertices != [] && it.vertices[0] == v
    ensures FinishingTimes(it).Keys == g.Keys
    ensures forall w :: w in g ==> FinishingTimes(it)[w] >= 2
    ensures FinishingTimes(it)[v] == 2
    ensures forall w :: w in g[v] && w in g && w != v ==> FinishingTimes(it)[w] >= 3
  {
    var s := Search(it.adjacent.Keys, map[]);
    assert v in it.vertices;
    var s1 := Visit(it, v, s, 0);
    VisitProgress(it, v, s, 0);
    VisitAllProgress(it, it.vertices[1..], s1, 0);
    VisitAllProgress(it, it.vertices, s, 0);
    forall w | w in g ensures w in FinishingTimes(it) && FinishingTimes(it)[w] >= 2 {
      assert w in it.vertices;
    }
    forall w | w in g[v] && w in g && w != v ensures FinishingTimes(it)[w] >= 3 {
      assert w in it.adjacent[v];
    }
    forall w | w in FinishingTimes(it) ensures w in g {}
  }

  // ---- Times are depths ----

  /** `w` was reached with a time of its own: that of the list it was visited from, or one
      more than that of a vertex with an edge to it. */
  ghost predicate Reached(it: Iteration, r: Search, met: set<nat>, roots: seq<nat>, time: nat, w: nat) {
    && w in r.times
    && ((w in roots && r.times[w] == time) ||
        exists u :: u in met && u in r.times && u in it.adjacent && w in it.adjacent[u] &&
                    r.times[w] == r.times[u] + 1)
  }

  lemma {:induction false} VisitReaches(it: Iteration, v: nat, s: Search, time: nat, w: nat)
    requires v in s.white && s.white <= it.adjacent.Keys && w in s.white && w !in Visit(it, v, s, time).white
    ensures Reached(it, Visit(it, v, s, time), s.white - Visit(it, v, s, time).white, [v], time + 2, w)
    decreases s.white, 0
  {
    var s0 := s.(white := s.white - {v});
    var r0, r := VisitAll(it, it.adjacent[v], s0, time + 1), Visit(it, v, s, time);
    assert r.white == r0.white;
    if w != v {
      VisitAllReaches(it, it.adjacent[v], s0, time + 1, w);
      if !(w in it.adjacent[v] && r0.times[w] == time + 3) {
        var u :| u in s0.white - r0.white && u in r0.times && u in it.adjacent && w in it.adjacent[u] &&
                 r0.times[w] == r0.times[u] + 1;
        assert r.times[u] == r0.times[u];
      } else {
        assert v in s.white - r.white && r.times[v] == time + 2;
      }
    }
  }

  lemma {:induction false} VisitAllReaches(it: Iteration, vs: seq<nat>, s: Search, time: nat, w: nat)
    requires s.white <= it.adjacent.Keys && w in s.white && w !in VisitAll(it, vs, s, time).white
    ensures Reached(it, VisitAll(it, vs, s, time), s.white - VisitAll(it, vs, s, time).white, vs, time + 2, w)
    decreases s.white, 1 + |vs|
  {
    var r := VisitAll(it, vs, s, time);
    var s1 := if vs[0] in s.white then Visit(it, vs[0], s, time) else s;
    VisitAllProgress(it, vs[1..], s1, time);
    if w in s1.white {
      VisitAllReaches(it, vs[1..], s1, time, w);
    } else {
      VisitReaches(it, vs[0], s, time, w);
      assert r.times[w] == s1.times[w];
      if !(w == vs[0] && s1.times[w] == time + 2) {
        var u :| u in s.white - s1.white && u in s1.times && u in it.adjacent && w in it.adjacent[u] &&
                 s1.times[w] == s1.times[u] + 1;
        assert r.times[u] == s1.times[u];
      }
    }
  }

  /** The finishing time of every vertex is 2, or one more than that of a vertex with an edge
      to it: two more than the length of some path to it. */
  lemma {:induction false} TimesAreDepths(g: Adjacency, it: Iteration, w: nat)
    requires IterationOf(it, g) && w in g
    ensures w in FinishingTimes(it)
    ensures FinishingTimes(it)[w] == 2 ||
            exists u :: u in g && w in g[u] && u in FinishingTimes(it) &&
                        FinishingTimes(it)[w] == FinishingTimes(it)[u] + 1
  {
    var s := Search(it.adjacent.Keys, map[]);
    VisitAllProgress(it, it.vertices, s, 0);
    assert w in it.vertices;
    VisitAllReaches(it, it.vertices, s, 0, w);
    if FinishingTimes(it)[w] != 2 {
      var times := FinishingTimes(it);
      var u :| u in it.adjacent && w in it.adjacent[u] && u in times && times[w] == times[u] + 1;
      assert u in g;
    }
  }

  /** So a vertex to which no edge leads has time 2, wherever the iteration meets it. */
  lemma {:induction false} RootsAreShallow(g: Adjacency, it: Iteration, w: nat)
    requires IterationOf(it, g) && w in g && forall u :: u in g ==> w !in g[u]
    ensures w in FinishingTimes(it) && FinishingTimes(it)[w] == 2
  {
    TimesAreDepths(g, it, w);
  }

  // ---- The order returned ----

  /** A vector that std::sort may leave: all vertices, latest time first, ties any way. */
  ghost predicate SortResult(times: map<nat, nat>, vertices: set<nat>, order: seq<nat>) {
    && vertices <= times.Keys
    && Enumerates(order, vertices)
    && forall i, j :: 0 <= i < j < |order| ==> times[order[i]] >= times[order[j]]
  }

  ghost predicate Before(order: seq<nat>, a: nat, b: nat) {
    exists i, j :: 0 <= i < j < |order| && order[i] == a && order[j] == b
  }

  /** The order that the tests expect: the end of every edge before its start. */
  ghost predicate EndsFirst(g: Adjacency, order: seq<nat>) {
    forall e :: e in Edges(g) ==> Before(order, e.1, e.0)
  }

  /** The textbook order: the start of every edge before its end. */
  ghost predicate StartsFirst(g: Adjacency, order: seq<nat>) {
    forall e :: e in Edges(g) ==> Before(order, e.0, e.1)
  }

  ghost predicate AlwaysEndsFirst(g: Adjacency) {
    forall it, order :: IterationOf(it, g) && SortResult(FinishingTimes(it), g.Keys, order) ==> EndsFirst(g, order)
  }

  ghost predicate AlwaysStartsFirst(g: Adjacency) {
    forall it, order :: IterationOf(it, g) && SortResult(FinishingTimes(it), g.Keys, order) ==> StartsFirst(g, order)
  }

  ghost function SomeOrder(s: set<nat>): (r: seq<nat>)
    ensures Enumerates(r, s)
  {
    if s == {} then [] else var x :| x in s; [x] + SomeOrder(s - {x})
  }

  /** An iteration that starts with `v`. */
  ghost function StartingWith(g: Adjacency, v: nat): (it: Iteration)
    requires v in g
    ensures IterationOf(it, g) && it.vertices != [] && it.vertices[0] == v
  {
    Iteration([v] + SomeOrder(g.Keys - {v}), map w | w in g :: SomeOrder(g[w]))
  }

  lemma {:induction false} Latest(times: map<nat, nat>, s: set<nat>, favourite: nat) returns (m: nat)
    requires s != {} && s <= times.Keys
    ensures m in s && forall x :: x in s ==> times[x] <= times[m]
    ensures favourite in s && times[favourite] == times[m] ==> m == favourite
    decreases |s|
  {
    m :| m in s;
    if s != {m} {
      var m' := Latest(times, s - {m}, favourite);
      if times[m'] > times[m] || (times[m'] == times[m] && m' == favourite) { m := m'; }
    }
  }

  /** Sorting can break ties in favour of any one vertex. */
  lemma {:induction false} SortFavouring(times: map<nat, nat>, s: set<nat>, favourite: nat) returns (order: seq<nat>)
    requires s <= times.Keys && favourite in times
    ensures SortResult(times, s, order)
    ensures forall i, j :: 0 <= i < j < |order| && order[j] == favourite ==> times[order[i]] > times[favourite]
    decreases |s|
  {
    order := [];
    if s != {} {
      var m := Latest(times, s, favourite);
      order := SortFavouring(times, s - {m}, favourite);
      forall x | x in order ensures times[x] <= times[m] {}
      order := [m] + order;
    }
  }

  lemma {:induction false} NotBefore(order: seq<nat>, times: map<nat, nat>, a: nat, b: nat)
    requires NoDuplicates(order) && a in times && forall x :: x in order ==> x in times
    requires forall i, j :: 0 <= i < j < |order| && order[j] == a ==> times[order[i]] > times[a]
    requires b in times && times[b] <= times[a]
    ensures !Before(order, b, a)
  {
  }

  lemma {:induction false} EdgeBreaksEndsFirst(g: Adjacency, v: nat, w: nat)
    requires Closed(g) && v in g && w in g[v] && v != w
    ensures !AlwaysEndsFirst(g)
  {
    var it := StartingWith(g, w);
    FirstIsShallow(g, it, w);
    var times := FinishingTimes(it);
    var order := SortFavouring(times, g.Keys, v);
    NotBefore(order, times, v, w);
    assert (v, w) in Edges(g);
    assert !EndsFirst(g, order);
  }

  lemma {:induction false} EdgeBreaksStartsFirst(g: Adjacency, v: nat, w: nat)
    requires Closed(g) && v in g && w in g[v] && v != w
    ensures !AlwaysStartsFirst(g)
  {
    var it := StartingWith(g, v);
    FirstIsShallow(g, it, v);
    var times := FinishingTimes(it);
    var order := SortFavouring(times, g.Keys, w);
    NotBefore(order, times, w, v);
    assert (v, w) in Edges(g);
    assert !StartsFirst(g, order);
  }

  lemma {:induction false} SelfEdgeIsCycle(g: Adjacency, v: nat)
    requires v in g && v in g[v]
    ensures Cyclic(g)
  {
    assert IsCycle(g, [v, v]);
  }

  /** On acyclic graphs, whatever the iteration order, TopologicalSort is sure to put
      ends before starts, or starts before ends, only if there are no edges at all. */
  lemma {:induction false} SortedOnlyWithoutEdges(g: Adjacency)
    requires Closed(g) && !Cyclic(g)
    ensures AlwaysEndsFirst(g) <==> Edges(g) == {}
    ensures AlwaysStartsFirst(g) <==> Edges(g) == {}
  {
    if Edges(g) != {} {
      var e :| e in Edges(g);
      if e.0 == e.1 { SelfEdgeIsCycle(g, e.0); }
      EdgeBreaksEndsFirst(g, e.0, e.1);
      EdgeBreaksStartsFirst(g, e.0, e.1);
    }
  }
}
