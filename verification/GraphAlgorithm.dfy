/** graph::HasCycle of src/common/graph_algorithm.cpp.
 */
module GraphAlgorithm {
  import opened Graph

  ghost predicate IsPath(g: Adjacency, p: seq<nat>) {
    forall i :: 0 <= i < |p| - 1 ==> p[i] in g && p[i + 1] in g[p[i]]
  }

  /** A path that comes back to where it started, after at least one edge. */
  ghost predicate IsCycle(g: Adjacency, p: seq<nat>) {
    |p| >= 2 && IsPath(g, p) && p[0] == p[|p| - 1]
  }

  ghost predicate Cyclic(g: Adjacency) {
    exists p :: IsCycle(g, p)
  }

  /** std::sort on the elements of a set. */
  method SortedElements(s: set<nat>) returns (r: seq<nat>)
    ensures forall i, j :: 0 <= i < j < |r| ==> r[i] < r[j]
    ensures forall x :: x in r <==> x in s
  {
    r := [];
    var rest := s;
    while rest != {}
      invariant rest <= s
      invariant forall i, j :: 0 <= i < j < |r| ==> r[i] < r[j]
      invariant forall i, y :: 0 <= i < |r| && y in rest ==> r[i] < y
      invariant forall x :: x in r <==> x in s && x !in rest
    {
      var m := Minimum(rest);
      rest, r := rest - {m}, r + [m];
    }
  }

  method Minimum(s: set<nat>) returns (m: nat)
    requires s != {}
    ensures m in s && forall x :: x in s ==> m <= x
  {
    m :| m in s;
    var rest := s - {m};
    while rest != {}
      invariant m in s && rest <= s && forall x :: x in s && x !in rest ==> m <= x
    {
      var x :| x in rest;
      rest := rest - {x};
      if x < m { m := x; }
    }
  }

  // ---- HasCycle ----

  datatype NodeState = Unvisited | InProgress | Visited

  type States = map<nat, NodeState>

  /** The visited vertices in the order in which they were finished: each of them only
      has successors that were finished before it. */
  ghost predicate Finished(g: Adjacency, states: States, order: seq<nat>) {
    && states.Keys == g.Keys
    && NoDuplicates(order)
    && (forall v :: v in order <==> v in g && states[v].Visited?)
    && (forall k, w :: 0 <= k < |order| && w in g[order[k]] ==> w in order[..k])
  }

  /** The stack is a path, and the vertices in progress are those above its bottom. */
  ghost predicate OnStack(g: Adjacency, states: States, stack: seq<nat>) {
    && states.Keys == g.Keys
    && stack != [] && IsPath(g, stack) && (forall v :: v in stack ==> v in g)
    && (forall v :: v in g ==> (states[v].InProgress? <==> v in stack[1..]))
    && NoDuplicates(stack[1..])
    && !states[stack[0]].Visited?
  }

  ghost function UnvisitedOf(states: States): (s: set<nat>) {
    set v | v in states && states[v].Unvisited?
  }

  lemma {:induction false} CycleOnStack(g: Adjacency, stack: seq<nat>, w: nat)
    requires stack != [] && IsPath(g, stack) && w in stack[1..]
    requires stack[|stack| - 1] in g && w in g[stack[|stack| - 1]]
    ensures Cyclic(g)
  {
    var k :| 0 < k < |stack| && stack[k] == w;
    var p := stack[k..] + [w];
    forall i | 0 <= i < |p| - 1 ensures p[i] in g && p[i + 1] in g[p[i]] {
      assert p[i] == stack[k + i];
    }
    assert IsCycle(g, p);
  }

  lemma {:induction false} FinishedIsAcyclic(g: Adjacency, states: States, order: seq<nat>)
    requires Finished(g, states, order) && forall v :: v in g ==> v in order
    ensures !Cyclic(g)
  {
    if Cyclic(g) {
      var p :| IsCycle(g, p);
      assert p[0] in order;
      var k :| 0 <= k < |order| && order[k] == p[0];
      var m := Descend(g, states, order, p, k, |p| - 1);
    }
  }

  lemma {:induction false} Descend(g: Adjacency, states: States, order: seq<nat>, p: seq<nat>, k: nat, n: nat)
    returns (m: nat)
    requires Finished(g, states, order) && IsPath(g, p) && 0 < n < |p| && k < |order| && order[k] == p[0]
    ensures m < k && order[m] == p[n]
    decreases n
  {
    var j := k;
    if n > 1 {
      j := Descend(g, states, order, p, k, n - 1);
    }
    assert p[n] in g[p[n - 1]];
    m :| 0 <= m < j && order[m] == p[n];
  }

  /** Between two moments of the search vertices are only ever finished. */
  ghost predicate OnlyFinishes(g: Adjacency, before: States, after: States) {
    && before.Keys == after.Keys == g.Keys
    && forall v :: v in g ==> after[v] == before[v] || (before[v].Unvisited? && after[v].Visited?)
  }

  lemma {:induction false} Push(g: Adjacency, states: States, stack: seq<nat>, order: seq<nat>, w: nat)
    requires Closed(g) && OnStack(g, states, stack) && Finished(g, states, order)
    requires w in g[stack[|stack| - 1]] && states[w].Unvisited?
    ensures OnStack(g, states[w := InProgress], stack + [w])
    ensures Finished(g, states[w := InProgress], order)
    ensures UnvisitedOf(states[w := InProgress]) < UnvisitedOf(states)
  {
    var stack' := stack + [w];
    assert stack'[1..] == stack[1..] + [w];
    assert w in UnvisitedOf(states);
  }

  lemma {:induction false} Pop(g: Adjacency, states: States, stack: seq<nat>, w: nat, after: States)
    requires OnStack(g, states, stack) && w in g && states[w].Unvisited?
    requires OnlyFinishes(g, states[w := Visited], after) && !after[stack[0]].Visited?
    ensures OnStack(g, after, stack) && OnlyFinishes(g, states, after)
  {
  }

  lemma {:induction false} Finish(g: Adjacency, states: States, order: seq<nat>, v: nat)
    requires Finished(g, states, order) && v in g && !states[v].Visited?
    requires forall w :: w in g[v] ==> w in g && states[w].Visited?
    ensures Finished(g, states[v := Visited], order + [v])
  {
    var order' := order + [v];
    forall k, w | 0 <= k < |order'| && w in g[order'[k]] ensures w in order'[..k] {
      if k < |order| { assert order'[..k] == order[..k]; } else { assert order'[..k] == order; }
    }
  }

  /** The search from the top of the stack, part of the way through its successors. */
  ghost predicate Searching(g: Adjacency, states0: States, stack: seq<nat>, states: States, order: seq<nat>) {
    OnStack(g, states, stack) && Finished(g, states, order) && OnlyFinishes(g, states0, states)
  }

  lemma {:induction false} AfterCall(g: Adjacency, states0: States, stack: seq<nat>, before: States, w: nat,
                  states: States, order: seq<nat>)
    requires OnStack(g, before, stack) && OnlyFinishes(g, states0, before) && w in g && before[w].Unvisited?
    requires OnlyFinishes(g, before[w := InProgress][w := Visited], states)
    requires Finished(g, states, order) && !states[stack[0]].Visited?
    ensures Searching(g, states0, stack, states, order) && states[w].Visited?
    ensures OnlyFinishes(g, before, states)
  {
    assert before[w := InProgress][w := Visited] == before[w := Visited];
    Pop(g, before, stack, w, states);
  }

  lemma {:induction false} AllDone(
    g: Adjacency, states0: States, stack: seq<nat>, states: States, order: seq<nat>, id: nat)
    requires Closed(g) && Searching(g, states0, stack, states, order) && id == stack[|stack| - 1]
    requires forall w :: w in g[id] ==> w in g && states[w].Visited?
    ensures Finished(g, states[id := Visited], order + [id])
    ensures OnlyFinishes(g, states0[id := Visited], states[id := Visited])
    ensures |stack| > 1 ==> id != stack[0] && !states[id := Visited][stack[0]].Visited?
  {
    assert |stack| > 1 ==> stack[1] in stack[1..] && id in stack[1..];
    Finish(g, states, order, id);
  }

  /** The search goes on to an unvisited successor of the top of the stack. `start` is how
      things stood when the top was reached. */
  method HasCycleThrough(g: Adjacency, states0: States, stack0: seq<nat>, vertex: nat, ghost order0: seq<nat>,
                         ghost start: States)
    returns (found: bool, states: States, stack: seq<nat>, ghost order: seq<nat>)
    requires Closed(g) && Searching(g, start, stack0, states0, order0)
    requires vertex in g[stack0[|stack0| - 1]] && states0[vertex].Unvisited?
    ensures found ==> Cyclic(g)
    ensures !found ==>
              && stack == stack0 && Searching(g, start, stack0, states, order)
              && OnlyFinishes(g, states0, states) && states[vertex].Visited?
    decreases UnvisitedOf(start), 0
  {
    Push(g, states0, stack0, order0, vertex);
    assert UnvisitedOf(states0) <= UnvisitedOf(start);
    found, states, stack, order := HasCycleFrom(g, states0[vertex := InProgress], stack0 + [vertex], order0);
    if !found { AfterCall(g, start, stack0, states0, vertex, states, order); }
  }

  /** The depth-first search from the top of the stack. The bottom of the stack is not
      marked, so the search may come back to it once more; then it must find a cycle. */
  method HasCycleFrom(g: Adjacency, states0: States, stack0: seq<nat>, ghost order0: seq<nat>)
    returns (found: bool, states: States, stack: seq<nat>, ghost order: seq<nat>)
    requires Closed(g) && OnStack(g, states0, stack0) && Finished(g, states0, order0)
    ensures found ==> Cyclic(g)
    ensures |stack0| > 1 && stack0[|stack0| - 1] == stack0[0] ==> found
    ensures !found ==>
              && stack == stack0[..|stack0| - 1]
              && Finished(g, states, order)
              && OnlyFinishes(g, states0[stack0[|stack0| - 1] := Visited], states)
              && (|stack0| > 1 ==> !states[stack0[0]].Visited?)
    decreases UnvisitedOf(states0), 1
  {
    states, stack, order := states0, stack0, order0;
    var id := stack[|stack| - 1];
    var adjacent := SortedElements(g[id]);
    for i := 0 to |adjacent|
      invariant stack == stack0 && Searching(g, states0, stack0, states, order)
      invariant forall j :: 0 <= j < i ==> adjacent[j] in g && states[adjacent[j]].Visited?
    {
      var vertex := adjacent[i];
      assert vertex in g[id];
      if states[vertex].InProgress? {
        CycleOnStack(g, stack, vertex);
        return true, states, stack, order;
      }
      if states[vertex].Unvisited? {
        found, states, stack, order := HasCycleThrough(g, states, stack, vertex, order, states0);
        if found { return true, states, stack, order; }
      }
    }
    AllDone(g, states0, stack0, states, order, id);
    return false, states[id := Visited], stack[..|stack| - 1], order + [id];
  }

  method HasCycle(g: Adjacency) returns (found: bool)
    requires Closed(g)
    ensures found <==> Cyclic(g)
  {
    var states: States := map v | v in g :: Unvisited;
    var search := SortedElements(g.Keys);
    ghost var order: seq<nat> := [];
    for i := 0 to |search|
      invariant Finished(g, states, order)
      invariant forall v :: v in g ==> !states[v].InProgress?
      invariant forall j :: 0 <= j < i ==> search[j] in g && states[search[j]].Visited?
    {
      if states[search[i]].Unvisited? {
        var stack := [search[i]];
        assert stack[1..] == [];
        found, states, stack, order := HasCycleFrom(g, states, stack, order);
        if found { return true; }
      }
    }
    FinishedIsAcyclic(g, states, order);
    return false;
  }
}
