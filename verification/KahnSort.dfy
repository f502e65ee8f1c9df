/** Kahn's algorithm with a priority heap. */
module KahnSort {
  import opened Sequences
  import opened Digraph
  import opened TopologicalOrders

  function Predecessors<T(==,!new)>(edges: set<(T, T)>, n: T): (s: set<T>)
    ensures forall m :: m in s <==> (m, n) in edges
  {
    set e | e in edges && e.1 == n :: e.0
  }

  /** The predecessors of `n` still to be emitted. */
  function Missing<T(==,!new)>(edges: set<(T, T)>, done: set<T>, n: T): (s: set<T>) {
    Predecessors(edges, n) - done
  }

  /** What was emitted: distinct nodes, each ready and the least that was. */
  ghost predicate Emitted<T(!new)>(nodes: set<T>, edges: set<(T, T)>, less: (T, T) -> bool, order: seq<T>) {
    && Distinct(order)
    && (forall k | 0 <= k < |order| :: Ready(nodes, edges, order[..k], order[k]))
    && TakesLeast(nodes, edges, less, order)
  }

  /** The heap holds the nodes that miss no predecessor, the map how many each of the others misses. */
  ghost predicate Counted<T(!new)>(nodes: set<T>, edges: set<(T, T)>, done: set<T>, ready: set<T>, inDegree: map<T, nat>) {
    && (forall n :: n in nodes && n !in done <==> n in ready || n in inDegree)
    && (forall n | n in ready :: Missing(edges, done, n) == {})
    && (forall n | n in inDegree :: Missing(edges, done, n) != {} && inDegree[n] == |Missing(edges, done, n)|)
  }

  /** While the successors of `n` are updated: those in `seen` count `n` as done, the others not yet. */
  ghost predicate Recounting<T(!new)>(nodes: set<T>, edges: set<(T, T)>, done: set<T>, n: T, seen: set<T>,
                                      ready: set<T>, inDegree: map<T, nat>) {
    && (forall m :: m in nodes && m !in done && m != n <==> m in ready || m in inDegree)
    && (forall m | m in ready :: Missing(edges, if m in seen then done + {n} else done, m) == {})
    && (forall m | m in inDegree ::
          var missing := Missing(edges, if m in seen then done + {n} else done, m);
          missing != {} && inDegree[m] == |missing|)
  }

  lemma RecountOne<T(!new)>(edges: set<(T, T)>, done: set<T>, n: T, child: T)
    requires (n, child) in edges && n !in done
    ensures n in Missing(edges, done, child)
    ensures Missing(edges, done + {n}, child) == Missing(edges, done, child) - {n}
    ensures |Missing(edges, done + {n}, child)| == |Missing(edges, done, child)| - 1
  {
    assert Missing(edges, done + {n}, child) == Missing(edges, done, child) - {n};
  }

  /** A successor that missed only `n` moves to the heap. */
  lemma RecountReady<T(!new)>(nodes: set<T>, edges: set<(T, T)>, done: set<T>, n: T, seen: set<T>, child: T,
                              ready: set<T>, inDegree: map<T, nat>)
    requires Recounting(nodes, edges, done, n, seen, ready, inDegree)
    requires (n, child) in edges && n !in done && child !in seen && child in inDegree && inDegree[child] == 1
    ensures Recounting(nodes, edges, done, n, seen + {child}, ready + {child}, inDegree - {child})
  {
    RecountOne(edges, done, n, child);
    assert Missing(edges, done + {n}, child) == {};
  }

  /** A successor that misses more counts one less. */
  lemma RecountMore<T(!new)>(nodes: set<T>, edges: set<(T, T)>, done: set<T>, n: T, seen: set<T>, child: T,
                             ready: set<T>, inDegree: map<T, nat>)
    requires Recounting(nodes, edges, done, n, seen, ready, inDegree)
    requires (n, child) in edges && n !in done && child !in seen && child in inDegree && inDegree[child] > 1
    ensures Recounting(nodes, edges, done, n, seen + {child}, ready, inDegree[child := inDegree[child] - 1])
  {
    RecountOne(edges, done, n, child);
    assert |Missing(edges, done + {n}, child)| > 0;
  }

  /** A successor with no count: a node that misses `n` is not in the heap either. */
  lemma RecountNone<T(!new)>(nodes: set<T>, edges: set<(T, T)>, done: set<T>, n: T, seen: set<T>, child: T,
                             ready: set<T>, inDegree: map<T, nat>)
    requires Recounting(nodes, edges, done, n, seen, ready, inDegree)
    requires (n, child) in edges && n !in done && child !in seen
    ensures child !in ready
    ensures child in inDegree ==> inDegree[child] >= 1
    ensures child !in inDegree ==> Recounting(nodes, edges, done, n, seen + {child}, ready, inDegree)
  {
    RecountOne(edges, done, n, child);
  }

  lemma RecountedAll<T(!new)>(nodes: set<T>, edges: set<(T, T)>, done: set<T>, n: T, ready: set<T>, inDegree: map<T, nat>)
    requires Recounting(nodes, edges, done, n, Successors(edges, n), ready, inDegree)
    ensures Counted(nodes, edges, done + {n}, ready, inDegree)
  {
    forall m | m !in Successors(edges, n) ensures Missing(edges, done + {n}, m) == Missing(edges, done, m) {
    }
  }

  /** Takes the least node of the heap. */
  method PopLeast<T(==,!new)>(ready: set<T>, less: (T, T) -> bool) returns (n: T)
    requires ready != {} && StrictTotal(less)
    ensures n in ready && forall m | m in ready :: m == n || less(n, m)
  {
    n :| n in ready;
    var rest := ready - {n};
    while rest != {}
      invariant n in ready && rest <= ready
      invariant forall m | m in ready - rest :: m == n || less(n, m)
    {
      var m :| m in rest;
      assert m == n || less(m, n) || less(n, m);
      if less(m, n) {
        assert forall x | less(n, x) :: less(m, x);
        n := m;
      }
      rest := rest - {m};
    }
  }

  lemma EmitNext<T(!new)>(nodes: set<T>, edges: set<(T, T)>, less: (T, T) -> bool, order: seq<T>, ready: set<T>,
                          inDegree: map<T, nat>, n: T)
    requires Emitted(nodes, edges, less, order) && Counted(nodes, edges, Members(order), ready, inDegree)
    requires n in ready && forall m | m in ready :: m == n || less(n, m)
    requires forall e | e in edges :: e.0 in nodes && e.1 in nodes
    ensures Emitted(nodes, edges, less, order + [n])
    ensures Members(order + [n]) == Members(order) + {n}
  {
    var longer := order + [n];
    assert longer[..|order|] == order && forall k | 0 <= k < |order| :: longer[..k] == order[..k];
    assert n in nodes - Members(order);
    forall p | (p, n) in edges ensures p in order { assert p !in Missing(edges, Members(order), n); }
    forall m | Ready(nodes, edges, order, m) ensures m == n || less(n, m) {
      assert Missing(edges, Members(order), m) == {};
      assert m in nodes - Members(order);
    }
  }

  /** With the heap empty, every node has been emitted: of the others, one would miss nothing. */
  lemma AllEmitted<T(!new)>(nodes: set<T>, edges: set<(T, T)>, less: (T, T) -> bool, order: seq<T>, inDegree: map<T, nat>)
    requires Acyclic(edges) && forall e | e in edges :: e.0 in nodes && e.1 in nodes
    requires Emitted(nodes, edges, less, order) && Counted(nodes, edges, Members(order), {}, inDegree)
    ensures IsOrder(nodes, edges, order)
  {
    forall n | n in inDegree.Keys ensures HasPredecessor(edges, inDegree.Keys, n) {
      var p :| p in Missing(edges, Members(order), n);
    }
    NoSourceMeansEmpty(edges, inDegree.Keys);
    forall n | n in nodes ensures n in order { assert n !in nodes - Members(order); }
    forall n | n in order ensures n in nodes {
      var k :| 0 <= k < |order| && order[k] == n;
      assert Ready(nodes, edges, order[..k], order[k]);
    }
    forall i, j | 0 <= i < |order| && 0 <= j < |order| && (order[i], order[j]) in edges ensures i < j {
      assert Ready(nodes, edges, order[..j], order[j]);
      var p :| 0 <= p < j && order[..j][p] == order[i];
    }
  }

  /** Emits the least ready node until none is left. */
  method Kahn<T(==,!new)>(nodes: set<T>, edges: set<(T, T)>, less: (T, T) -> bool) returns (order: seq<T>)
    requires StrictTotal(less) && Acyclic(edges)
    requires forall e | e in edges :: e.0 in nodes && e.1 in nodes
    ensures IsOrder(nodes, edges, order) && TakesLeast(nodes, edges, less, order)
  {
    var ready, inDegree := InitialDegrees(nodes, edges);
    order := [];
    assert Members(order) == {};
    while ready != {}
      invariant Emitted(nodes, edges, less, order)
      invariant Counted(nodes, edges, Members(order), ready, inDegree)
      decreases nodes - Members(order)
    {
      var n := PopLeast(ready, less);
      EmitNext(nodes, edges, less, order, ready, inDegree, n);
      assert n in nodes - Members(order);
      ready, inDegree := UpdateSuccessors(nodes, edges, Members(order), n, ready, inDegree);
      order := order + [n];
    }
    AllEmitted(nodes, edges, less, order, inDegree);
  }

  /** The nodes without predecessors, and the number of predecessors of the others. */
  method InitialDegrees<T(==,!new)>(nodes: set<T>, edges: set<(T, T)>) returns (ready: set<T>, inDegree: map<T, nat>)
    ensures Counted(nodes, edges, {}, ready, inDegree)
  {
    inDegree, ready := map[], {};
    var rest := nodes;
    while rest != {}
      invariant Counted(nodes - rest, edges, {}, ready, inDegree) && rest <= nodes
    {
      var n :| n in rest;
      var degree := |Predecessors(edges, n)|;
      assert Missing(edges, {}, n) == Predecessors(edges, n);
      assert nodes - (rest - {n}) == (nodes - rest) + {n};
      if degree == 0 {
        ready := ready + {n};
      } else {
        inDegree := inDegree[n := degree];
      }
      rest := rest - {n};
    }
    assert nodes - rest == nodes;
  }

  /** Each successor of `n` misses one predecessor less; those that miss none are ready. */
  method UpdateSuccessors<T(==,!new)>(ghost nodes: set<T>, edges: set<(T, T)>, ghost done: set<T>, n: T,
                                      heap: set<T>, inDegree0: map<T, nat>)
    returns (ready: set<T>, inDegree: map<T, nat>)
    requires Counted(nodes, edges, done, heap, inDegree0) && n in heap && n in nodes - done
    ensures Counted(nodes, edges, done + {n}, ready, inDegree)
  {
    ready, inDegree := heap - {n}, inDegree0;
    var children := Successors(edges, n);
    var rest := children;
    while rest != {}
      invariant rest <= children
      invariant Recounting(nodes, edges, done, n, children - rest, ready, inDegree)
    {
      var child :| child in rest;
      RecountNone(nodes, edges, done, n, children - rest, child, ready, inDegree);
      assert children - (rest - {child}) == (children - rest) + {child};
      if child in inDegree {
        var degree := inDegree[child] - 1;
        if degree == 0 {
          RecountReady(nodes, edges, done, n, children - rest, child, ready, inDegree);
          inDegree := inDegree - {child};
          ready := ready + {child};
        } else {
          RecountMore(nodes, edges, done, n, children - rest, child, ready, inDegree);
          inDegree := inDegree[child := degree];
        }
      }
      rest := rest - {child};
    }
    assert children - rest == children;
    RecountedAll(nodes, edges, done, n, ready, inDegree);
  }
}
