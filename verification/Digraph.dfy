/** Finite directed graphs: paths, cycles and reachability.
    The graph library's two operations are modelled by what they promise:
    an edge is added or refused, and a search keeps what it visited. */
module Digraph {
  ghost predicate IsPath<T>(edges: set<(T, T)>, path: seq<T>) {
    path != [] && forall k | 0 <= k < |path| - 1 :: (path[k], path[k + 1]) in edges
  }

  ghost predicate PathFrom<T>(edges: set<(T, T)>, path: seq<T>, start: T, end: T) {
    IsPath(edges, path) && path[0] == start && path[|path| - 1] == end
  }

  /** `end` is `start` or lies behind it. */
  ghost predicate Reaches<T(!new)>(edges: set<(T, T)>, start: T, end: T) {
    exists path :: PathFrom(edges, path, start, end)
  }

  ghost predicate Acyclic<T(!new)>(edges: set<(T, T)>) {
    forall path | IsPath(edges, path) && |path| >= 2 :: path[0] != path[|path| - 1]
  }

  lemma SubPath<T(!new)>(edges: set<(T, T)>, path: seq<T>, i: nat, j: nat)
    requires IsPath(edges, path) && i < j <= |path|
    ensures IsPath(edges, path[i..j])
  {
    var sub := path[i..j];
    forall k | 0 <= k < |sub| - 1 ensures (sub[k], sub[k + 1]) in edges {
      assert (path[i + k], path[(i + k) + 1]) in edges;
    }
  }

  lemma PrependPath<T(!new)>(edges: set<(T, T)>, a: T, path: seq<T>)
    requires IsPath(edges, path) && (a, path[0]) in edges
    ensures IsPath(edges, [a] + path)
  {
    var longer := [a] + path;
    forall k | 0 <= k < |longer| - 1 ensures (longer[k], longer[k + 1]) in edges {
      if k > 0 { assert (path[k - 1], path[(k - 1) + 1]) in edges; }
    }
  }

  lemma FirstEdge<T(!new)>(edges: set<(T, T)>, path: seq<T>)
    requires IsPath(edges, path) && |path| > 1
    ensures (path[0], path[1]) in edges && IsPath(edges, path[1..])
  {
    assert (path[0], path[0 + 1]) in edges;
    SubPath(edges, path, 1, |path|);
  }

  lemma ReachesSelf<T(!new)>(edges: set<(T, T)>, n: T)
    ensures Reaches(edges, n, n)
  {
    assert PathFrom(edges, [n], n, n);
  }

  lemma ReachesNext<T(!new)>(edges: set<(T, T)>, a: T, b: T, c: T)
    requires Reaches(edges, a, b) && (b, c) in edges
    ensures Reaches(edges, a, c)
  {
    var path :| PathFrom(edges, path, a, b);
    assert PathFrom(edges, path + [c], a, c);
  }

  lemma ReachesFromEdge<T(!new)>(edges: set<(T, T)>, a: T, b: T, c: T)
    requires (a, b) in edges && Reaches(edges, b, c)
    ensures Reaches(edges, a, c)
  {
    var path :| PathFrom(edges, path, b, c);
    PrependPath(edges, a, path);
    assert PathFrom(edges, [a] + path, a, c);
  }

  lemma ReachesTransitive<T(!new)>(edges: set<(T, T)>, a: T, b: T, c: T)
    requires Reaches(edges, a, b) && Reaches(edges, b, c)
    ensures Reaches(edges, a, c)
  {
    var path :| PathFrom(edges, path, a, b);
    ReachesAlong(edges, path, c);
  }

  lemma {:induction false} ReachesAlong<T(!new)>(edges: set<(T, T)>, path: seq<T>, c: T)
    requires IsPath(edges, path) && Reaches(edges, path[|path| - 1], c)
    ensures Reaches(edges, path[0], c)
  {
    if |path| > 1 {
      var rest := path[1..];
      FirstEdge(edges, path);
      ReachesAlong(edges, rest, c);
      ReachesFromEdge(edges, path[0], rest[0], c);
    }
  }

  lemma SetReaches<T(!new)>(edges: set<(T, T)>, closed: set<T>, path: seq<T>)
    requires IsPath(edges, path) && path[0] in closed
    requires forall e | e in edges && e.0 in closed :: e.1 in closed
    ensures path[|path| - 1] in closed
  {
    var k := 0;
    while k < |path| - 1
      invariant 0 <= k < |path| && path[k] in closed
    {
      assert (path[k], path[k + 1]) in edges;
      k := k + 1;
    }
  }

  // ---- Cycles ----

  /** A path in the graph with an edge more avoids the edge, or passes it for the first and for the last time. */
  lemma {:induction false} PathWithEdge<T(!new)>(edges: set<(T, T)>, a: T, b: T, path: seq<T>)
    requires IsPath(edges + {(a, b)}, path)
    ensures Reaches(edges, path[0], path[|path| - 1])
         || (Reaches(edges, path[0], a) && Reaches(edges, b, path[|path| - 1]))
  {
    if |path| == 1 {
      ReachesSelf(edges, path[0]);
    } else {
      var rest := path[1..];
      FirstEdge(edges + {(a, b)}, path);
      PathWithEdge(edges, a, b, rest);
      if (path[0], path[1]) in edges {
        if Reaches(edges, rest[0], path[|path| - 1]) {
          ReachesFromEdge(edges, path[0], rest[0], path[|path| - 1]);
        } else {
          ReachesFromEdge(edges, path[0], rest[0], a);
        }
      } else {
        ReachesSelf(edges, a);
      }
    }
  }

  lemma CycleFromBackPath<T(!new)>(edges: set<(T, T)>, a: T, b: T)
    requires (a, b) in edges && Reaches(edges, b, a)
    ensures !Acyclic(edges)
  {
    var path :| PathFrom(edges, path, b, a);
    var cycle := [a] + path;
    PrependPath(edges, a, path);
    assert IsPath(edges, cycle) && cycle[0] == cycle[|cycle| - 1];
  }

  lemma NoLoop<T(!new)>(edges: set<(T, T)>, n: T)
    requires Acyclic(edges)
    ensures (n, n) !in edges
  {
    ReachesSelf(edges, n);
    if (n, n) in edges { CycleFromBackPath(edges, n, n); }
  }

  lemma ReachesMonotonic<T(!new)>(edges: set<(T, T)>, more: set<(T, T)>, a: T, b: T)
    requires edges <= more && Reaches(edges, a, b)
    ensures Reaches(more, a, b)
  {
    var path :| PathFrom(edges, path, a, b);
    assert PathFrom(more, path, a, b);
  }

  /** An edge closes a cycle exactly if its end already reaches its start. */
  lemma AddEdgeKeepsAcyclic<T(!new)>(edges: set<(T, T)>, a: T, b: T)
    requires Acyclic(edges)
    ensures Acyclic(edges + {(a, b)}) <==> !Reaches(edges, b, a)
  {
    var more := edges + {(a, b)};
    if Reaches(edges, b, a) {
      ReachesMonotonic(edges, more, b, a);
      CycleFromBackPath(more, a, b);
    } else {
      forall path | IsPath(more, path) && |path| >= 2 ensures path[0] != path[|path| - 1] {
        NoCycleThrough(edges, a, b, path);
      }
    }
  }

  lemma NoCycleThrough<T(!new)>(edges: set<(T, T)>, a: T, b: T, path: seq<T>)
    requires Acyclic(edges) && !Reaches(edges, b, a)
    requires IsPath(edges + {(a, b)}, path) && |path| >= 2
    ensures path[0] != path[|path| - 1]
  {
    var first, second, last := path[0], path[1], path[|path| - 1];
    FirstEdge(edges + {(a, b)}, path);
    PathWithEdge(edges, a, b, path[1..]);
    if first == last {
      if (first, second) !in edges {
        // The edge itself comes first, so its end reaches its start.
      } else if Reaches(edges, second, first) {
        CycleFromBackPath(edges, first, second);
      } else {
        ReachesFromEdge(edges, first, second, a);
        ReachesTransitive(edges, b, first, a);
      }
    }
  }

  lemma FewerEdgesKeepAcyclic<T(!new)>(edges: set<(T, T)>, fewer: set<(T, T)>)
    requires Acyclic(edges) && fewer <= edges
    ensures Acyclic(fewer)
  {
    forall path | IsPath(fewer, path) && |path| >= 2 ensures path[0] != path[|path| - 1] {
      assert IsPath(edges, path);
    }
  }

  lemma NoEdgesAcyclic<T(!new)>(edges: set<(T, T)>)
    requires edges == {}
    ensures Acyclic(edges)
  {
    forall path | IsPath(edges, path) ensures |path| < 2 {
      if |path| > 1 { FirstEdge(edges, path); }
    }
  }

  /** What is reached from elsewhere has an edge into it, and what reaches elsewhere one out of it. */
  lemma ReachesByEdges<T(!new)>(edges: set<(T, T)>, start: T, end: T)
    requires Reaches(edges, start, end)
    ensures start == end || exists e :: e in edges && e.0 == start
    ensures start == end || exists e :: e in edges && e.1 == end
  {
    var path :| PathFrom(edges, path, start, end);
    if |path| > 1 {
      FirstEdge(edges, path);
      var k := |path| - 2;
      assert (path[k], path[k + 1]) in edges;
    }
  }

  // ---- Sources ----

  /** The nodes `0..count`. */
  ghost function Below(count: nat): (s: set<nat>)
    ensures |s| == count && forall n: nat :: n in s <==> n < count
  {
    if count == 0 then {} else Below(count - 1) + {count - 1}
  }

  lemma {:induction false} Pigeonhole<T(!new)>(s: seq<T>, pool: set<T>) returns (i: nat, j: nat)
    requires |s| > |pool| && forall x | x in s :: x in pool
    ensures i < j < |s| && s[i] == s[j]
  {
    var x, rest := s[|s| - 1], s[..|s| - 1];
    if x in rest {
      i :| 0 <= i < |rest| && rest[i] == x;
      j := |s| - 1;
    } else {
      i, j := Pigeonhole(rest, pool - {x});
    }
  }

  ghost predicate HasPredecessor<T(!new)>(edges: set<(T, T)>, nodes: set<T>, n: T) {
    exists p :: p in nodes && (p, n) in edges
  }

  /** Walking backwards for longer than there are nodes meets one twice. */
  lemma {:induction false} LongPath<T(!new)>(edges: set<(T, T)>, nodes: set<T>, length: nat) returns (path: seq<T>)
    requires nodes != {} && forall n {:trigger HasPredecessor(edges, nodes, n)} | n in nodes :: HasPredecessor(edges, nodes, n)
    ensures IsPath(edges, path) && |path| == length + 1 && forall x | x in path :: x in nodes
  {
    if length == 0 {
      var start :| start in nodes;
      path := [start];
    } else {
      var rest := LongPath(edges, nodes, length - 1);
      assert rest[0] in nodes && HasPredecessor(edges, nodes, rest[0]);
      var p :| p in nodes && (p, rest[0]) in edges;
      PrependPath(edges, p, rest);
      path := [p] + rest;
    }
  }

  /** In an acyclic graph, every non-empty set of nodes has one with no predecessor in the set. */
  lemma NoSourceMeansEmpty<T(!new)>(edges: set<(T, T)>, nodes: set<T>)
    requires Acyclic(edges)
    requires forall n {:trigger HasPredecessor(edges, nodes, n)} | n in nodes :: HasPredecessor(edges, nodes, n)
    ensures nodes == {}
  {
    if nodes != {} {
      var path := LongPath(edges, nodes, |nodes|);
      var i, j := Pigeonhole(path, nodes);
      SubPath(edges, path, i, j + 1);
    }
  }

  // ---- Going round ----

  /** A path to a marked node passes a first one; up to there it avoids the edges out of marked nodes. */
  lemma {:induction false} FirstMarked<T(!new)>(edges: set<(T, T)>, others: set<(T, T)>, marked: set<T>, path: seq<T>) returns (first: T)
    requires IsPath(edges, path) && path[|path| - 1] in marked
    requires forall e | e in edges && e.0 !in marked :: e in others
    ensures first in marked && Reaches(others, path[0], first)
  {
    if path[0] in marked {
      first := path[0];
      ReachesSelf(others, first);
    } else {
      FirstEdge(edges, path);
      first := FirstMarked(edges, others, marked, path[1..]);
      ReachesFromEdge(others, path[0], path[1], first);
    }
  }

  /** A cycle that an acyclic graph does not have leaves a marked node, if only their edges differ. */
  lemma CycleLeaves<T(!new)>(edges: set<(T, T)>, more: set<(T, T)>, marked: set<T>, cycle: seq<T>) returns (k: nat)
    requires Acyclic(edges) && forall e | e in more && e.0 !in marked :: e in edges
    requires IsPath(more, cycle) && |cycle| >= 2 && cycle[0] == cycle[|cycle| - 1]
    ensures k < |cycle| - 1 && cycle[k] in marked
  {
    assert !IsPath(edges, cycle);
    k :| 0 <= k < |cycle| - 1 && cycle[k] in marked;
  }

  /** Round a cycle, from behind node `k` back to it. */
  lemma CycleReturns<T(!new)>(edges: set<(T, T)>, cycle: seq<T>, k: nat) returns (back: seq<T>)
    requires IsPath(edges, cycle) && k < |cycle| - 1 && cycle[0] == cycle[|cycle| - 1]
    ensures PathFrom(edges, back, cycle[k + 1], cycle[k])
  {
    var rest := cycle[k + 1..];
    SubPath(edges, cycle, k + 1, |cycle|);
    SubPath(edges, cycle, 0, k + 1);
    assert PathFrom(edges, rest, cycle[k + 1], cycle[0]) && PathFrom(edges, cycle[..k + 1], cycle[0], cycle[k]);
    ReachesTransitive(edges, cycle[k + 1], cycle[0], cycle[k]);
    back :| PathFrom(edges, back, cycle[k + 1], cycle[k]);
  }

  /** Edges out of marked nodes are led to `to` instead. That closes a cycle exactly if `to` reaches a marked node. */
  lemma RedirectedIff<T(!new)>(before: set<(T, T)>, after: set<(T, T)>, marked: set<T>, to: T)
    requires Acyclic(before)
    requires forall e | e in after && e.0 !in marked :: e in before
    requires forall e | e in before && e.0 !in marked :: e in after
    requires forall e | e in after && e.0 in marked :: e.1 == to
    requires forall m | m in marked :: (m, to) in after
    ensures Acyclic(after) <==> !exists m :: m in marked && Reaches(before, to, m)
  {
    if m :| m in marked && Reaches(before, to, m) {
      var path :| PathFrom(before, path, to, m);
      var first := FirstMarked(before, after, marked, path);
      CycleFromBackPath(after, first, to);
    } else {
      forall path | IsPath(after, path) && |path| >= 2 ensures path[0] != path[|path| - 1] {
        if path[0] == path[|path| - 1] {
          var k := CycleLeaves(before, after, marked, path);
          assert (path[k], path[k + 1]) in after;
          var back := CycleReturns(after, path, k);
          var first := FirstMarked(after, before, marked, back);
        }
      }
    }
  }

  // ---- Growing by nodes that nothing leads to ----

  /** The edges out of the nodes below `n` stay below it; all others descend, or lead below it. */
  ghost predicate GrownFrom(edges: set<(nat, nat)>, more: set<(nat, nat)>, n: nat) {
    && edges <= more
    && (forall e | e in more && e.0 < n :: e in edges && e.1 < n)
    && forall e | e in more && e.1 >= n :: e.1 < e.0
  }

  lemma {:induction false} StaysBelow(edges: set<(nat, nat)>, more: set<(nat, nat)>, n: nat, path: seq<nat>)
    requires GrownFrom(edges, more, n) && IsPath(more, path) && path[0] < n
    ensures IsPath(edges, path)
  {
    if |path| > 1 {
      FirstEdge(more, path);
      StaysBelow(edges, more, n, path[1..]);
      PrependPath(edges, path[0], path[1..]);
      assert [path[0]] + path[1..] == path;
    }
  }

  lemma {:induction false} DescendsAbove(edges: set<(nat, nat)>, more: set<(nat, nat)>, n: nat, path: seq<nat>)
    requires GrownFrom(edges, more, n) && IsPath(more, path) && path[|path| - 1] >= n
    ensures path[|path| - 1] <= path[0] && (|path| >= 2 ==> path[|path| - 1] < path[0])
  {
    if |path| > 1 {
      FirstEdge(more, path);
      DescendsAbove(edges, more, n, path[1..]);
    }
  }

  lemma GrownKeepsAcyclic(edges: set<(nat, nat)>, more: set<(nat, nat)>, n: nat)
    requires GrownFrom(edges, more, n)
    ensures Acyclic(more) <==> Acyclic(edges)
  {
    if Acyclic(more) { FewerEdgesKeepAcyclic(more, edges); }
    if Acyclic(edges) {
      forall path | IsPath(more, path) && |path| >= 2 ensures path[0] != path[|path| - 1] {
        if path[0] < n { StaysBelow(edges, more, n, path); }
        if path[|path| - 1] >= n { DescendsAbove(edges, more, n, path); }
      }
    }
  }

  /** A path that meets a node twice can be followed for ever. */
  lemma FollowedForEver<T(!new)>(edges: set<(T, T)>, path: seq<T>, i: nat, j: nat, length: nat) returns (long: seq<T>)
    requires IsPath(edges, path) && i < j < |path| && path[i] == path[j]
    ensures IsPath(edges, long) && |long| == length + 1 && long[0] == path[0]
  {
    var k: nat := 0;
    long := [path[0]];
    while |long| <= length
      invariant IsPath(edges, long) && |long| <= length + 1 && long[0] == path[0]
      invariant k < j && long[|long| - 1] == path[k]
      decreases length + 1 - |long|
    {
      assert (path[k], path[k + 1]) in edges;
      long := long + [path[k + 1]];
      k := if k + 1 == j then i else k + 1;
    }
  }

  // ---- Depth-first traversal ----

  function Successors<T(==,!new)>(edges: set<(T, T)>, n: T): (s: set<T>)
    ensures forall m :: m in s <==> (n, m) in edges
  {
    set e | e in edges && e.0 == n :: e.1
  }

  function Reversed<T(==,!new)>(edges: set<(T, T)>): (r: set<(T, T)>)
    ensures forall a, b :: (a, b) in r <==> (b, a) in edges
  {
    set e | e in edges :: (e.1, e.0)
  }

  ghost predicate SuccessorsIn<T>(edges: set<(T, T)>, visited: set<T>, stack: seq<T>) {
    forall e | e in edges && e.0 in visited :: e.1 in visited || e.1 in stack
  }

  /** What a traversal has visited: what it had before, and part of what `start` reaches. */
  ghost predicate Exploring<T(!new)>(edges: set<(T, T)>, start: T, visited0: set<T>, visited: set<T>, found: seq<T>, stack: seq<T>) {
    && SuccessorsIn(edges, visited, stack)
    && (start in visited || start in stack)
    && (forall n | n in visited :: n in visited0 || Reaches(edges, start, n))
    && (forall n | n in stack :: Reaches(edges, start, n))
    && visited0 <= visited
    && (forall n :: n in found <==> n in visited && n !in visited0)
    && forall i, j | 0 <= i < j < |found| :: found[i] != found[j]
  }

  /** Visits what `start` reaches and no earlier traversal has visited. The visited set is kept
      from traversal to traversal, the stack is not. */
  method Explore<T(==,!new)>(edges: set<(T, T)>, start: T, visited0: set<T>, ghost nodes: set<T>)
    returns (visited: set<T>, found: seq<T>)
    requires start in nodes && visited0 <= nodes && forall e | e in edges :: e.1 in nodes
    requires SuccessorsIn(edges, visited0, [])
    ensures forall n :: n in visited <==> n in visited0 || Reaches(edges, start, n)
    ensures forall n :: n in found <==> n in visited && n !in visited0
    ensures forall i, j | 0 <= i < j < |found| :: found[i] != found[j]
    ensures SuccessorsIn(edges, visited, []) && visited <= nodes
  {
    visited, found := visited0, [];
    var stack := [start];
    ReachesSelf(edges, start);
    while stack != []
      invariant Exploring(edges, start, visited0, visited, found, stack)
      invariant visited <= nodes && forall n | n in stack :: n in nodes
      decreases nodes - visited, |stack|
    {
      var n := stack[|stack| - 1];
      assert stack == stack[..|stack| - 1] + [n];
      stack := stack[..|stack| - 1];
      if n !in visited {
        var pushed := Push(stack, Successors(edges, n) - (visited + {n}));
        forall m | (n, m) in edges ensures Reaches(edges, start, m) { ReachesNext(edges, start, n, m); }
        visited, found, stack := visited + {n}, found + [n], pushed;
      }
    }
    forall n | Reaches(edges, start, n) ensures n in visited {
      var path :| PathFrom(edges, path, start, n);
      SetReaches(edges, visited, path);
    }
  }

  /** Pushes the elements of a set, in some order. */
  method Push<T(==)>(stack: seq<T>, s: set<T>) returns (pushed: seq<T>)
    ensures stack <= pushed && forall x :: x in pushed <==> x in stack || x in s
  {
    pushed := stack;
    var rest := s;
    while rest != {}
      invariant stack <= pushed && rest <= s
      invariant forall x :: x in pushed <==> x in stack || x in s - rest
    {
      var x :| x in rest;
      pushed, rest := pushed + [x], rest - {x};
    }
  }

  /** Following the edges backwards, `b` is reached from what reaches it. */
  lemma {:induction false} ReversedPath<T(!new)>(edges: set<(T, T)>, path: seq<T>)
    requires IsPath(edges, path)
    ensures Reaches(Reversed(edges), path[|path| - 1], path[0])
  {
    var back := Reversed(edges);
    if |path| == 1 {
      ReachesSelf(back, path[0]);
    } else {
      FirstEdge(edges, path);
      ReversedPath(edges, path[1..]);
      ReachesNext(back, path[|path| - 1], path[1], path[0]);
    }
  }

  lemma ReversedReaches<T(!new)>(edges: set<(T, T)>, a: T, b: T)
    ensures Reaches(Reversed(edges), a, b) <==> Reaches(edges, b, a)
  {
    if Reaches(edges, b, a) {
      var path :| PathFrom(edges, path, b, a);
      ReversedPath(edges, path);
    }
    if Reaches(Reversed(edges), a, b) {
      var path :| PathFrom(Reversed(edges), path, a, b);
      ReversedPath(Reversed(edges), path);
      assert Reversed(Reversed(edges)) == edges;
    }
  }

  // ---- Guarded insertion ----

  /** Adds an edge unless it would close a cycle. */
  method AddEdge<T(==,!new)>(edges: set<(T, T)>, a: T, b: T, ghost nodes: set<T>) returns (ok: bool, after: set<(T, T)>)
    requires Acyclic(edges) && b in nodes && forall e | e in edges :: e.1 in nodes
    ensures Acyclic(after)
    ensures ok <==> Acyclic(edges + {(a, b)})
    ensures ok <==> !Reaches(edges, b, a)
    ensures after == if ok then edges + {(a, b)} else edges
  {
    var reached, found := Explore(edges, b, {}, nodes);
    ok := a !in reached;
    after := if ok then edges + {(a, b)} else edges;
    AddEdgeKeepsAcyclic(edges, a, b);
  }
}
