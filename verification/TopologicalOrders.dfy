/** Topological orders, and the one that always takes the least node that is ready. */
module TopologicalOrders {

  ghost predicate StrictTotal<T(!new)>(less: (T, T) -> bool) {
    && (forall a :: !less(a, a))
    && (forall a, b, c | less(a, b) && less(b, c) :: less(a, c))
    && (forall a, b :: a == b || less(a, b) || less(b, a))
  }

  /** Every node once, and every edge forward. */
  ghost predicate IsOrder<T(!new)>(nodes: set<T>, edges: set<(T, T)>, order: seq<T>) {
    && (forall n :: n in order <==> n in nodes)
    && (forall i, j | 0 <= i < j < |order| :: order[i] != order[j])
    && forall i, j | 0 <= i < |order| && 0 <= j < |order| && (order[i], order[j]) in edges :: i < j
  }

  /** `n` can be emitted after `done`: it has not been, and all that precedes it has. */
  ghost predicate Ready<T(!new)>(nodes: set<T>, edges: set<(T, T)>, done: seq<T>, n: T) {
    n in nodes && n !in done && forall p | (p, n) in edges :: p in done
  }

  /** Each node is the least that was ready when it was emitted. */
  ghost predicate TakesLeast<T(!new)>(nodes: set<T>, edges: set<(T, T)>, less: (T, T) -> bool, order: seq<T>) {
    forall k, m | 0 <= k < |order| && Ready(nodes, edges, order[..k], m) :: m == order[k] || less(order[k], m)
  }

  /** `s` comes before `t` in the lexicographic order on sequences. */
  ghost predicate LexicographicallyLess<T>(less: (T, T) -> bool, s: seq<T>, t: seq<T>) {
    exists k :: 0 <= k < |s| && k < |t| && s[..k] == t[..k] && less(s[k], t[k])
  }

  lemma ReadyInOrder<T(!new)>(nodes: set<T>, edges: set<(T, T)>, order: seq<T>, k: nat)
    requires IsOrder(nodes, edges, order) && k < |order|
    requires forall e | e in edges :: e.0 in nodes
    ensures Ready(nodes, edges, order[..k], order[k])
  {
    forall p | (p, order[k]) in edges ensures p in order[..k] {
      var i :| 0 <= i < |order| && order[i] == p;
      assert order[..k][i] == p;
    }
  }

  lemma {:induction false} SameLength<T(!new)>(nodes: set<T>, s: seq<T>)
    requires forall n :: n in s <==> n in nodes
    requires forall i, j | 0 <= i < j < |s| :: s[i] != s[j]
    ensures |s| == |nodes|
  {
    if s == [] {
      assert nodes == {};
    } else {
      var last, init := s[|s| - 1], s[..|s| - 1];
      forall n ensures n in init <==> n in nodes - {last} {
        if n in nodes - {last} {
          var i :| 0 <= i < |s| && s[i] == n;
          assert init[i] == n;
        }
      }
      SameLength(nodes - {last}, init);
    }
  }

  /** Two orders of the same nodes are equal or differ at some first position. */
  lemma FirstDifference<T(!new)>(nodes: set<T>, edges: set<(T, T)>, s: seq<T>, t: seq<T>) returns (k: nat)
    requires IsOrder(nodes, edges, s) && IsOrder(nodes, edges, t)
    ensures k <= |s| == |t| && s[..k] == t[..k] && (k < |s| ==> s[k] != t[k]) && (k == |s| ==> s == t)
  {
    SameLength(nodes, s);
    SameLength(nodes, t);
    k := 0;
    while k < |s| && s[k] == t[k]
      invariant k <= |s| == |t| && s[..k] == t[..k]
    {
      k := k + 1;
    }
  }

  /** Always taking the least ready node gives the lexicographically least topological order. */
  lemma TakesLeastIsLeast<T(!new)>(nodes: set<T>, edges: set<(T, T)>, less: (T, T) -> bool, s: seq<T>, t: seq<T>)
    requires forall e | e in edges :: e.0 in nodes
    requires IsOrder(nodes, edges, s) && TakesLeast(nodes, edges, less, s) && IsOrder(nodes, edges, t)
    ensures s == t || LexicographicallyLess(less, s, t)
  {
    var k := FirstDifference(nodes, edges, s, t);
    if k < |s| { ReadyInOrder(nodes, edges, t, k); }
  }

  /** There is only one such order, whatever way it was found. */
  lemma TakesLeastIsUnique<T(!new)>(nodes: set<T>, edges: set<(T, T)>, less: (T, T) -> bool, s: seq<T>, t: seq<T>)
    requires forall a, b | a in nodes && b in nodes && less(a, b) :: !less(b, a)
    requires forall e | e in edges :: e.0 in nodes
    requires IsOrder(nodes, edges, s) && TakesLeast(nodes, edges, less, s)
    requires IsOrder(nodes, edges, t) && TakesLeast(nodes, edges, less, t)
    ensures s == t
  {
    var k := FirstDifference(nodes, edges, s, t);
    if k < |s| {
      ReadyInOrder(nodes, edges, s, k);
      ReadyInOrder(nodes, edges, t, k);
    }
  }

  // ---- Renaming the nodes ----

  function Renamed<T(!new), U>(f: map<T, U>, s: seq<T>): (r: seq<U>)
    requires forall n | n in s :: n in f
  {
    seq(|s|, i requires 0 <= i < |s| => f[s[i]])
  }

  ghost predicate Injective<T(!new), U>(f: map<T, U>) {
    forall a, b | a in f && b in f && f[a] == f[b] :: a == b
  }

  /** `after` has an edge between the images of two nodes exactly if `before` has one between the nodes. */
  ghost predicate SameGraph<T(!new), U>(f: map<T, U>, before: set<(T, T)>, after: set<(U, U)>) {
    forall a, b | a in f && b in f :: (a, b) in before <==> (f[a], f[b]) in after
  }

  lemma RenamedOrder<T(!new), U(!new)>(f: map<T, U>, edges: set<(T, T)>, renamed: set<(U, U)>, order: seq<T>)
    requires Injective(f) && SameGraph(f, edges, renamed) && IsOrder(f.Keys, edges, order)
    ensures IsOrder(f.Values, renamed, Renamed(f, order))
  {
    var r := Renamed(f, order);
    forall u ensures u in r <==> u in f.Values {
      if u in f.Values {
        var n :| n in f && f[n] == u;
        var i :| 0 <= i < |order| && order[i] == n;
        assert r[i] == u;
      }
      if u in r {
        var i :| 0 <= i < |r| && r[i] == u;
        assert order[i] in f.Keys && f[order[i]] == u;
      }
    }
    assert forall i | 0 <= i < |order| :: order[i] in f.Keys && r[i] == f[order[i]];
  }

  lemma RenamedTakesLeast<T(!new), U(!new)>(f: map<T, U>, edges: set<(T, T)>, less: (T, T) -> bool,
                                            renamed: set<(U, U)>, less': (U, U) -> bool, order: seq<T>)
    requires Injective(f) && SameGraph(f, edges, renamed) && IsOrder(f.Keys, edges, order)
    requires forall e | e in edges :: e.0 in f
    requires forall a, b | a in f && b in f && a != b && less(a, b) :: less'(f[a], f[b])
    requires TakesLeast(f.Keys, edges, less, order)
    ensures TakesLeast(f.Values, renamed, less', Renamed(f, order))
  {
    var r := Renamed(f, order);
    forall k, u | 0 <= k < |r| && Ready(f.Values, renamed, r[..k], u) ensures u == r[k] || less'(r[k], u) {
      var m :| m in f && f[m] == u;
      assert forall i | 0 <= i < k :: r[..k][i] == f[order[i]];
      forall p | (p, m) in edges ensures p in order[..k] {
        assert (f[p], u) in renamed;
        var i :| 0 <= i < k && r[..k][i] == f[p];
        assert order[..k][i] == p;
      }
      forall i | 0 <= i < k ensures order[i] != m { assert r[..k][i] != u; }
      assert Ready(f.Keys, edges, order[..k], m);
      assert order[k] in f.Keys;
    }
  }
}
