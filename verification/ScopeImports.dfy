/** Which imports a scope sees, through the delegations of generic instances. */
module ScopeImports {
  import opened Options
  import opened Digraph
  import opened SourceTokens
  import opened MachineIntegers
  import opened ScopeTree
  import opened ScopeDelegations
  import opened ScopeCycles

  // ---- What a scope imports itself ----

  datatype Query = Query(symbol: SymbolId, name: string, defineContext: DefineContext, symbolDefineContext: DefineContext)

  function LocalsGet(t: Tree, scope: nat, name: string): seq<SymbolId> {
    if scope < |t.scopes| && Canonical(name) in t.scopes[scope].locals then t.scopes[scope].locals[Canonical(name)] else []
  }

  function ImportsGet(t: Tree, scope: nat, name: string): seq<ImportBinding> {
    if scope < |t.scopes| && Canonical(name) in t.scopes[scope].imports then t.scopes[scope].imports[Canonical(name)] else []
  }

  predicate BindsExplicitly(b: ImportBinding, q: Query) {
    b.symbol == q.symbol && !q.defineContext.Exclusive(b.defineContext)
  }

  predicate BindsByWildcard(t: Tree, w: WildcardImport, q: Query) {
    && !q.defineContext.Exclusive(w.defineContext)
    && !q.symbolDefineContext.Exclusive(w.sourceDefineContext)
    && q.symbol in LocalsGet(t, w.source, q.name)
  }

  predicate ImportsHere(t: Tree, scope: nat, q: Query)
    requires scope < |t.scopes|
  {
    || (exists b | b in ImportsGet(t, scope, q.name) :: BindsExplicitly(b, q))
    || (exists w | w in t.scopes[scope].wildcards :: BindsByWildcard(t, w, q))
  }

  // ---- Which scopes it sees ----

  /** The scopes passed from `from` outward, none of them a container but the last. */
  predicate IsWalk(t: Tree, d: Delegations, from: nat, walk: seq<nat>) {
    && walk != [] && walk[0] == Effective(d, from)
    && (forall i | 0 <= i < |walk| :: walk[i] < |t.scopes|)
    && forall i | 0 < i < |walk| :: StepsTo(t, d, walk[i - 1], walk[i])
  }

  /** Some scope seen from `from` imports the symbol. */
  ghost predicate Sees(t: Tree, d: Delegations, from: nat, q: Query) {
    exists walk :: IsWalk(t, d, from, walk) && ImportsHere(t, walk[|walk| - 1], q)
  }

  lemma SeesHere(t: Tree, d: Delegations, from: nat, q: Query)
    requires Effective(d, from) < |t.scopes| && ImportsHere(t, Effective(d, from), q)
    ensures Sees(t, d, from, q)
  {
    assert IsWalk(t, d, from, [Effective(d, from)]);
  }

  /** A walk starts here, and goes on from the parent. */
  lemma SeesFurther(t: Tree, d: Delegations, from: nat, q: Query)
    requires Effective(d, from) < |t.scopes| && !ImportsHere(t, Effective(d, from), q)
    ensures Sees(t, d, from, q) <==>
      && !IsContainer(t, Effective(d, from)) && t.scopes[Effective(d, from)].parent.Some?
      && Sees(t, d, t.scopes[Effective(d, from)].parent.value, q)
  {
    var scope := Effective(d, from);
    if Sees(t, d, from, q) {
      var walk :| IsWalk(t, d, from, walk) && ImportsHere(t, walk[|walk| - 1], q);
      assert |walk| > 1 && StepsTo(t, d, walk[0], walk[1]);
      var rest := walk[1..];
      assert forall i | 0 < i < |rest| :: StepsTo(t, d, walk[i], walk[i + 1]);
      assert IsWalk(t, d, t.scopes[scope].parent.value, rest);
    }
    if !IsContainer(t, scope) && t.scopes[scope].parent.Some? && Sees(t, d, t.scopes[scope].parent.value, q) {
      var rest :| IsWalk(t, d, t.scopes[scope].parent.value, rest) && ImportsHere(t, rest[|rest| - 1], q);
      var walk := [scope] + rest;
      assert forall i | 0 < i < |walk| :: walk[i] == rest[i - 1];
      assert IsWalk(t, d, from, walk);
    }
  }

  // ---- When a walk ends ----

  /** A walk from `from` meets a scope twice. */
  ghost predicate GoesRound(t: Tree, d: Delegations, from: nat) {
    exists walk, i, j :: IsWalk(t, d, from, walk) && 0 <= i < j < |walk| && walk[i] == walk[j]
  }

  lemma WalkIsPath(t: Tree, d: Delegations, from: nat, walk: seq<nat>)
    requires t.Ok() && Within(t, d) && from < |t.scopes|
    ensures IsWalk(t, d, from, walk) <==> IsPath(Steps(t, d), walk) && walk[0] == Effective(d, from)
  {
    if IsWalk(t, d, from, walk) {
      forall k | 0 <= k < |walk| - 1 ensures (walk[k], walk[k + 1]) in Steps(t, d) {
        assert StepsTo(t, d, walk[(k + 1) - 1], walk[k + 1]);
      }
    }
    if IsPath(Steps(t, d), walk) && walk[0] == Effective(d, from) {
      forall i | 0 < i < |walk| ensures StepsTo(t, d, walk[i - 1], walk[i]) && walk[i] < |t.scopes| {
        assert (walk[i - 1], walk[(i - 1) + 1]) in Steps(t, d);
        LinkEndsInside(t, d, walk[i - 1], walk[i]);
      }
    }
  }

  /** A walk that meets no scope twice is no longer than there are scopes. */
  lemma WalkIsShort(t: Tree, d: Delegations, from: nat, walk: seq<nat>)
    requires IsWalk(t, d, from, walk) && !GoesRound(t, d, from)
    ensures |walk| <= |t.scopes|
  {
    if |walk| > |t.scopes| {
      var i, j := Pigeonhole(walk, Below(|t.scopes|));
    }
  }

  /** The walks from a scope are bounded exactly if none of them meets a scope twice. */
  lemma BoundedIffNotRound(t: Tree, d: Delegations, from: nat)
    requires t.Ok() && Within(t, d) && from < |t.scopes|
    ensures (forall walk | IsWalk(t, d, from, walk) :: |walk| <= |t.scopes|) <==> !GoesRound(t, d, from)
  {
    if !GoesRound(t, d, from) {
      forall walk | IsWalk(t, d, from, walk) ensures |walk| <= |t.scopes| { WalkIsShort(t, d, from, walk); }
    } else {
      var walk, i, j :| IsWalk(t, d, from, walk) && 0 <= i < j < |walk| && walk[i] == walk[j];
      WalkIsPath(t, d, from, walk);
      var long := FollowedForEver(Steps(t, d), walk, i, j, |t.scopes|);
      WalkIsPath(t, d, from, long);
    }
  }

  /** All walks of a tree end exactly if its steps outward have no cycle. */
  lemma WalksEndIffAcyclic(t: Tree, d: Delegations)
    requires t.Ok() && Within(t, d)
    ensures Acyclic(Steps(t, d)) <==> forall from: nat | from < |t.scopes| :: !GoesRound(t, d, from)
  {
    if from: nat :| from < |t.scopes| && GoesRound(t, d, from) {
      var walk, i, j :| IsWalk(t, d, from, walk) && 0 <= i < j < |walk| && walk[i] == walk[j];
      WalkIsPath(t, d, from, walk);
      SubPath(Steps(t, d), walk, i, j + 1);
      var cycle := walk[i..j + 1];
      assert !Acyclic(Steps(t, d)) by { assert IsPath(Steps(t, d), cycle) && cycle[0] == cycle[|cycle| - 1]; }
    }
    if !Acyclic(Steps(t, d)) {
      var cycle :| IsPath(Steps(t, d), cycle) && |cycle| >= 2 && cycle[0] == cycle[|cycle| - 1];
      var k := |cycle| - 2;
      assert (cycle[k], cycle[k + 1]) in Steps(t, d);
      var from := t.scopes[cycle[k]].parent.value;
      ParentIsShallower(t, cycle[k]);
      WalkIsPath(t, d, from, cycle);
      assert GoesRound(t, d, from);
    }
  }

  /** There is one way outward. */
  lemma {:induction false} WalksAgree(t: Tree, d: Delegations, from: nat, walk: seq<nat>, longer: seq<nat>)
    requires IsWalk(t, d, from, walk) && IsWalk(t, d, from, longer) && |walk| <= |longer|
    ensures walk <= longer
  {
    if |walk| > 1 {
      var front := walk[..|walk| - 1];
      WalksAgree(t, d, from, front, longer);
      assert front[|front| - 1] == longer[|front| - 1] && StepsTo(t, d, longer[|walk| - 2], longer[|walk| - 1]);
      assert walk == front + [walk[|walk| - 1]];
    }
  }

  /** Here a walk stops. */
  predicate StopsAt(t: Tree, scope: nat, q: Query)
    requires scope < |t.scopes|
  {
    ImportsHere(t, scope, q) || IsContainer(t, scope) || t.scopes[scope].parent.None?
  }

  lemma EndlessUnlessSeen(t: Tree, d: Delegations, from: nat, q: Query, walk: seq<nat>)
    requires t.Ok() && Within(t, d) && from < |t.scopes| && GoesRound(t, d, from) && !Sees(t, d, from, q)
    requires IsWalk(t, d, from, walk)
    ensures !StopsAt(t, walk[|walk| - 1], q)
  {
    var round, i, j :| IsWalk(t, d, from, round) && 0 <= i < j < |round| && round[i] == round[j];
    WalkIsPath(t, d, from, round);
    var longer := FollowedForEver(Steps(t, d), round, i, j, |walk|);
    WalkIsPath(t, d, from, longer);
    WalksAgree(t, d, from, walk, longer);
    assert StepsTo(t, d, longer[|walk| - 1], longer[|walk|]);
  }

  lemma {:induction false} WalkToStop(t: Tree, d: Delegations, from: nat, q: Query, walk: seq<nat>) returns (end: seq<nat>)
    requires t.Ok() && Within(t, d) && !GoesRound(t, d, from) && IsWalk(t, d, from, walk)
    ensures IsWalk(t, d, from, end) && StopsAt(t, end[|end| - 1], q)
    decreases |t.scopes| - |walk|
  {
    end := walk;
    if !StopsAt(t, walk[|walk| - 1], q) {
      var parent := t.scopes[walk[|walk| - 1]].parent.value;
      ParentIsShallower(t, walk[|walk| - 1]);
      WalkIsShort(t, d, from, walk + [Effective(d, parent)]);
      end := WalkToStop(t, d, from, q, walk + [Effective(d, parent)]);
    }
  }

  /** The walk stops exactly if it does not go round, or meets an import while it does. */
  lemma WalkStopsIff(t: Tree, d: Delegations, from: nat, q: Query)
    requires t.Ok() && Within(t, d) && from < |t.scopes|
    ensures (exists walk :: IsWalk(t, d, from, walk) && StopsAt(t, walk[|walk| - 1], q))
       <==> (GoesRound(t, d, from) ==> Sees(t, d, from, q))
  {
    if GoesRound(t, d, from) && !Sees(t, d, from, q) {
      forall walk | IsWalk(t, d, from, walk) ensures !StopsAt(t, walk[|walk| - 1], q) { EndlessUnlessSeen(t, d, from, q, walk); }
    } else if !GoesRound(t, d, from) {
      assert IsWalk(t, d, from, [Effective(d, from)]);
      var end := WalkToStop(t, d, from, q, [Effective(d, from)]);
    }
  }

  /** The walk so far, past no import, and the scope it goes on with. */
  ghost predicate Walking(t: Tree, d: Delegations, start: nat, q: Query, walk: seq<nat>, current: nat) {
    if walk == [] then current == start else
      && IsWalk(t, d, start, walk)
      && !ImportsHere(t, walk[|walk| - 1], q) && !IsContainer(t, walk[|walk| - 1])
      && t.scopes[walk[|walk| - 1]].parent == Some(current)
  }

  lemma WalkGoesOn(t: Tree, d: Delegations, start: nat, q: Query, walk: seq<nat>, current: nat)
    requires t.Ok() && Within(t, d) && current < |t.scopes| && Walking(t, d, start, q, walk, current)
    ensures IsWalk(t, d, start, walk + [Effective(d, current)])
  {
  }

  /** It goes no further than there are scopes, or than to the first import. */
  lemma WalkIsLimited(t: Tree, d: Delegations, start: nat, q: Query, end: seq<nat>, walk: seq<nat>, current: nat)
    requires t.Ok() && Within(t, d) && current < |t.scopes| && Walking(t, d, start, q, walk, current)
    requires GoesRound(t, d, start) ==> IsWalk(t, d, start, end) && ImportsHere(t, end[|end| - 1], q)
    requires forall shorter | shorter < walk && shorter != [] :: !ImportsHere(t, shorter[|shorter| - 1], q)
    ensures |walk| < Max(|end|, |t.scopes|)
  {
    var longer := walk + [Effective(d, current)];
    WalkGoesOn(t, d, start, q, walk, current);
    if !GoesRound(t, d, start) {
      WalkIsShort(t, d, start, longer);
    } else if |end| <= |walk| {
      WalksAgree(t, d, start, end, walk);
    }
  }

  /** What the loop keeps. `end` is a walk to an import, if walks go round. */
  ghost predicate Walked(t: Tree, d: Delegations, start: nat, q: Query, end: seq<nat>, walk: seq<nat>, current: nat) {
    && current < |t.scopes| && Walking(t, d, start, q, walk, current)
    && (GoesRound(t, d, start) ==> IsWalk(t, d, start, end) && ImportsHere(t, end[|end| - 1], q))
    && (forall shorter | shorter < walk && shorter != [] :: !ImportsHere(t, shorter[|shorter| - 1], q))
    && (Sees(t, d, start, q) <==> Sees(t, d, current, q))
  }

  lemma WalkStep(t: Tree, d: Delegations, start: nat, q: Query, end: seq<nat>, walk: seq<nat>, current: nat)
    requires t.Ok() && Within(t, d) && Walked(t, d, start, q, end, walk, current)
    ensures |walk| < Max(|end|, |t.scopes|)
    ensures var scope := Effective(d, current);
      if StopsAt(t, scope, q) then ImportsHere(t, scope, q) <==> Sees(t, d, start, q)
      else Walked(t, d, start, q, end, walk + [scope], t.scopes[scope].parent.value)
  {
    WalkIsLimited(t, d, start, q, end, walk, current);
    var scope := Effective(d, current);
    WalkGoesOn(t, d, start, q, walk, current);
    if ImportsHere(t, scope, q) { SeesHere(t, d, current, q); } else { SeesFurther(t, d, current, q); }
    ParentIsShallower(t, scope);
  }

  /** A walk ends if it does not go round, or meets an import first; its answer is exact. */
  method WalkOutward(t: Tree, d: Delegations, start: nat, q: Query) returns (r: bool)
    requires t.Ok() && Within(t, d) && start < |t.scopes|
    requires GoesRound(t, d, start) ==> Sees(t, d, start, q)
    ensures r <==> Sees(t, d, start, q)
  {
    var current: nat := start;
    ghost var end, walk: seq<nat> := [], [];
    if GoesRound(t, d, start) { end :| IsWalk(t, d, start, end) && ImportsHere(t, end[|end| - 1], q); }
    while true
      invariant Walked(t, d, start, q, end, walk, current)
      decreases Max(|end|, |t.scopes|) - |walk|
    {
      WalkStep(t, d, start, q, end, walk, current);
      var scope := Effective(d, current);
      if ImportsHere(t, scope, q) { return true; }
      if IsContainer(t, scope) || t.scopes[scope].parent.None? { return false; }
      walk := walk + [scope];
      current := t.scopes[scope].parent.value;
    }
  }

  method IsImported(t: Tree, d: Delegations, namespace: seq<string>, q: Query) returns (r: bool, after: Tree)
    requires t.Ok() && Within(t, d)
    requires var interned := InternPath(t, 0, namespace);
      GoesRound(interned.0, d, interned.1) ==> Sees(interned.0, d, interned.1, q)
    ensures after == InternPath(t, 0, namespace).0 && Extends(t, after)
    ensures r <==> Sees(after, d, InternPath(t, 0, namespace).1, q)
  {
    InternedPathIsNamed(t, namespace);
    var interned := InternPath(t, 0, namespace);
    after := interned.0;
    r := WalkOutward(after, d, interned.1, q);
  }

  // ---- A walk without an end ----

  /** The scope `a` of the root, and `b` in it. */
  function Nested(a: string, b: string): (t: Tree)
    ensures t.Ok() && |t.scopes| == 3
  {
    InternChild(InternChild(NEW_TREE, 0, a, GenericInstance).0, 1, b, Block).0
  }

  lemma NestedIs(a: string, b: string)
    ensures Nested(a, b) == Tree(
      [EMPTY_SCOPE,
       EMPTY_SCOPE.(parent := Some(0), kind := GenericInstance, name := Some(Canonical(a))),
       EMPTY_SCOPE.(parent := Some(1), kind := Block, name := Some(Canonical(b)))],
      map[(0, Canonical(a)) := 1, (1, Canonical(b)) := 2])
  {
  }

  lemma NestedRegistered(a: string, b: string)
    ensures RegisterGenericChild(Nested(a, b), map[], 0, a, 2) == (Nested(a, b), map[1 := 2], 1)
  {
    NestedIs(a, b);
    assert WithKind(Nested(a, b), 1, GenericInstance).scopes == Nested(a, b).scopes;
    assert InternChild(Nested(a, b), 0, a, GenericInstance) == (Nested(a, b), 1);
  }

  lemma NestedGoesRound(a: string, b: string, n: nat)
    ensures GoesRound(Nested(a, b), map[1 := 2], 1)
    ensures IsWalk(Nested(a, b), map[1 := 2], 1, seq(n + 1, i requires 0 <= i < n + 1 => 2))
  {
    NestedIs(a, b);
    assert StepsTo(Nested(a, b), map[1 := 2], 2, 2);
    var walk: seq<nat> := [2, 2];
    assert IsWalk(Nested(a, b), map[1 := 2], 1, walk) && walk[0] == walk[1];
  }

  lemma NestedCloses(a: string, b: string, t: Tree)
    requires t == Nested(a, b) && t.Ok()
    ensures ChildCloses(t, map[], 0, a, 2)
  {
    NestedIs(a, b);
    assert InternChild(t, 0, a, Unknown) == (t, 1);
    ReachesSelf(Steps(t, map[]), 2);
  }

  /** Registering `a` as a generic child whose base is its own child `b` closes a cycle, and the walk from `a` is endless. */
  lemma DeeperDelegationLoops(a: string, b: string, t: Tree, n: nat)
    requires t.Ok() && t == Nested(a, b)
    ensures ChildCloses(t, map[], 0, a, 2) && RegisterGenericChild(t, map[], 0, a, 2) == (t, map[1 := 2], 1)
    ensures GoesRound(t, map[1 := 2], 1)
    ensures IsWalk(t, map[1 := 2], 1, seq(n + 1, i requires 0 <= i < n + 1 => 2))
  {
    NestedRegistered(a, b);
    NestedGoesRound(a, b, n);
    NestedCloses(a, b, t);
  }
}
