/** The steps outward of an import walk, and which calls close a cycle of them. */
module ScopeCycles {
  import opened Options
  import opened Digraph
  import opened ScopeTree
  import opened ScopeDelegations

  predicate IsContainer(t: Tree, scope: nat)
    requires scope < |t.scopes|
  {
    IsContainerKind(t.scopes[scope].kind)
  }

  // ---- Links and steps ----

  predicate LinksTo(t: Tree, d: Delegations, scope: nat, next: nat) {
    scope < |t.scopes| && t.scopes[scope].parent.Some? && next == Effective(d, t.scopes[scope].parent.value)
  }

  /** From each scope to its parent, or to what that delegates to. */
  function Links(t: Tree, d: Delegations): (r: set<(nat, nat)>)
    ensures forall scope: nat, next: nat :: (scope, next) in r <==> LinksTo(t, d, scope, next)
  {
    set scope: nat | scope < |t.scopes| && t.scopes[scope].parent.Some? :: (scope, Effective(d, t.scopes[scope].parent.value))
  }

  lemma LinkEndsInside(t: Tree, d: Delegations, scope: nat, next: nat)
    requires t.Ok() && Within(t, d) && LinksTo(t, d, scope, next)
    ensures next < |t.scopes|
  {
    ParentIsShallower(t, scope);
  }

  /** From one scope to the next: out of anything but a container, to the parent or what that delegates to. */
  predicate StepsTo(t: Tree, d: Delegations, scope: nat, next: nat) {
    LinksTo(t, d, scope, next) && !IsContainer(t, scope)
  }

  function Steps(t: Tree, d: Delegations): (r: set<(nat, nat)>)
    ensures forall scope: nat, next: nat :: (scope, next) in r <==> StepsTo(t, d, scope, next)
  {
    set e | e in Links(t, d) && !IsContainer(t, e.0)
  }

  /** The same scopes, of other kinds perhaps. */
  predicate SameParents(t: Tree, after: Tree) {
    |after.scopes| == |t.scopes| && forall i | 0 <= i < |t.scopes| :: after.scopes[i].parent == t.scopes[i].parent
  }

  lemma SameLinks(t: Tree, after: Tree, d: Delegations)
    requires SameParents(t, after)
    ensures Links(after, d) == Links(t, d)
  {
    forall scope: nat, next: nat ensures LinksTo(after, d, scope, next) <==> LinksTo(t, d, scope, next) {
    }
  }

  lemma SameSteps(t: Tree, after: Tree, d: Delegations)
    requires SameParents(t, after) && KeepsKinds(t, after)
    ensures Steps(after, d) == Steps(t, d)
  {
    forall scope: nat, next: nat ensures StepsTo(after, d, scope, next) <==> StepsTo(t, d, scope, next) {
    }
  }

  function Unkinded(t: Tree): Tree {
    t.(scopes := seq(|t.scopes|, i requires 0 <= i < |t.scopes| => t.scopes[i].(kind := Unknown)))
  }

  /** Links without a cycle are steps without one, whatever kinds the scopes get. */
  lemma LinksAcyclicIff(t: Tree, d: Delegations)
    ensures Acyclic(Links(t, d)) <==> forall after | SameParents(t, after) :: Acyclic(Steps(after, d))
  {
    if Acyclic(Links(t, d)) {
      forall after | SameParents(t, after) ensures Acyclic(Steps(after, d)) {
        SameLinks(t, after, d);
        FewerEdgesKeepAcyclic(Links(t, d), Steps(after, d));
      }
    }
    var bare := Unkinded(t);
    SameLinks(t, bare, d);
    assert Steps(bare, d) == Links(t, d);
  }

  // ---- New scopes ----

  /** Nothing leads to a new scope but what is newer, so new scopes close no cycle. */
  lemma NewScopesKeepAcyclic(t: Tree, after: Tree, d: Delegations)
    requires t.Ok() && after.Ok() && Extends(t, after) && KeepsKinds(t, after) && Within(t, d)
    ensures Acyclic(Steps(after, d)) <==> Acyclic(Steps(t, d))
  {
    forall e: (nat, nat) | e in Steps(t, d) ensures e in Steps(after, d) {
      assert after.scopes[e.0].parent == t.scopes[e.0].parent;
    }
    forall e: (nat, nat) | e in Steps(after, d) && e.0 < |t.scopes| ensures e in Steps(t, d) && e.1 < |t.scopes| {
      assert after.scopes[e.0].parent == t.scopes[e.0].parent;
      LinkEndsInside(t, d, e.0, e.1);
    }
    forall e: (nat, nat) | e in Steps(after, d) && e.1 >= |t.scopes| ensures e.1 < e.0 {
      ParentIsShallower(after, e.0);
    }
    GrownKeepsAcyclic(Steps(t, d), Steps(after, d), |t.scopes|);
  }

  // ---- When a delegation closes a cycle ----

  /** The children a walk passes on its way to `scope`. */
  function OpenChildren(t: Tree, scope: nat): (r: set<nat>)
    ensures forall child: nat :: child in r <==> child < |t.scopes| && t.scopes[child].parent == Some(scope) && !IsContainer(t, child)
  {
    set child: nat | child < |t.scopes| && t.scopes[child].parent == Some(scope) && !IsContainer(t, child)
  }

  /** The walk from `start` outward passes a child of `scope`, from where it goes on to `scope`. */
  ghost predicate ComesBack(t: Tree, d: Delegations, start: nat, scope: nat) {
    exists child :: child in OpenChildren(t, scope) && Reaches(Steps(t, d), start, child)
  }

  /** A new delegation closes a cycle exactly if the walk from where it leads comes back to it. */
  lemma RedirectedIffComesBack(t: Tree, d: Delegations, from: nat, to: nat)
    requires Acyclic(Steps(t, d))
    ensures Acyclic(Steps(t, d[from := to])) <==> !ComesBack(t, d, to, from)
  {
    var before, after, children := Steps(t, d), Steps(t, d[from := to]), OpenChildren(t, from);
    forall e: (nat, nat) | e.0 !in children ensures e in after <==> e in before {
      assert StepsTo(t, d[from := to], e.0, e.1) <==> StepsTo(t, d, e.0, e.1);
    }
    forall child | child in children ensures (child, to) in after {
      assert StepsTo(t, d[from := to], child, to);
    }
    RedirectedIff(before, after, children, to);
  }

  // ---- When a change of kind closes a cycle ----

  /** A container would become passable, and the walk outward from it comes back to it. */
  ghost predicate KindOpens(t: Tree, d: Delegations, scope: nat, kind: ScopeKind)
    requires scope < |t.scopes|
  {
    && IsContainer(t, scope) && !IsContainerKind(kind) && t.scopes[scope].parent.Some?
    && Reaches(Steps(t, d), Effective(d, t.scopes[scope].parent.value), scope)
  }

  /** `after` differs from `t` in the kind of `scope` at most. */
  predicate Rekinded(t: Tree, after: Tree, scope: nat) {
    && scope < |t.scopes| && SameParents(t, after)
    && forall i | 0 <= i < |t.scopes| && i != scope :: after.scopes[i].kind == t.scopes[i].kind
  }

  lemma RekindedIff(t: Tree, after: Tree, d: Delegations, scope: nat)
    requires Rekinded(t, after, scope) && Acyclic(Steps(t, d))
    ensures Acyclic(Steps(after, d)) <==> !KindOpens(t, d, scope, after.scopes[scope].kind)
  {
    var before, now := Steps(t, d), Steps(after, d);
    forall e: (nat, nat) | e.0 != scope ensures e in now <==> e in before {
      assert StepsTo(after, d, e.0, e.1) <==> StepsTo(t, d, e.0, e.1);
    }
    if IsContainer(t, scope) && !IsContainer(after, scope) && t.scopes[scope].parent.Some? {
      var next := Effective(d, t.scopes[scope].parent.value);
      assert now == before + {(scope, next)};
      AddEdgeKeepsAcyclic(before, scope, next);
    } else {
      assert now <= before;
      FewerEdgesKeepAcyclic(before, now);
    }
  }

  // ---- When registering closes a cycle ----

  /** Delegating `from` to `to` closes a cycle, or else making it a generic instance does. */
  ghost predicate DelegationCloses(t: Tree, d: Delegations, from: nat, to: nat)
    requires from < |t.scopes|
  {
    ComesBack(t, d, to, from) || KindOpens(t, d[from := to], from, GenericInstance)
  }

  lemma DelegatedIff(t: Tree, after: Tree, d: Delegations, from: nat, to: nat)
    requires Rekinded(t, after, from) && after.scopes[from].kind == GenericInstance && Acyclic(Steps(t, d))
    ensures Acyclic(Steps(after, d[from := to])) <==> !DelegationCloses(t, d, from, to)
  {
    RedirectedIffComesBack(t, d, from, to);
    var before, now := Steps(t, d[from := to]), Steps(after, d[from := to]);
    if Acyclic(before) {
      RekindedIff(t, after, d[from := to], from);
    } else {
      forall e: (nat, nat) | e in before ensures e in now { assert StepsTo(after, d[from := to], e.0, e.1); }
      if Acyclic(now) { FewerEdgesKeepAcyclic(now, before); }
    }
  }

  lemma FoundRekinded(t: Tree, id: nat, kind: ScopeKind)
    requires t.Ok() && id < |t.scopes|
    ensures var r := WithKind(t, id, kind);
      Rekinded(t, r, id) && r.intern == t.intern && (kind != Unknown ==> r.scopes[id].kind == kind)
  {
  }

  lemma GrownRekinded(t: Tree, parent: nat, name: string, kind: ScopeKind)
    requires t.Ok() && parent < |t.scopes| && (parent, name) !in t.intern
    ensures var plain, r := Grown(t, parent, name, Unknown), Grown(t, parent, name, kind);
      Rekinded(plain, r, |t.scopes|) && KeepsKinds(t, plain) && r.intern == plain.intern && r.scopes[|t.scopes|].kind == kind
  {
  }

  /** Interning with a kind is interning without one, but for the kind. */
  lemma InternedRekinded(t: Tree, parent: nat, name: string, kind: ScopeKind)
    requires t.Ok() && parent < |t.scopes|
    ensures var plain, r := InternChild(t, parent, name, Unknown), InternChild(t, parent, name, kind);
      && plain.1 == r.1 && Rekinded(plain.0, r.0, r.1) && KeepsKinds(t, plain.0)
      && r.0.intern == plain.0.intern && (kind != Unknown ==> r.0.scopes[r.1].kind == kind)
  {
    var key := (parent, Canonical(name));
    if key in t.intern {
      FoundRekinded(t, t.intern[key], kind);
      assert InternChild(t, parent, name, Unknown) == (t, t.intern[key]);
    } else {
      GrownRekinded(t, parent, Canonical(name), kind);
    }
  }

  /** Registering the generic child closes a cycle, seen once the child is interned. */
  ghost predicate ChildCloses(t: Tree, d: Delegations, instance: nat, name: string, baseInner: nat)
    requires t.Ok() && instance < |t.scopes|
  {
    var r := InternChild(t, instance, name, Unknown);
    DelegationCloses(r.0, d, r.1, baseInner)
  }

  /** Registering a generic child leaves walks without a cycle exactly unless it closes one. */
  lemma RegisteredChildEndsIff(t: Tree, d: Delegations, instance: nat, name: string, baseInner: nat)
    requires t.Ok() && Within(t, d) && instance < |t.scopes| && baseInner < |t.scopes| && Acyclic(Steps(t, d))
    ensures var r := RegisterGenericChild(t, d, instance, name, baseInner);
      Acyclic(Steps(r.0, r.1)) <==> !ChildCloses(t, d, instance, name, baseInner)
  {
    var plain, r := InternChild(t, instance, name, Unknown), InternChild(t, instance, name, GenericInstance);
    InternedRekinded(t, instance, name, GenericInstance);
    NewScopesKeepAcyclic(t, plain.0, d);
    DelegatedIff(plain.0, r.0, d, r.1, baseInner);
  }

  /** It closes none if the child is new. */
  lemma NewChildNeverCloses(t: Tree, d: Delegations, instance: nat, name: string, baseInner: nat)
    requires t.Ok() && instance < |t.scopes| && (instance, Canonical(name)) !in t.intern
    ensures !ChildCloses(t, d, instance, name, baseInner)
  {
    var r := InternChild(t, instance, name, Unknown);
    forall child: nat | child < |r.0.scopes| ensures r.0.scopes[child].parent != Some(r.1) {
      ParentIsShallower(r.0, child);
    }
  }

  ghost predicate InstanceCloses(t: Tree, d: Delegations, enclosing: nat, baseName: string, mangledName: string)
    requires t.Ok() && enclosing < |t.scopes|
  {
    var first := InternChild(t, enclosing, mangledName, Unknown);
    var second := InternChild(first.0, enclosing, baseName, Unknown);
    DelegationCloses(second.0, d, first.1, second.1)
  }

  /** Interning another child does not depend on the kind of a scope. */
  lemma InternedAfterRekinded(t: Tree, rekinded: Tree, scope: nat, parent: nat, name: string)
    requires t.Ok() && rekinded.Ok() && Rekinded(t, rekinded, scope) && rekinded.intern == t.intern && parent < |t.scopes|
    ensures var plain, r := InternChild(t, parent, name, Unknown), InternChild(rekinded, parent, name, Unknown);
      && plain.1 == r.1 && Rekinded(plain.0, r.0, scope) && r.0.scopes[scope].kind == rekinded.scopes[scope].kind
      && KeepsKinds(t, plain.0)
  {
  }

  /** Registering an instance leaves walks without a cycle exactly unless it closes one. */
  lemma RegisteredInstanceEndsIff(t: Tree, d: Delegations, enclosing: nat, baseName: string, mangledName: string)
    requires t.Ok() && Within(t, d) && enclosing < |t.scopes| && Acyclic(Steps(t, d))
    ensures var r := RegisterGenericInstance(t, d, enclosing, baseName, mangledName);
      Acyclic(Steps(r.0, r.1)) <==> !InstanceCloses(t, d, enclosing, baseName, mangledName)
  {
    var plain, first := InternChild(t, enclosing, mangledName, Unknown), InternChild(t, enclosing, mangledName, GenericInstance);
    InternedRekinded(t, enclosing, mangledName, GenericInstance);
    InternedAfterRekinded(plain.0, first.0, first.1, enclosing, baseName);
    var second := InternChild(plain.0, enclosing, baseName, Unknown);
    NewScopesKeepAcyclic(t, plain.0, d);
    NewScopesKeepAcyclic(plain.0, second.0, d);
    DelegatedIff(second.0, InternChild(first.0, enclosing, baseName, Unknown).0, d, first.1, second.1);
  }

  /** If a scope already stands for a sibling that is no container, walks from a sibling do not come back to it. */
  lemma SiblingsDoNotComeBack(t: Tree, d: Delegations, enclosing: nat, instance: nat, base: nat)
    requires t.Ok() && Acyclic(Steps(t, d)) && instance < |t.scopes| && base < |t.scopes|
    requires var sibling := Effective(d, instance);
      sibling < |t.scopes| && t.scopes[sibling].parent == Some(enclosing) && !IsContainer(t, sibling)
    requires t.scopes[instance].parent == Some(enclosing) && t.scopes[base].parent == Some(enclosing)
    ensures !ComesBack(t, d, base, instance)
  {
    ParentIsShallower(t, instance);
    var steps, sibling, outward := Steps(t, d), Effective(d, instance), Effective(d, enclosing);
    assert StepsTo(t, d, sibling, outward);
    forall child | child in OpenChildren(t, instance) && Reaches(steps, base, child) ensures false {
      var path :| PathFrom(steps, path, base, child);
      assert StepsTo(t, d, child, sibling);
      FirstEdge(steps, path);
      assert StepsTo(t, d, path[0], path[1]);
      assert PathFrom(steps, path[1..], outward, child);
      ReachesFromEdge(steps, sibling, outward, child);
      CycleFromBackPath(steps, child, sibling);
    }
  }

  /** Nor do they when they start in a container, which they never leave. */
  lemma ContainersDoNotComeBack(t: Tree, d: Delegations, enclosing: nat, instance: nat, base: nat)
    requires t.Ok() && instance < |t.scopes| && base < |t.scopes| && IsContainer(t, base)
    requires t.scopes[instance].parent == Some(enclosing) && t.scopes[base].parent == Some(enclosing)
    ensures !ComesBack(t, d, base, instance)
  {
    ParentIsShallower(t, instance);
    forall child | child in OpenChildren(t, instance) && Reaches(Steps(t, d), base, child) ensures false {
      ReachesByEdges(Steps(t, d), base, child);
    }
  }

  /** The instance is no container yet; it stands for a sibling that is none either, or the template is one. */
  predicate StandsForSibling(t: Tree, d: Delegations, enclosing: nat, baseName: string, instance: nat)
    requires Within(t, d) && instance < |t.scopes| && t.Ok()
  {
    && !IsContainer(t, instance)
    && var sibling := Effective(d, instance);
    && t.scopes[sibling].parent == Some(enclosing)
    && (!IsContainer(t, sibling) || TemplateIsContainer(t, enclosing, baseName))
  }

  predicate TemplateIsContainer(t: Tree, enclosing: nat, baseName: string)
    requires t.Ok()
  {
    var key := (enclosing, Canonical(baseName));
    key in t.intern && IsContainer(t, t.intern[key])
  }

  /** Both scopes are children of the enclosing one; old scopes keep their kinds. */
  lemma InternedTwice(t: Tree, enclosing: nat, baseName: string, mangledName: string)
    requires t.Ok() && enclosing < |t.scopes|
    ensures var first := InternChild(t, enclosing, mangledName, Unknown);
      var second := InternChild(first.0, enclosing, baseName, Unknown);
      && Extends(t, second.0) && KeepsKinds(t, second.0) && first.1 < |second.0.scopes|
      && second.0.scopes[first.1].parent == Some(enclosing) && second.0.scopes[second.1].parent == Some(enclosing)
      && ((enclosing, Canonical(mangledName)) !in t.intern ==> first.1 == |t.scopes| && !IsContainer(second.0, first.1))
      && (TemplateIsContainer(t, enclosing, baseName) ==> IsContainer(second.0, second.1))
  {
    var first := InternChild(t, enclosing, mangledName, Unknown);
    var second := InternChild(first.0, enclosing, baseName, Unknown);
    ExtendsTransitive(t, first.0, second.0);
    InternedRekinded(t, enclosing, mangledName, Unknown);
    InternedRekinded(first.0, enclosing, baseName, Unknown);
  }

  /** Registering an instance again closes no cycle if it stands for a sibling; one that is new never does. */
  lemma InstanceNeverCloses(t: Tree, d: Delegations, enclosing: nat, baseName: string, mangledName: string)
    requires t.Ok() && Within(t, d) && enclosing < |t.scopes| && Acyclic(Steps(t, d))
    requires var key := (enclosing, Canonical(mangledName));
      key in t.intern ==> StandsForSibling(t, d, enclosing, baseName, t.intern[key])
    ensures !InstanceCloses(t, d, enclosing, baseName, mangledName)
  {
    var first := InternChild(t, enclosing, mangledName, Unknown);
    var second := InternChild(first.0, enclosing, baseName, Unknown);
    InternedTwice(t, enclosing, baseName, mangledName);
    if TemplateIsContainer(t, enclosing, baseName) {
      ContainersDoNotComeBack(second.0, d, enclosing, first.1, second.1);
    } else {
      NewScopesKeepAcyclic(t, second.0, d);
      SiblingsDoNotComeBack(second.0, d, enclosing, first.1, second.1);
    }
  }

  // ---- Delegations to scopes that are no deeper ----

  /** They close no cycle. */
  lemma NoDeeperIsAcyclic(t: Tree, d: Delegations)
    requires t.Ok() && Within(t, d) && forall k | k in d :: Depth(t, d[k]) <= Depth(t, k)
    ensures Acyclic(Links(t, d)) && Acyclic(Steps(t, d))
  {
    forall path | IsPath(Links(t, d), path) && |path| >= 2 ensures path[0] != path[|path| - 1] {
      DepthDescends(t, d, path);
    }
    FewerEdgesKeepAcyclic(Links(t, d), Steps(t, d));
  }

  lemma {:induction false} DepthDescends(t: Tree, d: Delegations, path: seq<nat>)
    requires t.Ok() && Within(t, d) && forall k | k in d :: Depth(t, d[k]) <= Depth(t, k)
    requires IsPath(Links(t, d), path) && |path| >= 2
    ensures path[0] < |t.scopes| && path[|path| - 1] < |t.scopes| && Depth(t, path[|path| - 1]) < Depth(t, path[0])
  {
    FirstEdge(Links(t, d), path);
    ParentIsShallower(t, path[0]);
    LinkEndsInside(t, d, path[0], path[1]);
    if |path| > 2 { DepthDescends(t, d, path[1..]); }
  }
}
