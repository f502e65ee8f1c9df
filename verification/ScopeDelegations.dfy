/** Delegations of generic instances. */
module ScopeDelegations {
  import opened Options
  import opened ScopeTree

  /** The member scope of an instance stands in for the one of its base template. */
  type Delegations = map<nat, nat>

  function Effective(d: Delegations, id: nat): nat {
    if id in d then d[id] else id
  }

  predicate Within(t: Tree, d: Delegations) {
    forall k | k in d :: k < |t.scopes| && d[k] < |t.scopes|
  }

  function Depth(t: Tree, id: nat): nat
    requires t.Ok() && id < |t.scopes|
  {
    |NamePath(t, id)|
  }

  /** A scope and the scope it delegates to are equally deep. */
  ghost predicate DelegationsOk(t: Tree, d: Delegations)
    requires t.Ok()
  {
    forall k | k in d :: k < |t.scopes| && d[k] < |t.scopes| && Depth(t, k) == Depth(t, d[k])
  }

  lemma ParentIsShallower(t: Tree, id: nat)
    requires t.Ok() && id < |t.scopes|
    ensures t.scopes[id].parent.Some? <==> id > 0
    ensures id > 0 ==> t.scopes[id].parent.value < id && Depth(t, id) == Depth(t, t.scopes[id].parent.value) + 1
  {
    if id > 0 { assert t.HasPlace(id); }
  }

  // ---- Registering ----

  /** The instance and the template are children of one scope. */
  function RegisterGenericInstance(t: Tree, d: Delegations, enclosing: nat, baseName: string, mangledName: string): (r: (Tree, Delegations, nat))
    requires t.Ok() && enclosing < |t.scopes|
    ensures r.0.Ok() && Extends(t, r.0) && BindsNothing(t, r.0) && r.2 < |r.0.scopes|
    ensures Within(t, d) ==> Within(r.0, r.1)
  {
    var first := InternChild(t, enclosing, mangledName, GenericInstance);
    var second := InternChild(first.0, enclosing, baseName, Unknown);
    ExtendsTransitive(t, first.0, second.0);
    BindsNothingTransitive(t, first.0, second.0);
    (second.0, d[first.1 := second.1], first.1)
  }

  function RegisterGenericChild(t: Tree, d: Delegations, instance: nat, name: string, baseInner: nat): (r: (Tree, Delegations, nat))
    requires t.Ok() && instance < |t.scopes|
    ensures r.0.Ok() && Extends(t, r.0) && BindsNothing(t, r.0) && r.2 < |r.0.scopes|
    ensures Within(t, d) && baseInner < |t.scopes| ==> Within(r.0, r.1)
  {
    var r := InternChild(t, instance, name, GenericInstance);
    (r.0, d[r.1 := baseInner], r.1)
  }

  // ---- Delegations to equally deep scopes ----

  lemma DelegationsStayOk(t: Tree, after: Tree, d: Delegations)
    requires t.Ok() && after.Ok() && Extends(t, after) && Within(t, d)
    ensures DelegationsOk(after, d) <==> DelegationsOk(t, d)
  {
    forall k | k in d ensures Depth(after, k) == Depth(t, k) && Depth(after, d[k]) == Depth(t, d[k]) {
      ExtendedNamePath(t, after, k);
      ExtendedNamePath(t, after, d[k]);
    }
  }

  lemma ChildIsDeeper(t: Tree, parent: nat, name: string, kind: ScopeKind)
    requires t.Ok() && parent < |t.scopes|
    ensures var r := InternChild(t, parent, name, kind);
      Depth(r.0, r.1) == Depth(t, parent) + 1 && Depth(r.0, parent) == Depth(t, parent)
  {
    var r := InternChild(t, parent, name, kind);
    ParentIsShallower(r.0, r.1);
    ExtendedNamePath(t, r.0, parent);
  }

  lemma RegisteredInstanceOk(t: Tree, d: Delegations, enclosing: nat, baseName: string, mangledName: string)
    requires t.Ok() && enclosing < |t.scopes| && DelegationsOk(t, d)
    ensures var r := RegisterGenericInstance(t, d, enclosing, baseName, mangledName);
      DelegationsOk(r.0, r.1) && Depth(r.0, r.2) == Depth(t, enclosing) + 1
  {
    var first := InternChild(t, enclosing, mangledName, GenericInstance);
    var second := InternChild(first.0, enclosing, baseName, Unknown);
    ChildIsDeeper(t, enclosing, mangledName, GenericInstance);
    ChildIsDeeper(first.0, enclosing, baseName, Unknown);
    ExtendedNamePath(first.0, second.0, first.1);
    ExtendsTransitive(t, first.0, second.0);
    DelegationsStayOk(t, second.0, d);
  }

  /** Delegations stay level exactly when the base scope is as deep as the new child. */
  lemma RegisteredChildOk(t: Tree, d: Delegations, instance: nat, name: string, baseInner: nat)
    requires t.Ok() && instance < |t.scopes| && baseInner < |t.scopes| && DelegationsOk(t, d)
    ensures var r := RegisterGenericChild(t, d, instance, name, baseInner);
      DelegationsOk(r.0, r.1) <==> Depth(t, baseInner) == Depth(t, instance) + 1
  {
    var r := RegisterGenericChild(t, d, instance, name, baseInner);
    DelegationsStayOk(t, r.0, d);
    ChildIsDeeper(t, instance, name, GenericInstance);
    ExtendedNamePath(t, r.0, baseInner);
    assert r.2 in r.1 && r.1[r.2] == baseInner;
  }

  /** `baseInner` is a child of the scope that `instance` delegates to; the analyzer asks for no other. */
  predicate Corresponds(t: Tree, d: Delegations, instance: nat, baseInner: nat) {
    baseInner < |t.scopes| && instance in d && t.scopes[baseInner].parent == Some(d[instance])
  }

  lemma CorrespondingIsLevel(t: Tree, d: Delegations, instance: nat, baseInner: nat)
    requires t.Ok() && instance < |t.scopes| && DelegationsOk(t, d) && Corresponds(t, d, instance, baseInner)
    ensures Depth(t, baseInner) == Depth(t, instance) + 1
  {
    ParentIsShallower(t, baseInner);
  }
}
