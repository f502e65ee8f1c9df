/** What a call binds, and where that is seen. */
module ScopeBindings {
  import opened Options
  import opened SourceTokens
  import opened ScopeTree
  import opened ScopeDelegations
  import opened ScopeCycles
  import opened ScopeImports
  import opened ScopeArenas

  /** Some walk from `from` outward ends at `scope`. */
  ghost predicate Passes(t: Tree, d: Delegations, from: nat, scope: nat) {
    exists walk :: IsWalk(t, d, from, walk) && walk[|walk| - 1] == scope
  }

  /** The scopes of `after` are those of `t`, each with its parent and kind. */
  predicate SameWay(t: Tree, after: Tree) {
    |after.scopes| == |t.scopes|
    && forall i | 0 <= i < |t.scopes| :: after.scopes[i].parent == t.scopes[i].parent && after.scopes[i].kind == t.scopes[i].kind
  }

  lemma SameWalks(t: Tree, after: Tree, d: Delegations, from: nat, walk: seq<nat>)
    requires SameWay(t, after)
    ensures IsWalk(after, d, from, walk) <==> IsWalk(t, d, from, walk)
  {
    if forall i | 0 <= i < |walk| :: walk[i] < |t.scopes| {
      forall i | 0 < i < |walk| ensures StepsTo(after, d, walk[i - 1], walk[i]) <==> StepsTo(t, d, walk[i - 1], walk[i]) {
        assert walk[i - 1] < |t.scopes|;
      }
    }
  }

  /** The scope has an import in `after` that it has not in `t`. */
  predicate ImportsNewly(t: Tree, after: Tree, scope: nat, q: Query)
    requires scope < |t.scopes| <= |after.scopes|
  {
    ImportsHere(after, scope, q) && !ImportsHere(t, scope, q)
  }

  ghost predicate PassesNews(t: Tree, after: Tree, d: Delegations, from: nat, q: Query)
    requires |t.scopes| <= |after.scopes|
  {
    exists scope: nat :: scope < |t.scopes| && Passes(t, d, from, scope) && ImportsNewly(t, after, scope, q)
  }

  /** If no import is lost, a scope sees what it saw and what is new on its way. */
  lemma SeesMore(t: Tree, after: Tree, d: Delegations, from: nat, q: Query)
    requires SameWay(t, after)
    requires forall i: nat | i < |t.scopes| :: ImportsHere(t, i, q) ==> ImportsHere(after, i, q)
    ensures Sees(after, d, from, q) <==> Sees(t, d, from, q) || PassesNews(t, after, d, from, q)
  {
    if walk :| IsWalk(after, d, from, walk) && ImportsHere(after, walk[|walk| - 1], q) {
      SameWalks(t, after, d, from, walk);
      assert ImportsHere(t, walk[|walk| - 1], q) || (Passes(t, d, from, walk[|walk| - 1]) && ImportsNewly(t, after, walk[|walk| - 1], q));
    }
    if walk :| IsWalk(t, d, from, walk) && ImportsHere(t, walk[|walk| - 1], q) {
      SameWalks(t, after, d, from, walk);
    }
    if PassesNews(t, after, d, from, q) {
      var scope: nat :| scope < |t.scopes| && Passes(t, d, from, scope) && ImportsNewly(t, after, scope, q);
      var walk :| IsWalk(t, d, from, walk) && walk[|walk| - 1] == scope;
      SameWalks(t, after, d, from, walk);
    }
  }

  // ---- Imports ----

  /** The import is one of this name, and the query may see it. */
  predicate Answers(name: string, b: ImportBinding, q: Query) {
    Canonical(q.name) == Canonical(name) && BindsExplicitly(b, q)
  }

  lemma ImportIsHere(a: Arena, scope: nat, name: string, b: ImportBinding, i: nat, q: Query)
    requires a.Ok() && scope < |a.tree.scopes| && i < |a.tree.scopes|
    ensures ImportsHere(Called(a, DoAddImport(scope, name, b)).tree, i, q)
       <==> ImportsHere(a.tree, i, q) || (i == scope && Answers(name, b, q))
  {
    var after := Called(a, DoAddImport(scope, name, b)).tree;
    var known, now := ImportsGet(a.tree, i, q.name), ImportsGet(after, i, q.name);
    assert now == known + if i == scope && Canonical(q.name) == Canonical(name) then [b] else [];
    assert forall x :: x in now <==> x in known || (i == scope && Canonical(q.name) == Canonical(name) && x == b);
    assert after.scopes[i].wildcards == a.tree.scopes[i].wildcards;
    assert forall w: nat, n :: LocalsGet(after, w, n) == LocalsGet(a.tree, w, n);
  }

  /** An import is seen from exactly the scopes whose way outward leads through the scope it was added to. */
  lemma AddedImportIsSeen(a: Arena, scope: nat, name: string, b: ImportBinding, from: nat, q: Query)
    requires a.Ok() && scope < |a.tree.scopes|
    ensures Sees(Called(a, DoAddImport(scope, name, b)).tree, a.delegations, from, q)
       <==> Sees(a.tree, a.delegations, from, q) || (Passes(a.tree, a.delegations, from, scope) && Answers(name, b, q))
  {
    var after := Called(a, DoAddImport(scope, name, b)).tree;
    forall i: nat | i < |a.tree.scopes|
      ensures ImportsHere(after, i, q) <==> ImportsHere(a.tree, i, q) || (i == scope && Answers(name, b, q))
    {
      ImportIsHere(a, scope, name, b, i, q);
    }
    SeesMore(a.tree, after, a.delegations, from, q);
    if Passes(a.tree, a.delegations, from, scope) && Answers(name, b, q) { SeenIfImported(a.tree, a.delegations, from, scope, q); }
  }

  lemma SeenIfImported(t: Tree, d: Delegations, from: nat, scope: nat, q: Query)
    requires Passes(t, d, from, scope) && scope < |t.scopes|
    ensures ImportsHere(t, scope, q) ==> Sees(t, d, from, q)
  {
    var walk :| IsWalk(t, d, from, walk) && walk[|walk| - 1] == scope;
  }

  lemma WildcardIsHere(a: Arena, scope: nat, w: WildcardImport, i: nat, q: Query)
    requires a.Ok() && scope < |a.tree.scopes| && i < |a.tree.scopes|
    ensures ImportsHere(Called(a, DoAddWildcard(scope, w)).tree, i, q)
       <==> ImportsHere(a.tree, i, q) || (i == scope && BindsByWildcard(a.tree, w, q))
  {
    var after := Called(a, DoAddWildcard(scope, w)).tree;
    var known, now := a.tree.scopes[i].wildcards, after.scopes[i].wildcards;
    assert now == known + if i == scope then [w] else [];
    assert forall x :: x in now <==> x in known || (i == scope && x == w);
    assert forall k: nat, n :: LocalsGet(after, k, n) == LocalsGet(a.tree, k, n);
    assert ImportsGet(after, i, q.name) == ImportsGet(a.tree, i, q.name);
    assert forall x :: BindsByWildcard(after, x, q) <==> BindsByWildcard(a.tree, x, q);
  }

  /** A wildcard shows there what its source declares. */
  lemma AddedWildcardIsSeen(a: Arena, scope: nat, w: WildcardImport, from: nat, q: Query)
    requires a.Ok() && scope < |a.tree.scopes|
    ensures Sees(Called(a, DoAddWildcard(scope, w)).tree, a.delegations, from, q)
       <==> Sees(a.tree, a.delegations, from, q) || (Passes(a.tree, a.delegations, from, scope) && BindsByWildcard(a.tree, w, q))
  {
    var after := Called(a, DoAddWildcard(scope, w)).tree;
    forall i: nat | i < |a.tree.scopes|
      ensures ImportsHere(after, i, q) <==> ImportsHere(a.tree, i, q) || (i == scope && BindsByWildcard(a.tree, w, q))
    {
      WildcardIsHere(a, scope, w, i, q);
    }
    SeesMore(a.tree, after, a.delegations, from, q);
    if Passes(a.tree, a.delegations, from, scope) && BindsByWildcard(a.tree, w, q) { SeenIfImported(a.tree, a.delegations, from, scope, q); }
  }

  // ---- Declarations ----

  /** A declaration is the last of its name in its scope, and of no other. */
  lemma AddedLocalIsDeclared(a: Arena, scope: nat, name: string, symbol: SymbolId, i: nat, n: string)
    requires a.Ok() && scope < |a.tree.scopes|
    ensures LocalsGet(Called(a, DoAddLocal(scope, name, symbol)).tree, i, n)
         == LocalsGet(a.tree, i, n) + if i == scope && Canonical(n) == Canonical(name) then [symbol] else []
  {
  }

  /** A wildcard import of the scope the symbol is declared in, that the query may see through. */
  predicate ShowsLocal(w: WildcardImport, scope: nat, name: string, symbol: SymbolId, q: Query) {
    && w.source == scope && symbol == q.symbol && Canonical(q.name) == Canonical(name)
    && !q.defineContext.Exclusive(w.defineContext) && !q.symbolDefineContext.Exclusive(w.sourceDefineContext)
  }

  lemma LocalIsHere(a: Arena, scope: nat, name: string, symbol: SymbolId, i: nat, q: Query)
    requires a.Ok() && scope < |a.tree.scopes| && i < |a.tree.scopes|
    ensures ImportsHere(Called(a, DoAddLocal(scope, name, symbol)).tree, i, q)
       <==> ImportsHere(a.tree, i, q) || exists w | w in a.tree.scopes[i].wildcards :: ShowsLocal(w, scope, name, symbol, q)
  {
    var after := Called(a, DoAddLocal(scope, name, symbol)).tree;
    forall w: WildcardImport
      ensures BindsByWildcard(after, w, q) <==> BindsByWildcard(a.tree, w, q) || ShowsLocal(w, scope, name, symbol, q)
    {
      AddedLocalIsDeclared(a, scope, name, symbol, w.source, q.name);
    }
    assert ImportsGet(after, i, q.name) == ImportsGet(a.tree, i, q.name);
  }

  /** A scope on the way that imports the declaring scope as a whole. */
  ghost predicate PassesWildcard(t: Tree, d: Delegations, from: nat, scope: nat, name: string, symbol: SymbolId, q: Query) {
    exists i: nat, w :: i < |t.scopes| && Passes(t, d, from, i) && w in t.scopes[i].wildcards && ShowsLocal(w, scope, name, symbol, q)
  }

  /** A declaration comes into sight exactly where its scope is imported as a whole, also when that was done before. */
  lemma AddedLocalIsSeen(a: Arena, scope: nat, name: string, symbol: SymbolId, from: nat, q: Query)
    requires a.Ok() && scope < |a.tree.scopes|
    ensures Sees(Called(a, DoAddLocal(scope, name, symbol)).tree, a.delegations, from, q)
       <==> Sees(a.tree, a.delegations, from, q) || PassesWildcard(a.tree, a.delegations, from, scope, name, symbol, q)
  {
    var after := Called(a, DoAddLocal(scope, name, symbol)).tree;
    forall i: nat | i < |a.tree.scopes|
      ensures ImportsHere(after, i, q)
         <==> ImportsHere(a.tree, i, q) || exists w | w in a.tree.scopes[i].wildcards :: ShowsLocal(w, scope, name, symbol, q)
    {
      LocalIsHere(a, scope, name, symbol, i, q);
    }
    SeesMore(a.tree, after, a.delegations, from, q);
    if PassesWildcard(a.tree, a.delegations, from, scope, name, symbol, q) {
      var i: nat, w :| i < |a.tree.scopes| && Passes(a.tree, a.delegations, from, i) && w in a.tree.scopes[i].wildcards && ShowsLocal(w, scope, name, symbol, q);
      SeenIfImported(a.tree, a.delegations, from, i, q);
    }
  }

  // ---- Generic instances ----

  /** Of all scopes only `id` delegates otherwise than before: to `base`. */
  ghost predicate DelegatesNewly(d: Delegations, after: Delegations, id: nat, base: nat) {
    Effective(after, id) == base && forall k: nat | k != id :: Effective(after, k) == Effective(d, k)
  }

  lemma GrownNamePath(t: Tree, parent: nat, name: string, kind: ScopeKind, id: nat)
    requires t.Ok() && parent < |t.scopes| && id < |t.scopes|
    ensures var r := InternChild(t, parent, name, kind);
      && NamePath(r.0, id) == NamePath(t, id) && NamePath(r.0, r.1) == NamePath(t, parent) + [Canonical(name)]
      && (kind == Unknown ==> r.0.scopes[id].kind == t.scopes[id].kind) && (kind != Unknown ==> r.0.scopes[r.1].kind == kind)
  {
    ExtendedNamePath(t, InternChild(t, parent, name, kind).0, id);
    ChildIsNamed(t, parent, name, kind);
  }

  /** The instance stands next to its template, and for it. */
  lemma InstanceStandsForTemplate(t: Tree, d: Delegations, enclosing: nat, baseName: string, mangledName: string)
    requires t.Ok() && enclosing < |t.scopes|
    ensures var r := RegisterGenericInstance(t, d, enclosing, baseName, mangledName);
      var base := Effective(r.1, r.2);
      && r.0.scopes[r.2].kind == GenericInstance && NamePath(r.0, r.2) == NamePath(t, enclosing) + [Canonical(mangledName)]
      && base < |r.0.scopes| && NamePath(r.0, base) == NamePath(t, enclosing) + [Canonical(baseName)]
      && DelegatesNewly(d, r.1, r.2, base)
  {
    var first := InternChild(t, enclosing, mangledName, GenericInstance);
    GrownNamePath(t, enclosing, mangledName, GenericInstance, enclosing);
    GrownNamePath(first.0, enclosing, baseName, Unknown, enclosing);
    GrownNamePath(first.0, enclosing, baseName, Unknown, first.1);
  }

  /** A member of the instance is one of its children, and stands for the member it was registered with. */
  lemma ChildStandsForMember(t: Tree, d: Delegations, instance: nat, name: string, baseInner: nat)
    requires t.Ok() && instance < |t.scopes| && baseInner < |t.scopes|
    ensures var r := RegisterGenericChild(t, d, instance, name, baseInner);
      && r.0.scopes[r.2].kind == GenericInstance && NamePath(r.0, r.2) == NamePath(t, instance) + [Canonical(name)]
      && DelegatesNewly(d, r.1, r.2, baseInner)
  {
    GrownNamePath(t, instance, name, GenericInstance, instance);
  }

  // ---- Kind, owner and cursor ----

  /** The scope has that owner, and that kind if it is known; nothing else changes. */
  lemma KindAndOwnerAreSet(a: Arena, scope: nat, kind: ScopeKind, owner: SymbolId, i: nat)
    requires a.Ok() && scope < |a.tree.scopes| && i < |a.tree.scopes|
    ensures var s, after := a.tree.scopes[i], Called(a, DoSetKindOwner(scope, kind, owner)).tree.scopes[i];
      && after == s.(kind := after.kind, owner := after.owner)
      && after.owner == (if i == scope then Some(owner) else s.owner)
      && after.kind == (if i == scope && kind != Unknown then kind else s.kind)
  {
  }

  /** A child that is interned has the kind it is interned with, unless that is not known, and nothing else changes. */
  lemma KindIsInterned(a: Arena, parent: nat, name: string, kind: ScopeKind, i: nat)
    requires a.Ok() && parent < |a.tree.scopes|
    ensures var r := InternChild(a.tree, parent, name, kind);
      && (kind != Unknown ==> r.0.scopes[r.1].kind == kind)
      && (i < |a.tree.scopes| ==> r.0.scopes[i] == a.tree.scopes[i].(kind := if i == r.1 && kind != Unknown then kind else a.tree.scopes[i].kind))
  {
  }

  /** Entering a scope puts the cursor at the child of that name, and leaving it puts it back. */
  lemma ExitUndoesEnter(a: Arena, name: string)
    requires a.Ok()
    ensures var entered := Called(a, DoEnter(name));
      && entered.Ok()
      && NamePath(entered.tree, entered.current) == NamePath(a.tree, a.current) + [Canonical(name)]
      && Called(entered, DoExit) == entered.(current := a.current)
  {
    CallOk(a, DoEnter(name));
    ChildIsNamed(a.tree, a.current, name, Unknown);
  }
}
