/** The scope arena: the tree, a cursor, the tokens' scopes and the delegations.
    Every call keeps them in order together; which calls can make a walk outward
    endless is said too. */
module ScopeArenas {
  import opened Options
  import opened SourceTokens
  import opened StableSorts
  import opened ScopeTree
  import opened ScopeTokens
  import opened ScopeDelegations
  import opened ScopeImports
  import opened ScopeDrops

  datatype Arena = Arena(tree: Tree, current: nat, tokens: map<TokenId, TokenScope>, delegations: Delegations) {
    ghost predicate Ok() {
      && tree.Ok() && current < |tree.scopes|
      && Tokens(tree, tokens).Ok()
      && Within(tree, delegations)
      && forall i | 0 <= i < |tree.scopes| :: NoEmptyLists(tree.scopes[i].locals)
    }
  }

  const INITIAL := Arena(NEW_TREE, 0, map[], map[])

  // ---- Growing the tree ----

  lemma {:induction false} NewScopesAreBare(t: Tree, from: nat, path: seq<string>)
    requires t.Ok() && from < |t.scopes|
    ensures Extends(t, InternPath(t, from, path).0)
    ensures BindsNothing(t, InternPath(t, from, path).0)
    ensures KeepsKinds(t, InternPath(t, from, path).0)
  {
    if path != [] {
      var before := InternPath(t, from, path[..|path| - 1]);
      NewScopesAreBare(t, from, path[..|path| - 1]);
      var after := InternChild(before.0, before.1, path[|path| - 1], Unknown);
      ExtendsTransitive(t, before.0, after.0);
      BindsNothingTransitive(t, before.0, after.0);
    }
  }

  /** A tree that extends the arena's, with no new locals, can take its place. */
  lemma GrownOk(a: Arena, tree: Tree)
    requires a.Ok() && tree.Ok() && Extends(a.tree, tree) && BindsNothing(a.tree, tree)
    ensures a.(tree := tree).Ok()
  {
    forall i | 0 <= i < |tree.scopes| ensures NoEmptyLists(tree.scopes[i].locals) {
      if i < |a.tree.scopes| { assert NoEmptyLists(a.tree.scopes[i].locals); }
    }
  }

  /** A tree that differs only in what its scopes bind. */
  predicate SameShape(t: Tree, after: Tree) {
    && after.intern == t.intern && |after.scopes| == |t.scopes|
    && forall i | 0 <= i < |t.scopes| :: after.scopes[i].parent == t.scopes[i].parent && after.scopes[i].name == t.scopes[i].name
  }

  lemma ReboundOk(a: Arena, tree: Tree)
    requires a.Ok() && SameShape(a.tree, tree) && forall i | 0 <= i < |tree.scopes| :: NoEmptyLists(tree.scopes[i].locals)
    ensures a.(tree := tree).Ok()
  {
    assert forall i | 0 < i < |tree.scopes| :: a.tree.HasPlace(i) ==> tree.HasPlace(i);
  }

  // ---- The calls ----

  function WithScope(t: Tree, scope: nat, s: Scope): Tree
    requires scope < |t.scopes|
  {
    t.(scopes := t.scopes[scope := s])
  }

  function LocalAdded(s: Scope, name: string, symbol: SymbolId): Scope {
    s.(locals := s.locals[Canonical(name) := At(s.locals, Canonical(name)) + [symbol]])
  }

  function ImportAdded(s: Scope, name: string, b: ImportBinding): Scope {
    var key := Canonical(name);
    s.(imports := s.imports[key := (if key in s.imports then s.imports[key] else []) + [b]])
  }

  function KindAndOwner(s: Scope, kind: ScopeKind, owner: SymbolId): Scope {
    s.(kind := if kind != Unknown then kind else s.kind, owner := Some(owner))
  }

  datatype Call =
    | DoInternChild(parent: nat, name: string, kind: ScopeKind)
    | DoInternNamespace(path: seq<string>)
    | DoEnter(name: string)
    | DoExit
    | DoSetCurrent(scope: nat)
    | DoAddLocal(scope: nat, name: string, symbol: SymbolId)
    | DoAddImport(scope: nat, name: string, binding: ImportBinding)
    | DoAddWildcard(scope: nat, wildcard: WildcardImport)
    | DoSetKindOwner(scope: nat, kind: ScopeKind, owner: SymbolId)
    | DoDropSymbols(symbols: seq<DroppedSymbol>)
    | DoInsertToken(entry: Entry, file: PathId)
    | DoDropTokens(file: PathId, project: Option<string>)
    | DoRegisterGenericInstance(enclosing: nat, baseName: string, mangledName: string)
    | DoRegisterGenericChild(instance: nat, name: string, baseInner: nat)

  /** Scopes passed in exist. */
  predicate Allowed(a: Arena, c: Call) {
    match c
    case DoInternChild(parent, _, _) => parent < |a.tree.scopes|
    case DoSetCurrent(scope) => scope < |a.tree.scopes|
    case DoAddLocal(scope, _, _) => scope < |a.tree.scopes|
    case DoAddImport(scope, _, _) => scope < |a.tree.scopes|
    case DoAddWildcard(scope, _) => scope < |a.tree.scopes|
    case DoSetKindOwner(scope, _, _) => scope < |a.tree.scopes|
    case DoRegisterGenericInstance(enclosing, _, _) => enclosing < |a.tree.scopes|
    case DoRegisterGenericChild(instance, _, baseInner) => instance < |a.tree.scopes| && baseInner < |a.tree.scopes|
    case _ => true
  }

  function Exited(t: Tree, current: nat): nat
    requires current < |t.scopes|
  {
    if t.scopes[current].parent.Some? then t.scopes[current].parent.value else current
  }

  function Called(a: Arena, c: Call): Arena
    requires a.Ok() && Allowed(a, c)
  {
    match c
    case DoInternChild(parent, name, kind) => a.(tree := InternChild(a.tree, parent, name, kind).0)
    case DoInternNamespace(path) => a.(tree := InternPath(a.tree, 0, path).0)
    case DoEnter(name) =>
      var r := InternChild(a.tree, a.current, name, Unknown);
      a.(tree := r.0, current := r.1)
    case DoExit => a.(current := Exited(a.tree, a.current))
    case DoSetCurrent(scope) => a.(current := scope)
    case DoAddLocal(scope, name, symbol) => a.(tree := WithScope(a.tree, scope, LocalAdded(a.tree.scopes[scope], name, symbol)))
    case DoAddImport(scope, name, b) => a.(tree := WithScope(a.tree, scope, ImportAdded(a.tree.scopes[scope], name, b)))
    case DoAddWildcard(scope, w) =>
      a.(tree := WithScope(a.tree, scope, a.tree.scopes[scope].(wildcards := a.tree.scopes[scope].wildcards + [w])))
    case DoSetKindOwner(scope, kind, owner) => a.(tree := WithScope(a.tree, scope, KindAndOwner(a.tree.scopes[scope], kind, owner)))
    case DoDropSymbols(symbols) => a.(tree := DropSymbols(a.tree, symbols))
    case DoInsertToken(e, file) =>
      var r := InsertToken(Tokens(a.tree, a.tokens), e, file);
      a.(tree := r.tree, tokens := r.scopes)
    case DoDropTokens(file, project) => a.(tokens := DropTokens(Tokens(a.tree, a.tokens), file, project).scopes)
    case DoRegisterGenericInstance(enclosing, baseName, mangledName) =>
      var r := RegisterGenericInstance(a.tree, a.delegations, enclosing, baseName, mangledName);
      a.(tree := r.0, delegations := r.1)
    case DoRegisterGenericChild(instance, name, baseInner) =>
      var r := RegisterGenericChild(a.tree, a.delegations, instance, name, baseInner);
      a.(tree := r.0, delegations := r.1)
  }

  lemma InternOk(a: Arena, c: Call)
    requires a.Ok() && Allowed(a, c) && (c.DoInternChild? || c.DoInternNamespace? || c.DoEnter? || c.DoInsertToken?)
    ensures Called(a, c).Ok()
  {
    match c {
      case DoInternChild(parent, name, kind) =>
        GrownOk(a, Called(a, c).tree);
      case DoInternNamespace(path) =>
        NewScopesAreBare(a.tree, 0, path);
        GrownOk(a, Called(a, c).tree);
      case DoEnter(name) =>
        GrownOk(a, Called(a, c).tree);
      case DoInsertToken(e, file) =>
        NewScopesAreBare(a.tree, 0, e.namespace.paths);
        GrownOk(a, Called(a, c).tree);
    }
  }

  lemma ReboundScopeOk(a: Arena, scope: nat, s: Scope)
    requires a.Ok() && scope < |a.tree.scopes| && NoEmptyLists(s.locals)
    requires s.parent == a.tree.scopes[scope].parent && s.name == a.tree.scopes[scope].name
    ensures a.(tree := WithScope(a.tree, scope, s)).Ok()
  {
    ReboundOk(a, WithScope(a.tree, scope, s));
  }

  lemma BindOk(a: Arena, c: Call)
    requires a.Ok() && Allowed(a, c) && (c.DoAddLocal? || c.DoAddImport? || c.DoAddWildcard? || c.DoSetKindOwner?)
    ensures Called(a, c).Ok()
  {
    ReboundScopeOk(a, c.scope, Called(a, c).tree.scopes[c.scope]);
  }

  lemma DropKeepsShape(a: Arena, symbols: seq<DroppedSymbol>)
    requires a.Ok()
    ensures SameShape(a.tree, DropSymbols(a.tree, symbols)) && KeepsKinds(a.tree, DropSymbols(a.tree, symbols))
    ensures forall i | 0 <= i < |a.tree.scopes| :: NoEmptyLists(DropSymbols(a.tree, symbols).scopes[i].locals)
  {
    if symbols != [] {
      var r := DropSymbols(a.tree, symbols);
      forall i | 0 <= i < |a.tree.scopes|
        ensures r.scopes[i].parent == a.tree.scopes[i].parent && r.scopes[i].name == a.tree.scopes[i].name
        ensures r.scopes[i].kind == a.tree.scopes[i].kind && NoEmptyLists(r.scopes[i].locals)
      {
        DropEachLocals(a.tree, symbols, i, "");
        DropEachElse(a.tree, symbols, i);
      }
    }
  }

  lemma DropOk(a: Arena, symbols: seq<DroppedSymbol>)
    requires a.Ok()
    ensures Called(a, DoDropSymbols(symbols)).Ok()
  {
    DropKeepsShape(a, symbols);
    ReboundOk(a, DropSymbols(a.tree, symbols));
  }

  lemma RegisteredOk(a: Arena, after: Arena)
    requires a.Ok() && after == a.(tree := after.tree, delegations := after.delegations)
    requires after.tree.Ok() && Extends(a.tree, after.tree) && BindsNothing(a.tree, after.tree) && Within(after.tree, after.delegations)
    ensures after.Ok()
  {
    GrownOk(a, after.tree);
  }

  lemma RegisterInstanceOk(a: Arena, enclosing: nat, baseName: string, mangledName: string)
    requires a.Ok() && enclosing < |a.tree.scopes|
    ensures Called(a, DoRegisterGenericInstance(enclosing, baseName, mangledName)).Ok()
  {
    RegisteredOk(a, Called(a, DoRegisterGenericInstance(enclosing, baseName, mangledName)));
  }

  lemma RegisterChildOk(a: Arena, instance: nat, name: string, baseInner: nat)
    requires a.Ok() && Allowed(a, DoRegisterGenericChild(instance, name, baseInner))
    ensures Called(a, DoRegisterGenericChild(instance, name, baseInner)).Ok()
  {
    RegisteredOk(a, Called(a, DoRegisterGenericChild(instance, name, baseInner)));
  }

  /** Every call keeps the arena in order: interning stays a bijection, parents stay below children, delegations stay inside. */
  lemma CallOk(a: Arena, c: Call)
    requires a.Ok() && Allowed(a, c)
    ensures Called(a, c).Ok()
  {
    if c.DoInternChild? || c.DoInternNamespace? || c.DoEnter? || c.DoInsertToken? {
      InternOk(a, c);
    } else if c.DoAddLocal? || c.DoAddImport? || c.DoAddWildcard? || c.DoSetKindOwner? {
      BindOk(a, c);
    } else if c.DoDropSymbols? {
      DropOk(a, c.symbols);
    } else if c.DoRegisterGenericInstance? {
      RegisterInstanceOk(a, c.enclosing, c.baseName, c.mangledName);
    } else if c.DoRegisterGenericChild? {
      RegisterChildOk(a, c.instance, c.name, c.baseInner);
    } else if c.DoExit? {
      ParentIsShallower(a.tree, a.current);
    }
  }

  /** The arena after some calls; a call that is not allowed does not return. */
  function Run(calls: seq<Call>): (a: Arena)
    ensures a.Ok()
  {
    if calls == [] then INITIAL else
      var before, c := Run(calls[..|calls| - 1]), calls[|calls| - 1];
      if !Allowed(before, c) then before else
        CallOk(before, c);
        Called(before, c)
  }

  // ---- The object ----

  class ScopeArena {
    var scopes: seq<Scope>
    var intern: Intern
    var current: nat
    var tokenScopes: map<TokenId, TokenScope>
    var genericDelegations: Delegations

    function View(): Arena
      reads this
    {
      Arena(Tree(scopes, intern), current, tokenScopes, genericDelegations)
    }

    constructor ()
      ensures View() == INITIAL && View().Ok()
    {
      scopes, intern, current, tokenScopes, genericDelegations := [EMPTY_SCOPE], map[], 0, map[], map[];
    }

    method InternChild(parent: nat, name: string, kind: ScopeKind) returns (id: nat)
      requires View().Ok() && parent < |scopes|
      modifies this
      ensures View() == Called(old(View()), DoInternChild(parent, name, kind)) && View().Ok()
      ensures id == ScopeTree.InternChild(old(View()).tree, parent, name, kind).1
    {
      CallOk(View(), DoInternChild(parent, name, kind));
      var key := (parent, Canonical(name));
      if key in intern {
        id := intern[key];
        if kind != Unknown { scopes := scopes[id := scopes[id].(kind := kind)]; }
      } else {
        id := |scopes|;
        scopes := scopes + [EMPTY_SCOPE.(parent := Some(parent), kind := kind, name := Some(Canonical(name)))];
        intern := intern[key := id];
      }
    }

    /** From the root, one name after the other. */
    method InternNamespace(path: seq<string>) returns (id: nat)
      requires View().Ok()
      modifies this
      ensures View() == Called(old(View()), DoInternNamespace(path)) && View().Ok()
      ensures id == InternPath(old(View()).tree, 0, path).1
    {
      id := 0;
      for n := 0 to |path|
        invariant View().Ok() && id < |scopes|
        invariant View() == old(View()).(tree := View().tree)
        invariant (View().tree, id) == InternPath(old(View()).tree, 0, path[..n])
      {
        assert path[..n + 1][..n] == path[..n];
        id := InternChild(id, path[n], Unknown);
      }
      assert path[..|path|] == path;
    }

    method Enter(name: string) returns (id: nat)
      requires View().Ok()
      modifies this
      ensures View() == Called(old(View()), DoEnter(name)) && View().Ok() && id == current
    {
      CallOk(View(), DoEnter(name));
      id := InternChild(current, name, Unknown);
      current := id;
    }

    method Exit() returns (exited: nat)
      requires View().Ok()
      modifies `current
      ensures View() == Called(old(View()), DoExit) && View().Ok() && exited == old(current)
    {
      CallOk(View(), DoExit);
      exited := current;
      if scopes[exited].parent.Some? { current := scopes[exited].parent.value; }
    }

    method AddLocal(scope: nat, name: string, symbol: SymbolId)
      requires View().Ok() && scope < |scopes|
      modifies `scopes
      ensures View() == Called(old(View()), DoAddLocal(scope, name, symbol)) && View().Ok()
    {
      CallOk(View(), DoAddLocal(scope, name, symbol));
      var key := Canonical(name);
      var s := scopes[scope];
      var known := if key in s.locals then s.locals[key] else [];
      scopes := scopes[scope := s.(locals := s.locals[key := known + [symbol]])];
    }

    method AddImport(scope: nat, name: string, binding: ImportBinding)
      requires View().Ok() && scope < |scopes|
      modifies `scopes
      ensures View() == Called(old(View()), DoAddImport(scope, name, binding)) && View().Ok()
    {
      CallOk(View(), DoAddImport(scope, name, binding));
      var key := Canonical(name);
      var s := scopes[scope];
      var known := if key in s.imports then s.imports[key] else [];
      scopes := scopes[scope := s.(imports := s.imports[key := known + [binding]])];
    }

    method SetKindOwner(scope: nat, kind: ScopeKind, owner: SymbolId)
      requires View().Ok() && scope < |scopes|
      modifies `scopes
      ensures View() == Called(old(View()), DoSetKindOwner(scope, kind, owner)) && View().Ok()
    {
      CallOk(View(), DoSetKindOwner(scope, kind, owner));
      var s := scopes[scope];
      if kind != Unknown { s := s.(kind := kind); }
      scopes := scopes[scope := s.(owner := Some(owner))];
    }

    /** Locals and owners go symbol by symbol. */
    method DropLocalsAndOwners(symbols: seq<DroppedSymbol>)
      modifies `scopes
      ensures Tree(scopes, intern) == DropEach(old(Tree(scopes, intern)), symbols)
    {
      for n := 0 to |symbols|
        invariant Tree(scopes, intern) == DropEach(old(Tree(scopes, intern)), symbols[..n])
      {
        var symbol := symbols[n];
        var name := Canonical(symbol.name);
        assert symbols[..n + 1][..n] == symbols[..n];
        if symbol.scope < |scopes| { scopes := scopes[symbol.scope := DropLocal(scopes[symbol.scope], name, symbol.id)]; }
        if (symbol.scope, name) in intern {
          var owned := intern[(symbol.scope, name)];
          if owned < |scopes| && scopes[owned].owner == Some(symbol.id) { scopes := scopes[owned := scopes[owned].(owner := None)]; }
        }
      }
      assert symbols[..|symbols|] == symbols;
    }

    /** Imports go in one scan of all scopes, there being no way back from a symbol to them. */
    method DropImports(dropped: set<SymbolId>)
      modifies `scopes
      ensures |scopes| == |old(scopes)|
      ensures forall i | 0 <= i < |scopes| :: scopes[i] == old(scopes)[i].(imports := CleanImports(old(scopes)[i].imports, dropped))
    {
      for i := 0 to |scopes|
        invariant |scopes| == |old(scopes)|
        invariant forall j | 0 <= j < i :: scopes[j] == old(scopes)[j].(imports := CleanImports(old(scopes)[j].imports, dropped))
        invariant forall j | i <= j < |scopes| :: scopes[j] == old(scopes)[j]
      {
        scopes := scopes[i := scopes[i].(imports := CleanImports(scopes[i].imports, dropped))];
      }
    }

    method DropSymbols(symbols: seq<DroppedSymbol>)
      requires View().Ok()
      modifies `scopes
      ensures View() == Called(old(View()), DoDropSymbols(symbols)) && View().Ok()
    {
      CallOk(View(), DoDropSymbols(symbols));
      if symbols == [] { return; }
      DropLocalsAndOwners(symbols);
      DropImports(IdsOf(symbols));
      assert scopes == ScopeDrops.DropSymbols(old(View()).tree, symbols).scopes;
    }

    method InsertToken(e: Entry, file: PathId)
      requires View().Ok()
      modifies this
      ensures View() == Called(old(View()), DoInsertToken(e, file)) && View().Ok()
    {
      CallOk(View(), DoInsertToken(e, file));
      var scope := InternNamespace(e.namespace.paths);
      tokenScopes := tokenScopes[e.token := TokenScope(scope, e.namespace.defineContext, file)];
    }

    method DropTokens(file: PathId, project: Option<string>)
      requires View().Ok()
      modifies `tokenScopes
      ensures View() == Called(old(View()), DoDropTokens(file, project)) && View().Ok()
    {
      CallOk(View(), DoDropTokens(file, project));
      var a := Tokens(Tree(scopes, intern), tokenScopes);
      var left := tokenScopes.Keys;
      var targets: set<TokenId> := {};
      while left != {}
        invariant left <= a.scopes.Keys && View() == old(View())
        invariant forall t :: t in targets <==> t in a.scopes && t !in left && a.scopes[t].file == file && InProject(a, t, project)
      {
        var t :| t in left;
        left := left - {t};
        if a.scopes[t].file == file {
          var name := ProjectName(a.scopes[t].scope);
          if project.None? || name == Some(Canonical(project.value)) { targets := targets + {t}; }
        }
      }
      tokenScopes := tokenScopes - targets;
      assert tokenScopes == ScopeTokens.DropTokens(a, file, project).scopes;
    }

    /** Up to the child of the root. */
    method ProjectName(scope: nat) returns (r: Option<string>)
      requires View().Ok() && scope < |scopes|
      ensures r == ProjectOf(View().tree, scope)
    {
      var t := Tree(scopes, intern);
      var id: nat := scope;
      while true
        invariant id < |scopes| && ProjectOf(t, scope) == ProjectOf(t, id)
        decreases id
      {
        if id == 0 { return None; }
        assert t.HasPlace(id);
        var parent := scopes[id].parent.value;
        if parent == 0 {
          assert NamePath(t, id) == [scopes[id].name.value];
          return scopes[id].name;
        }
        OnlyRootIsUnnamed(t, parent);
        id := parent;
      }
    }

    /** The file's tokens, collected in any order and sorted by id. */
    method ExportTokensByPath(file: PathId) returns (entries: seq<Entry>)
      requires View().Ok()
      ensures IsTokenExport(Tokens(View().tree, tokenScopes), file, entries)
    {
      var a := Tokens(Tree(scopes, intern), tokenScopes);
      var left := tokenScopes.Keys;
      var found: seq<Entry> := [];
      while left != {}
        invariant left <= a.scopes.Keys
        invariant DistinctTokens(found)
        invariant forall e | e in found :: IsEntryOf(a, file, e) && e.token !in left
        invariant forall t | t in a.scopes && t !in left && a.scopes[t].file == file :: EntryFor(found, t)
      {
        var t :| t in left;
        left := left - {t};
        if a.scopes[t].file == file {
          var path := NamePathOf(a.scopes[t].scope);
          var e := Entry(t, Namespace(path, a.scopes[t].defineContext));
          EntryForExtends(found, e);
          found := found + [e];
        }
      }
      entries := InOrder(TokenLess, found);
      SortedExport(a, file, found, entries);
    }

    method NamePathOf(scope: nat) returns (path: seq<string>)
      requires View().Ok() && scope < |scopes|
      ensures path == NamePath(View().tree, scope)
    {
      var t := Tree(scopes, intern);
      // Collected from the scope upward, the other way round.
      path := [];
      var id: nat := scope;
      while id != 0
        invariant id < |scopes| && NamePath(t, scope) == NamePath(t, id) + path
      {
        assert t.HasPlace(id);
        path := [scopes[id].name.value] + path;
        id := scopes[id].parent.value;
      }
    }

    method IsImported(namespace: Namespace, q: Query) returns (r: bool)
      requires View().Ok() && namespace.defineContext == q.defineContext
      requires var interned := InternPath(View().tree, 0, namespace.paths);
        GoesRound(interned.0, genericDelegations, interned.1) ==> Sees(interned.0, genericDelegations, interned.1, q)
      modifies this
      ensures View() == Called(old(View()), DoInternNamespace(namespace.paths)) && View().Ok()
      ensures r <==> Sees(View().tree, genericDelegations, InternPath(old(View()).tree, 0, namespace.paths).1, q)
    {
      var start := InternNamespace(namespace.paths);
      r := WalkOutward(Tree(scopes, intern), genericDelegations, start, q);
    }

    method RegisterGenericInstance(enclosing: nat, baseName: string, mangledName: string) returns (instance: nat)
      requires View().Ok() && enclosing < |scopes|
      modifies this
      ensures View() == Called(old(View()), DoRegisterGenericInstance(enclosing, baseName, mangledName)) && View().Ok()
      ensures instance == ScopeDelegations.RegisterGenericInstance(old(View()).tree, old(View()).delegations, enclosing, baseName, mangledName).2
    {
      CallOk(View(), DoRegisterGenericInstance(enclosing, baseName, mangledName));
      instance := InternChild(enclosing, mangledName, GenericInstance);
      var base := InternChild(enclosing, baseName, Unknown);
      genericDelegations := genericDelegations[instance := base];
    }

    method RegisterGenericChild(instance: nat, name: string, baseInner: nat) returns (child: nat)
      requires View().Ok() && Allowed(View(), DoRegisterGenericChild(instance, name, baseInner))
      modifies this
      ensures View() == Called(old(View()), DoRegisterGenericChild(instance, name, baseInner)) && View().Ok()
      ensures child == ScopeDelegations.RegisterGenericChild(old(View()).tree, old(View()).delegations, instance, name, baseInner).2
    {
      CallOk(View(), DoRegisterGenericChild(instance, name, baseInner));
      child := InternChild(instance, name, GenericInstance);
      genericDelegations := genericDelegations[child := baseInner];
    }
  }

  // ---- Sorting an export ----

  predicate TokenLess(e: Entry, f: Entry) {
    e.token < f.token
  }

  predicate EntryFor(entries: seq<Entry>, t: TokenId) {
    exists e | e in entries :: e.token == t
  }

  lemma EntryForExtends(entries: seq<Entry>, e: Entry)
    ensures forall t | EntryFor(entries, t) :: EntryFor(entries + [e], t)
    ensures EntryFor(entries + [e], e.token)
  {
    assert forall f | f in entries :: f in entries + [e];
    assert e in entries + [e];
  }

  /** Sorting distinct tokens gives strictly ascending ones. */
  lemma SortedExport(a: Tokens, file: PathId, found: seq<Entry>, entries: seq<Entry>)
    requires a.Ok() && DistinctTokens(found) && entries == InOrder(TokenLess, found)
    requires forall e | e in found :: IsEntryOf(a, file, e)
    requires forall t | t in a.scopes && a.scopes[t].file == file :: EntryFor(found, t)
    ensures IsTokenExport(a, file, entries)
  {
    InOrderIsSorted(TokenLess, found);
    SameElements(entries, found);
    PermutedStaysDistinct((e: Entry) => e.token, found, entries);
    assert forall i, j | 0 <= i < j < |entries| :: entries[i].token != entries[j].token && !TokenLess(entries[j], entries[i]);
    forall i | 0 <= i < |entries| ensures IsEntryOf(a, file, entries[i]) { assert entries[i] in entries; }
    forall t | t in a.scopes && a.scopes[t].file == file ensures exists i :: 0 <= i < |entries| && entries[i].token == t {
      var e :| e in found && e.token == t;
      assert e in entries;
    }
  }
}
