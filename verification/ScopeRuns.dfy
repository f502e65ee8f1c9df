/** Whole runs of the scope arena: when every walk outward ends, and when every drop is clean. */
module ScopeRuns {
  import opened Digraph
  import opened SourceTokens
  import opened ScopeTree
  import opened ScopeDelegations
  import opened ScopeCycles
  import opened ScopeImports
  import opened ScopeDrops
  import opened ScopeArenas

  // ---- Walks ----

  function StepsOf(a: Arena): set<(nat, nat)> {
    Steps(a.tree, a.delegations)
  }

  /** Giving the child of that name the kind makes a container passable that the walk outward comes back to. */
  ghost predicate InterningOpens(t: Tree, d: Delegations, parent: nat, name: string, kind: ScopeKind)
    requires t.Ok() && parent < |t.scopes|
  {
    var r := InternChild(t, parent, name, Unknown);
    kind != Unknown && KindOpens(r.0, d, r.1, kind)
  }

  /** The call closes a cycle of steps outward: by a delegation that comes back to itself, or by the kind it gives a container. */
  ghost predicate ClosesCycle(a: Arena, c: Call)
    requires a.Ok() && Allowed(a, c)
  {
    match c
    case DoRegisterGenericInstance(enclosing, baseName, mangledName) =>
      InstanceCloses(a.tree, a.delegations, enclosing, baseName, mangledName)
    case DoRegisterGenericChild(instance, name, baseInner) =>
      ChildCloses(a.tree, a.delegations, instance, name, baseInner)
    case DoInternChild(parent, name, kind) => InterningOpens(a.tree, a.delegations, parent, name, kind)
    case DoSetKindOwner(scope, kind, _) => kind != Unknown && KindOpens(a.tree, a.delegations, scope, kind)
    case _ => false
  }

  /** What a call that registers nothing does to the shape of the tree: it adds scopes, or keeps it. */
  lemma OthersKeepDelegations(a: Arena, c: Call)
    requires a.Ok() && Allowed(a, c) && !c.DoRegisterGenericInstance? && !c.DoRegisterGenericChild?
    ensures Called(a, c).delegations == a.delegations
    ensures Extends(a.tree, Called(a, c).tree)
    ensures c.DoInternChild? || c.DoSetKindOwner? || KeepsKinds(a.tree, Called(a, c).tree)
  {
    match c {
      case DoInternNamespace(path) => NewScopesAreBare(a.tree, 0, path);
      case DoInsertToken(e, _) => NewScopesAreBare(a.tree, 0, e.namespace.paths);
      case DoDropSymbols(symbols) => DropKeepsShape(a, symbols);
      case DoEnter(name) => InternedRekinded(a.tree, a.current, name, Unknown);
      case _ =>
    }
  }

  lemma InternedKeepsAcyclic(t: Tree, d: Delegations, parent: nat, name: string, kind: ScopeKind)
    requires t.Ok() && parent < |t.scopes| && Within(t, d) && Acyclic(Steps(t, d))
    ensures Acyclic(Steps(InternChild(t, parent, name, kind).0, d)) <==> !InterningOpens(t, d, parent, name, kind)
  {
    var plain, r := InternChild(t, parent, name, Unknown), InternChild(t, parent, name, kind);
    InternedRekinded(t, parent, name, kind);
    NewScopesKeepAcyclic(t, plain.0, d);
    if kind != Unknown { RekindedIff(plain.0, r.0, d, r.1); }
  }

  lemma SetKindKeepsAcyclic(a: Arena, scope: nat, kind: ScopeKind, owner: SymbolId)
    requires a.Ok() && scope < |a.tree.scopes| && Acyclic(StepsOf(a))
    ensures Acyclic(StepsOf(Called(a, DoSetKindOwner(scope, kind, owner))))
       <==> !(kind != Unknown && KindOpens(a.tree, a.delegations, scope, kind))
  {
    var after := Called(a, DoSetKindOwner(scope, kind, owner)).tree;
    assert Rekinded(a.tree, after, scope);
    RekindedIff(a.tree, after, a.delegations, scope);
  }

  /** A call leaves the steps outward without a cycle exactly unless it closes one. */
  lemma CallKeepsAcyclic(a: Arena, c: Call)
    requires a.Ok() && Allowed(a, c) && Acyclic(StepsOf(a))
    ensures Called(a, c).Ok() && (Acyclic(StepsOf(Called(a, c))) <==> !ClosesCycle(a, c))
  {
    CallOk(a, c);
    match c {
      case DoRegisterGenericInstance(enclosing, baseName, mangledName) =>
        RegisteredInstanceEndsIff(a.tree, a.delegations, enclosing, baseName, mangledName);
      case DoRegisterGenericChild(instance, name, baseInner) =>
        RegisteredChildEndsIff(a.tree, a.delegations, instance, name, baseInner);
      case DoInternChild(parent, name, kind) => InternedKeepsAcyclic(a.tree, a.delegations, parent, name, kind);
      case DoSetKindOwner(scope, kind, owner) => SetKindKeepsAcyclic(a, scope, kind, owner);
      case _ =>
        OthersKeepDelegations(a, c);
        NewScopesKeepAcyclic(a.tree, Called(a, c).tree, a.delegations);
    }
  }

  /** Call `k` of the run does not close a cycle. */
  ghost predicate StaysOpen(calls: seq<Call>, k: nat)
    requires k < |calls|
  {
    Allowed(Run(calls[..k]), calls[k]) ==> !ClosesCycle(Run(calls[..k]), calls[k])
  }

  ghost predicate NeverCloses(calls: seq<Call>) {
    forall k | 0 <= k < |calls| :: StaysOpen(calls, k)
  }

  ghost predicate AcyclicAfter(calls: seq<Call>, k: nat)
    requires k <= |calls|
  {
    Acyclic(StepsOf(Run(calls[..k])))
  }

  lemma RunStep(calls: seq<Call>, k: nat)
    requires k < |calls|
    ensures var before := Run(calls[..k]);
      Run(calls[..k + 1]) == if Allowed(before, calls[k]) then Called(before, calls[k]) else before
  {
    assert calls[..k + 1][..k] == calls[..k];
    if Allowed(Run(calls[..k]), calls[k]) { CallOk(Run(calls[..k]), calls[k]); }
  }

  lemma AcyclicStep(calls: seq<Call>, k: nat)
    requires k < |calls| && AcyclicAfter(calls, k)
    ensures AcyclicAfter(calls, k + 1) <==> StaysOpen(calls, k)
  {
    RunStep(calls, k);
    if Allowed(Run(calls[..k]), calls[k]) { CallKeepsAcyclic(Run(calls[..k]), calls[k]); }
  }

  lemma AcyclicAtFirst(calls: seq<Call>)
    ensures AcyclicAfter(calls, 0)
  {
    assert StepsOf(Run(calls[..0])) == {};
    NoEdgesAcyclic(StepsOf(Run(calls[..0])));
  }

  lemma {:induction false} OpenRunIsAcyclic(calls: seq<Call>, k: nat)
    requires NeverCloses(calls) && k <= |calls|
    ensures AcyclicAfter(calls, k)
  {
    if k == 0 {
      AcyclicAtFirst(calls);
    } else {
      OpenRunIsAcyclic(calls, k - 1);
      AcyclicStep(calls, k - 1);
    }
  }

  /** After `k` calls every walk outward ends. */
  ghost predicate WalksEndAfter(calls: seq<Call>, k: nat)
    requires k <= |calls|
  {
    var a := Run(calls[..k]);
    forall from: nat | from < |a.tree.scopes| :: !GoesRound(a.tree, a.delegations, from)
  }

  lemma WalksEndAfterIff(calls: seq<Call>, k: nat)
    requires k <= |calls|
    ensures WalksEndAfter(calls, k) <==> AcyclicAfter(calls, k)
  {
    WalksEndIffAcyclic(Run(calls[..k]).tree, Run(calls[..k]).delegations);
  }

  /** All walks end throughout a run exactly if none of its calls closes a cycle. */
  lemma WalksEndIffNeverCloses(calls: seq<Call>)
    ensures (forall k | 0 <= k <= |calls| :: WalksEndAfter(calls, k)) <==> NeverCloses(calls)
  {
    if NeverCloses(calls) {
      forall k | 0 <= k <= |calls| ensures WalksEndAfter(calls, k) {
        OpenRunIsAcyclic(calls, k);
        WalksEndAfterIff(calls, k);
      }
    } else {
      var k :| 0 <= k < |calls| && !StaysOpen(calls, k);
      WalksEndAfterIff(calls, k);
      WalksEndAfterIff(calls, k + 1);
      if AcyclicAfter(calls, k) { AcyclicStep(calls, k); }
    }
  }

  /** Then the walk ends from every namespace, too, interned or not. */
  lemma WalksOfRunEnd(calls: seq<Call>, namespace: seq<string>)
    requires NeverCloses(calls)
    ensures var a := Run(calls); var interned := InternPath(a.tree, 0, namespace);
      !GoesRound(interned.0, a.delegations, interned.1)
  {
    var a := Run(calls);
    var interned := InternPath(a.tree, 0, namespace);
    OpenRunIsAcyclic(calls, |calls|);
    assert calls[..|calls|] == calls;
    NewScopesAreBare(a.tree, 0, namespace);
    NewScopesKeepAcyclic(a.tree, interned.0, a.delegations);
    WalksEndIffAcyclic(interned.0, a.delegations);
  }

  /** The base scope of a generic child is as deep as the child. */
  ghost predicate RegistersLevel(a: Arena, c: Call)
    requires a.Ok() && Allowed(a, c)
  {
    c.DoRegisterGenericChild? ==> Depth(a.tree, c.baseInner) == Depth(a.tree, c.instance) + 1
  }

  /** A call keeps delegations level exactly if it registers level ones. */
  lemma CallKeepsLevel(a: Arena, c: Call)
    requires a.Ok() && Allowed(a, c) && DelegationsOk(a.tree, a.delegations)
    ensures Called(a, c).Ok() && (DelegationsOk(Called(a, c).tree, Called(a, c).delegations) <==> RegistersLevel(a, c))
  {
    CallOk(a, c);
    match c {
      case DoRegisterGenericInstance(enclosing, baseName, mangledName) =>
        RegisteredInstanceOk(a.tree, a.delegations, enclosing, baseName, mangledName);
      case DoRegisterGenericChild(instance, name, baseInner) =>
        RegisteredChildOk(a.tree, a.delegations, instance, name, baseInner);
      case _ =>
        OthersKeepDelegations(a, c);
        DelegationsStayOk(a.tree, Called(a, c).tree, a.delegations);
    }
  }

  ghost predicate LevelAt(calls: seq<Call>, k: nat)
    requires k < |calls|
  {
    Allowed(Run(calls[..k]), calls[k]) ==> RegistersLevel(Run(calls[..k]), calls[k])
  }

  ghost predicate LevelAfter(calls: seq<Call>, k: nat)
    requires k <= |calls|
  {
    DelegationsOk(Run(calls[..k]).tree, Run(calls[..k]).delegations)
  }

  lemma LevelStep(calls: seq<Call>, k: nat)
    requires k < |calls| && LevelAfter(calls, k)
    ensures LevelAfter(calls, k + 1) <==> LevelAt(calls, k)
  {
    RunStep(calls, k);
    if Allowed(Run(calls[..k]), calls[k]) { CallKeepsLevel(Run(calls[..k]), calls[k]); }
  }

  lemma LevelIsAcyclic(calls: seq<Call>, k: nat)
    requires k <= |calls| && LevelAfter(calls, k)
    ensures AcyclicAfter(calls, k)
  {
    NoDeeperIsAcyclic(Run(calls[..k]).tree, Run(calls[..k]).delegations);
  }

  lemma {:induction false} LevelUpTo(calls: seq<Call>, k: nat)
    requires k <= |calls| && forall j | 0 <= j < |calls| :: LevelAt(calls, j)
    ensures LevelAfter(calls, k)
  {
    if k > 0 {
      LevelUpTo(calls, k - 1);
      LevelStep(calls, k - 1);
    }
  }

  /** While generic children are registered level, delegations stay level and no call closes a cycle, whatever kinds it gives. */
  lemma LevelRunEnds(calls: seq<Call>)
    requires forall k | 0 <= k < |calls| :: LevelAt(calls, k)
    ensures NeverCloses(calls) && LevelAfter(calls, |calls|)
  {
    LevelUpTo(calls, |calls|);
    forall k | 0 <= k < |calls| ensures StaysOpen(calls, k) { LevelStaysOpen(calls, k); }
  }

  lemma LevelStaysOpen(calls: seq<Call>, k: nat)
    requires k < |calls| && forall j | 0 <= j < |calls| :: LevelAt(calls, j)
    ensures StaysOpen(calls, k)
  {
    LevelUpTo(calls, k);
    LevelUpTo(calls, k + 1);
    LevelIsAcyclic(calls, k);
    LevelIsAcyclic(calls, k + 1);
    AcyclicStep(calls, k);
  }

  // ---- Drops ----

  ghost predicate AllAtHome(t: Tree, homes: Homes) {
    forall i | 0 <= i < |t.scopes| :: AtHome(t, homes, i)
  }

  /** The call binds a symbol only where the symbol is registered. */
  predicate BindsAtHome(a: Arena, homes: Homes, c: Call) {
    match c
    case DoAddLocal(scope, name, symbol) => symbol in homes && homes[symbol] == (scope, Canonical(name))
    case DoSetKindOwner(scope, _, owner) => owner in homes && homes[owner] in a.tree.intern && a.tree.intern[homes[owner]] == scope
    case _ => true
  }

  lemma BareScopesAtHome(t: Tree, after: Tree, homes: Homes)
    requires AllAtHome(t, homes) && Extends(t, after) && BindsNothing(t, after)
    ensures AllAtHome(after, homes)
  {
    forall i | 0 <= i < |after.scopes| ensures AtHome(after, homes, i) {
      if i < |t.scopes| { assert AtHome(t, homes, i); }
    }
  }

  lemma DropKeepsHomes(a: Arena, homes: Homes, symbols: seq<DroppedSymbol>)
    requires a.Ok() && AllAtHome(a.tree, homes)
    ensures AllAtHome(DropSymbols(a.tree, symbols), homes)
  {
    if symbols != [] {
      var r := DropSymbols(a.tree, symbols);
      forall i | 0 <= i < |r.scopes| ensures AtHome(r, homes, i) {
        assert AtHome(a.tree, homes, i);
        DropEachElse(a.tree, symbols, i);
        forall n, x | n in r.scopes[i].locals && x in r.scopes[i].locals[n] ensures x in homes && homes[x] == (i, n) {
          DropEachLocals(a.tree, symbols, i, n);
          assert x in At(a.tree.scopes[i].locals, n);
        }
      }
    }
  }

  lemma BindKeepsHomes(a: Arena, homes: Homes, c: Call)
    requires a.Ok() && Allowed(a, c) && AllAtHome(a.tree, homes) && BindsAtHome(a, homes, c)
    requires c.DoAddLocal? || c.DoAddImport? || c.DoAddWildcard? || c.DoSetKindOwner?
    ensures AllAtHome(Called(a, c).tree, homes)
  {
    var r := Called(a, c).tree;
    forall i | 0 <= i < |r.scopes| ensures AtHome(r, homes, i) { assert AtHome(a.tree, homes, i); }
  }

  lemma CallKeepsHomes(a: Arena, homes: Homes, c: Call)
    requires a.Ok() && Allowed(a, c) && AllAtHome(a.tree, homes) && BindsAtHome(a, homes, c)
    ensures AllAtHome(Called(a, c).tree, homes)
  {
    match c {
      case DoDropSymbols(symbols) => DropKeepsHomes(a, homes, symbols);
      case DoAddLocal(_, _, _) => BindKeepsHomes(a, homes, c);
      case DoAddImport(_, _, _) => BindKeepsHomes(a, homes, c);
      case DoAddWildcard(_, _) => BindKeepsHomes(a, homes, c);
      case DoSetKindOwner(_, _, _) => BindKeepsHomes(a, homes, c);
      case DoExit =>
      case DoSetCurrent(_) =>
      case DoDropTokens(_, _) =>
      case _ =>
        AddsBareScopes(a, c);
        BareScopesAtHome(a.tree, Called(a, c).tree, homes);
    }
  }

  lemma AddsBareScopes(a: Arena, c: Call)
    requires a.Ok() && Allowed(a, c)
    requires c.DoInternChild? || c.DoInternNamespace? || c.DoEnter? || c.DoInsertToken? || c.DoRegisterGenericInstance? || c.DoRegisterGenericChild?
    ensures Extends(a.tree, Called(a, c).tree) && BindsNothing(a.tree, Called(a, c).tree)
  {
    match c {
      case DoInternNamespace(path) => NewScopesAreBare(a.tree, 0, path);
      case DoInsertToken(e, _) => NewScopesAreBare(a.tree, 0, e.namespace.paths);
      case _ =>
    }
  }

  /** Every call of the run binds at home. */
  ghost predicate AlwaysAtHome(homes: Homes, calls: seq<Call>) {
    forall k | 0 <= k < |calls| && Allowed(Run(calls[..k]), calls[k]) :: BindsAtHome(Run(calls[..k]), homes, calls[k])
  }

  lemma HomeStep(homes: Homes, calls: seq<Call>, k: nat)
    requires AlwaysAtHome(homes, calls) && k < |calls| && AllAtHome(Run(calls[..k]).tree, homes)
    ensures AllAtHome(Run(calls[..k + 1]).tree, homes)
  {
    RunStep(calls, k);
    if Allowed(Run(calls[..k]), calls[k]) { CallKeepsHomes(Run(calls[..k]), homes, calls[k]); }
  }

  lemma {:induction false} AtHomeAfter(homes: Homes, calls: seq<Call>, k: nat)
    requires AlwaysAtHome(homes, calls) && k <= |calls|
    ensures AllAtHome(Run(calls[..k]).tree, homes)
  {
    if k > 0 {
      AtHomeAfter(homes, calls, k - 1);
      HomeStep(homes, calls, k - 1);
    }
  }

  lemma RunIsAtHome(homes: Homes, calls: seq<Call>)
    requires AlwaysAtHome(homes, calls)
    ensures AllAtHome(Run(calls).tree, homes)
  {
    AtHomeAfter(homes, calls, |calls|);
    assert calls[..|calls|] == calls;
  }

  lemma DropsCleanly(a: Arena, homes: Homes, symbols: seq<DroppedSymbol>, i: nat)
    requires a.Ok() && AllAtHome(a.tree, homes) && KnowHomes(homes, symbols) && symbols != [] && i < |a.tree.scopes|
    ensures Called(a, DoDropSymbols(symbols)).tree.scopes[i] == Cleaned(a.tree.scopes[i], IdsOf(symbols))
  {
    assert AtHome(a.tree, homes, i) && NoEmptyLists(a.tree.scopes[i].locals);
    DropAtHomeIsClean(a.tree, homes, symbols, i);
  }

  /** After a run that binds symbols where they are registered, dropping leaves exactly the traces of the others. */
  lemma RunDropsCleanly(homes: Homes, calls: seq<Call>, symbols: seq<DroppedSymbol>, i: nat)
    requires AlwaysAtHome(homes, calls) && KnowHomes(homes, symbols) && symbols != [] && i < |Run(calls).tree.scopes|
    ensures Called(Run(calls), DoDropSymbols(symbols)).tree.scopes[i] == Cleaned(Run(calls).tree.scopes[i], IdsOf(symbols))
  {
    RunIsAtHome(homes, calls);
    DropsCleanly(Run(calls), homes, symbols, i);
  }
}
