/** What the operations on the DAGs leave in them: which way each dependency goes. */
module DependencyRuns {
  import opened Options
  import opened SourceTokens
  import opened Digraph
  import opened TopologicalOrders
  import opened TypeDagModel
  import opened FileQueries

  // ---- One dependency between two nodes ----

  /** Modules, interfaces and functions may refer to themselves, packages when not recursively. */
  predicate SelfAllowed(context: Context, recursiveRef: bool) {
    context.Module? || context.Interface? || context.Function? || (context.Package? && !recursiveRef)
  }

  /**
   * `user` depends on `base`: an edge leads from `base` to `user`. Or else it was refused, because
   * `user` reaches `base` already: that is an error that names both, or an allowed self-reference.
   */
  ghost predicate Settled(d: Dags, user: nat, base: nat, context: Context, recursiveRef: bool)
    requires user in d.symbols && base in d.symbols
  {
    || (base, user) in d.edges
    || (Reaches(d.edges, user, base)
        && (CyclicType(d.symbols[base], d.symbols[user]) in d.reported || (user == base && SelfAllowed(context, recursiveRef))))
  }

  /** `after` has at most the dependency of `user` on `base` more, and its file edge. */
  ghost predicate AddsAtMost(d: Dags, after: Dags, user: nat, base: nat) {
    && after.nodes == d.nodes && after.symbols == d.symbols && after.owned == d.owned && after.files == d.files && after.fileNodes == d.fileNodes
    && d.edges <= after.edges <= d.edges + {(base, user)}
    && (forall e | e in after.fileEdges - d.fileEdges :: d.Placed() && d.CrossesFiles((base, user)) && e == d.FileEdgeOf((base, user)))
    && d.fileEdges <= after.fileEdges && d.errors <= after.errors && d.reported <= after.reported && |after.errors| <= |d.errors| + 1
  }

  lemma AcceptedAdds(d: Dags, user: nat, base: nat)
    requires d.Ok() && user in d.symbols && base in d.symbols
    ensures var (more, r) := d.(edges := d.edges + {(base, user)}).WithFileEdge((base, user));
      AddsAtMost(d, more.Recording(r), user, base) && (base, user) in more.Recording(r).edges
  {
    d.SamePlaces(d.(edges := d.edges + {(base, user)}), (base, user));
  }

  lemma RefusedAdds(d: Dags, user: nat, base: nat, error: DagError)
    ensures AddsAtMost(d, d.Recording(Err(error)), user, base) && AddsAtMost(d, d, user, base)
  {
  }

  lemma DependencySettled(d: Dags, user: nat, base: nat, context: Context, recursiveRef: bool)
    requires d.Ok() && user in d.symbols && base in d.symbols
    ensures var after := d.WithDependency(user, base, context, recursiveRef);
      after.Ok() && AddsAtMost(d, after, user, base) && Settled(after, user, base, context, recursiveRef)
  {
    d.WithDependencyOk(user, base, context, recursiveRef);
    if (base, user) in d.edges || Reaches(d.edges, user, base) {
      RefusedAdds(d, user, base, CyclicType(d.symbols[base], d.symbols[user]));
    } else {
      AcceptedAdds(d, user, base);
    }
  }

  /**
   * No error is recorded exactly if the edge was there before, or is an allowed self-reference, or
   * both it and its file edge are there now.
   */
  lemma DependencyErrorsIff(d: Dags, user: nat, base: nat, context: Context, recursiveRef: bool)
    requires d.Ok() && user in d.symbols && base in d.symbols
    ensures var after := d.WithDependency(user, base, context, recursiveRef);
      after.errors == d.errors <==>
        || (base, user) in d.edges
        || (user == base && SelfAllowed(context, recursiveRef))
        || ((base, user) in after.edges && (d.CrossesFiles((base, user)) ==> d.FileEdgeOf((base, user)) in after.fileEdges))
  {
    if (base, user) !in d.edges {
      if Reaches(d.edges, user, base) {
        RefusedErrors(d, user, base, context, recursiveRef);
      } else {
        AcceptedErrors(d, user, base);
      }
    }
  }

  lemma RefusedErrors(d: Dags, user: nat, base: nat, context: Context, recursiveRef: bool)
    requires d.Ok() && user in d.symbols && base in d.symbols && (base, user) !in d.edges && Reaches(d.edges, user, base)
    ensures var after := d.WithDependency(user, base, context, recursiveRef);
      after.edges == d.edges && (after.errors == d.errors <==> user == base && SelfAllowed(context, recursiveRef))
  {
  }

  lemma AcceptedErrors(d: Dags, user: nat, base: nat)
    requires d.Ok() && user in d.symbols && base in d.symbols && !Reaches(d.edges, user, base)
    ensures var (more, r) := d.(edges := d.edges + {(base, user)}).WithFileEdge((base, user)); var after := more.Recording(r);
      && user != base && (base, user) in after.edges
      && (after.errors == d.errors <==> (d.CrossesFiles((base, user)) ==> d.FileEdgeOf((base, user)) in after.fileEdges))
  {
    ReachesSelf(d.edges, user);
    d.SamePlaces(d.(edges := d.edges + {(base, user)}), (base, user));
  }

  // ---- The operations, on symbols ----

  predicate Has(d: Dags, s: Symbol) {
    s.id in d.nodes && d.nodes[s.id] in d.symbols
  }

  ghost predicate DependencySettledFor(d: Dags, user: Symbol, base: Symbol, context: Context, recursiveRef: bool) {
    Has(d, user) && Has(d, base) && Settled(d, d.nodes[user.id], d.nodes[base.id], context, recursiveRef)
  }

  predicate OwnsSymbol(d: Dags, owner: Symbol, child: Symbol) {
    owner.id in d.nodes && child.id in d.nodes && d.Owns(d.nodes[owner.id], d.nodes[child.id])
  }

  lemma UseSettled(d: Dags, node: nat, base: nat, context: Context, recursiveRef: bool)
    requires d.Ok() && node in d.symbols && base in d.symbols
    ensures var after := d.WithUse(node, base, context, recursiveRef);
      && after.nodes == d.nodes && after.symbols == d.symbols
      && (after.Owns(node, base) || Settled(after, node, base, context, recursiveRef))
  {
    DependencySettled(d, node, base, context, recursiveRef);
  }

  lemma ReferenceUses(d: Dags, parent: Symbol, context: Context, base: Symbol, recursiveRef: bool)
    requires d.Ok() && parent.IsDagSymbol() && base.IsDagSymbol()
    ensures var between := d.WithSymbol(base).WithSymbol(parent);
      && between.Ok() && Has(between, parent) && Has(between, base)
      && Applied(d, Refer(parent, context, base, recursiveRef))
         == between.WithUse(between.nodes[parent.id], between.nodes[base.id], context, recursiveRef)
  {
    d.WithSymbolsOk(base, parent);
  }

  /** After a reference between two DAG symbols the referrer depends on what it refers to, unless it owns it. */
  lemma ReferSettles(d: Dags, parent: Symbol, context: Context, base: Symbol, recursiveRef: bool)
    requires d.Ok() && parent.IsDagSymbol() && base.IsDagSymbol()
    ensures var after := Applied(d, Refer(parent, context, base, recursiveRef));
      OwnsSymbol(after, parent, base) || DependencySettledFor(after, parent, base, context, recursiveRef)
  {
    ReferenceUses(d, parent, context, base, recursiveRef);
    var between := d.WithSymbol(base).WithSymbol(parent);
    UseSettled(between, between.nodes[parent.id], between.nodes[base.id], context, recursiveRef);
  }

  /** After an import the declaration depends on what it imports. */
  lemma DependSettles(d: Dags, dependent: Symbol, on: Symbol, context: Context)
    requires d.Ok() && dependent.IsDagSymbol() && on.IsDagSymbol()
    ensures var after := Applied(d, Depend(dependent, on, context));
      DependencySettledFor(after, dependent, on, context, false)
  {
    d.WithSymbolsOk(dependent, on);
    var between := d.WithSymbol(dependent).WithSymbol(on);
    DependencySettled(between, between.nodes[dependent.id], between.nodes[on.id], context, false);
  }

  /** After a declaration it depends on the declaration it is written in, which owns it and does not depend on it. */
  lemma DeclareSettles(d: Dags, symbol: Symbol, parent: Symbol, context: Context)
    requires d.Ok() && symbol.IsDagSymbol() && parent.IsDagSymbol()
    ensures var after := Applied(d, Declare(symbol, Some((parent, context))));
      && DependencySettledFor(after, symbol, parent, context, false) && OwnsSymbol(after, parent, symbol)
      && (after.nodes[symbol.id], after.nodes[parent.id]) !in after.edges
  {
    d.WithSymbolOk(symbol);
    d.WithSymbolsOk(symbol, parent);
    var between := d.WithSymbol(symbol).WithSymbol(parent);
    var node, parentNode := between.nodes[symbol.id], between.nodes[parent.id];
    between.WithOwnedOk(parentNode, node);
    OwnedSettled(between.WithOwned(parentNode, node), node, parentNode, context);
  }

  lemma OwnedSettled(d: Dags, node: nat, parent: nat, context: Context)
    requires d.Ok() && node in d.symbols && parent in d.symbols && d.Owns(parent, node) && (node, parent) !in d.edges
    ensures var after := d.WithDependency(node, parent, context, false);
      && AddsAtMost(d, after, node, parent) && Settled(after, node, parent, context, false)
      && after.Owns(parent, node) && (node, parent) !in after.edges
  {
    DependencySettled(d, node, parent, context, false);
    var after := d.WithDependency(node, parent, context, false);
    NoLoop(after.edges, node);
  }

  // ---- Runs ----

  /** Nothing is forgotten but symbol edges and errors handed out. */
  ghost predicate Grows(d: Dags, after: Dags) {
    && (forall id | id in d.nodes :: id in after.nodes && after.nodes[id] == d.nodes[id])
    && (forall n | n in d.symbols :: n in after.symbols && after.symbols[n] == d.symbols[n])
    && (forall f | f in d.fileNodes :: f in after.fileNodes && after.fileNodes[f] == d.fileNodes[f])
    && d.fileEdges <= after.fileEdges && d.reported <= after.reported
  }

  lemma GrowsTransitive(d: Dags, between: Dags, after: Dags)
    requires Grows(d, between) && Grows(between, after)
    ensures Grows(d, after)
  {
  }

  lemma SymbolGrows(d: Dags, s: Symbol)
    requires d.Ok()
    ensures d.WithSymbol(s).Ok() && Grows(d, d.WithSymbol(s))
  {
    d.WithSymbolOk(s);
  }

  lemma SymbolsGrow(d: Dags, first: Symbol, second: Symbol)
    requires d.Ok()
    ensures var after := d.WithSymbol(first).WithSymbol(second);
      && after.Ok() && Grows(d, after) && Grows(d, d.WithSymbol(first)) && d.WithSymbol(first).Ok()
      && (first.IsDagSymbol() ==> Has(after, first)) && (second.IsDagSymbol() ==> Has(after, second))
  {
    SymbolGrows(d, first);
    SymbolGrows(d.WithSymbol(first), second);
    GrowsTransitive(d, d.WithSymbol(first), d.WithSymbol(first).WithSymbol(second));
    d.WithSymbolsOk(first, second);
  }

  lemma DependencyGrows(d: Dags, user: nat, base: nat, context: Context, recursiveRef: bool)
    requires d.Ok() && user in d.symbols && base in d.symbols
    ensures Grows(d, d.WithDependency(user, base, context, recursiveRef))
  {
    DependencySettled(d, user, base, context, recursiveRef);
  }

  lemma DeclareGrows(d: Dags, symbol: Symbol, parent: Symbol, context: Context)
    requires d.Ok() && symbol.IsDagSymbol() && parent.IsDagSymbol()
    ensures Grows(d, d.WithDeclaration(symbol, Some((parent, context))))
  {
    SymbolsGrow(d, symbol, parent);
    var between := d.WithSymbol(symbol).WithSymbol(parent);
    OwnedGrows(between, between.nodes[symbol.id], between.nodes[parent.id], context);
    GrowsTransitive(d, between, d.WithDeclaration(symbol, Some((parent, context))));
  }

  lemma OwnedGrows(d: Dags, node: nat, parent: nat, context: Context)
    requires d.Ok() && node in d.symbols && parent in d.symbols
    ensures d.WithOwned(parent, node).Ok() && Grows(d, d.WithOwned(parent, node).WithDependency(node, parent, context, false))
  {
    d.WithOwnedOk(parent, node);
    var owning := d.WithOwned(parent, node);
    DependencyGrows(owning, node, parent, context, false);
    GrowsTransitive(d, owning, owning.WithDependency(node, parent, context, false));
  }

  lemma UseGrows(d: Dags, node: nat, base: nat, context: Context, recursiveRef: bool)
    requires d.Ok() && node in d.symbols && base in d.symbols
    ensures Grows(d, d.WithUse(node, base, context, recursiveRef))
  {
    DependencyGrows(d, node, base, context, recursiveRef);
  }

  lemma ReferGrows(d: Dags, parent: Symbol, context: Context, base: Symbol, recursiveRef: bool)
    requires d.Ok()
    ensures Grows(d, d.WithReference(parent, context, base, recursiveRef))
  {
    SymbolsGrow(d, base, parent);
    if base.IsDagSymbol() && parent.IsDagSymbol() {
      var between := d.WithSymbol(base).WithSymbol(parent);
      var node, baseNode := between.nodes[parent.id], between.nodes[base.id];
      ReferenceUses(d, parent, context, base, recursiveRef);
      UseGrows(between, node, baseNode, context, recursiveRef);
      GrowsTransitive(d, between, between.WithUse(node, baseNode, context, recursiveRef));
    }
  }

  lemma DependGrows(d: Dags, dependent: Symbol, on: Symbol, context: Context)
    requires d.Ok()
    ensures Grows(d, Applied(d, Depend(dependent, on, context)))
  {
    SymbolsGrow(d, dependent, on);
    if dependent.IsDagSymbol() && on.IsDagSymbol() {
      var between := d.WithSymbol(dependent).WithSymbol(on);
      DependencyGrows(between, between.nodes[dependent.id], between.nodes[on.id], context, false);
      GrowsTransitive(d, between, Applied(d, Depend(dependent, on, context)));
    }
  }

  lemma AppliedGrows(d: Dags, op: Operation)
    requires d.Ok()
    ensures Grows(d, Applied(d, op))
  {
    match op
    case Declare(symbol, parent) =>
      if parent.Some? && symbol.IsDagSymbol() && parent.value.0.IsDagSymbol() {
        DeclareGrows(d, symbol, parent.value.0, parent.value.1);
      } else {
        SymbolGrows(d, symbol);
      }
    case Refer(parent, context, base, recursiveRef) => ReferGrows(d, parent, context, base, recursiveRef);
    case Depend(dependent, on, context) => DependGrows(d, dependent, on, context);
    case Mention(symbol) => SymbolGrows(d, symbol);
    case TakeErrors =>
  }

  lemma {:induction false} RunGrows(ops: seq<Operation>, k: nat)
    requires k <= |ops|
    ensures Grows(Run(ops[..k]), Run(ops))
  {
    if k == |ops| {
      assert ops[..k] == ops;
    } else {
      var front := ops[..|ops| - 1];
      assert front[..k] == ops[..k];
      RunGrows(front, k);
      AppliedGrows(Run(front), ops[|ops| - 1]);
      GrowsTransitive(Run(ops[..k]), Run(front), Run(ops));
    }
  }

  lemma RunStep(ops: seq<Operation>, k: nat)
    requires k < |ops|
    ensures Run(ops[..k + 1]) == Applied(Run(ops[..k]), ops[k])
  {
    assert ops[..k + 1][..k] == ops[..k];
  }

  // ---- The files of a dependency ----

  function FileOf(d: Dags, s: Symbol): Option<PathId>
    requires Has(d, s)
  {
    d.PathOf(d.nodes[s.id])
  }

  /** If the two are in different files, the file of `base` comes first. */
  ghost predicate FilesSettled(d: Dags, user: Symbol, base: Symbol) {
    && Has(d, user) && Has(d, base)
    && (FileOf(d, user).Some? && FileOf(d, base).Some? && FileOf(d, user) != FileOf(d, base) ==>
          (FileOf(d, base).value, FileOf(d, user).value) in FileDeps(d))
  }

  lemma SettledFiles(d: Dags, user: Symbol, base: Symbol, context: Context, recursiveRef: bool)
    requires d.Ok() && d.reported == {} && DependencySettledFor(d, user, base, context, recursiveRef)
    ensures FilesSettled(d, user, base)
  {
    var e := (d.nodes[base.id], d.nodes[user.id]);
    if FileOf(d, user).Some? && FileOf(d, base).Some? && FileOf(d, user) != FileOf(d, base) {
      assert e in d.edges && d.CrossesFiles(e);
      assert d.FileEdgeOf(e) in d.fileEdges;
    }
  }

  lemma FilesStaySettled(d: Dags, after: Dags, user: Symbol, base: Symbol)
    requires d.Ok() && after.Ok() && Grows(d, after) && FilesSettled(d, user, base)
    ensures FilesSettled(after, user, base)
  {
    assert FileOf(after, user) == FileOf(d, user) && FileOf(after, base) == FileOf(d, base);
    if FileOf(d, user).Some? && FileOf(d, base).Some? && FileOf(d, user) != FileOf(d, base) {
      var f, g := FileOf(d, base).value, FileOf(d, user).value;
      assert f in d.fileNodes && g in d.fileNodes;
      assert (d.fileNodes[f], d.fileNodes[g]) in d.fileEdges;
    }
  }

  /** The operation makes `user` depend on `base`, both being DAG symbols; a reference does not if `user` owns `base`. */
  ghost predicate Asks(d: Dags, op: Operation, user: Symbol, base: Symbol)
    requires d.Ok()
  {
    && user.IsDagSymbol() && base.IsDagSymbol()
    && match op
       case Declare(symbol, parent) => symbol == user && parent.Some? && parent.value.0 == base
       case Refer(parent, _, on, _) => parent == user && on == base && !OwnsSymbol(Applied(d, op), user, base)
       case Depend(dependent, on, _) => dependent == user && on == base
       case _ => false
  }

  lemma AskedIsSettled(d: Dags, op: Operation, user: Symbol, base: Symbol)
    requires d.Ok() && Asks(d, op, user, base)
    ensures exists context, recursiveRef :: DependencySettledFor(Applied(d, op), user, base, context, recursiveRef)
  {
    match op
    case Declare(symbol, parent) => DeclareSettles(d, symbol, base, parent.value.1);
    case Refer(parent, context, on, recursiveRef) => ReferSettles(d, parent, context, on, recursiveRef);
    case Depend(dependent, on, context) => DependSettles(d, dependent, on, context);
    case _ =>
  }

  lemma AskedFilesStaySettled(d: Dags, op: Operation, user: Symbol, base: Symbol, after: Dags)
    requires d.Ok() && Asks(d, op, user, base)
    requires after.Ok() && Grows(Applied(d, op), after) && after.reported == {}
    ensures FilesSettled(after, user, base)
  {
    AppliedOk(d, op);
    AskedIsSettled(d, op, user, base);
    var between := Applied(d, op);
    var context, recursiveRef :| DependencySettledFor(between, user, base, context, recursiveRef);
    SettledFiles(between, user, base, context, recursiveRef);
    FilesStaySettled(between, after, user, base);
  }

  /** In a run without an error, whatever it asked for shows in the files. */
  lemma AskedFilesAreSettled(ops: seq<Operation>, k: nat, user: Symbol, base: Symbol)
    requires k < |ops| && Asks(Run(ops[..k]), ops[k], user, base) && Run(ops).reported == {}
    ensures FilesSettled(Run(ops), user, base)
  {
    RunStep(ops, k);
    RunGrows(ops, k + 1);
    AskedFilesStaySettled(Run(ops[..k]), ops[k], user, base, Run(ops));
  }

  /** So the file of a symbol comes before the files of all that refer to it, import it or are written in it, and is required by them. */
  lemma ReferredFileComesFirst(ops: seq<Operation>, k: nat, user: Symbol, base: Symbol, ret: seq<PathId>, i: nat, j: nat)
    requires k < |ops| && Asks(Run(ops[..k]), ops[k], user, base) && Run(ops).reported == {}
    requires IsOrder(Run(ops).fileNodes.Keys, FileDeps(Run(ops)), ret) && i < |ret| && j < |ret| && ret[i] != ret[j]
    requires Has(Run(ops), base) && FileOf(Run(ops), base) == Some(ret[i])
    requires Has(Run(ops), user) && FileOf(Run(ops), user) == Some(ret[j])
    ensures i < j && DependsOn(Run(ops), ret[j], ret[i])
  {
    AskedFilesAreSettled(ops, k, user, base);
    var deps := FileDeps(Run(ops));
    assert (ret[i], ret[j]) in deps;
    ReachesSelf(deps, ret[j]);
    ReachesFromEdge(deps, ret[i], ret[j], ret[j]);
  }

  // ---- Every symbol is reached from the source ----

  ghost predicate Rooted(d: Dags) {
    forall n | n in d.symbols :: (SOURCE, n) in d.edges
  }

  lemma SymbolsAreRooted(d: Dags, first: Symbol, second: Symbol)
    requires Rooted(d)
    ensures Rooted(d.WithSymbol(first)) && Rooted(d.WithSymbol(first).WithSymbol(second))
  {
  }

  lemma DependencyIsRooted(d: Dags, user: nat, base: nat, context: Context, recursiveRef: bool)
    requires d.Ok() && Rooted(d) && user in d.symbols && base in d.symbols
    ensures Rooted(d.WithDependency(user, base, context, recursiveRef))
  {
    DependencySettled(d, user, base, context, recursiveRef);
  }

  lemma UseIsRooted(d: Dags, user: nat, base: nat, context: Context, recursiveRef: bool)
    requires d.Ok() && Rooted(d) && user in d.symbols && base in d.symbols
    ensures Rooted(d.WithUse(user, base, context, recursiveRef))
  {
    DependencyIsRooted(d, user, base, context, recursiveRef);
  }

  lemma OwnedIsRooted(d: Dags, node: nat, parent: nat, context: Context)
    requires d.Ok() && Rooted(d) && node in d.symbols && parent in d.symbols
    ensures d.WithOwned(parent, node).Ok() && Rooted(d.WithOwned(parent, node).WithDependency(node, parent, context, false))
  {
    d.WithOwnedOk(parent, node);
    DependencyIsRooted(d.WithOwned(parent, node), node, parent, context, false);
  }

  lemma DeclareIsRooted(d: Dags, symbol: Symbol, parent: Symbol, context: Context)
    requires d.Ok() && Rooted(d) && symbol.IsDagSymbol() && parent.IsDagSymbol()
    ensures Rooted(d.WithDeclaration(symbol, Some((parent, context))))
  {
    SymbolsAreRooted(d, symbol, parent);
    SymbolsGrow(d, symbol, parent);
    var between := d.WithSymbol(symbol).WithSymbol(parent);
    OwnedIsRooted(between, between.nodes[symbol.id], between.nodes[parent.id], context);
  }

  lemma ReferIsRooted(d: Dags, parent: Symbol, context: Context, base: Symbol, recursiveRef: bool)
    requires d.Ok() && Rooted(d)
    ensures Rooted(d.WithReference(parent, context, base, recursiveRef))
  {
    SymbolsAreRooted(d, base, parent);
    if base.IsDagSymbol() && parent.IsDagSymbol() {
      ReferenceUses(d, parent, context, base, recursiveRef);
      var between := d.WithSymbol(base).WithSymbol(parent);
      UseIsRooted(between, between.nodes[parent.id], between.nodes[base.id], context, recursiveRef);
    }
  }

  lemma DependIsRooted(d: Dags, dependent: Symbol, on: Symbol, context: Context)
    requires d.Ok() && Rooted(d)
    ensures Rooted(Applied(d, Depend(dependent, on, context)))
  {
    SymbolsAreRooted(d, dependent, on);
    SymbolsGrow(d, dependent, on);
    if dependent.IsDagSymbol() && on.IsDagSymbol() {
      var between := d.WithSymbol(dependent).WithSymbol(on);
      DependencyIsRooted(between, between.nodes[dependent.id], between.nodes[on.id], context, false);
    }
  }

  lemma AppliedIsRooted(d: Dags, op: Operation)
    requires d.Ok() && Rooted(d)
    ensures Rooted(Applied(d, op))
  {
    match op
    case Declare(symbol, parent) =>
      if parent.Some? && symbol.IsDagSymbol() && parent.value.0.IsDagSymbol() {
        DeclareIsRooted(d, symbol, parent.value.0, parent.value.1);
      } else {
        SymbolsAreRooted(d, symbol, symbol);
      }
    case Refer(parent, context, base, recursiveRef) => ReferIsRooted(d, parent, context, base, recursiveRef);
    case Depend(dependent, on, context) => DependIsRooted(d, dependent, on, context);
    case Mention(symbol) => SymbolsAreRooted(d, symbol, symbol);
    case TakeErrors =>
  }

  /** Whatever is inserted and removed, an edge leads from the source to every symbol. */
  lemma {:induction false} RunIsRooted(ops: seq<Operation>)
    ensures Rooted(Run(ops))
  {
    if ops != [] {
      RunIsRooted(ops[..|ops| - 1]);
      AppliedIsRooted(Run(ops[..|ops| - 1]), ops[|ops| - 1]);
    }
  }

  // ---- Nothing else is added ----

  /** The user and the base of the dependency an operation is about. */
  function PairOf(op: Operation): Option<(Symbol, Symbol)> {
    match op
    case Declare(symbol, parent) => if parent.Some? then Some((symbol, parent.value.0)) else None
    case Refer(parent, _, base, _) => Some((parent, base))
    case Depend(dependent, on, _) => Some((dependent, on))
    case _ => None
  }

  /** The edge from the base to the user. */
  ghost predicate IsEdgeOf(d: Dags, pair: Option<(Symbol, Symbol)>, e: (nat, nat)) {
    pair.Some? && Has(d, pair.value.0) && Has(d, pair.value.1) && e == (d.nodes[pair.value.1.id], d.nodes[pair.value.0.id])
  }

  /** The edge from the file of the base to the file of the user. */
  ghost predicate IsFileEdgeOf(d: Dags, pair: Option<(Symbol, Symbol)>, e: (nat, nat)) {
    && pair.Some? && Has(d, pair.value.0) && Has(d, pair.value.1)
    && var f, g := FileOf(d, pair.value.1), FileOf(d, pair.value.0);
       f.Some? && g.Some? && f != g && f.value in d.fileNodes && g.value in d.fileNodes && e == (d.fileNodes[f.value], d.fileNodes[g.value])
  }

  /** New edges come from the source or are the dependency, new file edges are its file edge. */
  ghost predicate AddsOnly(d: Dags, after: Dags, pair: Option<(Symbol, Symbol)>) {
    && (forall e | e in after.edges && e !in d.edges :: e.0 == SOURCE || IsEdgeOf(after, pair, e))
    && (forall e | e in after.fileEdges && e !in d.fileEdges :: IsFileEdgeOf(after, pair, e))
  }

  lemma SymbolsAddOnly(d: Dags, first: Symbol, second: Symbol)
    ensures AddsOnly(d, d.WithSymbol(first), None) && AddsOnly(d, d.WithSymbol(first).WithSymbol(second), None)
  {
  }

  lemma DependencyAddsOnly(d: Dags, between: Dags, user: Symbol, base: Symbol, context: Context, recursiveRef: bool)
    requires AddsOnly(d, between, None) && between.Ok() && Has(between, user) && Has(between, base)
    ensures AddsOnly(d, between.WithDependency(between.nodes[user.id], between.nodes[base.id], context, recursiveRef), Some((user, base)))
  {
    var node, baseNode := between.nodes[user.id], between.nodes[base.id];
    DependencySettled(between, node, baseNode, context, recursiveRef);
    var after := between.WithDependency(node, baseNode, context, recursiveRef);
    forall e | e in after.edges && e !in d.edges ensures e.0 == SOURCE || IsEdgeOf(after, Some((user, base)), e) {
      if e in between.edges { assert e.0 == SOURCE; }
    }
    forall e | e in after.fileEdges && e !in d.fileEdges ensures IsFileEdgeOf(after, Some((user, base)), e) {
      assert e in after.fileEdges - between.fileEdges;
      assert after.PathOf(node) == between.PathOf(node) && after.PathOf(baseNode) == between.PathOf(baseNode);
    }
  }

  lemma UseAddsOnly(d: Dags, between: Dags, user: Symbol, base: Symbol, context: Context, recursiveRef: bool)
    requires AddsOnly(d, between, None) && between.Ok() && Has(between, user) && Has(between, base)
    ensures AddsOnly(d, between.WithUse(between.nodes[user.id], between.nodes[base.id], context, recursiveRef), Some((user, base)))
  {
    DependencyAddsOnly(d, between, user, base, context, recursiveRef);
  }

  lemma DeclareAddsOnly(d: Dags, symbol: Symbol, parent: Symbol, context: Context)
    requires d.Ok() && symbol.IsDagSymbol() && parent.IsDagSymbol()
    ensures AddsOnly(d, d.WithDeclaration(symbol, Some((parent, context))), Some((symbol, parent)))
  {
    SymbolsGrow(d, symbol, parent);
    SymbolsAddOnly(d, symbol, parent);
    var between := d.WithSymbol(symbol).WithSymbol(parent);
    between.WithOwnedOk(between.nodes[parent.id], between.nodes[symbol.id]);
    DependencyAddsOnly(d, between.WithOwned(between.nodes[parent.id], between.nodes[symbol.id]), symbol, parent, context, false);
  }

  lemma ReferAddsOnly(d: Dags, parent: Symbol, context: Context, base: Symbol, recursiveRef: bool)
    requires d.Ok()
    ensures AddsOnly(d, d.WithReference(parent, context, base, recursiveRef), Some((parent, base)))
  {
    SymbolsGrow(d, base, parent);
    SymbolsAddOnly(d, base, parent);
    if base.IsDagSymbol() && parent.IsDagSymbol() {
      ReferenceUses(d, parent, context, base, recursiveRef);
      UseAddsOnly(d, d.WithSymbol(base).WithSymbol(parent), parent, base, context, recursiveRef);
    }
  }

  lemma DependAddsOnly(d: Dags, dependent: Symbol, on: Symbol, context: Context)
    requires d.Ok()
    ensures AddsOnly(d, Applied(d, Depend(dependent, on, context)), Some((dependent, on)))
  {
    SymbolsGrow(d, dependent, on);
    SymbolsAddOnly(d, dependent, on);
    if dependent.IsDagSymbol() && on.IsDagSymbol() {
      DependencyAddsOnly(d, d.WithSymbol(dependent).WithSymbol(on), dependent, on, context, false);
    }
  }

  /** An operation adds no edge but its own dependency, edges from the source to new nodes, and the file edge of the dependency. */
  lemma AppliedAddsOnly(d: Dags, op: Operation)
    requires d.Ok()
    ensures AddsOnly(d, Applied(d, op), PairOf(op))
  {
    match op
    case Declare(symbol, parent) =>
      if parent.Some? && symbol.IsDagSymbol() && parent.value.0.IsDagSymbol() {
        DeclareAddsOnly(d, symbol, parent.value.0, parent.value.1);
      } else {
        SymbolsAddOnly(d, symbol, symbol);
      }
    case Refer(parent, context, base, recursiveRef) => ReferAddsOnly(d, parent, context, base, recursiveRef);
    case Depend(dependent, on, context) => DependAddsOnly(d, dependent, on, context);
    case Mention(symbol) => SymbolsAddOnly(d, symbol, symbol);
    case TakeErrors =>
  }
}
