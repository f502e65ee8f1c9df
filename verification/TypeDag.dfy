/** The symbol DAG and the file DAG kept in step with it. */
module TypeDagModel {
  import opened Options
  import opened SourceTokens
  import opened Strings
  import opened Digraph
  import opened TopologicalOrders

  datatype Context = Irrelevant | Struct | Union | Enum | Function | TypeDef | Const | Alias
                   | Module | Interface | Package | Modport | GenericInstance | Embed

  /** The kinds of symbols that the DAGs tell apart. */
  datatype SymbolKind =
    | Module(isProto: bool) | Interface(isProto: bool) | Package(isProto: bool) | Function(isProto: bool)
    | TypeDef(isProto: bool) | Parameter(isProto: bool, isConst: bool)
    | AliasModule | AliasInterface | AliasPackage | Modport | Enum | Struct | Union | Test | Embed | OtherKind

  datatype Symbol = Symbol(id: SymbolId, source: TokenSource, kind: SymbolKind) {
    /** Prototypes and variable parameters have no node, nor have symbols of other kinds. */
    predicate IsDagSymbol() {
      match kind
      case AliasModule | AliasInterface | Modport | AliasPackage | Enum | Struct | Union | Test | Embed => true
      case TypeDef(isProto) => !isProto
      case Module(isProto) => !isProto
      case Interface(isProto) => !isProto
      case Function(isProto) => !isProto
      case Package(isProto) => !isProto
      case Parameter(isProto, isConst) => !isProto && isConst
      case OtherKind => false
    }

    predicate IsContainer() {
      kind.Module? || kind.Interface? || kind.Package?
    }
  }

  datatype DagError =
    | CyclicType(start: Symbol, end: Symbol)
    | CyclicFile(start: Symbol, startFile: PathId, end: Symbol, endFile: PathId)

  datatype Inserted = Okay | Err(error: DagError)

  // ---- The key files are sorted by ----

  /** An opaque file goes last; ties fall back to the path, then to the node. */
  datatype SortKey = SortKey(opaqueFile: bool, path: string, node: nat) {
    predicate Less(other: SortKey) {
      if opaqueFile != other.opaqueFile then !opaqueFile
      else if path != other.path then StringLess(path, other.path)
      else node < other.node
    }
  }

  lemma KeysAreTotal(key: nat -> SortKey)
    requires forall n: nat :: key(n).node == n
    ensures StrictTotal((a: nat, b: nat) => key(a).Less(key(b)))
  {
    var less := (a: nat, b: nat) => key(a).Less(key(b));
    forall a: nat ensures !less(a, a) { }
    forall a: nat, b: nat ensures a == b || less(a, b) || less(b, a) {
      StringLessTotal(key(a).path, key(b).path);
    }
    forall a: nat, b: nat, c: nat | less(a, b) && less(b, c) ensures less(a, c) {
      var x, y, z := key(a).path, key(b).path, key(c).path;
      StringLessTotal(x, y);
      StringLessTotal(y, z);
      if StringLess(x, y) && StringLess(y, z) {
        StringLessTransitive(x, y, z);
        StringLessTotal(x, z);
      }
    }
  }

  // ---- The two DAGs as a value ----

  const SOURCE: nat := 0

  /** Nodes are numbered from 0; an edge goes from what is depended on to what depends on it.
      `fileNodes` and `files` are the two directions of one relation, and `reported` is every
      error recorded since the DAGs were empty, also those already handed out. */
  datatype Dags = Dags(nodeCount: nat, edges: set<(nat, nat)>, nodes: map<SymbolId, nat>, symbols: map<nat, Symbol>,
                       owned: map<nat, set<nat>>, errors: seq<DagError>, fileCount: nat, fileEdges: set<(nat, nat)>,
                       fileNodes: map<PathId, nat>, files: map<nat, PathId>, reported: set<DagError>)
  {
    /** Every edge ends at a symbol, and there is no cycle. */
    ghost predicate GraphOk() {
      && SOURCE < nodeCount
      && Acyclic(edges)
      && forall e | e in edges :: e.0 < nodeCount && SOURCE < e.1 < nodeCount
    }

    /** Every node but the source is one symbol. */
    ghost predicate SymbolsOk() {
      && (forall n: nat :: n in symbols <==> SOURCE < n < nodeCount)
      && (forall n | n in symbols :: symbols[n].id in nodes && nodes[symbols[n].id] == n)
      && forall id | id in nodes :: nodes[id] in symbols && symbols[nodes[id]].id == id
    }

    /** Every file node is one file, and there is no cycle. */
    ghost predicate FilesOk() {
      && Acyclic(fileEdges)
      && (forall e | e in fileEdges :: e.0 < fileCount && e.1 < fileCount)
      && (forall n: nat :: n in files <==> n < fileCount)
      && (forall n | n in files :: files[n] in fileNodes && fileNodes[files[n]] == n)
      && forall path | path in fileNodes :: fileNodes[path] in files && files[fileNodes[path]] == path
    }

    function PathOf(n: nat): Option<PathId> {
      if n in symbols then symbols[n].source.GetPath() else None
    }

    /** The file of every symbol has a node. */
    ghost predicate Placed() {
      forall n | n in symbols && PathOf(n).Some? :: PathOf(n).value in fileNodes
    }

    /** A symbol edge between two files. */
    ghost predicate CrossesFiles(e: (nat, nat)) {
      PathOf(e.0).Some? && PathOf(e.1).Some? && PathOf(e.0) != PathOf(e.1)
    }

    /** The file edge it asks for. */
    ghost function FileEdgeOf(e: (nat, nat)): (nat, nat)
      requires Placed() && CrossesFiles(e)
    {
      (fileNodes[PathOf(e.0).value], fileNodes[PathOf(e.1).value])
    }

    /** The error that says why it is not there. */
    ghost function FileErrorOf(e: (nat, nat)): DagError
      requires CrossesFiles(e)
    {
      CyclicFile(symbols[e.0], PathOf(e.0).value, symbols[e.1], PathOf(e.1).value)
    }

    /** Every symbol edge between two files has its file edge, or adding that closed a cycle and was reported. */
    ghost predicate InStep()
      requires Placed()
    {
      forall e | e in edges && CrossesFiles(e) :: FileEdgeOf(e) in fileEdges || FileErrorOf(e) in reported
    }

    ghost predicate Ok() {
      GraphOk() && SymbolsOk() && FilesOk() && Placed() && InStep() && forall x | x in errors :: x in reported
    }

    // The operations

    function WithFile(path: Option<PathId>): Dags {
      if path.None? || path.value in fileNodes then this
      else this.(fileCount := fileCount + 1, fileNodes := fileNodes[path.value := fileCount],
                 files := files[fileCount := path.value])
    }

    /** A symbol that is new gets a node, an edge from the source to it, and a node for its file. */
    function WithNode(symbol: Symbol): Dags {
      if symbol.id in nodes then this
      else WithFile(symbol.source.GetPath()).(
             nodeCount := nodeCount + 1, edges := edges + {(SOURCE, nodeCount)},
             nodes := nodes[symbol.id := nodeCount], symbols := symbols[nodeCount := symbol])
    }

    ghost function WithFileEdge(e: (nat, nat)): (result: (Dags, Inserted))
      requires Placed()
    {
      if !CrossesFiles(e) || FileEdgeOf(e) in fileEdges then (this, Okay)
      else if Reaches(fileEdges, FileEdgeOf(e).1, FileEdgeOf(e).0) then (this, Err(FileErrorOf(e)))
      else (this.(fileEdges := fileEdges + {FileEdgeOf(e)}), Okay)
    }

    /** An edge that would close a cycle is refused: an error, unless it is an allowed self-reference. */
    ghost function WithEdge(e: (nat, nat), context: Context, recursiveRef: bool): (result: (Dags, Inserted))
      requires Placed() && e.0 in symbols && e.1 in symbols
    {
      if !Reaches(edges, e.1, e.0) then this.(edges := edges + {e}).WithFileEdge(e)
      else if e.0 == e.1 && (context in {Context.Module, Context.Interface, Context.Function} || (context == Context.Package && !recursiveRef))
      then (this, Okay)
      else (this, Err(CyclicType(symbols[e.0], symbols[e.1])))
    }

    function Recording(r: Inserted): Dags {
      match r
      case Okay => this
      case Err(error) => this.(errors := errors + [error], reported := reported + {error})
    }

    /** Only some kinds of symbols are in the DAG. */
    function WithSymbol(symbol: Symbol): Dags {
      if symbol.IsDagSymbol() then WithNode(symbol) else this
    }

    /** `parent` depends on `child`; an edge that is there already is not added again. */
    ghost function WithDependency(parent: nat, child: nat, context: Context, recursiveRef: bool): Dags
      requires Placed() && parent in symbols && child in symbols
    {
      if (child, parent) in edges then this
      else
        var (d, r) := WithEdge((child, parent), context, recursiveRef);
        d.Recording(r)
    }

    /** `parent` owns `child`, and does not depend on it. */
    function WithOwned(parent: nat, child: nat): Dags {
      this.(edges := edges - {(child, parent)},
            owned := owned[parent := (if parent in owned then owned[parent] else {}) + {child}])
    }

    predicate Owns(parent: nat, child: nat) {
      parent in owned && child in owned[parent]
    }

    /** A declaration depends on the declaration it is written in. */
    ghost function WithDeclaration(symbol: Symbol, parent: Option<(Symbol, Context)>): Dags
      requires Ok()
    {
      var d := WithSymbol(symbol);
      if !symbol.IsDagSymbol() || parent.None? then d else
        var d := d.WithSymbol(parent.value.0);
        if !parent.value.0.IsDagSymbol() then d else
          WithSymbolsOk(symbol, parent.value.0);
          var node, parentNode := d.nodes[symbol.id], d.nodes[parent.value.0.id];
          var d := d.WithOwned(parentNode, node);
          d.WithDependency(node, parentNode, parent.value.1, false)
    }

    /** A reference makes `parent` depend on `base`, unless it owns it. */
    ghost function WithReference(parent: Symbol, context: Context, base: Symbol, recursiveRef: bool): Dags
      requires Ok()
    {
      var d := WithSymbol(base);
      if !base.IsDagSymbol() then d else
        var d := d.WithSymbol(parent);
        if !parent.IsDagSymbol() then d else
          WithSymbolsOk(base, parent);
          var node, baseNode := d.nodes[parent.id], d.nodes[base.id];
          d.WithUse(node, baseNode, context, recursiveRef)
    }

    /** What a node owns it need not depend on. */
    ghost function WithUse(node: nat, base: nat, context: Context, recursiveRef: bool): Dags
      requires Ok() && node in symbols && base in symbols
    {
      if Owns(node, base) then this else WithDependency(node, base, context, recursiveRef)
    }

    lemma WithUseOk(node: nat, base: nat, context: Context, recursiveRef: bool)
      requires Ok() && node in symbols && base in symbols
      ensures WithUse(node, base, context, recursiveRef).Ok()
    {
      WithDependencyOk(node, base, context, recursiveRef);
    }

    // What every operation keeps

    lemma WithFileOk(path: Option<PathId>)
      requires FilesOk()
      ensures WithFile(path).FilesOk() && (path.Some? ==> path.value in WithFile(path).fileNodes)
      ensures forall p | p in fileNodes :: p in WithFile(path).fileNodes && WithFile(path).fileNodes[p] == fileNodes[p]
    {
    }

    /** A node is counted before its symbol is entered. */
    lemma CountedNodeOk(path: Option<PathId>)
      requires Ok()
      ensures var d := WithFile(path).(nodeCount := nodeCount + 1);
              && d.GraphOk() && d.FilesOk() && d.Placed()
              && SOURCE !in d.symbols && nodeCount !in d.symbols
    {
      WithFileOk(path);
      var d := WithFile(path).(nodeCount := nodeCount + 1);
      assert forall n :: d.PathOf(n) == PathOf(n);
    }

    lemma WithNodeKeepsGraph(symbol: Symbol)
      requires GraphOk() && symbol.id !in nodes
      ensures WithNode(symbol).GraphOk()
    {
      AddEdgeKeepsAcyclic(edges, SOURCE, nodeCount);
      if Reaches(edges, nodeCount, SOURCE) { ReachesByEdges(edges, nodeCount, SOURCE); }
    }

    lemma WithNodeKeepsPaths(symbol: Symbol)
      requires nodeCount !in symbols && SOURCE !in symbols && SOURCE != nodeCount && symbol.id !in nodes
      requires FilesOk() && Placed()
      ensures WithNode(symbol).Placed()
      ensures forall n | n != nodeCount :: WithNode(symbol).PathOf(n) == PathOf(n)
      ensures forall p | p in fileNodes :: p in WithNode(symbol).fileNodes && WithNode(symbol).fileNodes[p] == fileNodes[p]
    {
      WithFileOk(symbol.source.GetPath());
      var d := WithNode(symbol);
      forall n | n in d.symbols && d.PathOf(n).Some? ensures d.PathOf(n).value in d.fileNodes {
        if n != nodeCount { assert d.PathOf(n) == PathOf(n); }
      }
    }

    lemma WithNodeKeepsStep(symbol: Symbol)
      requires GraphOk() && nodeCount !in symbols && SOURCE !in symbols && symbol.id !in nodes
      requires FilesOk() && Placed() && InStep()
      ensures WithNode(symbol).Placed() && WithNode(symbol).InStep()
    {
      WithNodeKeepsPaths(symbol);
      var d := WithNode(symbol);
      forall e | e in d.edges && d.CrossesFiles(e) ensures d.FileEdgeOf(e) in d.fileEdges || d.FileErrorOf(e) in d.reported {
        assert e in edges && CrossesFiles(e) && d.FileEdgeOf(e) == FileEdgeOf(e);
      }
    }

    lemma WithSymbolOk(symbol: Symbol)
      requires Ok()
      ensures WithSymbol(symbol).Ok()
      ensures symbol.IsDagSymbol() ==> symbol.id in WithSymbol(symbol).nodes
      ensures forall id | id in nodes :: id in WithSymbol(symbol).nodes && WithSymbol(symbol).nodes[id] == nodes[id]
    {
      if symbol.IsDagSymbol() && symbol.id !in nodes {
        WithFileOk(symbol.source.GetPath());
        WithNodeKeepsGraph(symbol);
        WithNodeKeepsStep(symbol);
      }
    }

    lemma WithSymbolsOk(first: Symbol, second: Symbol)
      requires Ok()
      ensures var d := WithSymbol(first).WithSymbol(second);
              && d.Ok()
              && (first.IsDagSymbol() ==> first.id in d.nodes && d.nodes[first.id] in d.symbols)
              && (second.IsDagSymbol() ==> second.id in d.nodes && d.nodes[second.id] in d.symbols)
    {
      WithSymbolOk(first);
      WithSymbol(first).WithSymbolOk(second);
    }

    lemma WithOwnedOk(parent: nat, child: nat)
      requires Ok()
      ensures WithOwned(parent, child).Ok()
    {
      FewerEdgesKeepAcyclic(edges, edges - {(child, parent)});
    }

    lemma WithFileEdgeOk(e: (nat, nat))
      requires FilesOk() && Placed()
      ensures WithFileEdge(e).0.FilesOk()
    {
      if CrossesFiles(e) { AddEdgeKeepsAcyclic(fileEdges, FileEdgeOf(e).0, FileEdgeOf(e).1); }
    }

    /** Which files an edge crosses depends on the symbols and the file nodes alone. */
    lemma SamePlaces(after: Dags, x: (nat, nat))
      requires Placed() && after == this.(edges := after.edges, fileEdges := after.fileEdges, errors := after.errors, reported := after.reported)
      ensures after.Placed() && (after.CrossesFiles(x) <==> CrossesFiles(x))
      ensures CrossesFiles(x) ==> after.FileEdgeOf(x) == FileEdgeOf(x) && after.FileErrorOf(x) == FileErrorOf(x)
    {
      assert forall n :: after.PathOf(n) == PathOf(n);
    }

    /** The symbol edge and the file edge are added together, or the error is recorded. */
    lemma WithEdgeInStep(e: (nat, nat))
      requires Placed() && InStep() && e.0 in symbols && e.1 in symbols
      ensures var (d, r) := this.(edges := edges + {e}).WithFileEdge(e);
              d.Placed() && d.Recording(r).InStep()
    {
      var (d, r) := this.(edges := edges + {e}).WithFileEdge(e);
      var after := d.Recording(r);
      SamePlaces(after, e);
      forall x | x in after.edges && after.CrossesFiles(x)
        ensures after.FileEdgeOf(x) in after.fileEdges || after.FileErrorOf(x) in after.reported
      {
        SamePlaces(after, x);
      }
    }

    lemma RecordingOk(r: Inserted)
      requires Ok()
      ensures Recording(r).Ok()
    {
      assert forall n :: Recording(r).PathOf(n) == PathOf(n);
    }

    lemma AcceptedEdgeOk(e: (nat, nat))
      requires Ok() && e.0 in symbols && e.1 in symbols && !Reaches(edges, e.1, e.0)
      ensures var (d, r) := this.(edges := edges + {e}).WithFileEdge(e); d.Recording(r).Ok()
    {
      AddEdgeKeepsAcyclic(edges, e.0, e.1);
      var more := this.(edges := edges + {e});
      more.WithFileEdgeOk(e);
      WithEdgeInStep(e);
      var (d, r) := more.WithFileEdge(e);
      assert d == more.(fileEdges := d.fileEdges);
    }

    lemma WithEdgeOk(e: (nat, nat), context: Context, recursiveRef: bool)
      requires Ok() && e.0 in symbols && e.1 in symbols
      ensures var (d, r) := WithEdge(e, context, recursiveRef); d.Recording(r).Ok()
    {
      if Reaches(edges, e.1, e.0) {
        RecordingOk(WithEdge(e, context, recursiveRef).1);
      } else {
        AcceptedEdgeOk(e);
      }
    }

    lemma WithDependencyOk(parent: nat, child: nat, context: Context, recursiveRef: bool)
      requires Ok() && parent in symbols && child in symbols
      ensures WithDependency(parent, child, context, recursiveRef).Ok()
    {
      WithEdgeOk((child, parent), context, recursiveRef);
    }

    lemma WithDeclarationOk(symbol: Symbol, parent: Option<(Symbol, Context)>)
      requires Ok()
      ensures WithDeclaration(symbol, parent).Ok()
    {
      WithSymbolOk(symbol);
      if parent.Some? {
        WithSymbolsOk(symbol, parent.value.0);
        if symbol.IsDagSymbol() && parent.value.0.IsDagSymbol() {
          var d := WithSymbol(symbol).WithSymbol(parent.value.0);
          var node, parentNode := d.nodes[symbol.id], d.nodes[parent.value.0.id];
          d.WithOwnedOk(parentNode, node);
          d.WithOwned(parentNode, node).WithDependencyOk(node, parentNode, parent.value.1, false);
        }
      }
    }

    /** What a declaration owns it never comes to depend on by referring to it. */
    lemma OwnedIsNotReferred(symbol: Symbol, parent: Symbol, context: Context, referring: Context, recursiveRef: bool)
      requires Ok() && symbol.IsDagSymbol() && parent.IsDagSymbol()
      ensures var d := WithDeclaration(symbol, Some((parent, context)));
              d.Ok() && d.WithReference(parent, referring, symbol, recursiveRef) == d
    {
      WithDeclarationOk(symbol, Some((parent, context)));
      WithSymbolsOk(symbol, parent);
      var d := WithSymbol(symbol).WithSymbol(parent);
      var node, parentNode := d.nodes[symbol.id], d.nodes[parent.id];
      d.WithOwned(parentNode, node).WithDependencyKeepsNodes(node, parentNode, context, false);
      WithDeclaration(symbol, Some((parent, context))).OwnedNeedsNoUse(symbol, parent, referring, recursiveRef);
    }

    lemma WithDependencyKeepsNodes(parent: nat, child: nat, context: Context, recursiveRef: bool)
      requires Placed() && parent in symbols && child in symbols
      ensures var d := WithDependency(parent, child, context, recursiveRef); d.nodes == nodes && d.owned == owned
    {
    }

    lemma OwnedNeedsNoUse(symbol: Symbol, parent: Symbol, context: Context, recursiveRef: bool)
      requires Ok() && symbol.IsDagSymbol() && parent.IsDagSymbol()
      requires symbol.id in nodes && parent.id in nodes && Owns(nodes[parent.id], nodes[symbol.id])
      ensures WithReference(parent, context, symbol, recursiveRef) == this
    {
    }

    lemma WithReferenceOk(parent: Symbol, context: Context, base: Symbol, recursiveRef: bool)
      requires Ok()
      ensures WithReference(parent, context, base, recursiveRef).Ok()
    {
      WithSymbolOk(base);
      WithSymbolsOk(base, parent);
      if base.IsDagSymbol() && parent.IsDagSymbol() {
        var d := WithSymbol(base).WithSymbol(parent);
        d.WithUseOk(d.nodes[parent.id], d.nodes[base.id], context, recursiveRef);
      }
    }
  }

  // ---- Runs ----

  const EMPTY: Dags := Dags(1, {}, map[], map[], map[], [], 0, {}, map[], map[], {})

  /** What the analyzer asks of the DAGs: candidates to insert, and the errors so far. */
  datatype Operation =
    | Declare(symbol: Symbol, parent: Option<(Symbol, Context)>)
    | Refer(parentSymbol: Symbol, context: Context, base: Symbol, recursiveRef: bool)
    | Depend(dependent: Symbol, on: Symbol, context: Context)
    | Mention(symbol: Symbol)
    | TakeErrors

  ghost function Applied(d: Dags, op: Operation): Dags
    requires d.Ok()
  {
    match op
    case Declare(symbol, parent) => d.WithDeclaration(symbol, parent)
    case Refer(parent, context, base, recursiveRef) => d.WithReference(parent, context, base, recursiveRef)
    case Depend(dependent, on, context) =>
      // A declaration depends on what it imports.
      if !dependent.IsDagSymbol() then d else
        d.WithSymbolsOk(dependent, on);
        var d := d.WithSymbol(dependent).WithSymbol(on);
        if !on.IsDagSymbol() then d
        else d.WithDependency(d.nodes[dependent.id], d.nodes[on.id], context, false)
    case Mention(symbol) => d.WithSymbol(symbol)
    case TakeErrors => d.(errors := [])
  }

  lemma AppliedOk(d: Dags, op: Operation)
    requires d.Ok()
    ensures Applied(d, op).Ok()
  {
    match op
    case Declare(symbol, parent) => d.WithDeclarationOk(symbol, parent);
    case Refer(parent, context, base, recursiveRef) => d.WithReferenceOk(parent, context, base, recursiveRef);
    case Depend(dependent, on, context) =>
      d.WithSymbolsOk(dependent, on);
      if dependent.IsDagSymbol() && on.IsDagSymbol() {
        var d := d.WithSymbol(dependent).WithSymbol(on);
        d.WithDependencyOk(d.nodes[dependent.id], d.nodes[on.id], context, false);
      }
    case Mention(symbol) => d.WithSymbolOk(symbol);
    case TakeErrors =>
  }

  lemma EmptyOk()
    ensures EMPTY.Ok()
  {
    NoEdgesAcyclic<nat>({});
  }

  /** A run from the empty DAGs. */
  ghost function Run(ops: seq<Operation>): (d: Dags)
    ensures d.Ok()
  {
    if ops == [] then EmptyOk(); EMPTY else
      var before := Run(ops[..|ops| - 1]);
      AppliedOk(before, ops[|ops| - 1]);
      Applied(before, ops[|ops| - 1])
  }

  // ---- The DAGs as the analyzer holds them ----

  class TypeDag {
    var nodeCount: nat
    var edges: set<(nat, nat)>
    var nodes: map<SymbolId, nat>
    var symbols: map<nat, Symbol>
    var owned: map<nat, set<nat>>
    var errors: seq<DagError>
    var fileCount: nat
    var fileEdges: set<(nat, nat)>
    var fileNodes: map<PathId, nat>
    var files: map<nat, PathId>
    ghost var reported: set<DagError>

    ghost function View(): Dags
      reads this
    {
      Dags(nodeCount, edges, nodes, symbols, owned, errors, fileCount, fileEdges, fileNodes, files, reported)
    }

    constructor ()
      ensures View() == EMPTY
    {
      nodeCount, edges, nodes, symbols, owned, errors := 1, {}, map[], map[], map[], [];
      fileCount, fileEdges, fileNodes, files := 0, {}, map[], map[];
      reported := {};
    }

    method InsertFileEdge(start: nat, end: nat) returns (r: Inserted)
      requires View().FilesOk() && View().Placed() && SOURCE !in symbols
      modifies this`fileEdges
      ensures (View(), r) == old(View()).WithFileEdge((start, end))
    {
      if start == SOURCE { return Okay; }
      if start !in symbols || end !in symbols { return Okay; }
      var startPath, endPath := symbols[start].source.GetPath(), symbols[end].source.GetPath();
      if startPath.None? || endPath.None? { return Okay; }
      var startFile, endFile := fileNodes[startPath.value], fileNodes[endPath.value];
      if startFile != endFile && (startFile, endFile) !in fileEdges {
        var ok, after := AddEdge(fileEdges, startFile, endFile, Below(fileCount));
        fileEdges := after;
        if !ok { return Err(CyclicFile(symbols[start], startPath.value, symbols[end], endPath.value)); }
      }
      return Okay;
    }

    method InsertEdge(start: nat, end: nat, context: Context, recursiveRef: bool) returns (r: Inserted)
      requires View().GraphOk() && View().FilesOk() && View().Placed() && SOURCE !in symbols
      requires start in symbols ==> end in symbols
      requires start !in symbols ==> start == SOURCE
      requires SOURCE < end < nodeCount
      modifies this`edges, this`fileEdges
      ensures start in symbols ==> (View(), r) == old(View()).WithEdge((start, end), context, recursiveRef)
      // The edge from the source to a node is never refused.
      ensures start == SOURCE ==> View() == old(View()).(edges := old(edges) + {(start, end)}) && r == Okay
    {
      if Reaches(edges, end, start) { ReachesByEdges(edges, end, start); }
      var ok, after := AddEdge(edges, start, end, Below(nodeCount));
      edges := after;
      if ok {
        r := InsertFileEdge(start, end);
      } else {
        var allowed := match context
          case Module | Interface | Function => start == end
          case Package => start == end && !recursiveRef
          case _ => false;
        r := if allowed then Okay else Err(CyclicType(symbols[start], symbols[end]));
      }
    }

    /** The edge from the source cannot close a cycle, so inserting a node never fails. */
    method InsertNode(symbol: Symbol) returns (n: nat)
      requires View().Ok()
      modifies this
      ensures View() == old(View()).WithNode(symbol)
      ensures symbol.id in nodes && n == nodes[symbol.id]
    {
      if symbol.id in nodes { return nodes[symbol.id]; }
      var path := symbol.source.GetPath();
      View().CountedNodeOk(path);
      EnsureFileNode(path);
      n := nodeCount;
      nodeCount := nodeCount + 1;
      var r := InsertEdge(SOURCE, n, Irrelevant, false);
      nodes, symbols := nodes[symbol.id := n], symbols[n := symbol];
    }

    method EnsureFileNode(path: Option<PathId>)
      modifies this`fileNodes, this`files, this`fileCount
      ensures View() == old(View()).WithFile(path)
    {
      if path.Some? && path.value !in fileNodes {
        fileNodes, files := fileNodes[path.value := fileCount], files[fileCount := path.value];
        fileCount := fileCount + 1;
      }
    }

    method InsertSymbol(symbol: Symbol) returns (n: Option<nat>)
      requires View().Ok()
      modifies this
      ensures View() == old(View()).WithSymbol(symbol)
      ensures symbol.IsDagSymbol() ==> symbol.id in nodes && n == Some(nodes[symbol.id])
      ensures !symbol.IsDagSymbol() ==> n == None
    {
      if !symbol.IsDagSymbol() { return None; }
      var node := InsertNode(symbol);
      n := Some(node);
    }

    method InsertDagEdge(parent: nat, child: nat, context: Context, recursiveRef: bool)
      requires View().Ok() && parent in symbols && child in symbols
      modifies this
      ensures View() == old(View()).WithDependency(parent, child, context, recursiveRef)
    {
      if (child, parent) in edges { return; }
      var r := InsertEdge(child, parent, context, recursiveRef);
      if r.Err? {
        errors := errors + [r.error];
        reported := reported + {r.error};
      }
    }

    method InsertDagOwned(parent: nat, child: nat)
      modifies this`edges, this`owned
      ensures View() == old(View()).WithOwned(parent, child)
    {
      if (child, parent) in edges { edges := edges - {(child, parent)}; }
      owned := owned[parent := (if parent in owned then owned[parent] else {}) + {child}];
    }

    method InsertDeclarationSymbol(symbol: Symbol, parent: Option<(Symbol, Context)>) returns (n: Option<nat>)
      requires View().Ok()
      modifies this
      ensures View() == old(View()).WithDeclaration(symbol, parent) && n.Some? == symbol.IsDagSymbol()
    {
      ghost var before := View();
      before.WithSymbolOk(symbol);
      n := InsertSymbol(symbol);
      if n.None? || parent.None? { return; }
      before.WithSymbolsOk(symbol, parent.value.0);
      ghost var between := View();
      between.WithSymbolOk(parent.value.0);
      var parentNode := InsertSymbol(parent.value.0);
      if parentNode.None? { return; }
      View().WithOwnedOk(parentNode.value, n.value);
      InsertDagOwned(parentNode.value, n.value);
      InsertDagEdge(n.value, parentNode.value, parent.value.1, false);
    }

    method InsertUnlessOwned(node: nat, base: nat, context: Context, recursiveRef: bool)
      requires View().Ok() && node in symbols && base in symbols
      modifies this
      ensures View() == old(View()).WithUse(node, base, context, recursiveRef)
    {
      if !(node in owned && base in owned[node]) { InsertDagEdge(node, base, context, recursiveRef); }
    }

    method InsertPathSymbols(parent: Symbol, context: Context, base: Symbol, recursiveRef: bool)
      requires View().Ok()
      modifies this
      ensures View() == old(View()).WithReference(parent, context, base, recursiveRef)
    {
      ghost var before := View();
      before.WithSymbolOk(base);
      var baseNode := InsertSymbol(base);
      if baseNode.None? { return; }
      before.WithSymbolsOk(base, parent);
      ghost var between := View();
      between.WithSymbolOk(parent);
      var node := InsertSymbol(parent);
      if node.Some? { InsertUnlessOwned(node.value, baseNode.value, context, recursiveRef); }
    }
  }
}
