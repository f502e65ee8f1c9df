/** The order of the files, and who depends on whom. */
module FileQueries {
  import opened Options
  import opened SourceTokens
  import opened Strings
  import opened Digraph
  import opened TopologicalOrders
  import opened KahnSort
  import opened TypeDagModel

  /** The file graph on the files themselves: an edge goes from a file to one that depends on it. */
  function FileDeps(d: Dags): (deps: set<(PathId, PathId)>)
    ensures d.FilesOk() ==> forall f, g | f in d.fileNodes && g in d.fileNodes ::
              (f, g) in deps <==> (d.fileNodes[f], d.fileNodes[g]) in d.fileEdges
  {
    set e | e in d.fileEdges && e.0 in d.files && e.1 in d.files :: (d.files[e.0], d.files[e.1])
  }

  /** A file that holds no module, interface or package: its content is embedded code. */
  predicate IsOpaque(d: Dags, path: PathId) {
    forall n | n in d.symbols :: d.symbols[n].IsContainer() ==> d.PathOf(n) != Some(path)
  }

  /** Opaque files last, then by path. */
  ghost function FileLess(d: Dags, name: PathId -> string): (PathId, PathId) -> bool {
    (f, g) => SortKey(IsOpaque(d, f), name(f), 0).Less(SortKey(IsOpaque(d, g), name(g), 0))
  }

  /** A file with a module, interface or package comes before one without; of two alike, the one whose name comes first. */
  lemma FileLessMeans(d: Dags, name: PathId -> string, f: PathId, g: PathId)
    requires name(f) != name(g)
    ensures FileLess(d, name)(f, g) <==>
      || (!IsOpaque(d, f) && IsOpaque(d, g))
      || ((IsOpaque(d, f) <==> IsOpaque(d, g)) && exists n: nat :: ComesFirst(name(f), name(g), n))
  {
    StringLessMeans(name(f), name(g));
  }

  ghost predicate NamesDistinct(d: Dags, name: PathId -> string) {
    forall f, g | f in d.fileNodes && g in d.fileNodes && name(f) == name(g) :: f == g
  }

  lemma FileLessAsymmetric(d: Dags, name: PathId -> string, f: PathId, g: PathId)
    ensures !(FileLess(d, name)(f, g) && FileLess(d, name)(g, f))
  {
    StringLessTotal(name(f), name(g));
  }

  function NodeKey(d: Dags, name: PathId -> string, opaqueNodes: set<nat>, n: nat): SortKey {
    SortKey(n in opaqueNodes, if n in d.files then name(d.files[n]) else "", n)
  }

  /** The nodes of the opaque files: all of them, less those some container lives in. */
  method OpaqueNodes(d: Dags) returns (opaqueNodes: set<nat>)
    requires d.FilesOk()
    ensures forall n :: n in opaqueNodes <==> n in d.files && IsOpaque(d, d.files[n])
  {
    opaqueNodes := d.files.Keys;
    var rest := d.symbols.Keys;
    while rest != {}
      invariant rest <= d.symbols.Keys
      invariant forall n :: n in opaqueNodes <==>
        n in d.files && forall s | s in d.symbols.Keys - rest :: d.symbols[s].IsContainer() ==> d.PathOf(s) != Some(d.files[n])
    {
      var s :| s in rest;
      var path := d.PathOf(s);
      if d.symbols[s].IsContainer() && path.Some? && path.value in d.fileNodes {
        opaqueNodes := opaqueNodes - {d.fileNodes[path.value]};
      }
      rest := rest - {s};
    }
  }

  /** The file nodes name the files, edges included. */
  lemma FilesNameNodes(d: Dags)
    requires d.FilesOk()
    ensures Injective(d.files) && SameGraph(d.files, d.fileEdges, FileDeps(d)) && d.files.Values == d.fileNodes.Keys
    ensures forall e | e in d.fileEdges :: e.0 in d.files.Keys && e.1 in d.files.Keys
  {
    forall path ensures path in d.files.Values <==> path in d.fileNodes {
      if path in d.fileNodes { assert d.files[d.fileNodes[path]] == path; }
    }
  }

  /** With distinct names, comparing nodes is comparing their files. */
  lemma NodesCompareAsFiles(d: Dags, name: PathId -> string, opaqueNodes: set<nat>, a: nat, b: nat)
    requires d.FilesOk() && NamesDistinct(d, name) && a in d.files && b in d.files && a != b
    requires forall n :: n in opaqueNodes <==> n in d.files && IsOpaque(d, d.files[n])
    requires NodeKey(d, name, opaqueNodes, a).Less(NodeKey(d, name, opaqueNodes, b))
    ensures FileLess(d, name)(d.files[a], d.files[b])
  {
    assert d.files[a] != d.files[b];
  }

  /** Files in dependency order, the opaque ones as late as the dependencies allow. */
  method ToposortFile(d: Dags, name: PathId -> string) returns (ret: seq<PathId>)
    requires d.FilesOk()
    ensures IsOrder(d.fileNodes.Keys, FileDeps(d), ret)
    ensures NamesDistinct(d, name) ==> TakesLeast(d.fileNodes.Keys, FileDeps(d), FileLess(d, name), ret)
  {
    FilesNameNodes(d);
    var opaqueNodes := OpaqueNodes(d);
    var key := (n: nat) => NodeKey(d, name, opaqueNodes, n);
    KeysAreTotal(key);
    var less := (a: nat, b: nat) => key(a).Less(key(b));
    var order := Kahn(d.files.Keys, d.fileEdges, less);
    ret := Renamed(d.files, order);
    RenamedOrder(d.files, d.fileEdges, FileDeps(d), order);
    if NamesDistinct(d, name) {
      forall a, b | a in d.files && b in d.files && a != b && less(a, b) ensures FileLess(d, name)(d.files[a], d.files[b]) {
        NodesCompareAsFiles(d, name, opaqueNodes, a, b);
      }
      RenamedTakesLeast(d.files, d.fileEdges, less, FileDeps(d), FileLess(d, name), order);
    }
  }

  /** No topological order of the files comes before it. */
  lemma ToposortIsLeast(d: Dags, name: PathId -> string, ret: seq<PathId>, other: seq<PathId>)
    requires d.FilesOk()
    requires IsOrder(d.fileNodes.Keys, FileDeps(d), ret)
    requires TakesLeast(d.fileNodes.Keys, FileDeps(d), FileLess(d, name), ret)
    requires IsOrder(d.fileNodes.Keys, FileDeps(d), other)
    ensures ret == other || LexicographicallyLess(FileLess(d, name), ret, other)
  {
    TakesLeastIsLeast(d.fileNodes.Keys, FileDeps(d), FileLess(d, name), ret, other);
  }

  /** Renumbering the nodes, or inserting in another order, changes nothing. */
  lemma ToposortIgnoresNumbering(d: Dags, e: Dags, name: PathId -> string, ret: seq<PathId>, other: seq<PathId>)
    requires d.FilesOk() && e.FilesOk()
    requires d.fileNodes.Keys == e.fileNodes.Keys && FileDeps(d) == FileDeps(e)
    requires forall f :: IsOpaque(d, f) == IsOpaque(e, f)
    requires IsOrder(d.fileNodes.Keys, FileDeps(d), ret)
    requires TakesLeast(d.fileNodes.Keys, FileDeps(d), FileLess(d, name), ret)
    requires IsOrder(e.fileNodes.Keys, FileDeps(e), other)
    requires TakesLeast(e.fileNodes.Keys, FileDeps(e), FileLess(e, name), other)
    ensures ret == other
  {
    var less := FileLess(d, name);
    forall f, g ensures !(less(f, g) && less(g, f)) { FileLessAsymmetric(d, name, f, g); }
    assert forall f, g :: FileLess(d, name)(f, g) == FileLess(e, name)(f, g);
    FileDepsConnectFiles(d);
    TakesLeastIsUnique(d.fileNodes.Keys, FileDeps(d), less, ret, other);
  }

  lemma FileDepsConnectFiles(d: Dags)
    requires d.FilesOk()
    ensures forall e | e in FileDeps(d) :: e.0 in d.fileNodes && e.1 in d.fileNodes
  {
  }

  /** An opaque file is emitted only when no other kind is ready. */
  lemma OpaqueFilesWait(d: Dags, name: PathId -> string, ret: seq<PathId>, k: nat, f: PathId)
    requires TakesLeast(d.fileNodes.Keys, FileDeps(d), FileLess(d, name), ret)
    requires k < |ret| && IsOpaque(d, ret[k])
    requires Ready(d.fileNodes.Keys, FileDeps(d), ret[..k], f)
    ensures IsOpaque(d, f)
  {
    assert f == ret[k] || FileLess(d, name)(ret[k], f);
  }

  /** When no error was ever reported, every symbol comes in a file before those of its dependents. */
  lemma OrderRespectsSymbols(d: Dags, ret: seq<PathId>, e: (nat, nat), i: nat, j: nat)
    requires d.Ok() && d.reported == {}
    requires IsOrder(d.fileNodes.Keys, FileDeps(d), ret)
    requires e in d.edges && d.CrossesFiles(e)
    requires i < |ret| && Some(ret[i]) == d.PathOf(e.0)
    requires j < |ret| && Some(ret[j]) == d.PathOf(e.1)
    ensures i < j
  {
    assert d.FileEdgeOf(e) in d.fileEdges;
    assert (ret[i], ret[j]) in FileDeps(d);
  }

  // ---- Closures ----

  lemma {:induction false} NodePathOnFiles(d: Dags, path: seq<nat>)
    requires d.FilesOk() && IsPath(d.fileEdges, path) && forall n | n in path :: n in d.files
    ensures Reaches(FileDeps(d), d.files[path[0]], d.files[path[|path| - 1]])
  {
    if |path| == 1 {
      ReachesSelf(FileDeps(d), d.files[path[0]]);
    } else {
      FirstEdge(d.fileEdges, path);
      NodePathOnFiles(d, path[1..]);
      ReachesFromEdge(FileDeps(d), d.files[path[0]], d.files[path[1]], d.files[path[|path| - 1]]);
    }
  }

  lemma {:induction false} FilePathOnNodes(d: Dags, path: seq<PathId>)
    requires d.FilesOk() && IsPath(FileDeps(d), path) && path[0] in d.fileNodes
    ensures path[|path| - 1] in d.fileNodes
    ensures Reaches(d.fileEdges, d.fileNodes[path[0]], d.fileNodes[path[|path| - 1]])
  {
    if |path| == 1 {
      ReachesSelf(d.fileEdges, d.fileNodes[path[0]]);
    } else {
      FirstEdge(FileDeps(d), path);
      FilePathOnNodes(d, path[1..]);
      ReachesFromEdge(d.fileEdges, d.fileNodes[path[0]], d.fileNodes[path[1]], d.fileNodes[path[|path| - 1]]);
    }
  }

  /** Reaching a file is reaching its node. */
  lemma FilesReachAsNodes(d: Dags, m: nat, n: nat)
    requires d.FilesOk() && m in d.files && n in d.files
    ensures Reaches(d.fileEdges, m, n) <==> Reaches(FileDeps(d), d.files[m], d.files[n])
  {
    if Reaches(d.fileEdges, m, n) {
      var path :| PathFrom(d.fileEdges, path, m, n);
      forall k | 0 <= k < |path| ensures path[k] in d.files {
        if k < |path| - 1 { assert (path[k], path[k + 1]) in d.fileEdges; }
      }
      NodePathOnFiles(d, path);
    }
    if Reaches(FileDeps(d), d.files[m], d.files[n]) {
      var path :| PathFrom(FileDeps(d), path, d.files[m], d.files[n]);
      FilePathOnNodes(d, path);
    }
  }

  /** `f` depends on `g`, directly or not; every file with a node depends on itself. */
  ghost predicate DependsOn(d: Dags, f: PathId, g: PathId) {
    f in d.fileNodes && g in d.fileNodes && Reaches(FileDeps(d), g, f)
  }

  ghost predicate IsRequired(d: Dags, seeds: set<PathId>, g: PathId) {
    g in seeds || exists f :: f in seeds && DependsOn(d, f, g)
  }

  /** The traversal behind `required`: it has visited the nodes of the files the seeds need, and
      every seed without a node is there too. */
  ghost predicate Collected(d: Dags, seeds: set<PathId>, required: set<PathId>, visited: set<nat>) {
    && (forall g :: g in required <==> IsRequired(d, seeds, g))
    && visited <= d.files.Keys && SuccessorsIn(Reversed(d.fileEdges), visited, [])
    && forall n | n in visited :: d.files[n] in required
  }

  lemma RequiredByOneMore(d: Dags, seeds: set<PathId>, file: PathId, g: PathId)
    ensures IsRequired(d, seeds + {file}, g) <==> IsRequired(d, seeds, g) || g == file || DependsOn(d, file, g)
  {
  }

  /** One more seed: what its traversal finds is exactly what only it needs. */
  lemma CollectOneMore(d: Dags, seeds: set<PathId>, required: set<PathId>, visited: set<nat>, file: PathId,
                       after: set<nat>, found: seq<nat>)
    requires d.FilesOk() && Collected(d, seeds, required, visited) && file in d.fileNodes
    requires forall n :: n in after <==> n in visited || Reaches(Reversed(d.fileEdges), d.fileNodes[file], n)
    requires forall n :: n in found <==> n in after && n !in visited
    requires after <= d.files.Keys && SuccessorsIn(Reversed(d.fileEdges), after, [])
    ensures Collected(d, seeds + {file}, required + (set n | n in found && n in d.files :: d.files[n]), after)
  {
    var more := required + set n | n in found && n in d.files :: d.files[n];
    var node := d.fileNodes[file];
    forall n | n in d.files
      ensures Reaches(Reversed(d.fileEdges), node, n) <==> DependsOn(d, file, d.files[n])
    {
      ReversedReaches(d.fileEdges, node, n);
      FilesReachAsNodes(d, n, node);
    }
    ReachesSelf(FileDeps(d), file);
    forall g ensures g in more <==> IsRequired(d, seeds + {file}, g) {
      RequiredByOneMore(d, seeds, file, g);
      if DependsOn(d, file, g) { assert d.files[d.fileNodes[g]] == g; }
    }
  }

  lemma CollectNoNode(d: Dags, seeds: set<PathId>, required: set<PathId>, visited: set<nat>, file: PathId)
    requires d.FilesOk() && Collected(d, seeds, required, visited) && file !in d.fileNodes
    ensures Collected(d, seeds + {file}, required + {file}, visited)
  {
    forall g ensures IsRequired(d, seeds + {file}, g) <==> IsRequired(d, seeds, g) || g == file {
      RequiredByOneMore(d, seeds, file, g);
    }
  }

  /** `files` and what they depend on. The seeds share one visited set. */
  method RequiredFiles(d: Dags, seeds: set<PathId>) returns (ret: set<PathId>)
    requires d.FilesOk()
    ensures forall g :: g in ret <==> IsRequired(d, seeds, g)
  {
    ret := {};
    var visited: set<nat> := {};
    var rest := seeds;
    while rest != {}
      invariant rest <= seeds && Collected(d, seeds - rest, ret, visited)
    {
      var file :| file in rest;
      assert seeds - (rest - {file}) == (seeds - rest) + {file};
      if file in d.fileNodes {
        var after, found := Explore(Reversed(d.fileEdges), d.fileNodes[file], visited, d.files.Keys);
        CollectOneMore(d, seeds - rest, ret, visited, file, after, found);
        visited := after;
        ret := ret + set n | n in found && n in d.files :: d.files[n];
      } else {
        // A file whose symbols never entered the DAG has no node.
        CollectNoNode(d, seeds - rest, ret, visited, file);
        ret := ret + {file};
      }
      rest := rest - {file};
    }
    assert seeds - rest == seeds;
  }

  /** The set holds the direct dependencies of its files. */
  predicate HoldsDependencies(d: Dags, files: set<PathId>) {
    forall e | e in FileDeps(d) && e.1 in files :: e.0 in files
  }

  /** What is required is the least set that holds the seeds and all dependencies of its files. */
  lemma RequiredIsLeast(d: Dags, seeds: set<PathId>, required: set<PathId>)
    requires d.FilesOk()
    requires forall g :: g in required <==> IsRequired(d, seeds, g)
    ensures seeds <= required && HoldsDependencies(d, required)
    ensures forall files | seeds <= files && HoldsDependencies(d, files) :: required <= files
  {
    forall e | e in FileDeps(d) && e.1 in required ensures e.0 in required {
      var f := e.1;
      ReachesSelf(FileDeps(d), f);
      if f !in seeds {
        f :| f in seeds && DependsOn(d, f, e.1);
      }
      ReachesFromEdge(FileDeps(d), e.0, e.1, f);
      assert DependsOn(d, f, e.0);
    }
    forall files, g | seeds <= files && HoldsDependencies(d, files) && g in required ensures g in files {
      if g !in seeds {
        var f :| f in seeds && DependsOn(d, f, g);
        ReversedReaches(FileDeps(d), f, g);
        var path :| PathFrom(Reversed(FileDeps(d)), path, f, g);
        SetReaches(Reversed(FileDeps(d)), files, path);
      }
    }
  }

  /** So more seeds require no less. */
  lemma RequiredIsMonotone(d: Dags, seeds: set<PathId>, more: set<PathId>, required: set<PathId>, all: set<PathId>)
    requires d.FilesOk() && seeds <= more
    requires (forall g :: g in required <==> IsRequired(d, seeds, g)) && forall g :: g in all <==> IsRequired(d, more, g)
    ensures required <= all
  {
    RequiredIsLeast(d, seeds, required);
    RequiredIsLeast(d, more, all);
  }

  /** Asking again adds nothing. */
  lemma RequiredIsIdempotent(d: Dags, seeds: set<PathId>, required: set<PathId>, g: PathId)
    requires forall f :: f in required <==> IsRequired(d, seeds, f)
    ensures IsRequired(d, required, g) <==> g in required
  {
    if exists f :: f in required && DependsOn(d, f, g) {
      var f :| f in required && DependsOn(d, f, g);
      if f !in seeds {
        var s :| s in seeds && DependsOn(d, s, f);
        ReachesTransitive(FileDeps(d), g, f, s);
        assert DependsOn(d, s, g);
      }
    }
  }

  /** Each file with the other files that depend on it, if any. */
  method DependentFiles(d: Dags) returns (ret: map<PathId, seq<PathId>>)
    requires d.FilesOk()
    ensures forall f :: f in ret <==> exists g :: g != f && DependsOn(d, g, f)
    ensures forall f, g | f in ret :: g in ret[f] <==> g != f && DependsOn(d, g, f)
    ensures forall f | f in ret :: forall i, j | 0 <= i < j < |ret[f]| :: ret[f][i] != ret[f][j]
  {
    ret := map[];
    var rest := d.files.Keys;
    while rest != {}
      invariant rest <= d.files.Keys
      invariant forall f :: f in ret <==> f in d.fileNodes && d.fileNodes[f] !in rest && exists g :: g != f && DependsOn(d, g, f)
      invariant forall f, g | f in ret :: g in ret[f] <==> g != f && DependsOn(d, g, f)
      invariant forall f | f in ret :: forall i, j | 0 <= i < j < |ret[f]| :: ret[f][i] != ret[f][j]
    {
      var node :| node in rest;
      var dependents := DependentsOf(d, node);
      if dependents != [] {
        assert dependents[0] in dependents;
        ret := ret[d.files[node] := dependents];
      }
      rest := rest - {node};
    }
  }

  method DependentsOf(d: Dags, node: nat) returns (dependents: seq<PathId>)
    requires d.FilesOk() && node in d.files
    ensures forall g :: g in dependents <==> g != d.files[node] && DependsOn(d, g, d.files[node])
    ensures forall i, j | 0 <= i < j < |dependents| :: dependents[i] != dependents[j]
  {
    var visited, found := Explore(d.fileEdges, node, {}, d.files.Keys);
    dependents := [];
    for k := 0 to |found|
      invariant forall g :: g in dependents <==> g in d.fileNodes && g != d.files[node] && d.fileNodes[g] in found[..k]
      invariant forall i, j | 0 <= i < j < |dependents| :: dependents[i] != dependents[j]
    {
      assert found[k] in found && found[k] in d.files && found[k] !in found[..k];
      assert found[..k + 1] == found[..k] + [found[k]];
      if found[k] != node { dependents := dependents + [d.files[found[k]]]; }
    }
    assert found[..|found|] == found;
    forall g | g in d.fileNodes ensures d.fileNodes[g] in found <==> DependsOn(d, g, d.files[node]) {
      FilesReachAsNodes(d, node, d.fileNodes[g]);
    }
  }

  /** A file depends on another exactly if it is among those that require it. */
  lemma DependentsAreDual(d: Dags, dependents: map<PathId, seq<PathId>>, required: set<PathId>, f: PathId, g: PathId)
    requires forall h :: h in dependents <==> exists x :: x != h && DependsOn(d, x, h)
    requires forall h, x | h in dependents :: x in dependents[h] <==> x != h && DependsOn(d, x, h)
    requires forall h :: h in required <==> IsRequired(d, {g}, h)
    requires f != g
    ensures f in dependents && g in dependents[f] <==> f in required
  {
    if f in required { assert DependsOn(d, g, f); }
  }

  // ---- The symbol closure ----

  /** `m` is a symbol some symbol of the project depends on. */
  ghost predicate Connected(d: Dags, seeds: set<nat>, m: nat) {
    exists n :: n in seeds && Reaches(d.edges, m, n)
  }

  function ProjectNodes(d: Dags, included: Symbol -> bool): set<nat> {
    set n | n in d.symbols && included(d.symbols[n])
  }

  function FilesOf(d: Dags, nodes: set<nat>): set<PathId> {
    set m | m in nodes && m in d.symbols && d.symbols[m].source.File? :: d.symbols[m].source.path
  }

  /** The traversals from `done` have visited all that is connected to them, and gathered its files. */
  ghost predicate Gathered(d: Dags, done: set<nat>, visited: set<nat>, ret: set<PathId>) {
    && visited <= Below(d.nodeCount) && SuccessorsIn(Reversed(d.edges), visited, [])
    && ret == FilesOf(d, visited)
    && forall m :: m in visited <==> Connected(d, done, m)
  }

  lemma ConnectedMore(d: Dags, done: set<nat>, n: nat)
    ensures forall m :: Connected(d, done + {n}, m) <==> Connected(d, done, m) || Reaches(Reversed(d.edges), n, m)
  {
    forall m ensures Connected(d, done + {n}, m) <==> Connected(d, done, m) || Reaches(Reversed(d.edges), n, m) {
      ReversedReaches(d.edges, n, m);
      assert n in done + {n};
    }
  }

  lemma GatheredMore(d: Dags, done: set<nat>, visited: set<nat>, ret: set<PathId>, n: nat, after: set<nat>, found: set<nat>)
    requires Gathered(d, done, visited, ret) && after == visited + found && after <= Below(d.nodeCount)
    requires forall m :: m in after <==> m in visited || Reaches(Reversed(d.edges), n, m)
    requires SuccessorsIn(Reversed(d.edges), after, [])
    ensures Gathered(d, done + {n}, after, ret + FilesOf(d, found))
  {
    ConnectedMore(d, done, n);
  }

  /** One more traversal. */
  method GatherFrom(d: Dags, n: nat, visited0: set<nat>, ret0: set<PathId>, ghost done: set<nat>) returns (visited: set<nat>, ret: set<PathId>)
    requires d.GraphOk() && n < d.nodeCount && Gathered(d, done, visited0, ret0)
    ensures Gathered(d, done + {n}, visited, ret)
  {
    var found;
    visited, found := Explore(Reversed(d.edges), n, visited0, Below(d.nodeCount));
    assert visited == visited0 + set m | m in found;
    ret := ret0 + FilesOf(d, set m | m in found);
    GatheredMore(d, done, visited0, ret0, n, visited, set m | m in found);
  }

  /** `path` is the file of a symbol connected to `seeds`. */
  ghost predicate IsConnectedFile(d: Dags, seeds: set<nat>, path: PathId) {
    exists m :: m in d.symbols && d.symbols[m].source.File? && d.symbols[m].source.path == path && Connected(d, seeds, m)
  }

  lemma GatheredFiles(d: Dags, seeds: set<nat>, visited: set<nat>, ret: set<PathId>)
    requires Gathered(d, seeds, visited, ret)
    ensures forall path :: path in ret <==> IsConnectedFile(d, seeds, path)
  {
  }

  lemma NothingGathered(d: Dags)
    ensures Gathered(d, {}, {}, {})
  {
  }

  /** The files of the symbols that the symbols of a project reach. Generated tokens have no file of their own. */
  method ConnectedFiles(d: Dags, included: Symbol -> bool) returns (ret: set<PathId>)
    requires d.GraphOk() && d.SymbolsOk()
    ensures forall path :: path in ret <==> IsConnectedFile(d, ProjectNodes(d, included), path)
  {
    var seeds := ProjectNodes(d, included);
    var visited: set<nat> := {};
    var rest := seeds;
    ghost var done: set<nat> := {};
    ret := {};
    NothingGathered(d);
    while rest != {}
      invariant rest <= seeds && seeds == done + rest && Gathered(d, done, visited, ret)
    {
      var n :| n in rest;
      visited, ret := GatherFrom(d, n, visited, ret, done);
      done, rest := done + {n}, rest - {n};
    }
    GatheredFiles(d, done, visited, ret);
  }
}
