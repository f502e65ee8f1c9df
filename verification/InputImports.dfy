/** Importing an exact dependency from a child's input: each destination node is fed from what reaches it. */
module InputImports {
  import opened Options
  import opened RegionProjections
  import opened RegionOverlaps
  import opened ImportedEdges

  /**
   * A dependency with an offset on both axes, the parent nodes of its destination, and how regions
   * of its source and these nodes map to nodes of the graph.
   */
  datatype InputEdge = InputEdge(
    link: Import,
    offset: Offset,
    source: SummaryRegion,
    destination: SummaryRegion,
    partition: BitPartition,
    destinations: seq<MappedNode>,
    sourcesOf: SummaryRegion -> seq<ResolvedNode>,
    resolve: MappedNode -> seq<ResolvedNode>)
  {
    predicate Ok() {
      link.dependency == BitDependency(Some(offset.elements), Some(offset.bits))
    }

    /** What of the source reaches destination node `n`. */
    function Projection(n: nat): RegionProjection
      requires n < |destinations|
    {
      ChildSourceRegionForDestination(source, destination, offset.elements, offset.bits, destinations[n], partition)
    }

    /** The region that feeds it: all of the source when it is not known which part does. */
    function RegionFor(n: nat): SummaryRegion
      requires n < |destinations|
    {
      if Projection(n).Exact? then Projection(n).region else source
    }

    /** Child source position (a, p) reaches destination node `n`. */
    predicate Reaches(n: nat, a: int, p: int)
      requires n < |destinations| && Known(destinations[n], partition)
    {
      Feeds(source, destination, offset.elements, offset.bits, destinations[n], partition, a, p)
    }
  }

  function ResolveAll(e: InputEdge, nodes: seq<MappedNode>): seq<ResolvedNode> {
    if nodes == [] then [] else ResolveAll(e, nodes[..|nodes| - 1]) + e.resolve(nodes[|nodes| - 1])
  }

  /** The nodes among the first `n` whose sources are not known. */
  function Fallbacks(e: InputEdge, n: nat): seq<MappedNode>
    requires n <= |e.destinations|
  {
    if n == 0 then [] else Fallbacks(e, n - 1) + Later(e, n - 1)
  }

  function Later(e: InputEdge, n: nat): seq<MappedNode>
    requires n < |e.destinations|
  {
    if e.Projection(n).Unknown? then [e.destinations[n]] else []
  }

  /** The edges to node `n`, if its sources are known. */
  function ProjectedOne(e: InputEdge, edges: Edges, n: nat): Edges
    requires n < |e.destinations|
  {
    match e.Projection(n)
    case Exact(region) => Added(e.link, edges, e.sourcesOf(region), e.resolve(e.destinations[n]))
    case _ => edges
  }

  function Projected(e: InputEdge, edges: Edges, n: nat): Edges
    requires n <= |e.destinations|
  {
    if n == 0 then edges else ProjectedOne(e, Projected(e, edges, n - 1), n - 1)
  }

  function Imported(e: InputEdge, edges: Edges): Edges {
    var n := |e.destinations|;
    if Fallbacks(e, n) == [] then Projected(e, edges, n)
    else Added(e.link, Projected(e, edges, n), e.sourcesOf(e.source), ResolveAll(e, Fallbacks(e, n)))
  }

  predicate AllFit(i: Import, sources: seq<ResolvedNode>, destinations: seq<ResolvedNode>) {
    forall s, d | s in sources && d in destinations && EdgeCondition(i, s, d).Some? :: OffsetsFit(i.dependency, s, d)
  }

  predicate FitsOne(e: InputEdge, n: nat)
    requires n < |e.destinations|
  {
    e.Projection(n).Exact? ==> AllFit(e.link, e.sourcesOf(e.Projection(n).region), e.resolve(e.destinations[n]))
  }

  /** No `expect` fires on the way. */
  predicate NothingOverflows(e: InputEdge) {
    && (forall n | 0 <= n < |e.destinations| :: FitsOne(e, n))
    && AllFit(e.link, e.sourcesOf(e.source), ResolveAll(e, Fallbacks(e, |e.destinations|)))
  }

  /** A node whose sources are not known is left for later. */
  method ImportOne(e: InputEdge, edges: Edges, n: nat) returns (edges': Edges, later: seq<MappedNode>)
    requires n < |e.destinations| && FitsOne(e, n)
    ensures edges' == ProjectedOne(e, edges, n) && later == Later(e, n)
  {
    edges', later := edges, [];
    match e.Projection(n) {
      case Exact(region) =>
        edges' := AddResolvedDependencyEdges(e.link, edges, e.sourcesOf(region), e.resolve(e.destinations[n]));
      case Disjoint =>
      case Unknown =>
        later := [e.destinations[n]];
    }
  }

  method ImportProjected(e: InputEdge, edges: Edges) returns (edges': Edges, fallbacks: seq<MappedNode>)
    requires forall n | 0 <= n < |e.destinations| :: FitsOne(e, n)
    ensures edges' == Projected(e, edges, |e.destinations|) && fallbacks == Fallbacks(e, |e.destinations|)
  {
    edges', fallbacks := edges, [];
    for n := 0 to |e.destinations|
      invariant edges' == Projected(e, edges, n) && fallbacks == Fallbacks(e, n)
    {
      var later;
      edges', later := ImportOne(e, edges', n);
      fallbacks := fallbacks + later;
    }
  }

  method ImportInput(e: InputEdge, edges: Edges) returns (edges': Edges)
    requires NothingOverflows(e)
    ensures edges' == Imported(e, edges)
  {
    var fallbacks;
    edges', fallbacks := ImportProjected(e, edges);
    if fallbacks == [] { return; }
    edges' := AddResolvedDependencyEdges(e.link, edges', e.sourcesOf(e.source), ResolveAll(e, fallbacks));
  }

  // ---- What the import means, position by position ----

  /** A source position that reaches a node is in the region that feeds the node. */
  lemma ReachingIsFed(e: InputEdge, n: nat, a: int, p: int)
    requires n < |e.destinations| && e.source.elements.End().Some? && e.destination.elements.End().Some?
    requires Known(e.destinations[n], e.partition) && e.Reaches(n, a, p)
    ensures !e.Projection(n).Disjoint? && e.RegionFor(n).Holds(a, p)
    ensures e.Projection(n).Unknown? ==> e.destinations[n] in Fallbacks(e, |e.destinations|)
    ensures e.Projection(n).Exact? ==> forall b, q :: e.RegionFor(n).Holds(b, q) <==> e.Reaches(n, b, q)
  {
    ProjectionIsExact(e.source, e.destination, e.offset.elements, e.offset.bits, e.destinations[n], e.partition);
    if e.Projection(n).Unknown? { UnknownFallsBack(e, n, |e.destinations|); }
  }

  lemma {:induction false} UnknownFallsBack(e: InputEdge, n: nat, m: nat)
    requires n < m <= |e.destinations| && e.Projection(n).Unknown?
    ensures e.destinations[n] in Fallbacks(e, m)
  {
    if n < m - 1 { UnknownFallsBack(e, n, m - 1); }
  }

  lemma {:induction false} ResolvedIsIn(e: InputEdge, nodes: seq<MappedNode>, x: MappedNode, d: ResolvedNode)
    requires x in nodes && d in e.resolve(x)
    ensures d in ResolveAll(e, nodes)
  {
    if x != nodes[|nodes| - 1] { ResolvedIsIn(e, nodes[..|nodes| - 1], x, d); }
  }

  lemma OpenStays(i: Import, edges: Edges, wider: Edges, s: ResolvedNode, d: ResolvedNode, v: Valuation)
    requires Widens(i.conditions, edges, wider) && IsOpen(i, edges, s, d, v)
    ensures IsOpen(i, wider, s, d, v)
  {
  }

  lemma {:induction false} ProjectedWidens(e: InputEdge, edges: Edges, n: nat, m: nat)
    requires e.link.conditions.Lawful() && n <= m <= |e.destinations|
    ensures Widens(e.link.conditions, Projected(e, edges, n), Projected(e, edges, m))
  {
    if n < m {
      ProjectedWidens(e, edges, n, m - 1);
      if e.Projection(m - 1).Exact? {
        ImportCovers(e.link, Projected(e, edges, m - 1), e.sourcesOf(e.Projection(m - 1).region), e.resolve(e.destinations[m - 1]));
      }
    }
  }

  /** The source node has child position (a, p) at (pa, pp), if it says where. */
  predicate At(s: ResolvedNode, a: int, p: int, pa: int, pp: int) {
    s.offset.Some? ==> pa == a + s.offset.value.elements && pp == p + s.offset.value.bits
  }

  lemma EdgeLeads(e: InputEdge, s: ResolvedNode, d: ResolvedNode, a: int, p: int, pa: int, pp: int, qa: int, qp: int)
    requires e.Ok() && At(s, a, p, pa, pp) && At(d, a + e.offset.elements, p + e.offset.bits, qa, qp)
    ensures Leads(EdgeKind(e.link.dependency, s, d), pa, pp, qa, qp)
  {
  }

  lemma {:induction false} FedIsOpen(e: InputEdge, edges: Edges, n: nat, s: ResolvedNode, d: ResolvedNode, v: Valuation,
                                     pa: int, pp: int, qa: int, qp: int)
    requires e.link.conditions.Lawful() && n < |e.destinations| && !e.Projection(n).Disjoint?
    requires s in e.sourcesOf(e.RegionFor(n)) && d in e.resolve(e.destinations[n]) && OpensAll(e.link, s, d, v)
    requires SourceHolds(e.link, s, pa, pp) && DestinationHolds(e.link, d, qa, qp)
    requires Leads(EdgeKind(e.link.dependency, s, d), pa, pp, qa, qp)
    ensures IsOpen(e.link, Imported(e, edges), s, d, v)
  {
    var last := |e.destinations|;
    var fallbacks := ResolveAll(e, Fallbacks(e, last));
    if e.Projection(n).Exact? {
      LinkedIsOpen(e.link, Projected(e, edges, n), e.sourcesOf(e.RegionFor(n)), e.resolve(e.destinations[n]), s, d, v, pa, pp, qa, qp);
      ProjectedWidens(e, edges, n + 1, last);
      OpenStays(e.link, Projected(e, edges, n + 1), Projected(e, edges, last), s, d, v);
      ImportCovers(e.link, Projected(e, edges, last), e.sourcesOf(e.source), fallbacks);
      if Fallbacks(e, last) != [] { OpenStays(e.link, Projected(e, edges, last), Imported(e, edges), s, d, v); }
    } else {
      UnknownFallsBack(e, n, last);
      ResolvedIsIn(e, Fallbacks(e, last), e.destinations[n], d);
      LinkedIsOpen(e.link, Projected(e, edges, last), e.sourcesOf(e.source), fallbacks, s, d, v, pa, pp, qa, qp);
    }
  }

  /**
   * Nothing that a child's input feeds is lost. When child source position (a, p) reaches destination
   * node `n`, it is in the region that feeds the node, and the edge from every source node of that
   * region that has the position to every graph node of `n` that has the landing position is open.
   */
  lemma InputPairIsLinked(e: InputEdge, edges: Edges, n: nat, a: int, p: int, s: ResolvedNode, d: ResolvedNode, v: Valuation,
                          pa: int, pp: int, qa: int, qp: int)
    requires e.Ok() && e.link.conditions.Lawful()
    requires n < |e.destinations| && e.source.elements.End().Some? && e.destination.elements.End().Some?
    requires Known(e.destinations[n], e.partition) && e.Reaches(n, a, p)
    requires s in e.sourcesOf(e.RegionFor(n)) && At(s, a, p, pa, pp) && SourceHolds(e.link, s, pa, pp)
    requires d in e.resolve(e.destinations[n]) && At(d, a + e.offset.elements, p + e.offset.bits, qa, qp)
    requires DestinationHolds(e.link, d, qa, qp) && OpensAll(e.link, s, d, v)
    ensures e.RegionFor(n).Holds(a, p)
    ensures IsOpen(e.link, Imported(e, edges), s, d, v)
    ensures Leads(EdgeKind(e.link.dependency, s, d), pa, pp, qa, qp)
  {
    ReachingIsFed(e, n, a, p);
    EdgeLeads(e, s, d, a, p, pa, pp, qa, qp);
    FedIsOpen(e, edges, n, s, d, v, pa, pp, qa, qp);
  }

  // ---- Nothing else is linked ----

  /** Source node `s` of the region that feeds destination node `n`, and graph node `d` of that node. */
  predicate Fed(e: InputEdge, n: int, s: ResolvedNode, d: ResolvedNode) {
    && 0 <= n < |e.destinations| && !e.Projection(n).Disjoint?
    && s in e.sourcesOf(e.RegionFor(n)) && d in e.resolve(e.destinations[n])
  }

  lemma {:induction false} ResolvedFrom(e: InputEdge, nodes: seq<MappedNode>, d: ResolvedNode) returns (x: MappedNode)
    requires d in ResolveAll(e, nodes)
    ensures x in nodes && d in e.resolve(x)
  {
    x := nodes[|nodes| - 1];
    if d !in e.resolve(x) { x := ResolvedFrom(e, nodes[..|nodes| - 1], d); }
  }

  lemma {:induction false} FallbackFrom(e: InputEdge, m: nat, x: MappedNode) returns (n: nat)
    requires m <= |e.destinations| && x in Fallbacks(e, m)
    ensures n < m && e.Projection(n).Unknown? && e.destinations[n] == x
  {
    if x in Later(e, m - 1) { n := m - 1; } else { n := FallbackFrom(e, m - 1, x); }
  }

  lemma FallbackIsFed(e: InputEdge, s: ResolvedNode, d: ResolvedNode)
    requires s in e.sourcesOf(e.source) && d in ResolveAll(e, Fallbacks(e, |e.destinations|))
    ensures exists n :: Fed(e, n, s, d)
  {
    var x := ResolvedFrom(e, Fallbacks(e, |e.destinations|), d);
    var n := FallbackFrom(e, |e.destinations|, x);
    assert Fed(e, n, s, d);
  }

  /** Condition `c` covers every edge with key `k` from what feeds a destination node to that node. */
  ghost predicate CoversFed(e: InputEdge, k: Key, c: PathCondition) {
    forall n, s, d, v | Fed(e, n, s, d) && Joins(e.link, s, d) && KeyBetween(e.link, s, d) == k && OpensAll(e.link, s, d, v) ::
      e.link.conditions.admits(c, v)
  }

  lemma {:induction false} ProjectedIsUnder(e: InputEdge, edges: Edges, n: nat, k: Key, c: PathCondition)
    requires e.link.conditions.Lawful() && e.link.conditions.LeastCovers() && n <= |e.destinations|
    requires Under(e.link, edges, k, c) && CoversFed(e, k, c)
    ensures Under(e.link, Projected(e, edges, n), k, c)
  {
    if n > 0 {
      ProjectedIsUnder(e, edges, n - 1, k, c);
      if e.Projection(n - 1).Exact? {
        forall s, d, v | s in e.sourcesOf(e.RegionFor(n - 1)) && d in e.resolve(e.destinations[n - 1])
                         && Joins(e.link, s, d) && KeyBetween(e.link, s, d) == k && OpensAll(e.link, s, d, v)
          ensures e.link.conditions.admits(c, v)
        {
          assert Fed(e, n - 1, s, d);
        }
        ImportIsLeast(e.link, Projected(e, edges, n - 1), e.sourcesOf(e.RegionFor(n - 1)), e.resolve(e.destinations[n - 1]), k, c);
      }
    }
  }

  /** The import opens edges only from what feeds a destination node to that node, each under the least condition for this. */
  lemma InputImportIsLeast(e: InputEdge, edges: Edges, k: Key, c: PathCondition)
    requires e.link.conditions.Lawful() && e.link.conditions.LeastCovers()
    requires Under(e.link, edges, k, c) && CoversFed(e, k, c)
    ensures Under(e.link, Imported(e, edges), k, c)
  {
    var last := |e.destinations|;
    ProjectedIsUnder(e, edges, last, k, c);
    var fallbacks := ResolveAll(e, Fallbacks(e, last));
    forall s, d, v | s in e.sourcesOf(e.source) && d in fallbacks && Joins(e.link, s, d) && KeyBetween(e.link, s, d) == k && OpensAll(e.link, s, d, v)
      ensures e.link.conditions.admits(c, v)
    {
      FallbackIsFed(e, s, d);
    }
    ImportIsLeast(e.link, Projected(e, edges, last), e.sourcesOf(e.source), fallbacks, k, c);
  }

  /** Every edge that is new or changed comes from such a pair. */
  ghost predicate FromFed(e: InputEdge, edges: Edges, wider: Edges) {
    forall k | k in wider && (k !in edges || edges[k] != wider[k]) ::
      exists n, s, d :: Fed(e, n, s, d) && Joins(e.link, s, d) && KeyBetween(e.link, s, d) == k
  }

  lemma FromFedStep(e: InputEdge, edges: Edges, before: Edges, after: Edges, sources: seq<ResolvedNode>, destinations: seq<ResolvedNode>)
    requires FromFed(e, edges, before) && ChangesOnly(e.link, before, after, sources, destinations)
    requires forall s, d | s in sources && d in destinations :: exists n :: Fed(e, n, s, d)
    ensures FromFed(e, edges, after)
  {
    forall k | k in after && (k !in edges || edges[k] != after[k])
      ensures exists n, s, d :: Fed(e, n, s, d) && Joins(e.link, s, d) && KeyBetween(e.link, s, d) == k
    {
      if k !in before || before[k] != after[k] {
        var s, d :| s in sources && d in destinations && Joins(e.link, s, d) && KeyBetween(e.link, s, d) == k;
        var n :| Fed(e, n, s, d);
      }
    }
  }

  lemma {:induction false} ProjectedFromFed(e: InputEdge, edges: Edges, n: nat)
    requires n <= |e.destinations|
    ensures FromFed(e, edges, Projected(e, edges, n))
  {
    if n > 0 {
      ProjectedFromFed(e, edges, n - 1);
      if e.Projection(n - 1).Exact? {
        var before, sources, destinations := Projected(e, edges, n - 1), e.sourcesOf(e.RegionFor(n - 1)), e.resolve(e.destinations[n - 1]);
        ImportChangesOnly(e.link, before, sources, destinations);
        forall s, d | s in sources && d in destinations ensures exists m :: Fed(e, m, s, d) { assert Fed(e, n - 1, s, d); }
        FromFedStep(e, edges, before, Projected(e, edges, n), sources, destinations);
      }
    }
  }

  lemma InputImportFromFed(e: InputEdge, edges: Edges)
    ensures FromFed(e, edges, Imported(e, edges))
  {
    var last := |e.destinations|;
    var before, sources, fallbacks := Projected(e, edges, last), e.sourcesOf(e.source), ResolveAll(e, Fallbacks(e, last));
    ProjectedFromFed(e, edges, last);
    if Fallbacks(e, last) != [] {
      ImportChangesOnly(e.link, before, sources, fallbacks);
      forall s, d | s in sources && d in fallbacks ensures exists n :: Fed(e, n, s, d) { FallbackIsFed(e, s, d); }
      FromFedStep(e, edges, before, Imported(e, edges), sources, fallbacks);
    }
  }
}
