/** Importing one dependency of a child's summary. */
module ImportedEdges {
  import opened Options
  import opened MachineIntegers
  import opened RegionProjections
  import opened RegionOverlaps

  type NodeIndex(==, !new)
  type PathCondition(==, !new)

  /** A choice of an arm for every branch. */
  type Valuation(!new)

  /** The algebra of path conditions. */
  datatype Conditions = Conditions(
    admits: (PathCondition, Valuation) -> bool,
    conjoin: (PathCondition, PathCondition) -> Option<PathCondition>,
    disjoin: (PathCondition, PathCondition) -> PathCondition)
  {
    predicate Meets(c: PathCondition, d: PathCondition, v: Valuation) {
      (conjoin(c, d).Some? && admits(conjoin(c, d).value, v)) <==> (admits(c, v) && admits(d, v))
    }

    predicate Covers(c: PathCondition, d: PathCondition, v: Valuation) {
      admits(c, v) || admits(d, v) ==> admits(disjoin(c, d), v)
    }

    ghost predicate Within(c: PathCondition, d: PathCondition) {
      forall v | admits(c, v) :: admits(d, v)
    }

    /** Disjunction is the least condition that covers both sides; it may cover more than their union. */
    ghost predicate LeastCovers() {
      forall c, d, e | Within(c, e) && Within(d, e) :: Within(disjoin(c, d), e)
    }

    /** It covers no more than their union. */
    ghost predicate ExactUnion() {
      forall c, d, v | admits(disjoin(c, d), v) :: admits(c, v) || admits(d, v)
    }

    /** Conjunction is exact, and `None` when nothing is left; disjunction covers both sides. */
    ghost predicate Lawful() {
      forall c, d, v :: Meets(c, d, v) && Covers(c, d, v)
    }
  }

  /** A node of the graph. Those of the module itself are diagnosed, those of instances are not. */
  datatype GraphNode = GraphNode(region: SummaryRegion, domains: seq<PositionDomain>, diagnosed: bool)

  /**
   * A parent node, with the offset from child positions onto its own when that is known, and the
   * positions that the actual covers when these are.
   */
  datatype ResolvedNode = ResolvedNode(node: NodeIndex, offset: Option<Offset>, condition: PathCondition, region: Option<PositionDomain>)

  datatype Key = Key(source: NodeIndex, target: NodeIndex, kind: BitDependency)

  datatype Edge = Edge(key: Key, condition: PathCondition)

  /** The edges of the dependency graph, one per key. */
  type Edges = map<Key, PathCondition>

  /** A second edge with the same key widens the condition of the first. */
  function AddDependencyEdge(conditions: Conditions, edges: Edges, e: Edge): Edges {
    if e.key in edges then edges[e.key := conditions.disjoin(edges[e.key], e.condition)] else edges[e.key := e.condition]
  }

  /** One dependency of the summary, and the nodes of the graph. */
  datatype Import = Import(
    conditions: Conditions,
    dependency: BitDependency,
    condition: PathCondition,
    graph: NodeIndex -> GraphNode)
  {
    /** The positions of a source. */
    function SourceBox(s: ResolvedNode): PositionDomain {
      Box(graph(s.node).region, graph(s.node).domains)
    }

    /** The positions of a destination: those the actual covers, or else those of its node. */
    function DestinationBox(d: ResolvedNode): PositionDomain {
      if d.region.Some? then d.region.value else Box(graph(d.node).region, graph(d.node).domains)
    }

    /** No position of the one diagnosed node can lead to one of the other. */
    predicate Separate(s: ResolvedNode, d: ResolvedNode, kind: BitDependency) {
      graph(s.node).diagnosed && graph(d.node).diagnosed && !Overlap(SourceBox(s), DestinationBox(d), kind)
    }
  }

  function EdgeCondition(i: Import, source: ResolvedNode, destination: ResolvedNode): Option<PathCondition> {
    var first := i.conditions.conjoin(i.condition, source.condition);
    if first.None? then None else i.conditions.conjoin(first.value, destination.condition)
  }

  /** One axis of the edge's offset, with both checked steps. */
  function ShiftedAxis(dependency: isize, destination: isize, source: isize): Option<isize> {
    var sum := CheckedIsize((dependency as int) + destination);
    if sum.None? then None else CheckedIsize((sum.value as int) - source)
  }

  // ---- Positions ----

  predicate IsPosition(x: int) {
    0 <= x <= ISIZE_MAX
  }

  /** Child source `p` is parent `x`, `p` leads to child destination `q`, and `q` is parent `y`. */
  predicate Carries(dependency: int, source: int, destination: int, p: int, x: int, q: int, y: int) {
    x == p + source && q == p + dependency && y == q + destination
  }

  /** Some positions are carried along on this axis. */
  ghost predicate Inhabited(dependency: int, source: int, destination: int) {
    exists p, x, q, y :: Carries(dependency, source, destination, p, x, q, y)
      && IsPosition(p) && IsPosition(x) && IsPosition(q) && IsPosition(y)
  }

  /** One carried position is enough for both checked sums to fit. */
  lemma InhabitedAxisFits(dependency: isize, destination: isize, source: isize)
    requires Inhabited(dependency, source, destination)
    ensures ShiftedAxis(dependency, destination, source).Some?
  {
    var p, x, q, y :| Carries(dependency, source, destination, p, x, q, y)
      && IsPosition(p) && IsPosition(x) && IsPosition(q) && IsPosition(y);
    assert (dependency as int) + destination == y - p;
  }

  /** The edge's offset links two parent positions exactly when the child's dependency does. */
  lemma OffsetCommutes(dependency: isize, destination: isize, source: isize, x: int, y: int)
    requires ShiftedAxis(dependency, destination, source).Some?
    ensures y - x == ShiftedAxis(dependency, destination, source).value
       <==> exists p, q :: Carries(dependency, source, destination, p, x, q, y)
  {
    if y - x == ShiftedAxis(dependency, destination, source).value {
      assert Carries(dependency, source, destination, x - source, x, x - source + dependency, y);
    }
  }

  // ---- The import ----

  /** Neither checked sum of the axis overflows. */
  predicate SumsFit(dependency: Option<isize>, source: int, destination: int) {
    dependency.Some? ==>
      var sum := dependency.value + destination;
      ISIZE_MIN <= sum <= ISIZE_MAX && ISIZE_MIN <= sum - source <= ISIZE_MAX
  }

  /** The edge between the two nodes has an offset on each linked axis. */
  predicate OffsetsFit(dependency: BitDependency, source: ResolvedNode, destination: ResolvedNode) {
    source.offset.Some? && destination.offset.Some? ==>
      && SumsFit(dependency.elements, source.offset.value.elements, destination.offset.value.elements)
      && SumsFit(dependency.bits, source.offset.value.bits, destination.offset.value.bits)
  }

  ghost predicate InhabitedAxis(dependency: Option<isize>, source: int, destination: int) {
    dependency.Some? ==> Inhabited(dependency.value, source, destination)
  }

  /** Both ends are mapped by offsets, and on each linked axis some position is carried. */
  ghost predicate Linked(dependency: BitDependency, source: ResolvedNode, destination: ResolvedNode) {
    source.offset.Some? && destination.offset.Some? ==>
      && InhabitedAxis(dependency.elements, source.offset.value.elements, destination.offset.value.elements)
      && InhabitedAxis(dependency.bits, source.offset.value.bits, destination.offset.value.bits)
  }

  /** One carried position on each linked axis is enough. */
  lemma LinkedFits(dependency: BitDependency, source: ResolvedNode, destination: ResolvedNode)
    requires Linked(dependency, source, destination)
    ensures OffsetsFit(dependency, source, destination)
  {
    if source.offset.Some? && destination.offset.Some? {
      if dependency.elements.Some? {
        InhabitedAxisFits(dependency.elements.value, destination.offset.value.elements, source.offset.value.elements);
      }
      if dependency.bits.Some? {
        InhabitedAxisFits(dependency.bits.value, destination.offset.value.bits, source.offset.value.bits);
      }
    }
  }

  function ShiftedKind(dependency: Option<isize>, destination: isize, source: isize): Option<isize> {
    if dependency.None? then None else ShiftedAxis(dependency.value, destination, source)
  }

  function EdgeKind(dependency: BitDependency, source: ResolvedNode, destination: ResolvedNode): BitDependency {
    if source.offset.Some? && destination.offset.Some? then
      BitDependency(
        ShiftedKind(dependency.elements, destination.offset.value.elements, source.offset.value.elements),
        ShiftedKind(dependency.bits, destination.offset.value.bits, source.offset.value.bits))
    else
      WHOLE
  }

  /** The edge from `source` to `destination`, if their conditions agree and the regions are not separate. */
  function ImportedEdge(i: Import, source: ResolvedNode, destination: ResolvedNode): Option<Edge> {
    var both := EdgeCondition(i, source, destination);
    var kind := EdgeKind(i.dependency, source, destination);
    if both.None? || i.Separate(source, destination, kind) then None
    else Some(Edge(Key(source.node, destination.node, kind), both.value))
  }

  /** No axis is lost: a linked axis of the dependency stays linked, by the offset that commutes. */
  lemma KindCommutes(dependency: BitDependency, source: ResolvedNode, destination: ResolvedNode, x: int, y: int)
    requires source.offset.Some? && destination.offset.Some? && OffsetsFit(dependency, source, destination)
    ensures var kind := EdgeKind(dependency, source, destination);
      && (kind.elements.Some? <==> dependency.elements.Some?)
      && (kind.bits.Some? <==> dependency.bits.Some?)
      && (kind.elements.Some? ==> (y - x == kind.elements.value <==> exists p, q ::
            Carries(dependency.elements.value, source.offset.value.elements, destination.offset.value.elements, p, x, q, y)))
      && (kind.bits.Some? ==> (y - x == kind.bits.value <==> exists p, q ::
            Carries(dependency.bits.value, source.offset.value.bits, destination.offset.value.bits, p, x, q, y)))
  {
    if dependency.elements.Some? {
      OffsetCommutes(dependency.elements.value, destination.offset.value.elements, source.offset.value.elements, x, y);
    }
    if dependency.bits.Some? {
      OffsetCommutes(dependency.bits.value, destination.offset.value.bits, source.offset.value.bits, x, y);
    }
  }

  function Stepped(i: Import, edges: Edges, source: ResolvedNode, destination: ResolvedNode): Edges {
    var e := ImportedEdge(i, source, destination);
    if e.None? then edges else AddDependencyEdge(i.conditions, edges, e.value)
  }

  function AddedTo(i: Import, edges: Edges, source: ResolvedNode, destinations: seq<ResolvedNode>): Edges {
    if destinations == [] then edges else
      var before, last := AddedTo(i, edges, source, destinations[..|destinations| - 1]), destinations[|destinations| - 1];
      Stepped(i, before, source, last)
  }

  /** All sources to all destinations, in order. */
  function Added(i: Import, edges: Edges, sources: seq<ResolvedNode>, destinations: seq<ResolvedNode>): Edges {
    if sources == [] then edges else
      AddedTo(i, Added(i, edges, sources[..|sources| - 1], destinations), sources[|sources| - 1], destinations)
  }

  method AddResolvedDependencyEdges(i: Import, edges: Edges, sources: seq<ResolvedNode>, destinations: seq<ResolvedNode>)
    returns (edges': Edges)
    // Otherwise one of the two `expect`s fires; `LinkedFits` says when they cannot.
    requires forall s, d | s in sources && d in destinations && EdgeCondition(i, s, d).Some? :: OffsetsFit(i.dependency, s, d)
    ensures edges' == Added(i, edges, sources, destinations)
  {
    edges' := edges;
    for k := 0 to |sources|
      invariant edges' == Added(i, edges, sources[..k], destinations)
    {
      var source := sources[k];
      assert source in sources;
      ghost var before := edges';
      for l := 0 to |destinations|
        invariant edges' == AddedTo(i, before, source, destinations[..l])
      {
        var destination := destinations[l];
        assert destination in destinations;
        assert destinations[..l + 1][..l] == destinations[..l];
        var both := EdgeCondition(i, source, destination);
        if both.None? { continue; }
        var kind := WHOLE;
        if source.offset.Some? && destination.offset.Some? {
          KindCommutes(i.dependency, source, destination, 0, 0);
          var elements := LinkAxis(i.dependency.elements, destination.offset.value.elements, source.offset.value.elements);
          var bits := LinkAxis(i.dependency.bits, destination.offset.value.bits, source.offset.value.bits);
          kind := BitDependency(elements, bits);
        }
        if i.Separate(source, destination, kind) { continue; }
        edges' := AddDependencyEdge(i.conditions, edges', Edge(Key(source.node, destination.node, kind), both.value));
      }
      assert destinations[..|destinations|] == destinations;
      assert sources[..k + 1][..k] == sources[..k];
    }
    assert sources[..|sources|] == sources;
  }

  /** The `expect`ed offset of one axis. */
  method LinkAxis(dependency: Option<isize>, destination: isize, source: isize) returns (r: Option<isize>)
    requires SumsFit(dependency, source, destination)
    ensures r == ShiftedKind(dependency, destination, source)
    ensures r.Some? <==> dependency.Some?
  {
    if dependency.None? { return None; }
    var sum: isize := dependency.value + destination;
    var offset: isize := sum - source;
    r := Some(offset);
  }

  // ---- What the import means ----

  /** `wider` has every edge of `edges`, at least as open. */
  ghost predicate Widens(conditions: Conditions, edges: Edges, wider: Edges) {
    forall k | k in edges :: k in wider && forall v | conditions.admits(edges[k], v) :: conditions.admits(wider[k], v)
  }

  /** The edge from `s` to `d` is imported: their conditions agree with the dependency's, and the two are not separate. */
  predicate Joins(i: Import, s: ResolvedNode, d: ResolvedNode) {
    EdgeCondition(i, s, d).Some? && !i.Separate(s, d, EdgeKind(i.dependency, s, d))
  }

  /** `edges` differs from `wider` only at the keys of imported edges. */
  ghost predicate ChangesOnly(i: Import, edges: Edges, wider: Edges, sources: seq<ResolvedNode>, destinations: seq<ResolvedNode>) {
    forall k | k in wider && (k !in edges || edges[k] != wider[k]) ::
      exists s, d :: s in sources && d in destinations && Joins(i, s, d) && KeyBetween(i, s, d) == k
  }

  predicate OpensAll(i: Import, s: ResolvedNode, d: ResolvedNode, v: Valuation) {
    i.conditions.admits(i.condition, v) && i.conditions.admits(s.condition, v) && i.conditions.admits(d.condition, v)
  }

  function KeyBetween(i: Import, s: ResolvedNode, d: ResolvedNode): Key {
    Key(s.node, d.node, EdgeKind(i.dependency, s, d))
  }

  /** The edge from `s` to `d` is there, and open. */
  predicate IsOpen(i: Import, edges: Edges, s: ResolvedNode, d: ResolvedNode, v: Valuation) {
    KeyBetween(i, s, d) in edges && i.conditions.admits(edges[KeyBetween(i, s, d)], v)
  }

  /** Unless the two are separate, the edge from `s` to `d` is open whenever the dependency and both ends are. */
  ghost predicate Covered(i: Import, edges: Edges, s: ResolvedNode, d: ResolvedNode) {
    forall v | OpensAll(i, s, d, v) :: i.Separate(s, d, EdgeKind(i.dependency, s, d)) || IsOpen(i, edges, s, d, v)
  }

  lemma StepWidens(conditions: Conditions, edges: Edges, e: Edge)
    requires conditions.Lawful()
    ensures Widens(conditions, edges, AddDependencyEdge(conditions, edges, e))
    ensures var wider := AddDependencyEdge(conditions, edges, e);
      e.key in wider && forall v | conditions.admits(e.condition, v) :: conditions.admits(wider[e.key], v)
  {
    if e.key in edges {
      var present := edges[e.key];
      forall v | conditions.admits(present, v) || conditions.admits(e.condition, v)
        ensures conditions.admits(conditions.disjoin(present, e.condition), v)
      {
        assert conditions.Meets(present, e.condition, v) && conditions.Covers(present, e.condition, v);
      }
    }
  }

  lemma CoveredStays(i: Import, edges: Edges, wider: Edges, s: ResolvedNode, d: ResolvedNode)
    requires Covered(i, edges, s, d) && Widens(i.conditions, edges, wider)
    ensures Covered(i, wider, s, d)
  {
  }

  /** The condition of an imported edge is the conjunction of all three. */
  lemma EdgeConditionIsExact(i: Import, s: ResolvedNode, d: ResolvedNode, v: Valuation)
    requires i.conditions.Lawful()
    ensures EdgeCondition(i, s, d).Some? && i.conditions.admits(EdgeCondition(i, s, d).value, v) <==> OpensAll(i, s, d, v)
  {
    assert i.conditions.Meets(i.condition, s.condition, v);
    var first := i.conditions.conjoin(i.condition, s.condition);
    if first.Some? { assert i.conditions.Meets(first.value, d.condition, v); }
  }

  lemma StepCovers(i: Import, edges: Edges, s: ResolvedNode, d: ResolvedNode)
    requires i.conditions.Lawful()
    ensures Covered(i, Stepped(i, edges, s, d), s, d) && Widens(i.conditions, edges, Stepped(i, edges, s, d))
  {
    forall v | OpensAll(i, s, d, v)
      ensures EdgeCondition(i, s, d).Some? && i.conditions.admits(EdgeCondition(i, s, d).value, v)
    {
      EdgeConditionIsExact(i, s, d, v);
    }
    if ImportedEdge(i, s, d).Some? { StepWidens(i.conditions, edges, ImportedEdge(i, s, d).value); }
  }

  lemma {:induction false} AddedToCovers(i: Import, edges: Edges, source: ResolvedNode, destinations: seq<ResolvedNode>)
    requires i.conditions.Lawful()
    ensures Widens(i.conditions, edges, AddedTo(i, edges, source, destinations))
    ensures forall d | d in destinations :: Covered(i, AddedTo(i, edges, source, destinations), source, d)
  {
    if destinations != [] {
      var front, last := destinations[..|destinations| - 1], destinations[|destinations| - 1];
      var before, after := AddedTo(i, edges, source, front), AddedTo(i, edges, source, destinations);
      AddedToCovers(i, edges, source, front);
      StepCovers(i, before, source, last);
      forall d | d in destinations ensures Covered(i, after, source, d) {
        if d in front { CoveredStays(i, before, after, source, d); } else { assert d == last; }
      }
    }
  }

  /**
   * Nothing is lost: the old edges only widen, and between every mapped source and destination that
   * are not separate the edge is open under every valuation that opens the dependency and both ends.
   */
  lemma {:induction false} ImportCovers(i: Import, edges: Edges, sources: seq<ResolvedNode>, destinations: seq<ResolvedNode>)
    requires i.conditions.Lawful()
    ensures Widens(i.conditions, edges, Added(i, edges, sources, destinations))
    ensures forall s, d | s in sources && d in destinations :: Covered(i, Added(i, edges, sources, destinations), s, d)
  {
    if sources != [] {
      var front, last := sources[..|sources| - 1], sources[|sources| - 1];
      var before, after := Added(i, edges, front, destinations), Added(i, edges, sources, destinations);
      ImportCovers(i, edges, front, destinations);
      AddedToCovers(i, before, last, destinations);
      forall s, d | s in sources && d in destinations ensures Covered(i, after, s, d) {
        if s in front { CoveredStays(i, before, after, s, d); } else { assert s == last; }
      }
    }
  }

  /** The source has position (a, p), if it says what positions it has. */
  predicate SourceHolds(i: Import, s: ResolvedNode, a: int, p: int) {
    i.graph(s.node).diagnosed ==> ExtentOf(i.SourceBox(s)).Some? && i.SourceBox(s).Holds(a, p)
  }

  predicate DestinationHolds(i: Import, d: ResolvedNode, a: int, p: int) {
    i.graph(d.node).diagnosed ==> ExtentOf(i.DestinationBox(d)).Some? && i.DestinationBox(d).Holds(a, p)
  }

  /** No edge is dropped that leads from a position of its source to one of its destination. */
  lemma LinkedIsOpen(i: Import, edges: Edges, sources: seq<ResolvedNode>, destinations: seq<ResolvedNode>,
                     s: ResolvedNode, d: ResolvedNode, v: Valuation, a: int, p: int, b: int, q: int)
    requires i.conditions.Lawful() && s in sources && d in destinations && OpensAll(i, s, d, v)
    requires SourceHolds(i, s, a, p) && DestinationHolds(i, d, b, q) && Leads(EdgeKind(i.dependency, s, d), a, p, b, q)
    ensures IsOpen(i, Added(i, edges, sources, destinations), s, d, v)
  {
    ImportCovers(i, edges, sources, destinations);
    assert Covered(i, Added(i, edges, sources, destinations), s, d);
    if i.graph(s.node).diagnosed && i.graph(d.node).diagnosed {
      assert Related(i.SourceBox(s), i.DestinationBox(d), EdgeKind(i.dependency, s, d));
      RelatedOverlap(i.SourceBox(s), i.DestinationBox(d), EdgeKind(i.dependency, s, d));
    }
  }

  lemma {:induction false} AddedToChangesOnly(i: Import, edges: Edges, source: ResolvedNode, destinations: seq<ResolvedNode>)
    ensures ChangesOnly(i, edges, AddedTo(i, edges, source, destinations), [source], destinations)
  {
    if destinations != [] {
      var front := destinations[..|destinations| - 1];
      AddedToChangesOnly(i, edges, source, front);
      assert forall d | d in front :: d in destinations;
      assert destinations[|destinations| - 1] in destinations && source in [source];
    }
  }

  /** Nothing is invented: only the keys of imported edges change. */
  lemma {:induction false} ImportChangesOnly(i: Import, edges: Edges, sources: seq<ResolvedNode>, destinations: seq<ResolvedNode>)
    ensures ChangesOnly(i, edges, Added(i, edges, sources, destinations), sources, destinations)
  {
    if sources != [] {
      var front, last := sources[..|sources| - 1], sources[|sources| - 1];
      var before := Added(i, edges, front, destinations);
      ImportChangesOnly(i, edges, front, destinations);
      AddedToChangesOnly(i, before, last, destinations);
      assert forall s | s in front :: s in sources;
      assert last in sources;
      assert forall s | s in [last] :: s == last;
    }
  }

  // ---- Nothing is opened beyond need ----

  /** Condition `c` covers every imported edge with key `k`. */
  ghost predicate CoversJoined(i: Import, sources: seq<ResolvedNode>, destinations: seq<ResolvedNode>, k: Key, c: PathCondition) {
    forall s, d, v | s in sources && d in destinations && Joins(i, s, d) && KeyBetween(i, s, d) == k && OpensAll(i, s, d, v) ::
      i.conditions.admits(c, v)
  }

  /** The edge with key `k`, if any, is open only where `c` admits it. */
  ghost predicate Under(i: Import, edges: Edges, k: Key, c: PathCondition) {
    k in edges ==> i.conditions.Within(edges[k], c)
  }

  lemma StepStaysUnder(i: Import, edges: Edges, s: ResolvedNode, d: ResolvedNode, k: Key, c: PathCondition)
    requires i.conditions.Lawful() && i.conditions.LeastCovers() && Under(i, edges, k, c)
    requires forall v | Joins(i, s, d) && KeyBetween(i, s, d) == k && OpensAll(i, s, d, v) :: i.conditions.admits(c, v)
    ensures Under(i, Stepped(i, edges, s, d), k, c)
  {
    if Joins(i, s, d) && KeyBetween(i, s, d) == k {
      var both := EdgeCondition(i, s, d).value;
      forall v | i.conditions.admits(both, v) ensures i.conditions.admits(c, v) { EdgeConditionIsExact(i, s, d, v); }
      assert i.conditions.Within(both, c);
    }
  }

  lemma {:induction false} AddedToStaysUnder(i: Import, edges: Edges, source: ResolvedNode, destinations: seq<ResolvedNode>, k: Key, c: PathCondition)
    requires i.conditions.Lawful() && i.conditions.LeastCovers() && Under(i, edges, k, c)
    requires CoversJoined(i, [source], destinations, k, c)
    ensures Under(i, AddedTo(i, edges, source, destinations), k, c)
  {
    if destinations != [] {
      var front, last := destinations[..|destinations| - 1], destinations[|destinations| - 1];
      assert last in destinations && forall d | d in front :: d in destinations;
      assert source in [source];
      AddedToStaysUnder(i, edges, source, front, k, c);
      StepStaysUnder(i, AddedTo(i, edges, source, front), source, last, k, c);
    }
  }

  /**
   * After the import the condition of an edge is the least one that covers its old condition and
   * that of every imported edge with its key: whatever condition `c` covers these covers it.
   */
  lemma {:induction false} ImportIsLeast(i: Import, edges: Edges, sources: seq<ResolvedNode>, destinations: seq<ResolvedNode>, k: Key, c: PathCondition)
    requires i.conditions.Lawful() && i.conditions.LeastCovers() && Under(i, edges, k, c)
    requires CoversJoined(i, sources, destinations, k, c)
    ensures Under(i, Added(i, edges, sources, destinations), k, c)
  {
    if sources != [] {
      var front, last := sources[..|sources| - 1], sources[|sources| - 1];
      assert last in sources && forall s | s in front :: s in sources;
      ImportIsLeast(i, edges, front, destinations, k, c);
      forall s, d, v | s in [last] && d in destinations && Joins(i, s, d) && KeyBetween(i, s, d) == k && OpensAll(i, s, d, v)
        ensures i.conditions.admits(c, v)
      {
        assert s == last;
      }
      AddedToStaysUnder(i, Added(i, edges, front, destinations), last, destinations, k, c);
    }
  }

  /** An edge of the import that is open with its dependency and both nodes. */
  ghost predicate OpenedBy(i: Import, sources: seq<ResolvedNode>, destinations: seq<ResolvedNode>, k: Key, v: Valuation) {
    exists s, d :: s in sources && d in destinations && Joins(i, s, d) && KeyBetween(i, s, d) == k && OpensAll(i, s, d, v)
  }

  ghost predicate Opens(i: Import, edges: Edges, k: Key, v: Valuation) {
    k in edges && i.conditions.admits(edges[k], v)
  }

  lemma StepOpensOnly(i: Import, edges: Edges, s: ResolvedNode, d: ResolvedNode, k: Key, v: Valuation)
    requires i.conditions.Lawful() && i.conditions.ExactUnion() && Opens(i, Stepped(i, edges, s, d), k, v)
    ensures Opens(i, edges, k, v) || (Joins(i, s, d) && KeyBetween(i, s, d) == k && OpensAll(i, s, d, v))
  {
    if Joins(i, s, d) && KeyBetween(i, s, d) == k { EdgeConditionIsExact(i, s, d, v); }
  }

  lemma {:induction false} AddedToOpensOnly(i: Import, edges: Edges, source: ResolvedNode, destinations: seq<ResolvedNode>, k: Key, v: Valuation)
    requires i.conditions.Lawful() && i.conditions.ExactUnion() && Opens(i, AddedTo(i, edges, source, destinations), k, v)
    ensures Opens(i, edges, k, v) || OpenedBy(i, [source], destinations, k, v)
  {
    if destinations != [] {
      var front, last := destinations[..|destinations| - 1], destinations[|destinations| - 1];
      assert last in destinations && source in [source] && forall d | d in front :: d in destinations;
      StepOpensOnly(i, AddedTo(i, edges, source, front), source, last, k, v);
      if Opens(i, AddedTo(i, edges, source, front), k, v) { AddedToOpensOnly(i, edges, source, front, k, v); }
    }
  }

  /** If disjunction covers no more than the union, an edge is open only where it was, or where an imported one is. */
  lemma {:induction false} ImportOpensOnly(i: Import, edges: Edges, sources: seq<ResolvedNode>, destinations: seq<ResolvedNode>, k: Key, v: Valuation)
    requires i.conditions.Lawful() && i.conditions.ExactUnion() && Opens(i, Added(i, edges, sources, destinations), k, v)
    ensures Opens(i, edges, k, v) || OpenedBy(i, sources, destinations, k, v)
  {
    if sources != [] {
      var front, last := sources[..|sources| - 1], sources[|sources| - 1];
      assert last in sources && forall s | s in front :: s in sources;
      AddedToOpensOnly(i, Added(i, edges, front, destinations), last, destinations, k, v);
      if Opens(i, Added(i, edges, front, destinations), k, v) { ImportOpensOnly(i, edges, front, destinations, k, v); }
    }
  }

  /** A new edge that comes from one pair of nodes is open exactly where the dependency and both nodes are. */
  lemma NewEdgeIsExact(i: Import, edges: Edges, sources: seq<ResolvedNode>, destinations: seq<ResolvedNode>,
                       s: ResolvedNode, d: ResolvedNode, v: Valuation)
    requires i.conditions.Lawful() && i.conditions.LeastCovers()
    requires s in sources && d in destinations && Joins(i, s, d) && KeyBetween(i, s, d) !in edges
    requires forall x, y | x in sources && y in destinations && Joins(i, x, y) && KeyBetween(i, x, y) == KeyBetween(i, s, d) :: x == s && y == d
    ensures IsOpen(i, Added(i, edges, sources, destinations), s, d, v) <==> OpensAll(i, s, d, v)
  {
    var k, c := KeyBetween(i, s, d), EdgeCondition(i, s, d).value;
    forall x, y, w | x in sources && y in destinations && Joins(i, x, y) && KeyBetween(i, x, y) == k && OpensAll(i, x, y, w)
      ensures i.conditions.admits(c, w)
    {
      EdgeConditionIsExact(i, s, d, w);
    }
    ImportIsLeast(i, edges, sources, destinations, k, c);
    ImportCovers(i, edges, sources, destinations);
    assert Covered(i, Added(i, edges, sources, destinations), s, d);
    EdgeConditionIsExact(i, s, d, v);
  }
}
