/** A dependency between two child regions, imported: which parent positions its edges link. */
module ImportedRegions {
  import opened Options
  import opened SourceTokens
  import opened MachineIntegers
  import opened Spans
  import opened RegionProjections
  import opened RegionOverlaps
  import opened OutputFragments
  import opened OutputAccesses
  import opened ImportedEdges

  /** How the positions of parent variables are split into nodes. */
  datatype Nodes = Nodes(partition: BitPartition, node: NodeKey -> NodeIndex, condition: PathCondition) {
    predicate InKey(key: NodeKey, id: VarId, a: int, p: int) {
      && key.id == id && key.elements.Holds(a)
      && var ranges := RangesOf(partition, key.id, key.elements);
         key.range < |ranges| && ranges[key.range].Holds(p)
    }

    function Resolved(key: NodeKey, x: OutputAccess): ResolvedNode {
      ResolvedNode(node(key), Some(x.offset), condition, Some(DomainOf(x.elements, x.bits)))
    }

    /** The node of a key covers its interval, and belongs to the module itself. */
    predicate Stored(key: NodeKey, graph: NodeIndex -> GraphNode) {
      var ranges := RangesOf(partition, key.id, key.elements);
      key.range < |ranges| ==>
        graph(node(key)) == GraphNode(SummaryRegion(key.id, key.elements, ranges[key.range]), [DomainOf(key.elements, ranges[key.range])], true)
        && key.elements.start + key.elements.length <= ISIZE_MAX && PackedEnd(ranges[key.range]) <= ISIZE_MAX
    }

    /** Every key's interval fits in memory, and its node covers just that. */
    ghost predicate InGraph(graph: NodeIndex -> GraphNode) {
      forall key :: Stored(key, graph)
    }

    /** The access lies in nodes, and all of these are mapped with its offset. */
    ghost predicate Maps(x: OutputAccess, mapped: seq<ResolvedNode>) {
      forall a, p | x.elements.Holds(a) && x.bits.Holds(p) ::
        exists key :: InKey(key, x.parent, a, p) && Resolved(key, x) in mapped
    }
  }

  /** One end of the dependency: a region of a child variable, the accesses it has in the parent, and their nodes. */
  datatype End = End(fragments: seq<OutputFragment>, arrayLength: usize, width: usize, region: SummaryRegion,
                     accesses: seq<OutputAccess>, mapped: seq<ResolvedNode>)
  {
    ghost predicate Ok(nodes: Nodes) {
      && Whole(fragments, arrayLength, width) && (forall f | f in fragments :: SameShape(f))
      && region.elements.End().Some? && LinearScan(fragments, region) == Some(accesses)
      && InMemory() && forall x | x in accesses :: nodes.Maps(x, mapped)
    }

    /** Variables have no more positions than memory. */
    predicate InMemory() {
      && arrayLength <= ISIZE_MAX && width <= ISIZE_MAX
      && forall x | x in accesses :: x.elements.start + x.elements.length <= ISIZE_MAX && PackedEnd(x.bits) <= ISIZE_MAX
    }

    predicate Has(a: int, p: int) {
      region.Holds(a, p) && InExtent(arrayLength, width, a, p)
    }

    /** Access `k` puts child position (a, p) on parent position (pa, pp). */
    predicate Puts(k: int, a: int, p: int, pa: int, pp: int) {
      && 0 <= k < |accesses| && accesses[k].elements.Holds(pa) && accesses[k].bits.Holds(pp)
      && pa == a + accesses[k].offset.elements && pp == p + accesses[k].offset.bits
    }
  }

  /** What accesses put somewhere are exactly the positions of the end. */
  lemma PutIffHas(nodes: Nodes, end: End, a: int, p: int)
    requires end.Ok(nodes)
    ensures end.Has(a, p) <==> exists k, pa, pp :: end.Puts(k, a, p, pa, pp)
  {
    EachPositionOnce(end.fragments, end.arrayLength, end.width, end.region, end.accesses, a, p);
    if end.Has(a, p) {
      var k :| TakenBy(end.accesses, k, a, p);
      assert end.Puts(k, a, p, a + end.accesses[k].offset.elements, p + end.accesses[k].offset.bits);
    }
    if k, pa, pp :| end.Puts(k, a, p, pa, pp) {
      assert TakenBy(end.accesses, k, a, p);
    }
  }

  /** The edge between two accesses has an offset on just the linked axes of the dependency, and leads where the dependency does. */
  lemma EdgeLeadsAlike(d: BitDependency, nodes: Nodes, source: End, destination: End, k: int, l: int, s: ResolvedNode, t: ResolvedNode,
                       a: int, p: int, pa: int, pp: int, b: int, q: int, qa: int, qp: int)
    requires source.Puts(k, a, p, pa, pp) && destination.Puts(l, b, q, qa, qp)
    requires s.offset == Some(source.accesses[k].offset) && t.offset == Some(destination.accesses[l].offset)
    requires OffsetsFit(d, s, t)
    ensures var kind := EdgeKind(d, s, t);
      && (kind.elements.Some? <==> d.elements.Some?) && (kind.bits.Some? <==> d.bits.Some?)
      && (Leads(kind, pa, pp, qa, qp) <==> Leads(d, a, p, b, q))
  {
  }

  lemma PutIsCarried(d: BitDependency, nodes: Nodes, source: End, destination: End, k: int, l: int, s: ResolvedNode, t: ResolvedNode,
                     a: int, p: int, pa: int, pp: int, b: int, q: int, qa: int, qp: int)
    requires source.Ok(nodes) && destination.Ok(nodes)
    requires source.Puts(k, a, p, pa, pp) && destination.Puts(l, b, q, qa, qp) && Leads(d, a, p, b, q)
    requires s.offset == Some(source.accesses[k].offset) && t.offset == Some(destination.accesses[l].offset)
    ensures OffsetsFit(d, s, t)
  {
    PutIffHas(nodes, source, a, p);
    PutIffHas(nodes, destination, b, q);
    assert source.accesses[k] in source.accesses && destination.accesses[l] in destination.accesses;
    if d.elements.Some? {
      assert Carries(d.elements.value, s.offset.value.elements, t.offset.value.elements, a, pa, b, qa);
    }
    if d.bits.Some? {
      assert Carries(d.bits.value, s.offset.value.bits, t.offset.value.bits, p, pp, q, qp);
    }
    LinkedFits(d, s, t);
  }

  /** An open edge from a node at (pa, pp) to a node at (qa, qp) that leads from the one to the other. */
  ghost predicate LinksParents(i: Import, nodes: Nodes, edges: Edges, v: Valuation, x: OutputAccess, y: OutputAccess,
                               pa: int, pp: int, qa: int, qp: int)
  {
    exists s, t ::
      && nodes.InKey(s, x.parent, pa, pp) && nodes.InKey(t, y.parent, qa, qp)
      && var from := nodes.Resolved(s, x);
         var to := nodes.Resolved(t, y);
         var kind := EdgeKind(i.dependency, from, to);
      && (kind.elements.Some? <==> i.dependency.elements.Some?) && (kind.bits.Some? <==> i.dependency.bits.Some?)
      && Leads(kind, pa, pp, qa, qp)
      && IsOpen(i, edges, from, to, v)
  }

  /** Wherever the accesses put a pair of child positions that the dependency carries, the import links the two. */
  lemma PutPairIsLinked(i: Import, nodes: Nodes, edges: Edges, source: End, destination: End, v: Valuation, k: int, l: int,
                        a: int, p: int, pa: int, pp: int, b: int, q: int, qa: int, qp: int)
    requires i.conditions.Lawful() && source.Ok(nodes) && destination.Ok(nodes) && nodes.InGraph(i.graph)
    requires source.Puts(k, a, p, pa, pp) && destination.Puts(l, b, q, qa, qp) && Leads(i.dependency, a, p, b, q)
    requires i.conditions.admits(i.condition, v) && i.conditions.admits(nodes.condition, v)
    ensures LinksParents(i, nodes, Added(i, edges, source.mapped, destination.mapped), v,
                         source.accesses[k], destination.accesses[l], pa, pp, qa, qp)
  {
    var x, y := source.accesses[k], destination.accesses[l];
    assert x in source.accesses && y in destination.accesses;
    assert nodes.Maps(x, source.mapped) && nodes.Maps(y, destination.mapped);
    var s :| nodes.InKey(s, x.parent, pa, pp) && nodes.Resolved(s, x) in source.mapped;
    var t :| nodes.InKey(t, y.parent, qa, qp) && nodes.Resolved(t, y) in destination.mapped;
    var from, to := nodes.Resolved(s, x), nodes.Resolved(t, y);
    PutIsCarried(i.dependency, nodes, source, destination, k, l, from, to, a, p, pa, pp, b, q, qa, qp);
    EdgeLeadsAlike(i.dependency, nodes, source, destination, k, l, from, to, a, p, pa, pp, b, q, qa, qp);
    assert nodes.Stored(s, i.graph);
    LinkedIsOpen(i, edges, source.mapped, destination.mapped, from, to, v, pa, pp, qa, qp);
  }

  /**
   * Every pair of child positions that the dependency carries has its one pair of parent positions,
   * and the import links these two.
   */
  lemma CarriedPairIsLinked(i: Import, nodes: Nodes, edges: Edges, source: End, destination: End, v: Valuation, a: int, p: int, b: int, q: int)
    requires i.conditions.Lawful() && source.Ok(nodes) && destination.Ok(nodes) && nodes.InGraph(i.graph)
    requires source.Has(a, p) && destination.Has(b, q) && Leads(i.dependency, a, p, b, q)
    requires i.conditions.admits(i.condition, v) && i.conditions.admits(nodes.condition, v)
    ensures exists k, l, pa, pp, qa, qp ::
      && source.Puts(k, a, p, pa, pp) && destination.Puts(l, b, q, qa, qp)
      && LinksParents(i, nodes, Added(i, edges, source.mapped, destination.mapped), v,
                      source.accesses[k], destination.accesses[l], pa, pp, qa, qp)
    ensures forall k, pa, pp, k', pa', pp' | source.Puts(k, a, p, pa, pp) && source.Puts(k', a, p, pa', pp') :: (k, pa, pp) == (k', pa', pp')
    ensures forall l, qa, qp, l', qa', qp' | destination.Puts(l, b, q, qa, qp) && destination.Puts(l', b, q, qa', qp') :: (l, qa, qp) == (l', qa', qp')
  {
    PutIffHas(nodes, source, a, p);
    PutIffHas(nodes, destination, b, q);
    var k, pa, pp :| source.Puts(k, a, p, pa, pp);
    var l, qa, qp :| destination.Puts(l, b, q, qa, qp);
    PutPairIsLinked(i, nodes, edges, source, destination, v, k, l, a, p, pa, pp, b, q, qa, qp);
    PutOnce(nodes, source, a, p);
    PutOnce(nodes, destination, b, q);
  }

  lemma PutOnce(nodes: Nodes, end: End, a: int, p: int)
    requires end.Ok(nodes)
    ensures forall k, pa, pp, k', pa', pp' | end.Puts(k, a, p, pa, pp) && end.Puts(k', a, p, pa', pp') :: (k, pa, pp) == (k', pa', pp')
  {
    EachPositionOnce(end.fragments, end.arrayLength, end.width, end.region, end.accesses, a, p);
    forall k, pa, pp, k', pa', pp' | end.Puts(k, a, p, pa, pp) && end.Puts(k', a, p, pa', pp')
      ensures (k, pa, pp) == (k', pa', pp')
    {
      assert TakenBy(end.accesses, k, a, p) && TakenBy(end.accesses, k', a, p);
    }
  }

  /**
   * And no other positions are linked: parent positions of two accesses that the edge between them
   * leads from one to the other are those of a pair of child positions that the dependency carries.
   */
  lemma LinkedPairIsCarried(d: BitDependency, nodes: Nodes, source: End, destination: End, k: int, l: int, s: ResolvedNode, t: ResolvedNode,
                            pa: int, pp: int, qa: int, qp: int)
    requires source.Ok(nodes) && destination.Ok(nodes) && 0 <= k < |source.accesses| && 0 <= l < |destination.accesses|
    requires s.offset == Some(source.accesses[k].offset) && t.offset == Some(destination.accesses[l].offset) && OffsetsFit(d, s, t)
    requires source.accesses[k].elements.Holds(pa) && source.accesses[k].bits.Holds(pp)
    requires destination.accesses[l].elements.Holds(qa) && destination.accesses[l].bits.Holds(qp)
    requires Leads(EdgeKind(d, s, t), pa, pp, qa, qp)
    ensures exists a, p, b, q ::
      && source.Has(a, p) && destination.Has(b, q) && Leads(d, a, p, b, q)
      && source.Puts(k, a, p, pa, pp) && destination.Puts(l, b, q, qa, qp)
  {
    var x, y := source.accesses[k].offset, destination.accesses[l].offset;
    var a, p, b, q := pa - x.elements, pp - x.bits, qa - y.elements, qp - y.bits;
    assert source.Puts(k, a, p, pa, pp) && destination.Puts(l, b, q, qa, qp);
    PutIffHas(nodes, source, a, p);
    PutIffHas(nodes, destination, b, q);
    EdgeLeadsAlike(d, nodes, source, destination, k, l, s, t, a, p, pa, pp, b, q, qa, qp);
  }
}
