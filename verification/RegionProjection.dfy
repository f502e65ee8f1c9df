/** Which positions of a child source reach a parent node through a child destination. */
module RegionProjections {
  import opened Options
  import opened SourceTokens
  import opened MachineIntegers
  import opened Spans

  /** A summary region: the positions `elements` x `bits` of one variable. */
  datatype SummaryRegion = SummaryRegion(id: VarId, elements: ArraySpan, bits: PackedSpan) {
    predicate Holds(a: int, p: int) {
      elements.Holds(a) && bits.Holds(p)
    }
  }

  /** A node is one interval of packed bits of one split interval of elements of a variable. */
  datatype NodeKey = NodeKey(id: VarId, elements: ArraySpan, range: nat)

  datatype Offset = Offset(elements: isize, bits: isize)

  /** A parent node, and the offset that maps child positions onto its positions when it is known. */
  datatype MappedNode = MappedNode(key: NodeKey, offset: Option<Offset>)

  type BitPartition = map<(VarId, ArraySpan), seq<PackedSpan>>

  function RangesOf(partition: BitPartition, id: VarId, elements: ArraySpan): seq<PackedSpan> {
    if (id, elements) in partition then partition[(id, elements)] else []
  }

  function CheckedNeg(x: isize): Option<isize> {
    CheckedIsize(-(x as int))
  }

  datatype RegionProjection = Exact(region: SummaryRegion) | Disjoint | Unknown

  /** Where a child destination meets a parent node: not known, nowhere, or at an interval on each axis. */
  datatype Landing = Lost | Nowhere | At(elements: ArraySpan, bits: PackedSpan)

  /** The first half: the parent node's positions seen from the child, where they meet its destination. */
  function LandingOf(childDestination: SummaryRegion, destination: MappedNode, partition: BitPartition): Landing {
    var ranges := RangesOf(partition, destination.key.id, destination.key.elements);
    if destination.offset.None? || |ranges| <= destination.key.range then Lost else
      var arrayBack := CheckedNeg(destination.offset.value.elements);
      var packedBack := CheckedNeg(destination.offset.value.bits);
      if arrayBack.None? || packedBack.None? then Lost else
        var elements := TranslateArraySpan(destination.key.elements, arrayBack.value);
        var bits := TranslatePackedSpan(ranges[destination.key.range], packedBack.value);
        if elements.None? || bits.None? then Lost else
          var elements := elements.value.Intersection(childDestination.elements);
          var bits := PackedIntersection(bits.value, childDestination.bits);
          if elements.None? || bits.None? then Nowhere else At(elements.value, bits.value)
  }

  function ChildSourceRegionForDestination(
    childSource: SummaryRegion, childDestination: SummaryRegion,
    dependencyArray: isize, dependencyPacked: isize,
    destination: MappedNode, partition: BitPartition): RegionProjection
  {
    match LandingOf(childDestination, destination, partition)
    case Lost => Unknown
    case Nowhere => Disjoint
    case At(elements, bits) => SourceOf(childSource, dependencyArray, dependencyPacked, elements, bits)
  }

  /** The second half: from the child destination's positions back along the dependency. */
  function SourceOf(childSource: SummaryRegion, dependencyArray: isize, dependencyPacked: isize,
                    destinationArray: ArraySpan, destinationPacked: PackedSpan): RegionProjection
  {
    var arrayBack := CheckedNeg(dependencyArray);
    var packedBack := CheckedNeg(dependencyPacked);
    if arrayBack.None? || packedBack.None? then Unknown else
      var elements := TranslateArraySpan(destinationArray, arrayBack.value);
      var bits := TranslatePackedSpan(destinationPacked, packedBack.value);
      if elements.None? || bits.None? then Unknown else
        var elements := elements.value.Intersection(childSource.elements);
        var bits := PackedIntersection(bits.value, childSource.bits);
        if elements.None? || bits.None? then Disjoint else
          Exact(SummaryRegion(childSource.id, elements.value, bits.value))
  }

  // ---- What the projection should be, position by position ----

  predicate Known(destination: MappedNode, partition: BitPartition) {
    && destination.offset.Some?
    && destination.key.range < |RangesOf(partition, destination.key.id, destination.key.elements)|
  }

  function ParentPacked(destination: MappedNode, partition: BitPartition): PackedSpan
    requires Known(destination, partition)
  {
    RangesOf(partition, destination.key.id, destination.key.elements)[destination.key.range]
  }

  /** Child destination position (a, p) lands in the parent node. */
  predicate Lands(childDestination: SummaryRegion, destination: MappedNode, partition: BitPartition, a: int, p: int)
    requires Known(destination, partition)
  {
    && childDestination.Holds(a, p)
    && destination.key.elements.Holds(a + destination.offset.value.elements)
    && ParentPacked(destination, partition).Holds(p + destination.offset.value.bits)
  }

  /** Child source position (a, p) reaches the parent node along the dependency. */
  predicate Feeds(childSource: SummaryRegion, childDestination: SummaryRegion, dependencyArray: int, dependencyPacked: int,
                  destination: MappedNode, partition: BitPartition, a: int, p: int)
    requires Known(destination, partition)
  {
    childSource.Holds(a, p) && Lands(childDestination, destination, partition, a + dependencyArray, p + dependencyPacked)
  }

  /** A whole parent interval can be moved back by `offset`: it holds something, and every position stays representable. */
  predicate MovesBack(start: int, length: int, offset: int) {
    offset != ISIZE_MIN && length != 0 && Representable(start - offset) && Representable(start + length - 1 - offset)
  }

  /** The destination positions are known, and so are the parent node's positions seen from the child. */
  predicate ParentSeenFromChild(destination: MappedNode, partition: BitPartition) {
    && Known(destination, partition)
    && var parent := ParentPacked(destination, partition);
       var offset := destination.offset.value;
    && MovesBack(destination.key.elements.start, destination.key.elements.length, offset.elements)
    && MovesBack(parent.start, parent.length, offset.bits)
    // The two negations come first, so one unrepresentable offset is enough.
    && offset.elements != ISIZE_MIN && offset.bits != ISIZE_MIN
  }

  /** Every landing position steps back along the dependency to a representable position. */
  ghost predicate SourcesRepresentable(childDestination: SummaryRegion, dependencyArray: int, dependencyPacked: int,
                                       destination: MappedNode, partition: BitPartition)
    requires Known(destination, partition)
  {
    forall a, p | Lands(childDestination, destination, partition, a, p) ::
      && dependencyArray != ISIZE_MIN && dependencyPacked != ISIZE_MIN
      && Representable(a - dependencyArray) && Representable(p - dependencyPacked)
  }

  lemma SourceOfIsUnknown(childSource: SummaryRegion, dependencyArray: isize, dependencyPacked: isize,
                          elements: ArraySpan, bits: PackedSpan)
    requires elements.length != 0
    ensures SourceOf(childSource, dependencyArray, dependencyPacked, elements, bits).Unknown? <==>
      !(MovesBack(elements.start, elements.length, dependencyArray) && MovesBack(bits.start, bits.length, dependencyPacked))
  {
  }

  /** One axis of a step back: the source positions that lead into the interval. */
  lemma StepBackArray(elements: ArraySpan, d: isize, source: ArraySpan)
    requires source.End().Some? && MovesBack(elements.start, elements.length, d)
    ensures TranslateArraySpan(elements, -d).Some?
    ensures var r := TranslateArraySpan(elements, -d).value.Intersection(source);
      && (r.Some? ==> forall a :: r.value.Holds(a) <==> source.Holds(a) && elements.Holds(a + d))
      && (r.None? ==> forall a :: !(source.Holds(a) && elements.Holds(a + d)))
  {
    TranslateArrayHolds(elements, -d);
    ArrayIntersectionHolds(TranslateArraySpan(elements, -d).value, source);
  }

  lemma StepBackPacked(bits: PackedSpan, d: isize, source: PackedSpan)
    requires MovesBack(bits.start, bits.length, d)
    ensures TranslatePackedSpan(bits, -d).Some?
    ensures var r := PackedIntersection(TranslatePackedSpan(bits, -d).value, source);
      && (r.Some? ==> forall p :: r.value.Holds(p) <==> source.Holds(p) && bits.Holds(p + d))
      && (r.None? ==> forall p :: !(source.Holds(p) && bits.Holds(p + d)))
  {
    TranslatePackedHolds(bits, -d);
    PackedIntersectionHolds(TranslatePackedSpan(bits, -d).value, source);
  }

  lemma SourceOfIsExact(childSource: SummaryRegion, dependencyArray: isize, dependencyPacked: isize,
                        elements: ArraySpan, bits: PackedSpan)
    requires childSource.elements.End().Some? && elements.length != 0
    requires MovesBack(elements.start, elements.length, dependencyArray) && MovesBack(bits.start, bits.length, dependencyPacked)
    ensures var r := SourceOf(childSource, dependencyArray, dependencyPacked, elements, bits);
      && (r.Exact? ==> r.region.id == childSource.id)
      && (r.Exact? ==> forall a, p :: r.region.Holds(a, p) <==>
            childSource.Holds(a, p) && elements.Holds(a + dependencyArray) && bits.Holds(p + dependencyPacked))
      && (r.Disjoint? ==> forall a, p ::
            !(childSource.Holds(a, p) && elements.Holds(a + dependencyArray) && bits.Holds(p + dependencyPacked)))
  {
    StepBackArray(elements, dependencyArray, childSource.elements);
    StepBackPacked(bits, dependencyPacked, childSource.bits);
  }

  lemma LostIsUnseen(childDestination: SummaryRegion, destination: MappedNode, partition: BitPartition)
    ensures LandingOf(childDestination, destination, partition).Lost? <==> !ParentSeenFromChild(destination, partition)
  {
  }

  /** The landing holds exactly the positions that land in the parent node. */
  lemma LandingIsRight(childDestination: SummaryRegion, destination: MappedNode, partition: BitPartition)
    requires ParentSeenFromChild(destination, partition)
    ensures var landing := LandingOf(childDestination, destination, partition);
      && (childDestination.elements.End().None? ==> landing.Nowhere?)
      && (childDestination.elements.End().Some? && landing.Nowhere? ==> forall a, p :: !Lands(childDestination, destination, partition, a, p))
      && (landing.At? ==> landing.elements.length != 0)
      && (landing.At? ==> forall a, p ::
            Lands(childDestination, destination, partition, a, p) <==> landing.elements.Holds(a) && landing.bits.Holds(p))
  {
    var offset := destination.offset.value;
    TranslateArrayHolds(destination.key.elements, -offset.elements);
    if childDestination.elements.End().Some? { StepBackArray(destination.key.elements, offset.elements, childDestination.elements); }
    StepBackPacked(ParentPacked(destination, partition), offset.bits, childDestination.bits);
  }

  /** Stepping back from where the child destination lands. */
  lemma LandingSteppedBack(
    childSource: SummaryRegion, childDestination: SummaryRegion,
    dependencyArray: isize, dependencyPacked: isize,
    destination: MappedNode, partition: BitPartition, elements: ArraySpan, bits: PackedSpan)
    requires elements.length != 0 && Known(destination, partition)
    requires forall a, p :: Lands(childDestination, destination, partition, a, p) <==> elements.Holds(a) && bits.Holds(p)
    ensures var r := SourceOf(childSource, dependencyArray, dependencyPacked, elements, bits);
      && (r.Unknown? <==> !SourcesRepresentable(childDestination, dependencyArray, dependencyPacked, destination, partition))
      && (r.Exact? ==>
            && childSource.elements.End().Some?
            && r.region.id == childSource.id
            && r.region.Holds(r.region.elements.start, r.region.bits.start)
            && forall a, p :: r.region.Holds(a, p) <==>
                 Feeds(childSource, childDestination, dependencyArray, dependencyPacked, destination, partition, a, p))
      && (childSource.elements.End().Some? && r.Disjoint? ==> forall a, p ::
            !Feeds(childSource, childDestination, dependencyArray, dependencyPacked, destination, partition, a, p))
  {
    SourceOfIsUnknown(childSource, dependencyArray, dependencyPacked, elements, bits);
    if childSource.elements.End().Some?
      && MovesBack(elements.start, elements.length, dependencyArray) && MovesBack(bits.start, bits.length, dependencyPacked)
    {
      SourceOfIsExact(childSource, dependencyArray, dependencyPacked, elements, bits);
    }
    var lastA, lastP := elements.start + elements.length - 1, bits.start + bits.length - 1;
    assert Lands(childDestination, destination, partition, elements.start, bits.start);
    assert Lands(childDestination, destination, partition, lastA, lastP);
  }

  /**
   * The projection is exact: `Exact` holds precisely the source positions that reach the parent
   * node, at least one; `Disjoint` says that none does, if both regions have representable ends; and
   * `Unknown` occurs just when something is missing or some position on the way cannot be
   * represented. With an end that overflows, nothing is `Exact`.
   */
  lemma ProjectionIsExact(
    childSource: SummaryRegion, childDestination: SummaryRegion,
    dependencyArray: isize, dependencyPacked: isize,
    destination: MappedNode, partition: BitPartition)
    ensures var r := ChildSourceRegionForDestination(childSource, childDestination, dependencyArray, dependencyPacked, destination, partition);
      && (r.Unknown? <==>
            || !ParentSeenFromChild(destination, partition)
            || (childDestination.elements.End().Some?
                && !SourcesRepresentable(childDestination, dependencyArray, dependencyPacked, destination, partition)))
      && (!r.Unknown? ==> Known(destination, partition))
      && (r.Exact? ==>
            && childSource.elements.End().Some? && childDestination.elements.End().Some?
            && r.region.id == childSource.id
            && r.region.Holds(r.region.elements.start, r.region.bits.start)
            && forall a, p :: r.region.Holds(a, p) <==>
                 Feeds(childSource, childDestination, dependencyArray, dependencyPacked, destination, partition, a, p))
      && (childSource.elements.End().Some? && childDestination.elements.End().Some? && r.Disjoint? ==> forall a, p ::
            !Feeds(childSource, childDestination, dependencyArray, dependencyPacked, destination, partition, a, p))
  {
    LostIsUnseen(childDestination, destination, partition);
    if ParentSeenFromChild(destination, partition) {
      LandingIsRight(childDestination, destination, partition);
      var landing := LandingOf(childDestination, destination, partition);
      if landing.At? {
        LandingSteppedBack(childSource, childDestination, dependencyArray, dependencyPacked, destination, partition,
                           landing.elements, landing.bits);
      }
    }
  }

  /** `Disjoint` means nothing for a region whose end overflows, which never comes out exact, whatever its positions reach. */
  lemma OverflowIsNeverExact(
    childSource: SummaryRegion, childDestination: SummaryRegion,
    dependencyArray: isize, dependencyPacked: isize,
    destination: MappedNode, partition: BitPartition)
    requires childSource.elements.End().None? || childDestination.elements.End().None?
    ensures !ChildSourceRegionForDestination(childSource, childDestination, dependencyArray, dependencyPacked, destination, partition).Exact?
  {
  }

  /** Position 1 of the source reaches the node. */
  lemma OverflowingSourceIsMissed(id: VarId)
    ensures var source := SummaryRegion(id, ArraySpan(1, USIZE_MAX), Bits(0, 1));
            var destination := SummaryRegion(id, ArraySpan(0, 4), Bits(0, 1));
            var node := MappedNode(NodeKey(id, ArraySpan(0, 4), 0), Some(Offset(0, 0)));
            var partition: BitPartition := map[(id, ArraySpan(0, 4)) := [Bits(0, 1)]];
            && ChildSourceRegionForDestination(source, destination, 0, 0, node, partition).Disjoint?
            && Known(node, partition)
            && Feeds(source, destination, 0, 0, node, partition, 1, 0)
  {
    var partition: BitPartition := map[(id, ArraySpan(0, 4)) := [Bits(0, 1)]];
    assert RangesOf(partition, id, ArraySpan(0, 4)) == [Bits(0, 1)];
  }

  /** And position 1 of this destination lands in it. */
  lemma OverflowingDestinationIsMissed(id: VarId)
    ensures var source := SummaryRegion(id, ArraySpan(0, 4), Bits(0, 1));
            var destination := SummaryRegion(id, ArraySpan(1, USIZE_MAX), Bits(0, 1));
            var node := MappedNode(NodeKey(id, ArraySpan(0, 4), 0), Some(Offset(0, 0)));
            var partition: BitPartition := map[(id, ArraySpan(0, 4)) := [Bits(0, 1)]];
            && ChildSourceRegionForDestination(source, destination, 0, 0, node, partition).Disjoint?
            && Known(node, partition)
            && Feeds(source, destination, 0, 0, node, partition, 1, 0)
  {
    var partition: BitPartition := map[(id, ArraySpan(0, 4)) := [Bits(0, 1)]];
    assert RangesOf(partition, id, ArraySpan(0, 4)) == [Bits(0, 1)];
  }
}
