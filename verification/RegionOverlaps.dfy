/** Whether a dependency can relate positions of two regions: an interval test per axis. */
module RegionOverlaps {
  import opened Options
  import opened MachineIntegers
  import opened Spans
  import opened RegionProjections

  /** On each axis: the distance from source to destination position, or none when any may affect any. */
  datatype BitDependency = BitDependency(elements: Option<isize>, bits: Option<isize>)

  const WHOLE := BitDependency(None, None)

  /** A dependency leads from (a, p) to (b, q): by its offset on each linked axis. */
  predicate Leads(d: BitDependency, a: int, p: int, b: int, q: int) {
    (d.elements.Some? ==> b == a + d.elements.value) && (d.bits.Some? ==> q == p + d.bits.value)
  }

  /** A box of positions. */
  datatype PositionDomain = PositionDomain(arrayStart: usize, arrayLength: usize, packedStart: usize, packedLength: usize) {
    predicate Holds(a: int, p: int) {
      arrayStart <= a < arrayStart + arrayLength && packedStart <= p < packedStart + packedLength
    }
  }

  function DomainOf(elements: ArraySpan, bits: PackedSpan): PositionDomain {
    PositionDomain(elements.start, elements.length, bits.start, bits.length)
  }

  /** Half-open bounds on signed positions. */
  datatype AxisBounds = AxisBounds(start: isize, end: isize) {
    predicate Holds(x: int) {
      start <= x < end
    }
  }

  datatype Extent = Extent(elements: AxisBounds, bits: AxisBounds) {
    predicate Holds(a: int, p: int) {
      elements.Holds(a) && bits.Holds(p)
    }
  }

  function BoundsOf(start: usize, length: usize): Option<AxisBounds> {
    if start + length <= ISIZE_MAX then Some(AxisBounds(start, start + length)) else None
  }

  /** A single domain admits only that box; otherwise the region bounds the positions. */
  function Box(region: SummaryRegion, domains: seq<PositionDomain>): PositionDomain {
    if |domains| == 1 then domains[0] else DomainOf(region.elements, region.bits)
  }

  function ExtentOf(box: PositionDomain): Option<Extent> {
    var elements, bits := BoundsOf(box.arrayStart, box.arrayLength), BoundsOf(box.packedStart, box.packedLength);
    if elements.None? || bits.None? then None else Some(Extent(elements.value, bits.value))
  }

  /** Arithmetic beyond signed positions keeps the cautious answer. */
  predicate MayReach(offset: Option<isize>, source: AxisBounds, destination: AxisBounds) {
    if offset.None? then true else
      var low, high := CheckedIsize(source.start + offset.value), CheckedIsize(source.end + offset.value);
      low.Some? && high.Some? ==> low.value < destination.end && destination.start < high.value
  }

  /** The test; a box beyond signed positions overlaps nothing. */
  predicate Overlap(source: PositionDomain, destination: PositionDomain, d: BitDependency) {
    && ExtentOf(source).Some? && ExtentOf(destination).Some?
    && MayReach(d.elements, ExtentOf(source).value.elements, ExtentOf(destination).value.elements)
    && MayReach(d.bits, ExtentOf(source).value.bits, ExtentOf(destination).value.bits)
  }

  // ---- What the test means ----

  predicate ShiftFits(offset: Option<isize>, source: AxisBounds) {
    offset.Some? ==> CheckedIsize(source.start + offset.value).Some? && CheckedIsize(source.end + offset.value).Some?
  }

  /** One axis: the test is whether some position leads into the destination, while nothing overflows. */
  lemma MayReachIff(offset: Option<isize>, source: AxisBounds, destination: AxisBounds)
    requires source.start < source.end && destination.start < destination.end
    ensures ShiftFits(offset, source) ==>
      (MayReach(offset, source, destination) <==>
         exists x, y :: source.Holds(x) && destination.Holds(y) && (offset.Some? ==> y == x + offset.value))
    ensures !ShiftFits(offset, source) ==> MayReach(offset, source, destination)
  {
    if offset.None? {
      assert source.Holds(source.start) && destination.Holds(destination.start);
    } else if ShiftFits(offset, source) && MayReach(offset, source, destination) {
      var y := Max(source.start + offset.value, destination.start);
      assert source.Holds(y - offset.value) && destination.Holds(y);
    }
  }

  predicate BoxesFit(source: PositionDomain, destination: PositionDomain) {
    ExtentOf(source).Some? && ExtentOf(destination).Some?
  }

  /** Some position of one box leads to one of the other. */
  ghost predicate Related(source: PositionDomain, destination: PositionDomain, d: BitDependency) {
    exists a, p, b, q :: source.Holds(a, p) && destination.Holds(b, q) && Leads(d, a, p, b, q)
  }

  /** Boxes on signed positions with related positions always pass. */
  lemma RelatedOverlap(source: PositionDomain, destination: PositionDomain, d: BitDependency)
    requires BoxesFit(source, destination) && Related(source, destination, d)
    ensures Overlap(source, destination, d)
  {
    var a, p, b, q :| source.Holds(a, p) && destination.Holds(b, q) && Leads(d, a, p, b, q);
    var s, t := ExtentOf(source).value, ExtentOf(destination).value;
    assert s.elements.Holds(a) && s.bits.Holds(p) && t.elements.Holds(b) && t.bits.Holds(q);
    MayReachIff(d.elements, s.elements, t.elements);
    MayReachIff(d.bits, s.bits, t.bits);
  }

  predicate BoxShiftFits(source: PositionDomain, d: BitDependency)
    requires ExtentOf(source).Some?
  {
    ShiftFits(d.elements, ExtentOf(source).value.elements) && ShiftFits(d.bits, ExtentOf(source).value.bits)
  }

  /** The test is exact for boxes that hold something, on signed positions, while nothing overflows; beyond these positions it fails. */
  lemma OverlapIff(source: PositionDomain, destination: PositionDomain, d: BitDependency)
    requires source.arrayLength != 0 && source.packedLength != 0 && destination.arrayLength != 0 && destination.packedLength != 0
    ensures BoxesFit(source, destination) && BoxShiftFits(source, d) ==> (Overlap(source, destination, d) <==> Related(source, destination, d))
    ensures !BoxesFit(source, destination) ==> !Overlap(source, destination, d)
  {
    if BoxesFit(source, destination) && BoxShiftFits(source, d) {
      var s, t := ExtentOf(source).value, ExtentOf(destination).value;
      MayReachIff(d.elements, s.elements, t.elements);
      MayReachIff(d.bits, s.bits, t.bits);
      if Overlap(source, destination, d) {
        var a, b :| s.elements.Holds(a) && t.elements.Holds(b) && (d.elements.Some? ==> b == a + d.elements.value);
        var p, q :| s.bits.Holds(p) && t.bits.Holds(q) && (d.bits.Some? ==> q == p + d.bits.value);
        assert source.Holds(a, p) && destination.Holds(b, q) && Leads(d, a, p, b, q);
      } else if Related(source, destination, d) {
        RelatedOverlap(source, destination, d);
      }
    }
  }
}
