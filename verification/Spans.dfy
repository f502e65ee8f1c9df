/** Interval regions of a variable on machine integers:
    unpacked-array elements and packed bits,
    with what each operation means for the positions they hold. */
module Spans {
  import opened Options
  import opened MachineIntegers

  /** `position + offset`, unless that leaves the representable range. */
  function TranslatePosition(position: usize, offset: isize): Option<usize> {
    CheckedUsize(position + offset)
  }

  /** `destination - source` as a signed offset. */
  function SignedDifference(destination: usize, source: usize): Option<isize> {
    if destination > ISIZE_MAX || source > ISIZE_MAX then None else CheckedIsize(destination - source)
  }

  /** Array elements. The end may lie beyond the representable range. */
  datatype ArraySpan = ArraySpan(start: usize, length: usize) {
    function End(): Option<usize> {
      CheckedUsize(start + length)
    }

    predicate Holds(p: int) {
      start <= p < start + length
    }

    function Intersection(other: ArraySpan): (r: Option<ArraySpan>) {
      if End().None? || other.End().None? then None else
        var first, last := Max(start, other.start), Min(End().value, other.End().value);
        if last <= first then None else Some(ArraySpan(first, last - first))
    }

    function Translated(from: usize, to: usize): (r: Option<ArraySpan>) {
      if start < from || start - from + to > USIZE_MAX then None else
        var moved := start - from + to;
        if length != 0 && moved + length <= USIZE_MAX then Some(ArraySpan(moved, length)) else None
    }
  }

  /** Packed bits: never empty, and the end is representable. */
  datatype Bits = Bits(start: usize, length: usize) {
    predicate Valid() {
      length != 0 && start + length <= USIZE_MAX
    }

    predicate Holds(p: int) {
      start <= p < start + length
    }
  }

  type PackedSpan = b: Bits | b.Valid() witness Bits(0, 1)

  function NewPacked(start: usize, length: usize): Option<PackedSpan> {
    if length != 0 && start + length <= USIZE_MAX then Some(Bits(start, length)) else None
  }

  function PackedEnd(s: PackedSpan): usize {
    s.start + s.length
  }

  predicate PackedOverlaps(s: PackedSpan, t: PackedSpan) {
    s.start < PackedEnd(t) && t.start < PackedEnd(s)
  }

  function PackedIntersection(s: PackedSpan, t: PackedSpan): Option<PackedSpan> {
    var first, last := Max(s.start, t.start), Min(PackedEnd(s), PackedEnd(t));
    if last < first then None else NewPacked(first, last - first)
  }

  function PackedTranslated(s: PackedSpan, from: usize, to: usize): Option<PackedSpan> {
    if s.start < from || s.start - from + to > USIZE_MAX then None else NewPacked(s.start - from + to, s.length)
  }

  function TranslateArraySpan(span: ArraySpan, offset: isize): Option<ArraySpan> {
    match TranslatePosition(span.start, offset)
    case None => None
    case Some(start) =>
      if span.length != 0 && start + span.length <= USIZE_MAX then Some(ArraySpan(start, span.length)) else None
  }

  function TranslatePackedSpan(span: PackedSpan, offset: isize): Option<PackedSpan> {
    match TranslatePosition(span.start, offset)
    case None => None
    case Some(start) => NewPacked(start, span.length)
  }

  // ---- What the operations mean for positions ----

  lemma ArrayIntersectionHolds(s: ArraySpan, t: ArraySpan)
    requires s.End().Some? && t.End().Some?
    ensures s.Intersection(t).Some? <==> exists p :: s.Holds(p) && t.Holds(p)
    ensures s.Intersection(t).Some? ==> forall p :: s.Intersection(t).value.Holds(p) <==> s.Holds(p) && t.Holds(p)
  {
    if s.Intersection(t).Some? {
      var p := Max(s.start, t.start);
      assert s.Holds(p) && t.Holds(p);
    }
  }

  lemma PackedIntersectionHolds(s: PackedSpan, t: PackedSpan)
    ensures PackedIntersection(s, t).Some? <==> exists p :: s.Holds(p) && t.Holds(p)
    ensures PackedIntersection(s, t).Some? ==> forall p :: PackedIntersection(s, t).value.Holds(p) <==> s.Holds(p) && t.Holds(p)
    ensures PackedOverlaps(s, t) <==> PackedIntersection(s, t).Some?
  {
    if PackedIntersection(s, t).Some? {
      var p := Max(s.start, t.start);
      assert s.Holds(p) && t.Holds(p);
    }
  }

  /** A position a span can have. */
  predicate Representable(p: int) {
    0 <= p < USIZE_MAX
  }

  /** A span moves as a whole, if it holds anything and every position stays representable. */
  lemma TranslateArrayHolds(s: ArraySpan, offset: isize)
    ensures TranslateArraySpan(s, offset).Some? <==> s.length != 0 && forall p | s.Holds(p) :: Representable(p + offset)
    ensures TranslateArraySpan(s, offset).Some? ==>
      && TranslateArraySpan(s, offset).value.End().Some?
      && forall p :: TranslateArraySpan(s, offset).value.Holds(p) <==> s.Holds(p - offset)
  {
    if s.length != 0 {
      assert s.Holds(s.start) && s.Holds(s.start + s.length - 1);
    }
  }

  lemma TranslatePackedHolds(s: PackedSpan, offset: isize)
    ensures TranslatePackedSpan(s, offset).Some? <==> forall p | s.Holds(p) :: Representable(p + offset)
    ensures TranslatePackedSpan(s, offset).Some? ==>
      forall p :: TranslatePackedSpan(s, offset).value.Holds(p) <==> s.Holds(p - offset)
  {
    assert s.Holds(s.start) && s.Holds(s.start + s.length - 1);
  }
}
