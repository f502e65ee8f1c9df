/** Finding the fragments a child region overlaps, by search. */
module OutputAccesses {
  import opened Options
  import opened SourceTokens
  import opened MachineIntegers
  import opened Spans
  import opened RegionProjections
  import opened OutputFragments

  /** The connections of one output, as `Fragments` builds them. */
  ghost predicate InOrder(fragments: seq<OutputFragment>) {
    && (forall f | f in fragments :: f.childArray.End().Some?)
    && exists width: usize :: (Rows(fragments, width) && width != 0) || Columns(fragments)
  }

  /** What `Fragments` builds can be searched, and its fragments have the shape of their destinations. */
  lemma FragmentsCanBeSearched(fragments: seq<OutputFragment>, accesses: seq<Access>, arrayLength: usize, width: usize)
    requires Connected(fragments, accesses, arrayLength, width) && Whole(fragments, arrayLength, width)
    ensures InOrder(fragments)
    ensures (forall x | x in accesses :: x.elements.End().Some?) ==> forall f | f in fragments :: SameShape(f)
  {
    forall i | 0 <= i < |fragments|
      ensures fragments[i].childArray.End().Some?
      ensures exists x :: x in accesses && Connects(fragments[i], x)
    {
      assert Rows(fragments, width) ==> RowAt(fragments, i, width);
      assert Columns(fragments) ==> ColumnAt(fragments, i);
      if i < |fragments| - 1 { PartsInOrder(fragments, width, i, |fragments| - 1); }
      var x := if ByElements(accesses, arrayLength, width) then accesses[i] else accesses[|accesses| - 1 - i];
      assert x in accesses && Connects(fragments[i], x);
    }
  }

  /** The parent region of `f` exists and has the shape of the child's part. */
  predicate SameShape(f: OutputFragment) {
    && f.childArray.End().Some? && f.parentArray.End().Some?
    && f.childArray.length == f.parentArray.length && f.childPacked.length == f.parentPacked.length
  }

  // ---- The search ----

  predicate Before(f: OutputFragment, region: SummaryRegion)
    requires f.childArray.End().Some?
  {
    f.childArray.End().value <= region.elements.start || PackedEnd(f.childPacked) <= region.bits.start
  }

  predicate Reaches(f: OutputFragment, region: SummaryRegion)
    requires region.elements.End().Some?
  {
    f.childArray.start < region.elements.End().value && f.childPacked.start < PackedEnd(region.bits)
  }

  lemma SearchIsMonotone(fragments: seq<OutputFragment>, region: SummaryRegion, i: nat, j: nat)
    requires InOrder(fragments) && region.elements.End().Some?
    requires i < j < |fragments|
    ensures fragments[i].childArray.End().Some? && fragments[j].childArray.End().Some?
    ensures Before(fragments[j], region) ==> Before(fragments[i], region)
    ensures Reaches(fragments[j], region) ==> Reaches(fragments[i], region)
  {
    var width: usize :| (Rows(fragments, width) && width != 0) || Columns(fragments);
    PartsInOrder(fragments, width, i, j);
    assert fragments[i] in fragments && fragments[j] in fragments;
    assert Rows(fragments, width) ==> RowAt(fragments, i, width) && RowAt(fragments, j, width);
    assert Columns(fragments) ==> ColumnAt(fragments, i) && ColumnAt(fragments, j);
  }

  /** The number of fragments before the region; all of them are at the front. */
  method PartitionPoint(fragments: seq<OutputFragment>, region: SummaryRegion) returns (first: nat)
    requires InOrder(fragments) && region.elements.End().Some?
    ensures first <= |fragments|
    ensures forall f | f in fragments :: f.childArray.End().Some?
    ensures forall i | 0 <= i < |fragments| :: Before(fragments[i], region) <==> i < first
  {
    var low, high := 0, |fragments|;
    while low < high
      invariant 0 <= low <= high <= |fragments|
      invariant forall i | 0 <= i < low :: Before(fragments[i], region)
      invariant forall i | high <= i < |fragments| :: !Before(fragments[i], region)
    {
      var middle := (low + high) / 2;
      assert fragments[middle] in fragments;
      if Before(fragments[middle], region) {
        forall i | 0 <= i < middle ensures Before(fragments[i], region) { SearchIsMonotone(fragments, region, i, middle); }
        low := middle + 1;
      } else {
        forall i | middle < i < |fragments| ensures !Before(fragments[i], region) { SearchIsMonotone(fragments, region, middle, i); }
        high := middle;
      }
    }
    first := low;
  }

  /** The part of `region` in fragment `f`, moved onto the parent. */
  function AccessOf(f: OutputFragment, region: SummaryRegion): Option<OutputAccess> {
    var elements := region.elements.Intersection(f.childArray);
    if elements.None? then None else
    var elements := elements.value.Translated(f.childArray.start, f.parentArray.start);
    if elements.None? then None else
    var bits := PackedIntersection(region.bits, f.childPacked);
    if bits.None? then None else
    var bits := PackedTranslated(bits.value, f.childPacked.start, f.parentPacked.start);
    if bits.None? then None else
    var elementOffset := SignedDifference(f.parentArray.start, f.childArray.start);
    if elementOffset.None? then None else
    var bitOffset := SignedDifference(f.parentPacked.start, f.childPacked.start);
    if bitOffset.None? then None else
      Some(OutputAccess(f.parent, elements.value, bits.value, Offset(elementOffset.value, bitOffset.value)))
  }

  // ---- The linear scan it replaces ----

  predicate Overlaps(f: OutputFragment, region: SummaryRegion) {
    region.elements.Intersection(f.childArray).Some? && PackedOverlaps(region.bits, f.childPacked)
  }

  /** Visit every fragment in order, and move the overlapping ones onto the parent. */
  function LinearScan(fragments: seq<OutputFragment>, region: SummaryRegion): Option<seq<OutputAccess>> {
    if fragments == [] then Some([]) else
      var front, last := LinearScan(fragments[..|fragments| - 1], region), fragments[|fragments| - 1];
      if front.None? || !Overlaps(last, region) then front
      else if AccessOf(last, region).None? then None
      else Some(front.value + [AccessOf(last, region).value])
  }

  lemma {:induction false} ScanFails(fragments: seq<OutputFragment>, region: SummaryRegion, i: nat)
    requires i < |fragments| && Overlaps(fragments[i], region) && AccessOf(fragments[i], region).None?
    ensures LinearScan(fragments, region).None?
  {
    if i < |fragments| - 1 { ScanFails(fragments[..|fragments| - 1], region, i); }
  }

  lemma {:induction false} ScanSkips(fragments: seq<OutputFragment>, region: SummaryRegion, n: nat)
    requires n <= |fragments| && forall i | n <= i < |fragments| :: !Overlaps(fragments[i], region)
    ensures LinearScan(fragments, region) == LinearScan(fragments[..n], region)
  {
    if n < |fragments| {
      var front := fragments[..|fragments| - 1];
      assert front[..n] == fragments[..n];
      forall i | n <= i < |front| ensures !Overlaps(front[i], region) { assert front[i] == fragments[i]; }
      ScanSkips(front, region, n);
    } else {
      assert fragments[..n] == fragments;
    }
  }

  /** Nothing the search selects is empty, so selecting and overlapping are the same. */
  predicate NothingEmpty(fragments: seq<OutputFragment>, region: SummaryRegion) {
    region.elements.length != 0 && forall f | f in fragments :: f.childArray.length != 0
  }

  lemma SelectedMeansOverlapping(f: OutputFragment, region: SummaryRegion)
    requires f.childArray.End().Some? && region.elements.End().Some?
    ensures Overlaps(f, region) ==> !Before(f, region) && Reaches(f, region)
    ensures region.elements.length != 0 && f.childArray.length != 0 && !Before(f, region) && Reaches(f, region) ==> Overlaps(f, region)
    ensures AccessOf(f, region).Some? ==> Overlaps(f, region)
  {
  }

  /** The fragments before the search point overlap nothing. */
  lemma NothingBefore(fragments: seq<OutputFragment>, region: SummaryRegion, first: nat)
    requires first <= |fragments| && region.elements.End().Some? && forall f | f in fragments :: f.childArray.End().Some?
    requires forall i | 0 <= i < first :: Before(fragments[i], region)
    ensures LinearScan(fragments[..first], region) == Some([])
  {
    forall i | 0 <= i < first ensures !Overlaps(fragments[..first][i], region) {
      assert fragments[i] in fragments;
      SelectedMeansOverlapping(fragments[i], region);
    }
    ScanSkips(fragments[..first], region, 0);
  }

  /** The fragments from the first one that does not reach the region on overlap nothing. */
  lemma NothingAfter(fragments: seq<OutputFragment>, region: SummaryRegion, last: nat)
    requires InOrder(fragments) && region.elements.End().Some?
    requires last <= |fragments| && (last < |fragments| ==> !Reaches(fragments[last], region))
    ensures LinearScan(fragments, region) == LinearScan(fragments[..last], region)
  {
    forall j | last <= j < |fragments| ensures !Overlaps(fragments[j], region) {
      assert fragments[j] in fragments;
      SelectedMeansOverlapping(fragments[j], region);
      if last < j { SearchIsMonotone(fragments, region, last, j); }
    }
    ScanSkips(fragments, region, last);
  }

  lemma ScanStep(fragments: seq<OutputFragment>, region: SummaryRegion, i: nat)
    requires i < |fragments| && region.elements.End().Some? && fragments[i].childArray.End().Some?
    requires LinearScan(fragments[..i], region).Some? && !Before(fragments[i], region) && Reaches(fragments[i], region)
    ensures AccessOf(fragments[i], region).Some? ==>
      LinearScan(fragments[..i + 1], region) == Some(LinearScan(fragments[..i], region).value + [AccessOf(fragments[i], region).value])
    ensures AccessOf(fragments[i], region).None? && NothingEmpty(fragments, region) ==> LinearScan(fragments, region).None?
  {
    SelectedMeansOverlapping(fragments[i], region);
    assert fragments[..i + 1][..i] == fragments[..i];
    if AccessOf(fragments[i], region).None? && NothingEmpty(fragments, region) {
      assert fragments[i] in fragments;
      ScanFails(fragments, region, i);
    }
  }

  /** Binary search and `take_while` find what the linear scan finds. */
  method Accesses(connections: map<VarId, seq<OutputFragment>>, region: SummaryRegion) returns (r: Option<seq<OutputAccess>>)
    requires forall id | id in connections :: InOrder(connections[id])
    requires region.elements.End().Some?
    ensures region.id !in connections ==> r.None?
    ensures region.id in connections && r.Some? ==> r == LinearScan(connections[region.id], region)
    ensures region.id in connections && NothingEmpty(connections[region.id], region) ==> r == LinearScan(connections[region.id], region)
  {
    if region.id !in connections { return None; }
    var fragments := connections[region.id];
    var first := PartitionPoint(fragments, region);
    NothingBefore(fragments, region, first);
    var accesses: seq<OutputAccess> := [];
    var i := first;
    while i < |fragments| && Reaches(fragments[i], region)
      invariant first <= i <= |fragments|
      invariant LinearScan(fragments[..i], region) == Some(accesses)
    {
      ScanStep(fragments, region, i);
      var access := AccessOf(fragments[i], region);
      if access.None? { return None; }
      accesses := accesses + [access.value];
      i := i + 1;
    }
    NothingAfter(fragments, region, i);
    r := Some(accesses);
  }

  // ---- What an access means, position by position ----

  predicate SmallStarts(f: OutputFragment) {
    f.parentArray.start <= ISIZE_MAX && f.childArray.start <= ISIZE_MAX && f.parentPacked.start <= ISIZE_MAX && f.childPacked.start <= ISIZE_MAX
  }

  /** An access takes exactly the region's positions in the fragment, and stays inside the parent region. */
  lemma AccessTakes(f: OutputFragment, region: SummaryRegion)
    requires SameShape(f) && region.elements.End().Some? && Overlaps(f, region)
    ensures AccessOf(f, region).Some? <==> SmallStarts(f)
    ensures AccessOf(f, region).Some? ==>
      && var x := AccessOf(f, region).value;
      && x.parent == f.parent
      && (forall a, p :: x.Takes(a, p) <==> f.Holds(a, p) && region.Holds(a, p))
      && (forall a | x.elements.Holds(a) :: f.parentArray.Holds(a))
      && (forall p | x.bits.Holds(p) :: f.parentPacked.Holds(p))
  {
  }

  /** Which fragment each access of a scan comes from. */
  lemma {:induction false} ScanOrigins(fragments: seq<OutputFragment>, region: SummaryRegion) returns (origins: seq<nat>)
    requires LinearScan(fragments, region).Some?
    ensures |origins| == |LinearScan(fragments, region).value|
    ensures forall k | 0 <= k < |origins| ::
      origins[k] < |fragments| && AccessOf(fragments[origins[k]], region) == Some(LinearScan(fragments, region).value[k])
    ensures forall k, l | 0 <= k < l < |origins| :: origins[k] < origins[l]
    ensures forall i | 0 <= i < |fragments| && Overlaps(fragments[i], region) :: i in origins
  {
    if fragments == [] {
      origins := [];
    } else {
      var last := |fragments| - 1;
      origins := ScanOrigins(fragments[..last], region);
      if Overlaps(fragments[last], region) { origins := origins + [last]; }
    }
  }

  predicate TakenBy(accesses: seq<OutputAccess>, k: int, a: int, p: int) {
    0 <= k < |accesses| && accesses[k].Takes(a, p)
  }

  /**
   * Every position of the region that the child has is connected through exactly one access, at
   * the position plus that access's offset; no other position is connected at all.
   */
  lemma EachPositionOnce(fragments: seq<OutputFragment>, arrayLength: usize, width: usize, region: SummaryRegion,
                         accesses: seq<OutputAccess>, a: int, p: int)
    requires Whole(fragments, arrayLength, width) && forall f | f in fragments :: SameShape(f)
    requires region.elements.End().Some? && LinearScan(fragments, region) == Some(accesses)
    ensures region.Holds(a, p) && InExtent(arrayLength, width, a, p) <==> exists k :: TakenBy(accesses, k, a, p)
    ensures forall k, l | TakenBy(accesses, k, a, p) && TakenBy(accesses, l, a, p) :: k == l
  {
    FragmentsTile(fragments, arrayLength, width, a, p);
    var origins := ScanOrigins(fragments, region);
    forall k | 0 <= k < |accesses|
      ensures TakenBy(accesses, k, a, p) <==> HeldBy(fragments, origins[k], a, p) && region.Holds(a, p)
    {
      var f := fragments[origins[k]];
      SelectedMeansOverlapping(f, region);
      AccessTakes(f, region);
    }
    if region.Holds(a, p) && InExtent(arrayLength, width, a, p) {
      var i :| HeldBy(fragments, i, a, p);
      assert fragments[i] in fragments;
      HoldingMeansOverlapping(fragments[i], region, a, p);
      var k :| 0 <= k < |origins| && origins[k] == i;
      assert TakenBy(accesses, k, a, p);
    }
  }

  lemma HoldingMeansOverlapping(f: OutputFragment, region: SummaryRegion, a: int, p: int)
    requires f.childArray.End().Some? && region.elements.End().Some? && f.Holds(a, p) && region.Holds(a, p)
    ensures Overlaps(f, region)
  {
  }
}
