/** How the destinations connected to a child's output tile the output's positions. */
module OutputFragments {
  import opened Options
  import opened SourceTokens
  import opened MachineIntegers
  import opened Spans
  import opened RegionProjections

  /** The constant region of a parent variable that one destination writes. */
  datatype Access = Access(parent: VarId, elements: ArraySpan, bits: PackedSpan)

  /** A part of the child output, and the parent region of the same shape it is connected to. */
  datatype OutputFragment = OutputFragment(
    parent: VarId,
    childArray: ArraySpan,
    childPacked: PackedSpan,
    parentArray: ArraySpan,
    parentPacked: PackedSpan)
  {
    predicate Holds(a: int, p: int) {
      childArray.Holds(a) && childPacked.Holds(p)
    }
  }

  datatype OutputAccess = OutputAccess(parent: VarId, elements: ArraySpan, bits: PackedSpan, offset: Offset) {
    /** Child position (a, p) is connected through this access. */
    predicate Takes(a: int, p: int) {
      elements.Holds(a + offset.elements) && bits.Holds(p + offset.bits)
    }
  }

  // ---- Layouts ----

  function Elements(accesses: seq<Access>): (n: nat) {
    if accesses == [] then 0 else Elements(accesses[..|accesses| - 1]) + accesses[|accesses| - 1].elements.length
  }

  function Width(accesses: seq<Access>): (n: nat)
    ensures n >= |accesses|
  {
    if accesses == [] then 0 else Width(accesses[..|accesses| - 1]) + accesses[|accesses| - 1].bits.length
  }

  /** Every destination is a constant region; otherwise there is nothing to tile. */
  predicate AllKnown(destinations: seq<Option<Access>>) {
    forall d | d in destinations :: d.Some?
  }

  function Accesses(destinations: seq<Option<Access>>): (r: seq<Access>)
    requires AllKnown(destinations)
  {
    seq(|destinations|, i requires 0 <= i < |destinations| => assert destinations[i] in destinations; destinations[i].value)
  }

  /** Rows of an unpacked array, each of full width. */
  predicate ByElements(accesses: seq<Access>, arrayLength: usize, width: usize) {
    Elements(accesses) == arrayLength && forall x | x in accesses :: x.bits.length == width
  }

  /** A packed concatenation onto a single element. */
  predicate ByBits(accesses: seq<Access>, arrayLength: usize, width: usize) {
    arrayLength == 1 && Width(accesses) == width && forall x | x in accesses :: x.elements.length == 1
  }

  /** Fragment `f` connects a part of the child of the same shape as access `x`. */
  predicate Connects(f: OutputFragment, x: Access) {
    && f.parent == x.parent && f.parentArray == x.elements && f.parentPacked == x.bits
    && f.childArray.length == x.elements.length && f.childPacked.length == x.bits.length
  }

  /** Fragment `i` is a row that starts where the one before it ends. */
  predicate RowAt(fragments: seq<OutputFragment>, i: nat, width: usize)
    requires i < |fragments|
  {
    fragments[i].childPacked == Bits(0, width) && fragments[i].childArray.start == RowsEnd(fragments[..i])
  }

  predicate Rows(fragments: seq<OutputFragment>, width: usize) {
    forall i | 0 <= i < |fragments| :: RowAt(fragments, i, width)
  }

  function RowsEnd(fragments: seq<OutputFragment>): nat {
    if fragments == [] then 0 else
      fragments[|fragments| - 1].childArray.start + fragments[|fragments| - 1].childArray.length
  }

  /** Fragment `i` is a part of the only element that starts where the one before it ends. */
  predicate ColumnAt(fragments: seq<OutputFragment>, i: nat)
    requires i < |fragments|
  {
    fragments[i].childArray == ArraySpan(0, 1) && fragments[i].childPacked.start == ColumnsEnd(fragments[..i])
  }

  predicate Columns(fragments: seq<OutputFragment>) {
    forall i | 0 <= i < |fragments| :: ColumnAt(fragments, i)
  }

  function ColumnsEnd(fragments: seq<OutputFragment>): nat {
    if fragments == [] then 0 else PackedEnd(fragments[|fragments| - 1].childPacked)
  }

  lemma PrefixOfLayout(fragments: seq<OutputFragment>, n: nat, width: usize)
    requires n <= |fragments|
    ensures Rows(fragments, width) ==> Rows(fragments[..n], width)
    ensures Columns(fragments) ==> Columns(fragments[..n])
  {
    forall i | 0 <= i < n
      ensures RowAt(fragments, i, width) ==> RowAt(fragments[..n], i, width)
      ensures ColumnAt(fragments, i) ==> ColumnAt(fragments[..n], i)
    {
      assert fragments[..n][..i] == fragments[..i];
    }
  }

  lemma ExtendedLayout(fragments: seq<OutputFragment>, f: OutputFragment, width: usize)
    ensures Rows(fragments, width) && f.childPacked == Bits(0, width) && f.childArray.start == RowsEnd(fragments)
        ==> Rows(fragments + [f], width)
    ensures Columns(fragments) && f.childArray == ArraySpan(0, 1) && f.childPacked.start == ColumnsEnd(fragments)
        ==> Columns(fragments + [f])
  {
    var extended := fragments + [f];
    forall i | 0 <= i < |fragments|
      ensures RowAt(fragments, i, width) ==> RowAt(extended, i, width)
      ensures ColumnAt(fragments, i) ==> ColumnAt(extended, i)
    {
      assert extended[..i] == fragments[..i];
    }
    assert extended[..|fragments|] == fragments;
  }

  /** The result of connecting `accesses`, for a child of `arrayLength` elements of `width` bits. */
  predicate Connected(fragments: seq<OutputFragment>, accesses: seq<Access>, arrayLength: usize, width: usize) {
    && |fragments| == |accesses|
    && if ByElements(accesses, arrayLength, width) then
         Rows(fragments, width) && forall i | 0 <= i < |accesses| :: Connects(fragments[i], accesses[i])
       else
         && ByBits(accesses, arrayLength, width) && Columns(fragments)
         // A packed concatenation lists its most significant part first.
         && forall i | 0 <= i < |accesses| :: Connects(fragments[i], accesses[|accesses| - 1 - i])
  }

  // ---- Building the fragments ----

  lemma {:induction false} PrefixSums(accesses: seq<Access>, i: nat)
    requires i <= |accesses|
    ensures Elements(accesses[..i]) <= Elements(accesses) && Width(accesses[..i]) <= Width(accesses)
  {
    if i < |accesses| {
      PrefixSums(accesses[..|accesses| - 1], i);
      assert accesses[..|accesses| - 1][..i] == accesses[..i];
    } else {
      assert accesses[..i] == accesses;
    }
  }

  lemma PrefixStep(accesses: seq<Access>, i: nat)
    requires i < |accesses|
    ensures Elements(accesses[..i + 1]) == Elements(accesses[..i]) + accesses[i].elements.length <= Elements(accesses)
    ensures Width(accesses[..i + 1]) == Width(accesses[..i]) + accesses[i].bits.length <= Width(accesses)
  {
    assert accesses[..i + 1][..i] == accesses[..i];
    PrefixSums(accesses, i + 1);
  }

  method SumElements(accesses: seq<Access>) returns (r: Option<usize>)
    ensures r == CheckedUsize(Elements(accesses))
  {
    var total: usize := 0;
    for i := 0 to |accesses|
      invariant total == Elements(accesses[..i])
    {
      PrefixStep(accesses, i);
      match CheckedUsize(total + accesses[i].elements.length) {
        case None => return None;
        case Some(sum) => total := sum;
      }
    }
    assert accesses[..|accesses|] == accesses;
    r := Some(total);
  }

  method SumWidth(accesses: seq<Access>) returns (r: Option<usize>)
    ensures r == CheckedUsize(Width(accesses))
  {
    var total: usize := 0;
    for i := 0 to |accesses|
      invariant total == Width(accesses[..i])
    {
      PrefixStep(accesses, i);
      match CheckedUsize(total + accesses[i].bits.length) {
        case None => return None;
        case Some(sum) => total := sum;
      }
    }
    assert accesses[..|accesses|] == accesses;
    r := Some(total);
  }

  /** The running `start` of the unpacked layout. */
  method ConnectRows(accesses: seq<Access>, arrayLength: usize, width: usize) returns (fragments: seq<OutputFragment>)
    requires width != 0 && ByElements(accesses, arrayLength, width)
    ensures Connected(fragments, accesses, arrayLength, width)
    ensures RowsEnd(fragments) == arrayLength
  {
    var start: usize := 0;
    fragments := [];
    for i := 0 to |accesses|
      invariant |fragments| == i && Rows(fragments, width)
      invariant forall j | 0 <= j < i :: Connects(fragments[j], accesses[j])
      invariant start == RowsEnd(fragments) == Elements(accesses[..i])
    {
      PrefixStep(accesses, i);
      var x := accesses[i];
      assert x in accesses;
      var row := OutputFragment(x.parent, ArraySpan(start, x.elements.length), Bits(0, width), x.elements, x.bits);
      ExtendedLayout(fragments, row, width);
      fragments := fragments + [row];
      start := start + x.elements.length;
    }
    assert accesses[..|accesses|] == accesses;
  }

  /** The running `start` of the packed layout, from the least significant part up. */
  method ConnectColumns(accesses: seq<Access>, arrayLength: usize, width: usize) returns (fragments: seq<OutputFragment>)
    requires ByBits(accesses, arrayLength, width) && !ByElements(accesses, arrayLength, width)
    ensures Connected(fragments, accesses, arrayLength, width)
    ensures ColumnsEnd(fragments) == width
  {
    var start: usize := 0;
    fragments := [];
    var i := |accesses|;
    assert accesses[..i] == accesses;
    while i > 0
      invariant 0 <= i <= |accesses| && |fragments| == |accesses| - i && Columns(fragments)
      invariant forall j | 0 <= j < |accesses| - i :: Connects(fragments[j], accesses[|accesses| - 1 - j])
      invariant start == ColumnsEnd(fragments) && start + Width(accesses[..i]) == width
    {
      i := i - 1;
      PrefixStep(accesses, i);
      var x := accesses[i];
      assert x in accesses;
      var column := OutputFragment(x.parent, ArraySpan(0, 1), Bits(start, x.bits.length), x.elements, x.bits);
      ExtendedLayout(fragments, column, width);
      fragments := fragments + [column];
      start := start + x.bits.length;
    }
  }

  /** Fragments covering the whole child, for exactly the two layouts the language has. */
  method Fragments(arrayTotal: Option<usize>, totalWidth: Option<usize>, destinations: seq<Option<Access>>)
    returns (r: Option<seq<OutputFragment>>)
    ensures r.Some? <==>
      && arrayTotal.Some? && totalWidth.Some? && totalWidth.value != 0 && AllKnown(destinations)
      && (ByElements(Accesses(destinations), arrayTotal.value, totalWidth.value)
          || ByBits(Accesses(destinations), arrayTotal.value, totalWidth.value))
    ensures r.Some? ==>
      && Connected(r.value, Accesses(destinations), arrayTotal.value, totalWidth.value)
      && Whole(r.value, arrayTotal.value, totalWidth.value)
  {
    if arrayTotal.None? || totalWidth.None? || totalWidth.value == 0 { return None; }
    var arrayLength, width := arrayTotal.value, totalWidth.value;
    if exists d | d in destinations :: d.None? { return None; }
    var accesses := Accesses(destinations);
    var elements := SumElements(accesses);
    if elements.None? {
      AtLeastOneBitEach(accesses);
      return None;
    }
    if elements.value == arrayLength && forall x | x in accesses :: x.bits.length == width {
      var rows := ConnectRows(accesses, arrayLength, width);
      return Some(rows);
    }
    var bits := SumWidth(accesses);
    if bits.None? || arrayLength != 1 || bits.value != width || exists x | x in accesses :: x.elements.length != 1 {
      return None;
    }
    var columns := ConnectColumns(accesses, arrayLength, width);
    r := Some(columns);
  }

  /** Single elements number no more than the bits, so the packed layout cannot overflow the first sum. */
  lemma {:induction false} AtLeastOneBitEach(accesses: seq<Access>)
    ensures (forall x | x in accesses :: x.elements.length == 1) ==> Elements(accesses) == |accesses| <= Width(accesses)
  {
    if accesses != [] {
      var last := |accesses| - 1;
      AtLeastOneBitEach(accesses[..last]);
      assert forall x | x in accesses[..last] :: x in accesses;
      assert accesses[last] in accesses;
    }
  }

  // ---- The fragments tile the child ----

  /** The fragments lie in child order along one axis and end where the child ends. */
  predicate Whole(fragments: seq<OutputFragment>, arrayLength: usize, width: usize) {
    || (Rows(fragments, width) && width != 0 && RowsEnd(fragments) == arrayLength)
    || (Columns(fragments) && arrayLength == 1 && ColumnsEnd(fragments) == width)
  }

  lemma {:induction false} PartsInOrder(fragments: seq<OutputFragment>, width: usize, i: nat, j: nat)
    requires i < j < |fragments|
    ensures Rows(fragments, width) ==> fragments[i].childArray.start + fragments[i].childArray.length <= fragments[j].childArray.start
    ensures Columns(fragments) ==> PackedEnd(fragments[i].childPacked) <= fragments[j].childPacked.start
    decreases j
  {
    assert Rows(fragments, width) ==> RowAt(fragments, j, width);
    assert Columns(fragments) ==> ColumnAt(fragments, j);
    if i < j - 1 { PartsInOrder(fragments, width, i, j - 1); }
  }

  lemma {:induction false} RowHolding(fragments: seq<OutputFragment>, width: usize, a: int) returns (i: nat)
    requires Rows(fragments, width) && 0 <= a < RowsEnd(fragments)
    ensures i < |fragments| && fragments[i].childArray.Holds(a)
  {
    i := |fragments| - 1;
    assert RowAt(fragments, i, width);
    if a < fragments[i].childArray.start {
      PrefixOfLayout(fragments, i, width);
      i := RowHolding(fragments[..i], width, a);
    }
  }

  lemma {:induction false} ColumnHolding(fragments: seq<OutputFragment>, p: int) returns (i: nat)
    requires Columns(fragments) && 0 <= p < ColumnsEnd(fragments)
    ensures i < |fragments| && fragments[i].childPacked.Holds(p)
  {
    i := |fragments| - 1;
    assert ColumnAt(fragments, i);
    if p < fragments[i].childPacked.start {
      PrefixOfLayout(fragments, i, 0);
      i := ColumnHolding(fragments[..i], p);
    }
  }

  /** Fragment `i` holds child position (a, p). */
  predicate HeldBy(fragments: seq<OutputFragment>, i: int, a: int, p: int) {
    0 <= i < |fragments| && fragments[i].Holds(a, p)
  }

  predicate InExtent(arrayLength: usize, width: usize, a: int, p: int) {
    0 <= a < arrayLength && 0 <= p < width
  }

  /** No gap, no overlap, nothing outside: each position of the child, and no other, is in exactly one fragment. */
  lemma FragmentsTile(fragments: seq<OutputFragment>, arrayLength: usize, width: usize, a: int, p: int)
    requires Whole(fragments, arrayLength, width)
    ensures InExtent(arrayLength, width, a, p) <==> exists i :: HeldBy(fragments, i, a, p)
    ensures forall i, j | HeldBy(fragments, i, a, p) && HeldBy(fragments, j, a, p) :: i == j
  {
    if Rows(fragments, width) && width != 0 && RowsEnd(fragments) == arrayLength {
      if InExtent(arrayLength, width, a, p) {
        var i := RowHolding(fragments, width, a);
        assert RowAt(fragments, i, width);
        assert HeldBy(fragments, i, a, p);
      }
    } else if InExtent(arrayLength, width, a, p) {
      var i := ColumnHolding(fragments, p);
      assert ColumnAt(fragments, i);
      assert HeldBy(fragments, i, a, p);
    }
    forall i | HeldBy(fragments, i, a, p)
      ensures InExtent(arrayLength, width, a, p)
    {
      assert Rows(fragments, width) ==> RowAt(fragments, i, width);
      assert Columns(fragments) ==> ColumnAt(fragments, i);
      if i < |fragments| - 1 { PartsInOrder(fragments, width, i, |fragments| - 1); }
    }
    forall i, j | HeldBy(fragments, i, a, p) && HeldBy(fragments, j, a, p)
      ensures i == j
    {
      if i < j { PartsInOrder(fragments, width, i, j); }
      if j < i { PartsInOrder(fragments, width, j, i); }
    }
  }
}
