/** The column aligner of one kind, as a state machine. */
module Alignment {
  import opened Options
  import opened SourceTokens
  import opened MachineIntegers

  /** 32-bit addition. */
  function Plus(a: u32, b: int): u32 {
    (a + b) % (U32_MAX + 1)
  }

  lemma PlusAdds(a: nat, b: nat)
    ensures Plus(a % (U32_MAX + 1), b) == (a + b) % (U32_MAX + 1)
  {
  }

  datatype Location = Location(line: u32, column: u32, length: u32, source: TokenSource, duplicated: Option<nat>)

  function LocationOf(t: Token, duplicated: Option<nat>): Location {
    Location(t.line, t.column, t.length, t.source, duplicated)
  }

  // ---- When padding shows ----

  datatype PadKind = Always | IfBreak | IfFlat {
    function Merge(other: PadKind): PadKind {
      match (this, other)
      case (Always, _) => Always
      case (_, Always) => Always
      case (IfBreak, IfBreak) => IfBreak
      case (IfFlat, IfFlat) => IfFlat
      case _ => Always
    }

    /** Whether the padding shows when the enclosing layout group is broken, or flat. */
    predicate Shows(broken: bool) {
      match this
      case Always => true
      case IfBreak => broken
      case IfFlat => !broken
    }
  }

  /** Merged padding shows exactly in the layouts where one of the two shows. */
  lemma MergeShows(a: PadKind, b: PadKind, broken: bool)
    ensures a.Merge(b).Shows(broken) <==> a.Shows(broken) || b.Shows(broken)
  {
  }

  /** And no other kind does. */
  lemma MergeIsOnly(a: PadKind, b: PadKind, k: PadKind)
    ensures k == a.Merge(b) <==> forall broken :: k.Shows(broken) <==> a.Shows(broken) || b.Shows(broken)
  {
    MergeShows(a, b, true);
    MergeShows(a, b, false);
    if k != a.Merge(b) {
      assert k.Shows(true) != a.Merge(b).Shows(true) || k.Shows(false) != a.Merge(b).Shows(false);
    }
  }

  // ---- The state of one kind ----

  datatype Item = Item(location: Location, width: u32, kind: PadKind)

  datatype Padding = Padding(width: u32, kind: PadKind)

  datatype State = State(
    enable: bool,
    padKind: PadKind,
    index: nat,
    maxWidth: u32,
    width: u32,
    line: u32,
    hadItemInStatement: bool,
    rest: seq<Item>,
    additions: map<Location, Padding>,
    disableAutoFinish: bool,
    lastLocation: Option<Location>)
  {
    /** `maxWidth` is the greatest width of the open group. */
    predicate Ok() {
      Fits(rest, maxWidth) && if rest == [] then maxWidth == 0 else Reached(rest, maxWidth)
    }
  }

  const INITIAL := State(false, Always, 0, 0, 0, 0, false, [], map[], false, None)

  predicate Fits(items: seq<Item>, maxWidth: u32) {
    forall k | 0 <= k < |items| :: items[k].width <= maxWidth
  }

  /** Some item has the width. */
  predicate Reached(items: seq<Item>, width: u32) {
    exists k :: 0 <= k < |items| && items[k].width == width
  }

  function Closed(additions: map<Location, Padding>, items: seq<Item>, maxWidth: u32): map<Location, Padding>
    requires Fits(items, maxWidth)
  {
    if items == [] then additions else
      var front, last := items[..|items| - 1], items[|items| - 1];
      Closed(additions, front, maxWidth)[last.location := Padding(maxWidth - last.width, last.kind)]
  }

  function GroupFinished(s: State): State
    requires s.Ok()
  {
    s.(additions := Closed(s.additions, s.rest, s.maxWidth), rest := [], maxWidth := 0)
  }

  /** The next item is on an earlier line, or leaves a line out. */
  predicate SplitsGroup(s: State, line: u32) {
    !s.disableAutoFinish && (s.line > line || line - s.line > 1)
  }

  /** No item is open any more. */
  function Idle(s: State): State {
    s.(enable := false, padKind := Always)
  }

  function Regrouped(s: State, line: u32): (r: State)
    requires s.Ok()
    ensures r.Ok()
  {
    if SplitsGroup(s, line) then GroupFinished(s) else s
  }

  /** The group takes the item, whose width the state still holds. */
  function Taken(s: State, item: Item): State {
    s.(
      maxWidth := if s.maxWidth < item.width then item.width else s.maxWidth,
      line := item.location.line,
      rest := s.rest + [item],
      width := 0,
      index := s.index + 1)
  }

  lemma TakenStaysOk(s: State, item: Item)
    requires s.Ok()
    ensures Taken(s, item).Ok()
  {
    var r := Taken(s, item);
    if item.width < s.maxWidth {
      var k :| 0 <= k < |s.rest| && s.rest[k].width == s.maxWidth;
      assert r.rest[k].width == r.maxWidth;
    } else {
      assert r.rest[|s.rest|].width == r.maxWidth;
    }
  }

  function ItemFinished(s: State): (r: State)
    requires s.Ok()
    ensures r.Ok()
  {
    if !s.enable then s
    else if s.lastLocation.None? then Idle(s)
    else
      var location := s.lastLocation.value;
      var group := Regrouped(Idle(s), location.line);
      var item := Item(location, s.width, s.padKind);
      TakenStaysOk(group, item);
      Taken(group, item)
  }

  function ItemStarted(s: State, kind: PadKind): State {
    if s.enable then s else s.(enable := true, width := 0, padKind := kind, hadItemInStatement := true)
  }

  function StatementEnded(s: State, line: u32): State {
    if !s.hadItemInStatement then s else
      s.(line := if line > s.line then line else s.line, hadItemInStatement := false)
  }

  function Located(s: State, location: Location, width: int): State {
    if s.enable then s.(width := Plus(s.width, width), lastLocation := Some(location)) else s
  }

  function Widened(s: State, width: int): State {
    if s.enable then s.(width := Plus(s.width, width)) else s
  }

  // ---- Every call keeps the width of the group ----

  datatype Call =
    | FinishGroup
    | FinishItem
    | StartItem(kind: PadKind)
    | NoteStatementEnd(line: u32)
    | See(location: Location, width: nat)
    | AddWidth(width: nat)
    | ClearHadItem
    | SetAutoFinish(on: bool)

  /** Whatever is called, `maxWidth` stays the greatest width of the group, so paddings never underflow. */
  function Called(s: State, c: Call): (r: State)
    requires s.Ok()
    ensures r.Ok()
  {
    match c
    case FinishGroup => GroupFinished(s)
    case FinishItem => ItemFinished(s)
    case StartItem(kind) => ItemStarted(s, kind)
    case NoteStatementEnd(line) => StatementEnded(s, line)
    case See(location, width) => Located(s, location, width)
    case AddWidth(width) => Widened(s, width)
    case ClearHadItem => s.(hadItemInStatement := false)
    case SetAutoFinish(on) => s.(disableAutoFinish := !on)
  }

  function Run(calls: seq<Call>): (s: State)
    ensures s.Ok()
  {
    if calls == [] then INITIAL else
      Called(Run(calls[..|calls| - 1]), calls[|calls| - 1])
  }

  // ---- What closing a group does ----

  /** Item `i` is the last one at its location. */
  predicate LastMention(items: seq<Item>, i: int) {
    0 <= i < |items| && forall j | i < j < |items| :: items[j].location != items[i].location
  }

  predicate DistinctLocations(items: seq<Item>) {
    forall i, j | 0 <= i < j < |items| :: items[i].location != items[j].location
  }

  /** Every location outside the group keeps its padding. */
  lemma {:induction false} ClosedElsewhere(additions: map<Location, Padding>, items: seq<Item>, maxWidth: u32, l: Location)
    requires Fits(items, maxWidth) && forall k | 0 <= k < |items| :: items[k].location != l
    ensures Lookup(Closed(additions, items, maxWidth), l) == Lookup(additions, l)
  {
    if items != [] { ClosedElsewhere(additions, items[..|items| - 1], maxWidth, l); }
  }

  /** Of a location's items the last one decides. */
  lemma {:induction false} ClosedAt(additions: map<Location, Padding>, items: seq<Item>, maxWidth: u32, i: nat)
    requires Fits(items, maxWidth) && LastMention(items, i)
    ensures Lookup(Closed(additions, items, maxWidth), items[i].location) == Some(Padding(maxWidth - items[i].width, items[i].kind))
  {
    if i < |items| - 1 {
      assert items[i].location != items[|items| - 1].location;
      ClosedAt(additions, items[..|items| - 1], maxWidth, i);
    }
  }

  /** The padding of item `i` of the open group, once the group is closed. */
  function PaddingOf(s: State, i: nat): Option<Padding>
    requires s.Ok() && i < |s.rest|
  {
    Lookup(GroupFinished(s).additions, s.rest[i].location)
  }

  /** The last item at the location of item `i`. */
  function LastAt(items: seq<Item>, i: nat): (r: nat)
    requires i < |items|
    ensures LastMention(items, r) && i <= r && items[r].location == items[i].location
  {
    var end := |items| - 1;
    if items[end].location == items[i].location then end else LastAt(items[..end], i)
  }

  /**
   * Item `i` gets the padding of the last item at its location. So width and padding add up to the
   * greatest width exactly if it is as wide as that last one, which it is if it comes last itself.
   */
  predicate AlignedAt(s: State, i: nat)
    requires s.Ok() && i < |s.rest|
  {
    var last := s.rest[LastAt(s.rest, i)];
    && PaddingOf(s, i) == Some(Padding(s.maxWidth - last.width, last.kind))
    && (s.rest[i].width + PaddingOf(s, i).value.width == s.maxWidth <==> s.rest[i].width == last.width)
    && (LastMention(s.rest, i) ==> last == s.rest[i])
  }

  lemma PaddingOfLast(s: State, i: nat)
    requires s.Ok() && i < |s.rest|
    ensures AlignedAt(s, i)
  {
    ClosedAt(s.additions, s.rest, s.maxWidth, LastAt(s.rest, i));
  }

  /** When a group closes after any calls, its items are aligned. */
  lemma GroupIsAligned(calls: seq<Call>, i: nat)
    requires i < |Run(calls).rest|
    ensures AlignedAt(Run(calls), i)
  {
    PaddingOfLast(Run(calls), i);
  }

  ghost predicate NeedsNone(s: State, i: int)
    requires s.Ok()
  {
    0 <= i < |s.rest| && PaddingOf(s, i).Some? && PaddingOf(s, i).value.width == 0
  }

  predicate WidestAndLast(s: State, i: int) {
    LastMention(s.rest, i) && s.rest[i].width == s.maxWidth
  }

  lemma NeedsNoneIff(s: State)
    requires s.Ok()
    ensures (exists i :: NeedsNone(s, i)) <==> exists i :: WidestAndLast(s, i)
  {
    if i :| NeedsNone(s, i) {
      PaddingOfLast(s, i);
      assert WidestAndLast(s, LastAt(s.rest, i));
    }
    if i :| WidestAndLast(s, i) {
      PaddingOfLast(s, i);
      assert NeedsNone(s, i);
    }
  }

  /** Some item of the group needs no padding exactly if a widest one is the last at its location. */
  lemma SomeNeedsNoneIff(calls: seq<Call>)
    ensures var s := Run(calls);
      && ((exists i :: NeedsNone(s, i)) <==> exists i :: WidestAndLast(s, i))
      && (s.rest != [] && DistinctLocations(s.rest) ==> exists i :: NeedsNone(s, i))
  {
    var s := Run(calls);
    NeedsNoneIff(s);
    if s.rest != [] && DistinctLocations(s.rest) {
      var i :| 0 <= i < |s.rest| && s.rest[i].width == s.maxWidth;
      assert WidestAndLast(s, i);
    }
  }

  /** Two items at one location, the wider one first. */
  function Twice(l: Location): seq<Call> {
    [StartItem(Always), See(l, 5), FinishItem, StartItem(Always), See(l, 3), FinishItem]
  }

  function WithItem(s: State, l: Location, width: u32): State
    requires s.Ok()
  {
    Called(Called(Called(s, StartItem(Always)), See(l, width)), FinishItem)
  }

  lemma WithItemIs(s: State, l: Location, width: u32)
    requires s.Ok() && !s.enable && (s.rest == [] || s.line == l.line)
    ensures var r := WithItem(s, l, width);
      r.rest == s.rest + [Item(l, width, Always)] && !r.enable && r.line == l.line && r.maxWidth == Max(s.maxWidth, width)
  {
  }

  lemma RunMore(calls: seq<Call>, c: Call)
    ensures Run(calls + [c]) == Called(Run(calls), c)
  {
    assert (calls + [c])[..|calls|] == calls;
  }

  lemma RunItem(calls: seq<Call>, l: Location, width: u32)
    ensures Run(calls + [StartItem(Always)] + [See(l, width)] + [FinishItem]) == WithItem(Run(calls), l, width)
  {
    RunMore(calls, StartItem(Always));
    RunMore(calls + [StartItem(Always)], See(l, width));
    RunMore(calls + [StartItem(Always)] + [See(l, width)], FinishItem);
  }

  /** A repeated location can leave a whole group padded. */
  lemma RepeatedLocationPads(l: Location)
    ensures var s := Run(Twice(l));
      s.rest == [Item(l, 5, Always), Item(l, 3, Always)] && forall i :: !NeedsNone(s, i)
  {
    var once: seq<Call> := [] + [StartItem(Always)] + [See(l, 5)] + [FinishItem];
    assert once + [StartItem(Always)] + [See(l, 3)] + [FinishItem] == Twice(l);
    RunItem([], l, 5);
    WithItemIs(INITIAL, l, 5);
    RunItem(once, l, 3);
    WithItemIs(Run(once), l, 3);
    NeedsNoneIff(Run(Twice(l)));
  }

  predicate LinesInOrder(items: seq<Item>) {
    forall i, j | 0 <= i < j < |items| :: items[i].location.line <= items[j].location.line
  }

  /** The group's lines ascend, up to the current line. */
  predicate LinesAscend(s: State) {
    !s.disableAutoFinish && LinesInOrder(s.rest) && forall i | 0 <= i < |s.rest| :: s.rest[i].location.line <= s.line
  }

  lemma CallAscends(s: State, c: Call)
    requires s.Ok() && LinesAscend(s) && c != SetAutoFinish(false)
    ensures LinesAscend(Called(s, c))
  {
  }

  /** Unless splitting is switched off, the lines of a group ascend. */
  lemma {:induction false} GroupLinesAscend(calls: seq<Call>)
    requires SetAutoFinish(false) !in calls
    ensures LinesAscend(Run(calls))
  {
    if calls != [] {
      assert forall c | c in calls[..|calls| - 1] :: c in calls;
      assert calls[|calls| - 1] in calls;
      GroupLinesAscend(calls[..|calls| - 1]);
      CallAscends(Run(calls[..|calls| - 1]), calls[|calls| - 1]);
    }
  }

  // ---- The object ----

  class Align {
    var enable: bool
    var padKind: PadKind
    var index: nat
    var maxWidth: u32
    var width: u32
    var line: u32
    var hadItemInStatement: bool
    var rest: seq<Item>
    var additions: map<Location, Padding>
    var disableAutoFinish: bool
    var lastLocation: Option<Location>

    function View(): State
      reads this
    {
      State(enable, padKind, index, maxWidth, width, line, hadItemInStatement, rest, additions, disableAutoFinish, lastLocation)
    }

    constructor ()
      ensures View() == INITIAL
    {
      enable, padKind, index, maxWidth, width, line := false, Always, 0, 0, 0, 0;
      hadItemInStatement, rest, additions, disableAutoFinish, lastLocation := false, [], map[], false, None;
    }

    method FinishGroup()
      requires View().Ok()
      modifies this
      ensures View() == Called(old(View()), Call.FinishGroup)
    {
      ghost var s := View();
      for n := 0 to |rest|
        invariant View() == s.(additions := additions)
        invariant n <= |s.rest| && additions == Closed(s.additions, s.rest[..n], s.maxWidth)
      {
        assert rest[..n + 1][..n] == rest[..n];
        additions := additions[rest[n].location := Padding(maxWidth - rest[n].width, rest[n].kind)];
      }
      assert s.rest[..|s.rest|] == s.rest;
      rest := [];
      maxWidth := 0;
    }

    /** The second half of `finish_item`: the group takes the item. */
    method TakeItem(location: Location, kind: PadKind)
      modifies this
      ensures View() == Taken(old(View()), Item(location, old(width), kind))
    {
      maxWidth := if maxWidth < width then width else maxWidth;
      line := location.line;
      rest := rest + [Item(location, width, kind)];
      width := 0;
      index := index + 1;
    }

    method FinishItem()
      requires View().Ok()
      modifies this
      ensures View() == Called(old(View()), Call.FinishItem)
    {
      if enable {
        enable := false;
        var kind := padKind;
        padKind := Always;
        assert View() == Idle(old(View()));
        if lastLocation.Some? {
          var location := lastLocation.value;
          if !disableAutoFinish && (line > location.line || location.line - line > 1) {
            FinishGroup();
          }
          assert View() == Regrouped(Idle(old(View())), location.line);
          TakeItem(location, kind);
        }
      }
    }

    /** `start_item` and its two gated forms, which differ in the kind. */
    method StartItem(kind: PadKind)
      modifies this
      ensures old(View()).Ok() ==> View() == Called(old(View()), Call.StartItem(kind))
    {
      if !enable {
        enable, width, padKind, hadItemInStatement := true, 0, kind, true;
      }
    }

    method NoteStatementEnd(end: u32)
      modifies this
      ensures old(View()).Ok() ==> View() == Called(old(View()), Call.NoteStatementEnd(end))
    {
      if hadItemInStatement {
        if end > line { line := end; }
        hadItemInStatement := false;
      }
    }

    method SeeToken(t: Token)
      modifies this
      ensures old(View()).Ok() ==> View() == Called(old(View()), See(LocationOf(t, None), t.length))
    {
      if enable {
        width := Plus(width, t.length);
        lastLocation := Some(LocationOf(t, None));
      }
    }

    method DuplicatedToken(t: Token, i: nat)
      modifies this
      ensures old(View()).Ok() ==> View() == Called(old(View()), See(LocationOf(t, Some(i)), t.length))
    {
      if enable {
        width := Plus(width, t.length);
        lastLocation := Some(LocationOf(t, Some(i)));
      }
    }

    method DummyLocation(l: Location)
      modifies this
      ensures old(View()).Ok() ==> View() == Called(old(View()), See(l, 0))
    {
      if enable { lastLocation := Some(l); }
    }

    method Space(x: nat)
      modifies this
      ensures old(View()).Ok() ==> View() == Called(old(View()), AddWidth(x))
    {
      if enable { width := Plus(width, x); }
    }

    method ClearHadItemInStatement()
      modifies this
      ensures old(View()).Ok() ==> View() == Called(old(View()), ClearHadItem)
    {
      hadItemInStatement := false;
    }
  }
}
