/** Runs of the column aligner: what an item is, and which items share a group. */
module AlignmentRuns {
  import opened Options
  import opened Sequences
  import opened MachineIntegers
  import opened Alignment

  // ---- What an item is ----

  /** Calls between the start and the end of an item that move its end or add to its width. */
  predicate Measures(c: Call) {
    c.See? || c.AddWidth?
  }

  function WidthsOf(seen: seq<Call>): nat {
    if seen == [] then 0 else
      WidthsOf(seen[..|seen| - 1]) + match seen[|seen| - 1] { case See(_, width) => width case AddWidth(width) => width case _ => 0 }
  }

  /** Where the last token was. */
  function LastSeen(before: Option<Location>, seen: seq<Call>): Option<Location> {
    if seen == [] then before
    else if seen[|seen| - 1].See? then Some(seen[|seen| - 1].location)
    else LastSeen(before, seen[..|seen| - 1])
  }

  /** The state with an open item of that kind, width and end. */
  function Opened(s: State, kind: PadKind, width: u32, last: Option<Location>): State {
    s.(enable := true, padKind := kind, hadItemInStatement := true, width := width, lastLocation := last)
  }

  lemma MeasuredStep(s: State, kind: PadKind, seen: seq<Call>)
    requires s.Ok() && seen != [] && Measures(seen[|seen| - 1])
    ensures var front := seen[..|seen| - 1];
      var before := Opened(s, kind, WidthsOf(front) % (U32_MAX + 1), LastSeen(s.lastLocation, front));
      before.Ok() && Called(before, seen[|seen| - 1]) == Opened(s, kind, WidthsOf(seen) % (U32_MAX + 1), LastSeen(s.lastLocation, seen))
  {
    var front := seen[..|seen| - 1];
    match seen[|seen| - 1] {
      case See(_, width) => PlusAdds(WidthsOf(front), width);
      case AddWidth(width) => PlusAdds(WidthsOf(front), width);
      case _ =>
    }
  }

  /** An open item is as wide as the tokens and spaces seen since it was started, on 32 bits, and ends at the last token. */
  lemma {:induction false} ItemIsMeasured(calls: seq<Call>, kind: PadKind, seen: seq<Call>)
    requires !Run(calls).enable && forall c | c in seen :: Measures(c)
    ensures Run(calls + [StartItem(kind)] + seen)
         == Opened(Run(calls), kind, WidthsOf(seen) % (U32_MAX + 1), LastSeen(Run(calls).lastLocation, seen))
  {
    var started := calls + [StartItem(kind)];
    if seen == [] {
      assert started + seen == started;
      RunMore(calls, StartItem(kind));
    } else {
      var front, last := seen[..|seen| - 1], seen[|seen| - 1];
      assert last in seen && forall c | c in front :: c in seen;
      ItemIsMeasured(calls, kind, front);
      AppendedLast(started, seen);
      RunMore(started + front, last);
      MeasuredStep(Run(calls), kind, seen);
    }
  }

  /** Outside an item tokens and spaces are not seen, and inside one another start is not. */
  lemma NotSeen(calls: seq<Call>, c: Call)
    requires if Run(calls).enable then c.StartItem? else Measures(c) || c.FinishItem?
    ensures Run(calls + [c]) == Run(calls)
  {
    RunMore(calls, c);
  }

  // ---- Where the last item ended ----

  /** The current line is that of the last item, moved on by the end of the statement it is in. */
  lemma LineMoves(calls: seq<Call>, c: Call)
    ensures var s := Run(calls);
      Run(calls + [c]).line ==
        if c.FinishItem? && s.enable && s.lastLocation.Some? then s.lastLocation.value.line
        else if c.NoteStatementEnd? && s.hadItemInStatement then Max(s.line, c.line)
        else s.line
  {
    RunMore(calls, c);
  }

  /** An item is in the statement until its end is noted or the item is disowned. */
  lemma StatementHasItem(calls: seq<Call>, c: Call)
    ensures var s := Run(calls);
      Run(calls + [c]).hadItemInStatement <==>
        if c.StartItem? && !s.enable then true
        else s.hadItemInStatement && !c.NoteStatementEnd? && !c.ClearHadItem?
  {
    RunMore(calls, c);
  }

  // ---- Which items share a group ----

  /** The item that would be taken now. */
  function Open(s: State): Item
    requires s.lastLocation.Some?
  {
    Item(s.lastLocation.value, s.width, s.padKind)
  }

  /** The groups closed so far: nothing but the paddings of `s` and those of its group. */
  ghost predicate ClosesGroup(s: State, after: State)
    requires s.Ok()
  {
    && (forall i | 0 <= i < |s.rest| :: Lookup(after.additions, s.rest[i].location) == PaddingOf(s, i))
    && (forall l | (forall i | 0 <= i < |s.rest| :: s.rest[i].location != l) :: Lookup(after.additions, l) == Lookup(s.additions, l))
  }

  lemma FinishedCloses(s: State)
    requires s.Ok()
    ensures ClosesGroup(s, GroupFinished(s))
  {
    forall l | forall i | 0 <= i < |s.rest| :: s.rest[i].location != l
      ensures Lookup(GroupFinished(s).additions, l) == Lookup(s.additions, l)
    {
      ClosedElsewhere(s.additions, s.rest, s.maxWidth, l);
    }
  }

  /** The next item is on the line where the last one ended, or on the next line. */
  predicate Adjacent(s: State, l: Location) {
    s.line <= l.line <= s.line + 1
  }

  /** An item next to the last one joins its group, as does any while splitting is off. */
  lemma AdjacentItemJoins(calls: seq<Call>)
    requires Run(calls).enable && Run(calls).lastLocation.Some?
    requires Adjacent(Run(calls), Run(calls).lastLocation.value) || Run(calls).disableAutoFinish
    ensures var s, after := Run(calls), Run(calls + [FinishItem]);
      after.rest == s.rest + [Open(s)] && after.additions == s.additions && !after.enable && after.index == s.index + 1
  {
    RunMore(calls, FinishItem);
  }

  /** Any other closes the group and begins one of its own. */
  lemma DistantItemSplits(calls: seq<Call>)
    requires Run(calls).enable && Run(calls).lastLocation.Some?
    requires !Adjacent(Run(calls), Run(calls).lastLocation.value) && !Run(calls).disableAutoFinish
    ensures var s, after := Run(calls), Run(calls + [FinishItem]);
      after.rest == [Open(s)] && ClosesGroup(s, after) && !after.enable && after.index == s.index + 1
  {
    RunMore(calls, FinishItem);
    FinishedCloses(Run(calls));
    assert Idle(Run(calls)).Ok();
  }

  /** Finishing a group closes it. */
  lemma FinishGroupCloses(calls: seq<Call>)
    ensures var s, after := Run(calls), Run(calls + [FinishGroup]);
      after.rest == [] && ClosesGroup(s, after) && after.enable == s.enable && after.line == s.line
  {
    RunMore(calls, FinishGroup);
    FinishedCloses(Run(calls));
  }

  /** Nothing else touches the group or the closed paddings. */
  lemma OthersKeepGroup(calls: seq<Call>, c: Call)
    requires !c.FinishGroup? && !(c.FinishItem? && Run(calls).enable && Run(calls).lastLocation.Some?)
    ensures Run(calls + [c]).rest == Run(calls).rest && Run(calls + [c]).additions == Run(calls).additions
    ensures Run(calls + [c]).disableAutoFinish == if c.SetAutoFinish? then !c.on else Run(calls).disableAutoFinish
  {
    RunMore(calls, c);
  }

  // ---- Two items on adjacent lines ----

  lemma WithItemTaken(s: State, l: Location, width: u32)
    requires s.Ok() && !s.enable
    ensures var after := WithItem(s, l, width);
      && after.Ok() && !after.enable && after.line == l.line
      && after.rest != [] && after.rest[|after.rest| - 1] == Item(l, width, Always)
      && (Adjacent(s, l) ==> after.rest == s.rest + [Item(l, width, Always)])
  {
  }

  lemma TwoAlign(s: State, l: Location, width: u32, m: Location, width': u32)
    requires s.Ok() && !s.enable && l != m && l.line <= m.line <= l.line + 1
    ensures var additions := GroupFinished(WithItem(WithItem(s, l, width), m, width')).additions;
      l in additions && m in additions && width + additions[l].width == width' + additions[m].width
  {
    WithItemTaken(s, l, width);
    WithItemTaken(WithItem(s, l, width), m, width');
    var group := WithItem(WithItem(s, l, width), m, width');
    var n := |group.rest|;
    assert group.rest[n - 1] == Item(m, width', Always) && group.rest[n - 2] == Item(l, width, Always);
    PaddingOfLast(group, n - 1);
    PaddingOfLast(group, n - 2);
  }

  function AfterItem(calls: seq<Call>, l: Location, width: u32): seq<Call> {
    calls + [StartItem(Always)] + [See(l, width)] + [FinishItem]
  }

  /** Two items of the column, on one line or on adjacent ones, get paddings that make them equally wide. */
  lemma AdjacentItemsAlign(calls: seq<Call>, l: Location, width: u32, m: Location, width': u32)
    requires !Run(calls).enable && l != m && l.line <= m.line <= l.line + 1
    ensures var after := Run(AfterItem(AfterItem(calls, l, width), m, width') + [FinishGroup]).additions;
      l in after && m in after && width + after[l].width == width' + after[m].width
  {
    RunItem(calls, l, width);
    RunItem(AfterItem(calls, l, width), m, width');
    RunMore(AfterItem(AfterItem(calls, l, width), m, width'), FinishGroup);
    TwoAlign(Run(calls), l, width, m, width');
  }
}
