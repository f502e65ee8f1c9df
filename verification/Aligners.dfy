/** All kinds of alignment together. */
module Aligners {
  import opened Options
  import opened SourceTokens
  import opened MachineIntegers
  import opened Alignment

  const COUNT: nat := 18

  type Paddings = map<Location, Padding>

  // ---- Adding up ----

  function Combined(known: Option<Padding>, more: Padding): Padding {
    match known
    case None => more
    case Some(p) => Padding(Plus(p.width, more.width), p.kind.Merge(more.kind))
  }

  /** The total at `l` after all the kinds, from the total before. */
  function TotalAt(before: Option<Padding>, kinds: seq<Paddings>, l: Location): Option<Padding> {
    if kinds == [] then before else
      var front, last := TotalAt(before, kinds[..|kinds| - 1], l), kinds[|kinds| - 1];
      if l in last then Some(Combined(front, last[l])) else front
  }

  /** `totals` plus the entries of `kind` at the locations in `done`. */
  predicate AddedAt(totals: Paddings, kind: Paddings, done: set<Location>, after: Paddings, l: Location) {
    Lookup(after, l) == if l in done && l in kind then Some(Combined(Lookup(totals, l), kind[l])) else Lookup(totals, l)
  }

  /** One kind's paddings, in whatever order the map yields them. */
  method AddKind(totals: Paddings, kind: Paddings) returns (after: Paddings)
    ensures forall l :: AddedAt(totals, kind, kind.Keys, after, l)
  {
    var left := kind.Keys;
    after := totals;
    while left != {}
      invariant left <= kind.Keys
      invariant forall l :: AddedAt(totals, kind, kind.Keys - left, after, l)
    {
      var l :| l in left;
      assert AddedAt(totals, kind, kind.Keys - left, after, l);
      ghost var before, leftBefore := after, left;
      after := after[l := Combined(Lookup(after, l), kind[l])];
      left := left - {l};
      forall m ensures AddedAt(totals, kind, kind.Keys - left, after, m) {
        assert AddedAt(totals, kind, kind.Keys - leftBefore, before, m);
      }
    }
    assert kind.Keys - left == kind.Keys;
  }

  // ---- What the totals are ----

  function SumAt(kinds: seq<Paddings>, l: Location): nat {
    if kinds == [] then 0 else
      var last := kinds[|kinds| - 1];
      SumAt(kinds[..|kinds| - 1], l) + if l in last then last[l].width else 0
  }

  predicate Pads(kinds: seq<Paddings>, i: int, l: Location) {
    0 <= i < |kinds| && l in kinds[i]
  }

  /** From empty totals: the sum of the widths, shown in the layouts where some kind shows its padding. */
  lemma {:induction false} TotalsAreSums(kinds: seq<Paddings>, l: Location)
    ensures var t := TotalAt(None, kinds, l);
      && (t.Some? <==> exists i :: Pads(kinds, i, l))
      && (t.Some? ==> t.value.width == SumAt(kinds, l) % (U32_MAX + 1))
      && (t.Some? ==> forall broken :: t.value.kind.Shows(broken) <==> exists i :: Pads(kinds, i, l) && kinds[i][l].kind.Shows(broken))
  {
    if kinds != [] {
      var n := |kinds| - 1;
      var front := kinds[..n];
      TotalsAreSums(front, l);
      assert forall i | 0 <= i < n :: Pads(kinds, i, l) <==> Pads(front, i, l);
      if l in kinds[n] {
        assert Pads(kinds, n, l);
        PlusAdds(SumAt(front, l), kinds[n][l].width);
        if TotalAt(None, front, l).Some? {
          var known := TotalAt(None, front, l).value;
          forall broken ensures known.kind.Merge(kinds[n][l].kind).Shows(broken) <==> known.kind.Shows(broken) || kinds[n][l].kind.Shows(broken) {
            MergeShows(known.kind, kinds[n][l].kind, broken);
          }
        } else {
          NothingToSum(front, l);
        }
      } else {
        assert SumAt(kinds, l) == SumAt(front, l);
      }
    }
  }

  lemma {:induction false} NothingToSum(kinds: seq<Paddings>, l: Location)
    requires forall i :: !Pads(kinds, i, l)
    ensures SumAt(kinds, l) == 0
  {
    if kinds != [] {
      var n := |kinds| - 1;
      forall i ensures !Pads(kinds[..n], i, l) { assert !Pads(kinds, i, l); }
      NothingToSum(kinds[..n], l);
      assert !Pads(kinds, n, l);
    }
  }

  // ---- The object ----

  class Aligner {
    var additions: Paddings
    var latestObservedLine: u32
    const aligns: seq<Align>

    /** Different objects, one for each kind, each in a state some calls lead to. */
    ghost predicate Valid()
      reads aligns
    {
      && |aligns| == COUNT
      && (forall i, j | 0 <= i < j < |aligns| :: aligns[i] != aligns[j])
      && (forall i | 0 <= i < |aligns| :: aligns[i].View().Ok())
    }

    ghost function Kinds(): (r: seq<Paddings>)
      reads aligns
      ensures |r| == |aligns| && forall i | 0 <= i < |aligns| :: r[i] == aligns[i].additions
    {
      seq(|aligns|, i requires 0 <= i < |aligns| reads aligns => aligns[i].additions)
    }

    method ObserveLine(line: u32)
      modifies `latestObservedLine
      ensures latestObservedLine == if line > old(latestObservedLine) then line else old(latestObservedLine)
    {
      if line > latestObservedLine { latestObservedLine := line; }
    }

    method SeeToken(t: Token)
      requires Valid()
      modifies `latestObservedLine, aligns
      ensures Valid() && latestObservedLine == Max(t.line, old(latestObservedLine))
      ensures forall i | 0 <= i < |aligns| :: aligns[i].View() == Called(old(aligns[i].View()), See(LocationOf(t, None), t.length))
    {
      ObserveLine(t.line);
      for n := 0 to |aligns|
        modifies aligns
        invariant forall i | n <= i < |aligns| :: aligns[i].View() == old(aligns[i].View())
        invariant forall i | 0 <= i < n :: aligns[i].View() == Called(old(aligns[i].View()), See(LocationOf(t, None), t.length))
      {
        aligns[n].SeeToken(t);
      }
    }

    /** Every kind that took part in the statement moves on to its last line. */
    method NoteStatementEnd()
      requires Valid()
      modifies aligns
      ensures Valid()
      ensures forall i | 0 <= i < |aligns| :: aligns[i].View() == Called(old(aligns[i].View()), Call.NoteStatementEnd(latestObservedLine))
    {
      for n := 0 to |aligns|
        invariant forall i | n <= i < |aligns| :: aligns[i].View() == old(aligns[i].View())
        invariant forall i | 0 <= i < n :: aligns[i].View() == Called(old(aligns[i].View()), Call.NoteStatementEnd(latestObservedLine))
      {
        aligns[n].NoteStatementEnd(latestObservedLine);
      }
    }

    method FinishItem()
      requires Valid()
      modifies aligns
      ensures Valid()
      ensures forall i | 0 <= i < |aligns| :: aligns[i].View() == Called(old(aligns[i].View()), Call.FinishItem)
    {
      for n := 0 to |aligns|
        invariant forall i | n <= i < |aligns| :: aligns[i].View() == old(aligns[i].View())
        invariant forall i | 0 <= i < n :: aligns[i].View() == Called(old(aligns[i].View()), Call.FinishItem)
      {
        aligns[n].FinishItem();
      }
    }

    /** Closes the group of one kind and no other. */
    method FinishGroupFor(kind: nat)
      requires Valid() && kind < COUNT
      modifies aligns[kind]
      ensures Valid()
      ensures aligns[kind].View() == GroupFinished(ItemFinished(old(aligns[kind].View())))
    {
      aligns[kind].FinishItem();
      aligns[kind].FinishGroup();
    }

    /** Adds every kind's paddings to the totals. */
    method GatherAdditions()
      modifies `additions
      ensures forall l :: Lookup(additions, l) == TotalAt(Lookup(old(additions), l), Kinds(), l)
    {
      for n := 0 to |aligns|
        invariant forall l :: Lookup(additions, l) == TotalAt(Lookup(old(additions), l), Kinds()[..n], l)
      {
        assert Kinds()[..n + 1][..n] == Kinds()[..n] && Kinds()[n] == aligns[n].additions;
        var after := AddKind(additions, aligns[n].additions);
        forall l ensures Lookup(after, l) == TotalAt(Lookup(old(additions), l), Kinds()[..n + 1], l) {
          assert AddedAt(additions, aligns[n].additions, aligns[n].additions.Keys, after, l);
        }
        additions := after;
      }
      assert Kinds()[..|aligns|] == Kinds();
    }
  }
}
