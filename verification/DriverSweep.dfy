/** The sort-and-sweep that finds writes conflicting with a write of another process. */
module DriverSweep {
  import opened MachineIntegers
  import opened Spans
  import opened TokenLists
  import opened StableSorts

  /** The writes of one process to one region, with their tokens. */
  datatype Write = Write(process: nat, elements: ArraySpan, bits: PackedSpan, tokens: seq<RangeRank>)

  // ---- The definition: quadratic, position by position ----

  /** Both writes cover some position of the variable. */
  ghost predicate Overlap(w: Write, v: Write) {
    exists a, p :: w.elements.Holds(a) && v.elements.Holds(a) && w.bits.Holds(p) && v.bits.Holds(p)
  }

  ghost predicate Conflict(w: Write, v: Write) {
    w.process != v.process && Overlap(w, v)
  }

  /** `t` is a token of a write that conflicts with another one. */
  ghost predicate Reported(writes: seq<Write>, t: RangeRank) {
    exists w, v :: w in writes && v in writes && Conflict(w, v) && t in w.tokens
  }

  // ---- The order of the sweep ----

  predicate KeyLess(w: Write, v: Write) {
    || w.elements.start < v.elements.start
    || (w.elements.start == v.elements.start && w.bits.start < v.bits.start)
    || (w.elements.start == v.elements.start && w.bits.start == v.bits.start && w.process < v.process)
  }

  predicate SortedByKey(ws: seq<Write>) {
    Sorted(KeyLess, ws)
  }

  /** The array span of `w` goes on past `start`; one that overflows never ends. */
  predicate Alive(w: Write, start: usize) {
    w.elements.End().None? || w.elements.End().value > start
  }

  /** The sweep's test of an earlier write `w` against the one it has reached. */
  predicate Meets(w: Write, v: Write) {
    Alive(w, v.elements.start) && w.process != v.process && PackedOverlaps(w.bits, v.bits)
  }

  predicate MeetsAt(ws: seq<Write>, i: int, j: int) {
    0 <= i < |ws| && 0 <= j < |ws| && if i < j then Meets(ws[i], ws[j]) else j < i && Meets(ws[j], ws[i])
  }

  function Retained(ws: seq<Write>, active: seq<nat>, start: usize): (r: seq<nat>)
    requires forall j | j in active :: j < |ws|
    ensures forall j: nat :: j in r <==> j in active && Alive(ws[j], start)
  {
    if active == [] then [] else
      assert active[0] in active && forall j | j in active[1..] :: j in active;
      var rest := Retained(ws, active[1..], start);
      if Alive(ws[active[0]], start) then [active[0]] + rest else rest
  }

  /** Test the write `i` against the active ones. */
  method Meet(ws: seq<Write>, i: nat, active: seq<nat>, hit: set<nat>) returns (hit': set<nat>)
    requires i < |ws| && forall j | j in active :: j < i && Alive(ws[j], ws[i].elements.start)
    ensures forall a: nat :: a in hit' <==> a in hit || exists j: nat :: j in active && MeetsAt(ws, j, i) && (a == i || a == j)
  {
    hit' := hit;
    for k := 0 to |active|
      invariant forall a: nat :: a in hit' <==> a in hit || exists j: nat :: j in active[..k] && MeetsAt(ws, j, i) && (a == i || a == j)
    {
      var j := active[k];
      assert j in active;
      assert MeetsAt(ws, j, i) <==> ws[j].process != ws[i].process && PackedOverlaps(ws[j].bits, ws[i].bits);
      assert active[..k + 1] == active[..k] + [j];
      if ws[j].process != ws[i].process && PackedOverlaps(ws[j].bits, ws[i].bits) {
        hit' := hit' + {i, j};
      }
    }
    assert active[..|active|] == active;
  }

  /** The sweep has come to `i`: `active` may leave out only writes that ended, and `hit` is what met so far. */
  ghost predicate SweptTo(ws: seq<Write>, i: nat, active: seq<nat>, hit: set<nat>)
    requires i <= |ws|
  {
    && (forall j | j in active :: j < i)
    && (forall j | 0 <= j < i && j !in active :: !Alive(ws[j], ws[i - 1].elements.start))
    && (forall a: nat :: a in hit <==> a < i && exists b: nat :: b < i && MeetsAt(ws, a, b))
  }

  method SweepStep(ws: seq<Write>, i: nat, active0: seq<nat>, hit0: set<nat>) returns (active: seq<nat>, hit: set<nat>)
    requires SortedByKey(ws) && i < |ws| && SweptTo(ws, i, active0, hit0)
    ensures SweptTo(ws, i + 1, active, hit)
  {
    var start := ws[i].elements.start;
    active := Retained(ws, active0, start);
    assert forall j: nat | j < i :: j in active <==> Alive(ws[j], start);
    hit := Meet(ws, i, active, hit0);
    MeetExtends(ws, i, active, hit0, hit);
    active := active + [i];
  }

  /** The indices of the writes that meet another one. */
  method Sweep(ws: seq<Write>) returns (hit: set<nat>)
    requires SortedByKey(ws)
    ensures forall i: nat :: i in hit <==> i < |ws| && exists j :: MeetsAt(ws, i, j)
  {
    hit := {};
    var active: seq<nat> := [];
    for i := 0 to |ws|
      invariant SweptTo(ws, i, active, hit)
    {
      active, hit := SweepStep(ws, i, active, hit);
    }
  }

  lemma MeetExtends(ws: seq<Write>, i: nat, active: seq<nat>, before: set<nat>, after: set<nat>)
    requires i < |ws|
    requires forall j: nat :: j in active <==> j < i && Alive(ws[j], ws[i].elements.start)
    requires forall a: nat :: a in before <==> a < i && exists b: nat :: b < i && MeetsAt(ws, a, b)
    requires forall a: nat :: a in after <==> a in before || exists j: nat :: j in active && MeetsAt(ws, j, i) && (a == i || a == j)
    ensures forall a: nat :: a in after <==> a < i + 1 && exists b: nat :: b < i + 1 && MeetsAt(ws, a, b)
  {
    forall a: nat
      ensures a in after <==> a < i + 1 && exists b: nat :: b < i + 1 && MeetsAt(ws, a, b)
    {
      if a in after && a !in before {
        var j :| j in active && MeetsAt(ws, j, i) && (a == i || a == j);
        assert MeetsAt(ws, a, if a == i then j else i);
      }
      if a < i + 1 && exists b: nat :: b < i + 1 && MeetsAt(ws, a, b) {
        var b: nat :| b < i + 1 && MeetsAt(ws, a, b);
        if a == i { assert b in active && MeetsAt(ws, b, i); }
        else if b == i { assert a in active; }
      }
    }
  }

  /** What the sweep's test means: the writes overlap, or the later one is empty and lies inside the earlier. */
  lemma MeetsMeans(w: Write, v: Write)
    requires w.elements.start <= v.elements.start
    ensures Meets(w, v) <==>
      && w.process != v.process
      && (Overlap(w, v) || (v.elements.length == 0 && w.elements.Holds(v.elements.start) && PackedOverlaps(w.bits, v.bits)))
  {
    PackedIntersectionHolds(w.bits, v.bits);
    if Meets(w, v) {
      assert w.elements.Holds(v.elements.start);
      var p :| w.bits.Holds(p) && v.bits.Holds(p);
      if v.elements.length != 0 { assert v.elements.Holds(v.elements.start); }
    }
    if Overlap(w, v) {
      var a, p :| w.elements.Holds(a) && v.elements.Holds(a) && w.bits.Holds(p) && v.bits.Holds(p);
    }
  }

  // ---- The whole check of one variable ----

  method SortByKey(ws: array<Write>)
    modifies ws
    ensures ws[..] == InOrder(KeyLess, old(ws[..]))
  {
    var r := InOrder(KeyLess, ws[..]);
    SameElements(r, ws[..]);
    forall i | 0 <= i < ws.Length { ws[i] := r[i]; }
    assert ws[..] == r;
  }

  /** The sweep's verdict on two writes, whichever comes first in key order. */
  predicate SweptTogether(w: Write, v: Write) {
    if KeyLess(w, v) then Meets(w, v) else Meets(v, w)
  }

  predicate SweepReports(writes: seq<Write>, t: RangeRank) {
    exists w, v | w in writes && v in writes :: SweptTogether(w, v) && t in w.tokens
  }

  lemma MeetingIsSwept(ws: seq<Write>, i: nat, j: nat)
    requires SortedByKey(ws) && i < |ws| && j < |ws|
    ensures MeetsAt(ws, i, j) <==> i != j && SweptTogether(ws[i], ws[j])
  {
  }

  /** The sweep over a sorted list reports by the sweep's verdict on pairs. */
  lemma SweptIndices(ws: seq<Write>, hit: set<nat>, t: RangeRank)
    requires SortedByKey(ws) && forall i: nat :: i in hit <==> i < |ws| && exists j :: MeetsAt(ws, i, j)
    ensures SweepReports(ws, t) <==> exists i: nat :: i in hit && t in ws[i].tokens
  {
    if SweepReports(ws, t) {
      var w, v :| w in ws && v in ws && SweptTogether(w, v) && t in w.tokens;
      var i: nat :| i < |ws| && ws[i] == w;
      var j: nat :| j < |ws| && ws[j] == v;
      MeetingIsSwept(ws, i, j);
      assert i in hit;
    }
    if i: nat :| i in hit && t in ws[i].tokens {
      var j :| MeetsAt(ws, i, j);
      MeetingIsSwept(ws, i, j);
      assert ws[i] in ws && ws[j] in ws;
    }
  }

  /** Sorting does not change what is reported: that depends on which writes there are. */
  lemma SameWritesSameReport(ws: seq<Write>, vs: seq<Write>, t: RangeRank)
    requires forall w :: w in ws <==> w in vs
    ensures SweepReports(ws, t) <==> SweepReports(vs, t)
    ensures Reported(ws, t) <==> Reported(vs, t)
  {
  }

  /** The tokens of the writes that were hit, in any order. */
  method CollectSites(ws: seq<Write>, hit: set<nat>) returns (sites: seq<RangeRank>)
    requires forall i | i in hit :: i < |ws|
    ensures forall t :: t in sites <==> exists i: nat :: i in hit && t in ws[i].tokens
  {
    var left := hit;
    sites := [];
    while left != {}
      invariant left <= hit
      invariant forall t :: t in sites <==> exists i: nat :: i in hit && i !in left && t in ws[i].tokens
    {
      var i :| i in left;
      left := left - {i};
      sites := sites + ws[i].tokens;
    }
  }

  /** Sorted tokens of every write that the sweep finds together with a write of another process. */
  method ConflictingSites(writes: array<Write>) returns (sites: seq<RangeRank>)
    modifies writes
    ensures writes[..] == InOrder(KeyLess, old(writes[..]))
    ensures Increasing(sites) && forall t :: t in sites <==> SweepReports(old(writes[..]), t)
  {
    ghost var before := writes[..];
    SortByKey(writes);
    InOrderIsSorted(KeyLess, before);
    var hit := Sweep(writes[..]);
    var tokens := CollectSites(writes[..], hit);
    sites := SortDedup(tokens);
    ghost var after := writes[..];
    SameElements(after, before);
    forall t ensures t in sites <==> SweepReports(before, t) {
      SweptIndices(after, hit, t);
      SameWritesSameReport(after, before, t);
    }
  }

  // ---- The sweep against the definition ----

  predicate NonEmpty(ws: seq<Write>) {
    forall w | w in ws :: w.elements.length != 0
  }

  /** `v` is an empty span lying inside `w`: it covers no position, but the sweep finds the two together. */
  predicate Stray(w: Write, v: Write) {
    && w.process != v.process && KeyLess(w, v)
    && v.elements.length == 0 && w.elements.Holds(v.elements.start) && PackedOverlaps(w.bits, v.bits)
  }

  /** The sweep's verdict is conflict, spans that overflow included, but for strays. */
  lemma SweepIsExact(w: Write, v: Write)
    ensures SweptTogether(w, v) <==> Conflict(w, v) || Stray(w, v) || Stray(v, w)
  {
    MeetsMeans(if KeyLess(w, v) then w else v, if KeyLess(w, v) then v else w);
    OverlapIsSymmetric(w, v);
  }

  lemma OverlapIsSymmetric(w: Write, v: Write)
    ensures Overlap(w, v) <==> Overlap(v, w)
  {
    if Overlap(w, v) {
      var a, p :| w.elements.Holds(a) && v.elements.Holds(a) && w.bits.Holds(p) && v.bits.Holds(p);
    }
    if Overlap(v, w) {
      var a, p :| v.elements.Holds(a) && w.elements.Holds(a) && v.bits.Holds(p) && w.bits.Holds(p);
    }
  }

  /** The sweep equals the quadratic definition. */
  lemma SweepIsQuadratic(ws: seq<Write>, t: RangeRank)
    requires NonEmpty(ws)
    ensures SweepReports(ws, t) <==> Reported(ws, t)
  {
    if SweepReports(ws, t) {
      var w, v :| w in ws && v in ws && SweptTogether(w, v) && t in w.tokens;
      SweepIsExact(w, v);
    }
    if Reported(ws, t) {
      var w, v :| w in ws && v in ws && Conflict(w, v) && t in w.tokens;
      SweepIsExact(w, v);
    }
  }

  /** An empty span inside another write is reported although it covers no position. */
  lemma EmptySpanIsReported(t: RangeRank, u: RangeRank)
    ensures var ws := [Write(0, ArraySpan(0, 4), Bits(0, 1), [t]), Write(1, ArraySpan(2, 0), Bits(0, 1), [u])];
      SweepReports(ws, t) && SweepReports(ws, u) && !Reported(ws, t) && !Reported(ws, u)
  {
    var w, v := Write(0, ArraySpan(0, 4), Bits(0, 1), [t]), Write(1, ArraySpan(2, 0), Bits(0, 1), [u]);
    assert SweptTogether(w, v) && SweptTogether(v, w);
    assert w in [w, v] && v in [w, v];
  }
}
