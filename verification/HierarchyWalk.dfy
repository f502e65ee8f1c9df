/** The order in which the loop detector walks the modules. */
module HierarchyWalk {
  import opened Sequences
  import opened LoopAnalyses
  import opened LoopReports
  import opened LoopTiers

  /** Every child of a module of `universe` is in it: the modules of one design. */
  ghost predicate ClosedDesign(t: Analyses, universe: set<Signature>) {
    forall s, c | s in universe && c in t.children(s) :: c in universe
  }

  /** The walk so far: distinct modules of the design, none of them a generic template. */
  ghost predicate Walked(t: Analyses, universe: set<Signature>, order: seq<Signature>) {
    Distinct(order) && forall s | s in order :: s in universe && !t.suppressed(s)
  }

  /** From position `from` on, a module comes after all of its children that are not templates. */
  ghost predicate ChildrenBefore(t: Analyses, order: seq<Signature>, from: nat) {
    forall k, c | from <= k < |order| && c in t.children(order[k]) && !t.suppressed(c) :: c in order[..k]
  }

  /** The modules being visited rank above `s`. */
  ghost predicate Above(rank: Signature -> nat, active: set<Signature>, s: Signature) {
    forall a | a in active :: rank(s) < rank(a)
  }

  lemma ChildrenBeforeGrows(t: Analyses, before: seq<Signature>, order: seq<Signature>, from: nat)
    requires before <= order && from <= |before|
    requires ChildrenBefore(t, before, from) && ChildrenBefore(t, order, |before|)
    ensures ChildrenBefore(t, order, from)
  {
    forall k, c | from <= k < |order| && c in t.children(order[k]) && !t.suppressed(c) ensures c in order[..k] {
      if k < |before| { assert order[..k] == before[..k]; }
    }
  }

  /** Visits `s` and what is below it. `rank` shows what an acyclic design gains. */
  method Visit(t: Analyses, s: Signature, visited0: set<Signature>, active: set<Signature>, order0: seq<Signature>,
               ghost universe: set<Signature>, ghost rank: Signature -> nat)
    returns (visited: set<Signature>, order: seq<Signature>)
    requires ClosedDesign(t, universe) && s in universe && active <= universe
    requires Walked(t, universe, order0) && visited0 == Members(order0)
    ensures Walked(t, universe, order) && visited == Members(order) && order0 <= order
    ensures forall x | x in order :: x in order0 || x !in active
    ensures t.suppressed(s) || s in order || s in active
    ensures RankedBy(t, rank) && Above(rank, active, s) ==> ChildrenBefore(t, order, |order0|)
    decreases universe - active, 1
  {
    visited, order := visited0, order0;
    if t.suppressed(s) || s in visited0 || s in active { return; }
    visited, order := VisitChildren(t, s, t.children(s), visited0, active + {s}, order0, universe, rank);
    ghost var below := order;
    assert s !in order by { assert s in active + {s}; }
    visited, order := visited + {s}, order + [s];
    assert Members(order) == Members(below) + {s};
    if RankedBy(t, rank) && Above(rank, active, s) {
      forall k, c | |below| <= k < |order| && c in t.children(order[k]) && !t.suppressed(c) ensures c in order[..k] {
        assert order[..k] == below && rank(c) < rank(s);
      }
      ChildrenBeforeGrows(t, below, order, |order0|);
    }
  }

  method VisitChildren(t: Analyses, parent: Signature, children: seq<Signature>, visited0: set<Signature>,
                       active: set<Signature>, order0: seq<Signature>, ghost universe: set<Signature>,
                       ghost rank: Signature -> nat)
    returns (visited: set<Signature>, order: seq<Signature>)
    requires ClosedDesign(t, universe) && active <= universe && forall c | c in children :: c in universe
    requires parent in active && forall c | c in children :: c in t.children(parent)
    requires Walked(t, universe, order0) && visited0 == Members(order0)
    ensures Walked(t, universe, order) && visited == Members(order) && order0 <= order
    ensures forall x | x in order :: x in order0 || x !in active
    ensures forall c | c in children :: t.suppressed(c) || c in order || c in active
    ensures RankedBy(t, rank) && Above(rank, active - {parent}, parent) ==> ChildrenBefore(t, order, |order0|)
    decreases universe - active, 2, |children|
  {
    visited, order := visited0, order0;
    for i := 0 to |children|
      invariant Walked(t, universe, order) && visited == Members(order) && order0 <= order
      invariant forall x | x in order :: x in order0 || x !in active
      invariant forall j | 0 <= j < i :: t.suppressed(children[j]) || children[j] in order || children[j] in active
      invariant RankedBy(t, rank) && Above(rank, active - {parent}, parent) ==> ChildrenBefore(t, order, |order0|)
    {
      ghost var before := order;
      visited, order := Visit(t, children[i], visited, active, order, universe, rank);
      if RankedBy(t, rank) && Above(rank, active - {parent}, parent) {
        assert Above(rank, active, children[i]);
        ChildrenBeforeGrows(t, before, order, |order0|);
      }
    }
  }

  /** The modules below `roots` that are not templates. In an acyclic design none comes before a child of it. */
  method Postorder(t: Analyses, roots: seq<Signature>, ghost universe: set<Signature>) returns (order: seq<Signature>)
    requires ClosedDesign(t, universe) && forall r | r in roots :: r in universe
    ensures Walked(t, universe, order)
    ensures forall r | r in roots :: t.suppressed(r) || r in order
    ensures Acyclic(t) ==> ChildrenFirst(t, order)
    ensures Acyclic(t) ==> forall s, c | s in order && c in t.children(s) :: t.suppressed(c) || c in order
  {
    var visited := {};
    order := [];
    ghost var rank: Signature -> nat := s => 0;
    if Acyclic(t) { rank :| RankedBy(t, rank); }
    for i := 0 to |roots|
      invariant Walked(t, universe, order) && visited == Members(order)
      invariant forall j | 0 <= j < i :: t.suppressed(roots[j]) || roots[j] in order
      invariant RankedBy(t, rank) ==> ChildrenBefore(t, order, 0)
    {
      ghost var before := order;
      visited, order := Visit(t, roots[i], visited, {}, order, universe, rank);
      if RankedBy(t, rank) { ChildrenBeforeGrows(t, before, order, 0); }
    }
    if RankedBy(t, rank) {
      forall i, j | 0 <= i < |order| && 0 <= j < |order| && order[j] in t.children(order[i]) ensures j < i {
        assert order[j] in order && !t.suppressed(order[j]);
      }
    }
  }

  /** The detector: the walk, then the two tiers. In an acyclic design the tiers agree with the precise one alone. */
  method Check(t: Analyses, roots: seq<Signature>, ghost universe: set<Signature>)
    returns (errors: seq<Error>, complete: bool, order: seq<Signature>, ghost steps: seq<Step>)
    requires ClosedDesign(t, universe) && forall r | r in roots :: r in universe
    requires Acyclic(t)
    ensures ChildrenFirst(t, order) && forall r | r in roots :: t.suppressed(r) || r in order
    // Every module the coarse tier does not clear is decided, and the errors tell what that finds.
    ensures forall s | s in order && s !in CoarseTier(t, order).1 :: exists k: nat :: k < |steps| && steps[k].Decided? && steps[k].s == s
    ensures Tells(AllEvents(t, Eager(t, order), steps), errors)
    ensures SearchesBelow(t) && CoarseSound(t, order) ==> errors == PreciseOnly(t, order, Echoing(t, order)).errors
  {
    order := Postorder(t, roots, universe);
    var summaries;
    ghost var inserted;
    errors, complete, summaries, inserted, steps := CheckInner(t, order);
    forall s | s in order && s !in CoarseTier(t, order).1 ensures exists k: nat :: k < |steps| && steps[k].Decided? && steps[k].s == s {
      DecidedIsThere(t, order, summaries, inserted, steps, s);
    }
  }
}
