/** One diagnostic per declared variable, however many specializations it conflicts in. */
module DriverReports {
  import opened Options
  import opened Sequences
  import opened TokenLists

  datatype ReportKey = ReportKey(declaration: RangeRank, identifier: string)

  /** A conflict: the tokens of the writes, at least one. */
  datatype Finding = Finding(key: ReportKey, sites: seq<RangeRank>)

  datatype MultipleAssignment = MultipleAssignment(identifier: string, site: RangeRank, sites: seq<RangeRank>)

  /** The state of the reports: keys in the order first seen, and the sites of each. */
  datatype Table = Table(order: seq<ReportKey>, sites: map<ReportKey, seq<RangeRank>>) {
    ghost predicate Ok() {
      && (forall i, j | 0 <= i < j < |order| :: order[i] != order[j])
      && (forall k :: k in order <==> k in sites)
      && (forall k | k in sites :: sites[k] != [] && Increasing(sites[k]))
    }
  }

  const EMPTY := Table([], map[])

  function Merged(known: Option<seq<RangeRank>>, sites: seq<RangeRank>): seq<RangeRank> {
    match known case None => sites case Some(existing) => SortDedup(existing + sites)
  }

  function Inserted(t: Table, f: Finding): Table {
    Table(
      if f.key in t.sites then t.order else t.order + [f.key],
      t.sites[f.key := Merged(Lookup(t.sites, f.key), f.sites)])
  }

  function AllInserted(t: Table, findings: seq<Finding>): Table {
    if findings == [] then t else
      Inserted(AllInserted(t, findings[..|findings| - 1]), findings[|findings| - 1])
  }

  /** One error per key, in order, at its first site. */
  ghost predicate Rendered(t: Table, errors: seq<MultipleAssignment>) {
    && t.Ok() && |errors| == |t.order|
    && forall i | 0 <= i < |errors| ::
         var key := t.order[i];
         key in t.sites && errors[i] == MultipleAssignment(key.identifier, t.sites[key][0], t.sites[key])
  }

  class Reports {
    var order: seq<ReportKey>
    var sites: map<ReportKey, seq<RangeRank>>

    function View(): Table
      reads this
    {
      Table(order, sites)
    }

    constructor ()
      ensures View() == EMPTY
    {
      order, sites := [], map[];
    }

    method Insert(declaration: RangeRank, identifier: string, found: seq<RangeRank>)
      modifies this
      ensures View() == Inserted(old(View()), Finding(ReportKey(declaration, identifier), found))
    {
      var key := ReportKey(declaration, identifier);
      if key in sites {
        sites := sites[key := SortDedup(sites[key] + found)];
      } else {
        order := order + [key];
        sites := sites[key := found];
      }
    }

    /** Consumes the reports. */
    method IntoErrors() returns (errors: seq<MultipleAssignment>)
      requires View().Ok()
      modifies this
      ensures Rendered(old(View()), errors)
    {
      errors := [];
      for i := 0 to |order|
        invariant order == old(order) && |errors| == i
        invariant forall j | i <= j < |order| :: order[j] in sites && sites[order[j]] == old(sites)[order[j]]
        invariant forall j | 0 <= j < i ::
          errors[j] == MultipleAssignment(order[j].identifier, old(sites)[order[j]][0], old(sites)[order[j]])
      {
        var key := order[i];
        var all := sites[key];
        sites := sites - {key};
        errors := errors + [MultipleAssignment(key.identifier, all[0], all)];
      }
    }
  }

  // ---- What a run of insertions leaves ----

  ghost predicate Proper(f: Finding) {
    f.sites != [] && Increasing(f.sites)
  }

  ghost predicate Contributes(findings: seq<Finding>, key: ReportKey, t: RangeRank) {
    exists f :: f in findings && f.key == key && t in f.sites
  }

  ghost predicate Mentions(findings: seq<Finding>, key: ReportKey) {
    exists f :: f in findings && f.key == key
  }

  lemma {:induction false} AllInsertedOk(t: Table, findings: seq<Finding>)
    requires t.Ok() && forall f | f in findings :: Proper(f)
    ensures AllInserted(t, findings).Ok()
  {
    if findings != [] {
      var front, last := findings[..|findings| - 1], findings[|findings| - 1];
      AllInsertedOk(t, front);
      assert Proper(last);
      InsertedOk(AllInserted(t, front), last);
    }
  }

  lemma InsertedLast(t: Table, findings: seq<Finding>, f: Finding)
    ensures AllInserted(t, findings + [f]) == Inserted(AllInserted(t, findings), f)
  {
    assert (findings + [f])[..|findings|] == findings;
  }

  lemma {:induction false} InsertedInTwoParts(t: Table, findings: seq<Finding>, more: seq<Finding>)
    ensures AllInserted(AllInserted(t, findings), more) == AllInserted(t, findings + more)
  {
    if more == [] {
      assert findings + more == findings;
    } else {
      var front, last := more[..|more| - 1], more[|more| - 1];
      InsertedInTwoParts(t, findings, front);
      InsertedLast(t, findings + front, last);
      AppendedLast(findings, more);
    }
  }

  lemma InsertedOk(t: Table, f: Finding)
    requires t.Ok() && Proper(f)
    ensures Inserted(t, f).Ok()
  {
    FirstIsIn(f.sites);
    var merged := Merged(Lookup(t.sites, f.key), f.sites);
    assert f.sites[0] in merged;
  }

  /**
   * Each variable with a finding has one diagnostic, whose sites are, in order and without
   * duplicates, those of all its findings. The order in which they came in makes no difference.
   */
  lemma {:induction false} FindingsAreMerged(findings: seq<Finding>, key: ReportKey, t: RangeRank)
    requires forall f | f in findings :: Proper(f)
    ensures var r := AllInserted(EMPTY, findings);
      && r.Ok()
      && (key in r.sites <==> Mentions(findings, key))
      && (key in r.sites && t in r.sites[key] <==> Contributes(findings, key, t))
  {
    AllInsertedOk(EMPTY, findings);
    if findings != [] {
      var front, last := findings[..|findings| - 1], findings[|findings| - 1];
      FindingsAreMerged(front, key, t);
      assert forall f :: f in findings <==> f in front || f == last;
    }
  }

  /** The diagnostics come in the order their variables were first found. */
  lemma {:induction false} FirstSeenOrder(findings: seq<Finding>, n: nat)
    requires n <= |findings|
    ensures AllInserted(EMPTY, findings[..n]).order <= AllInserted(EMPTY, findings).order
  {
    if n == |findings| {
      assert findings[..n] == findings;
    } else {
      var front := findings[..|findings| - 1];
      assert front[..n] == findings[..n];
      FirstSeenOrder(front, n);
    }
  }

  /** Two runs that find the same give the same diagnostics, up to their order. */
  lemma SameFindingsSameSites(findings: seq<Finding>, others: seq<Finding>)
    requires (forall f | f in findings :: Proper(f)) && forall f :: f in findings <==> f in others
    ensures AllInserted(EMPTY, findings).sites == AllInserted(EMPTY, others).sites
  {
    var r, s := AllInserted(EMPTY, findings), AllInserted(EMPTY, others);
    forall k
      ensures k in r.sites <==> k in s.sites
      ensures k in r.sites ==> r.sites[k] == s.sites[k]
    {
      forall t
        ensures k in r.sites <==> k in s.sites
        ensures k in r.sites ==> (t in r.sites[k] <==> t in s.sites[k])
      {
        FindingsAreMerged(findings, k, t);
        FindingsAreMerged(others, k, t);
      }
      FindingsAreMerged(findings, k, 0);
      FindingsAreMerged(others, k, 0);
      if k in r.sites { IncreasingIsUnique(r.sites[k], s.sites[k]); }
    }
  }
}
