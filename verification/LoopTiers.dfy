/** The two tiers of the loop detector. */
module LoopTiers {
  import opened Options
  import opened Sequences
  import opened LoopAnalyses
  import opened LoopReports

  // ---- The order of the walk ----

  /** No module is walked before a child the walk also visits. */
  ghost predicate ChildrenFirst(t: Analyses, order: seq<Signature>) {
    && Distinct(order)
    && forall i, j | 0 <= i < |order| && 0 <= j < |order| && order[j] in t.children(order[i]) :: j < i
  }

  ghost predicate RankedBy(t: Analyses, rank: Signature -> nat) {
    forall s, c | c in t.children(s) :: rank(c) < rank(s)
  }

  ghost predicate Acyclic(t: Analyses) {
    exists rank :: RankedBy(t, rank)
  }

  // ---- The eager, bottom-up build ----

  function Eager(t: Analyses, order: seq<Signature>): (contents: map<Signature, Content>)
    ensures contents.Keys == set s | s in order
  {
    if order == [] then map[] else
      var before := Eager(t, order[..|order| - 1]);
      var s := order[|order| - 1];
      before[s := t.ContentOf(s, before)]
  }

  lemma ContentDependsOnChildren(t: Analyses, s: Signature, left: map<Signature, Content>, right: map<Signature, Content>)
    requires forall c | c in t.children(s) :: Lookup(left, c) == Lookup(right, c)
    ensures t.ChildContents(s, left) == t.ChildContents(s, right)
  {
  }

  lemma {:induction false} EagerIsFixpointAt(t: Analyses, order: seq<Signature>, i: nat)
    requires ChildrenFirst(t, order) && i < |order|
    ensures Eager(t, order)[order[i]] == t.ContentOf(order[i], Eager(t, order))
  {
    var n := |order| - 1;
    var init, s := order[..n], order[i];
    assert order == init + [order[n]];
    var before, after := Eager(t, init), Eager(t, order);
    forall c | c in t.children(s) ensures Lookup(before, c) == Lookup(after, c) {
      assert c != order[n];
    }
    ContentDependsOnChildren(t, s, before, after);
    if i < n {
      assert init[i] == s;
      EagerIsFixpointAt(t, init, i);
    }
  }

  /** The eager build solves the summary equations of all the modules at once,
      so the order it took among those that put children first is not visible. */
  lemma EagerIsFixpoint(t: Analyses, order: seq<Signature>, s: Signature)
    requires ChildrenFirst(t, order) && s in order
    ensures Eager(t, order)[s] == t.ContentOf(s, Eager(t, order))
  {
    var i :| 0 <= i < |order| && order[i] == s;
    EagerIsFixpointAt(t, order, i);
  }

  // ---- Demand ----

  /** A chain of cleared modules, each a child of the one before it. */
  ghost predicate ClearedPath(t: Analyses, path: seq<Signature>, cleared: set<Signature>) {
    && path != []
    && (forall k | 0 <= k < |path| :: path[k] in cleared)
    && forall k | 0 <= k < |path| - 1 :: path[k + 1] in t.children(path[k])
  }

  ghost predicate Demanded(t: Analyses, root: Signature, cleared: set<Signature>, s: Signature) {
    exists path :: ClearedPath(t, path, cleared) && path[0] == root && path[|path| - 1] == s
  }

  lemma DemandChild(t: Analyses, root: Signature, cleared: set<Signature>, s: Signature, c: Signature)
    requires Demanded(t, root, cleared, s) && c in t.children(s) && c in cleared
    ensures Demanded(t, root, cleared, c)
  {
    var path :| ClearedPath(t, path, cleared) && path[0] == root && path[|path| - 1] == s;
    var longer := path + [c];
    forall k | 0 <= k < |longer| - 1 ensures longer[k + 1] in t.children(longer[k]) {
      if k == |path| - 1 { assert longer[k] == s; }
    }
    assert ClearedPath(t, longer, cleared);
  }

  lemma DemandRoot(t: Analyses, root: Signature, cleared: set<Signature>)
    requires root in cleared
    ensures Demanded(t, root, cleared, root)
  {
    assert ClearedPath(t, [root], cleared);
  }

  /** A set that holds the root and every cleared child of its members holds all that is demanded. */
  lemma ClosedHoldsDemanded(t: Analyses, root: Signature, cleared: set<Signature>, closed: set<Signature>, s: Signature)
    requires root in cleared ==> root in closed
    requires forall n, c | n in closed && c in t.children(n) && c in cleared :: c in closed
    requires Demanded(t, root, cleared, s)
    ensures s in closed
  {
    var path :| ClearedPath(t, path, cleared) && path[0] == root && path[|path| - 1] == s;
    var k := 0;
    while k < |path| - 1
      invariant 0 <= k < |path| && path[k] in closed
    {
      k := k + 1;
    }
  }

  /** What the precise tier knows of the modules walked so far, given the contents the eager build gives them. */
  ghost predicate Agrees(t: Analyses, walked: set<Signature>, cleared: set<Signature>,
                         summaries: map<Signature, Summary>, eager: map<Signature, Content>) {
    && cleared !! summaries.Keys
    && walked == cleared + summaries.Keys
    && walked <= eager.Keys
    && (forall s, c | s in walked && c in t.children(s) && c in eager :: c in walked)
    && (forall s | s in summaries :: summaries[s].content == eager[s])
  }

  /** A module with a summary leaves no child cleared. */
  ghost predicate SummariesClosed(t: Analyses, cleared: set<Signature>, summaries: map<Signature, Summary>) {
    forall s, c | s in summaries && c in t.children(s) :: c !in cleared
  }

  lemma AgreeingContent(t: Analyses, summaries: map<Signature, Summary>, eager: map<Signature, Content>, s: Signature)
    requires forall x | x in summaries :: x in eager && summaries[x].content == eager[x]
    requires forall c | c in t.children(s) && c in eager :: c in summaries
    ensures t.ChildContents(s, Contents(summaries)) == t.ChildContents(s, eager)
  {
    ContentDependsOnChildren(t, s, Contents(summaries), eager);
  }

  /** A worklist entry: a module to look at, or one to build now that its children are done. */
  datatype Entry = Entry(node: Signature, childrenDone: bool)

  type Work = seq<Entry>

  /** One call of `SummarizePrecisely`: its arguments, the modules walked before it and
      their ranks, which grow from children to parents. */
  datatype Demand = Demand(t: Analyses, root: Signature, cleared: set<Signature>, summaries: map<Signature, Summary>,
                           walked: set<Signature>, rank: map<Signature, nat>, eager: map<Signature, Content>)
  {
    ghost predicate Valid() {
      && Agrees(t, walked, cleared, summaries, eager)
      && (forall s | s in walked :: eager[s] == t.ContentOf(s, eager))
      && walked <= rank.Keys
      && (forall n, c | n in walked && c in t.children(n) && c in walked :: rank[c] < rank[n])
      && (root in eager ==> root in walked)
    }

    ghost predicate Wants(s: Signature) {
      Demanded(t, root, cleared, s)
    }

    /** The walked modules are the cleared, the pending and the summarized ones. */
    ghost predicate Partition(work: Work, left: set<Signature>, summarized: set<Signature>) {
      && (forall k | 0 <= k < |work| && work[k].childrenDone ::
            work[k].node in walked && work[k].node !in left && work[k].node !in summarized)
      && (forall s | s in walked :: s in left || s in summarized || Entry(s, true) in work)
    }

    /** A pending module lies under entries of lower rank only. */
    ghost predicate Descending(work: Work) {
      && walked <= rank.Keys
      && forall i, j | 0 <= i < j < |work| && work[i].childrenDone && work[i].node in walked && work[j].node in walked ::
           rank[work[j].node] < rank[work[i].node]
    }

    /** The entries above a pending module hold every child of it that still lacks a summary. */
    ghost predicate Held(work: Work, summarized: set<Signature>) {
      forall k, c | 0 <= k < |work| && work[k].childrenDone && c in t.children(work[k].node) && c in walked ::
        c in summarized || exists j :: k < j < |work| && work[j].node == c
    }

    ghost predicate Stacked(work: Work, left: set<Signature>, summarized: set<Signature>) {
      Partition(work, left, summarized) && Descending(work) && Held(work, summarized)
    }

    /** Every entry that was cleared is demanded, and the root is the first to be looked at. */
    ghost predicate Wanted(work: Work, left: set<Signature>) {
      && (forall k | 0 <= k < |work| && work[k].node in cleared :: Wants(work[k].node))
      && (forall k | 0 <= k < |work| && work[k].childrenDone :: work[k].node in cleared)
      && (root in left ==> work == [Entry(root, false)])
    }

    /** What has been summarized: demanded modules, each once, after their cleared children. */
    ghost predicate Summarized(log: seq<Signature>) {
      && Distinct(log)
      && (forall s | s in log :: s in cleared && Wants(s))
      && (forall k, c | 0 <= k < |log| && c in t.children(log[k]) && c in cleared :: c in log[..k])
    }

    /** The tables after summarizing the modules of `log`. */
    ghost predicate Tables(left: set<Signature>, now: map<Signature, Summary>, log: seq<Signature>) {
      && left <= cleared && left !! now.Keys
      && now.Keys == summaries.Keys + Members(log)
      && (forall s | s in summaries :: now[s] == summaries[s])
      && (forall s | s in now :: s in eager && now[s].content == eager[s])
    }

    ghost predicate Invariant(work: Work, left: set<Signature>, now: map<Signature, Summary>, log: seq<Signature>) {
      && Valid()
      && Stacked(work, left, now.Keys)
      && Wanted(work, left)
      && Summarized(log)
      && Tables(left, now, log)
    }
  }

  /** The entries pushed for the children of `s`. */
  function ChildWork(t: Analyses, s: Signature): (work: Work) {
    seq(|t.children(s)|, i requires 0 <= i < |t.children(s)| => Entry(t.children(s)[i], false))
  }

  lemma OpenHeld(d: Demand, below: Work, s: Signature, summarized: set<Signature>)
    requires d.Held(below + [Entry(s, false)], summarized)
    ensures d.Held(below + [Entry(s, true)] + ChildWork(d.t, s), summarized)
  {
    var children, n := d.t.children(s), |below|;
    var work, next := below + [Entry(s, false)], below + [Entry(s, true)] + ChildWork(d.t, s);
    assert forall k | 0 <= k < n :: next[k] == work[k];
    assert next[n] == Entry(s, true);
    forall k, c | 0 <= k < |next| && next[k].childrenDone && c in d.t.children(next[k].node) && c in d.walked
      ensures c in summarized || exists j :: k < j < |next| && next[j].node == c
    {
      if k == n {
        var i :| 0 <= i < |children| && children[i] == c;
        assert next[n + 1 + i].node == c;
      } else if c !in summarized {
        var j :| k < j < |work| && work[j].node == c;
        assert next[j].node == c;
      }
    }
  }

  lemma OpenStacked(d: Demand, below: Work, s: Signature, left: set<Signature>, summarized: set<Signature>)
    requires d.Valid() && d.Stacked(below + [Entry(s, false)], left, summarized)
    requires s in left && s in d.walked && s !in summarized
    ensures d.Stacked(below + [Entry(s, true)] + ChildWork(d.t, s), left - {s}, summarized)
  {
    var children, n := d.t.children(s), |below|;
    var work, next := below + [Entry(s, false)], below + [Entry(s, true)] + ChildWork(d.t, s);
    assert forall k | 0 <= k < n :: next[k] == work[k];
    assert next[n] == Entry(s, true) && work[n] == Entry(s, false);
    assert forall k | n < k < |next| :: next[k] == Entry(children[k - n - 1], false) && next[k].node in children;
    forall x | x in d.walked ensures x in left - {s} || x in summarized || Entry(x, true) in next {
      if Entry(x, true) in work {
        var k :| 0 <= k < |work| && work[k] == Entry(x, true);
        assert next[k] == Entry(x, true);
      }
    }
    OpenHeld(d, below, s, summarized);
    forall i, j | 0 <= i < j < |next| && next[i].childrenDone && next[i].node in d.walked && next[j].node in d.walked
      ensures d.rank[next[j].node] < d.rank[next[i].node]
    {
      if i < n { assert d.rank[work[n].node] < d.rank[work[i].node]; }
    }
  }

  /** Popping an entry that needs no more work: a module with a summary, or one that just got it. */
  lemma PopStacked(d: Demand, below: Work, entry: Entry, left: set<Signature>, summarized: set<Signature>)
    requires d.Stacked(below + [entry], left, summarized)
    requires entry.childrenDone || entry.node !in left
    ensures d.Stacked(below, left, if entry.childrenDone then summarized + {entry.node} else summarized)
    ensures !entry.childrenDone && entry.node in d.walked ==> entry.node in summarized
    ensures entry.childrenDone ==> forall c | c in d.t.children(entry.node) && c in d.walked :: c in summarized
  {
    var work, n := below + [entry], |below|;
    var after := if entry.childrenDone then summarized + {entry.node} else summarized;
    assert work[n] == entry && forall k | 0 <= k < n :: work[k] == below[k];
    forall x | x in d.walked ensures x in left || x in after || Entry(x, true) in below {
      if Entry(x, true) in work && x !in after {
        var k :| 0 <= k < |work| && work[k] == Entry(x, true);
        assert below[k] == Entry(x, true);
      }
    }
    forall k, c | 0 <= k < n && below[k].childrenDone && c in d.t.children(below[k].node) && c in d.walked
      ensures c in after || exists j :: k < j < n && below[j].node == c
    {
      assert work[k] == below[k];
      if c !in summarized {
        var j :| k < j < |work| && work[j].node == c;
        if j < n { assert below[j].node == c; }
      }
    }
    forall k | 0 <= k < n && below[k].childrenDone ensures below[k].node !in after {
      assert work[k] == below[k];
    }
  }

  /** A cleared module is popped: it becomes pending, under its children. */
  lemma OpenStep(d: Demand, below: Work, s: Signature, left: set<Signature>, now: map<Signature, Summary>,
                 log: seq<Signature>)
    requires d.Invariant(below + [Entry(s, false)], left, now, log) && s in left
    ensures d.Invariant(below + [Entry(s, true)] + ChildWork(d.t, s), left - {s}, now, log)
  {
    OpenStacked(d, below, s, left, now.Keys);
    var work, next := below + [Entry(s, false)], below + [Entry(s, true)] + ChildWork(d.t, s);
    assert work[|below|] == Entry(s, false);
    assert forall k | 0 <= k < |below| :: work[k] == below[k] == next[k];
    if d.root in left { assert work == [Entry(d.root, false)]; }
    forall k | 0 <= k < |next| && next[k].node in d.cleared ensures d.Wants(next[k].node) {
      if k > |below| { DemandChild(d.t, d.root, d.cleared, s, next[k].node); }
    }
  }

  /** A module that needs no work is popped. */
  lemma SkipStep(d: Demand, below: Work, s: Signature, left: set<Signature>, now: map<Signature, Summary>,
                 log: seq<Signature>)
    requires d.Invariant(below + [Entry(s, false)], left, now, log) && s !in left
    ensures d.Invariant(below, left, now, log)
  {
    PopStacked(d, below, Entry(s, false), left, now.Keys);
    var work := below + [Entry(s, false)];
    assert work[|below|] == Entry(s, false);
    assert forall k | 0 <= k < |below| :: work[k] == below[k];
  }

  /** A pending module is about to be built: its children have the contents the eager build gives them. */
  lemma BuildsEagerly(d: Demand, below: Work, s: Signature, left: set<Signature>, now: map<Signature, Summary>,
                      log: seq<Signature>)
    requires d.Invariant(below + [Entry(s, true)], left, now, log)
    ensures s in d.eager && d.t.BuildOn(s, Contents(now)) == d.t.BuildOn(s, d.eager)
    ensures d.t.ContentOf(s, Contents(now)) == d.eager[s]
  {
    var work := below + [Entry(s, true)];
    assert work[|below|] == Entry(s, true);
    PopStacked(d, below, Entry(s, true), left, now.Keys);
    AgreeingContent(d.t, now, d.eager, s);
  }

  lemma LogGrows(d: Demand, log: seq<Signature>, s: Signature)
    requires d.Summarized(log) && s !in log && s in d.cleared && d.Wants(s)
    requires forall c | c in d.t.children(s) && c in d.cleared :: c in log
    ensures d.Summarized(log + [s])
  {
    var longer := log + [s];
    forall k, c | 0 <= k < |longer| && c in d.t.children(longer[k]) && c in d.cleared ensures c in longer[..k] {
      if k < |log| { assert longer[..k] == log[..k]; } else { assert longer[..k] == log; }
    }
  }

  lemma TablesGrow(d: Demand, left: set<Signature>, now: map<Signature, Summary>, log: seq<Signature>,
                   s: Signature, summary: Summary)
    requires d.Tables(left, now, log) && s !in left && s !in now && s in d.eager && summary.content == d.eager[s]
    ensures d.Tables(left, now[s := summary], log + [s])
  {
    assert Members(log + [s]) == Members(log) + {s};
  }

  /** A pending module is built and gets its summary. */
  lemma BuildStep(d: Demand, below: Work, s: Signature, left: set<Signature>, now: map<Signature, Summary>,
                  log: seq<Signature>, summary: Summary)
    requires d.Invariant(below + [Entry(s, true)], left, now, log)
    requires s in d.eager && summary.content == d.eager[s]
    ensures d.Invariant(below, left, now[s := summary], log + [s])
  {
    var work := below + [Entry(s, true)];
    assert work[|below|] == Entry(s, true);
    assert forall k | 0 <= k < |below| :: work[k] == below[k];
    PopStacked(d, below, Entry(s, true), left, now.Keys);
    assert now[s := summary].Keys == now.Keys + {s};
    LogGrows(d, log, s);
    TablesGrow(d, left, now, log, s, summary);
  }

  lemma StartStep(d: Demand)
    requires d.Valid()
    ensures d.Invariant([Entry(d.root, false)], d.cleared, d.summaries, [])
  {
    if d.root in d.cleared { DemandRoot(d.t, d.root, d.cleared); }
    assert Members<Signature>([]) == {};
  }

  /** With the worklist empty, exactly the demanded modules have been summarized. */
  lemma NothingLeft(d: Demand, left: set<Signature>, now: map<Signature, Summary>, log: seq<Signature>)
    requires d.Invariant([], left, now, log)
    ensures forall s :: s in log <==> d.Wants(s)
    ensures left == d.cleared - Members(log)
    ensures Agrees(d.t, d.walked, left, now, d.eager)
    ensures SummariesClosed(d.t, d.cleared, d.summaries) ==> SummariesClosed(d.t, left, now)
  {
    var done := Members(log);
    forall s, c | s in now && c in d.t.children(s) && SummariesClosed(d.t, d.cleared, d.summaries) ensures c !in left {
      if s in log {
        var k :| 0 <= k < |log| && log[k] == s;
        if c in d.cleared { assert c in log[..k]; }
      }
    }
    forall s | d.Wants(s) ensures s in log {
      forall n, c | n in done && c in d.t.children(n) && c in d.cleared ensures c in done {
        var k :| 0 <= k < |log| && log[k] == n;
        assert c in log[..k];
      }
      ClosedHoldsDemanded(d.t, d.root, d.cleared, done, s);
    }
  }

  /** The summary of a module on the summaries of its children, and the errors building it gives. */
  function PreciseSummary(t: Analyses, s: Signature, summaries: map<Signature, Summary>): (result: (Summary, seq<Error>))
    ensures result.0.content == t.ContentOf(s, Contents(summaries))
    ensures result.1 == [] <==> t.BuildOn(s, Contents(summaries)).Built?
  {
    match t.BuildOn(s, Contents(summaries))
    case Built(graph, own) => (Summary(t.summarize(s, graph), BuildsCompletely(t, s, own, summaries)), [])
    case Failed(error) => (Summary(t.emptyContent, false), [error])
  }

  lemma AccountStep(d: Demand, below: Work, s: Signature, left: set<Signature>, now: map<Signature, Summary>, log: seq<Signature>,
                    errors0: seq<Error>, errors: seq<Error>, complete: bool)
    requires d.Invariant(below + [Entry(s, true)], left, now, log)
    requires d.t.BuildOn(s, Contents(now)) == d.t.BuildOn(s, d.eager)
    requires Accounted(d.t, d.eager, log, errors0, errors, complete, now)
    ensures var (summary, more) := PreciseSummary(d.t, s, now);
      Accounted(d.t, d.eager, log + [s], errors0, errors + more, complete && more == [], now[s := summary])
  {
    var work := below + [Entry(s, true)];
    assert work[|below|] == Entry(s, true);
    assert forall x | x in log :: x in Members(log);
    forall x | x in log ensures s !in d.t.children(x) {
      var k :| 0 <= k < |log| && log[k] == x;
      forall c | c in d.t.children(x) && c in d.cleared ensures c in log { assert c in log[..k]; }
    }
    var (summary, more) := PreciseSummary(d.t, s, now);
    AccountedMore(d.t, d.eager, log, errors0, errors, complete, now, s, summary, more);
  }

  /** Builds the summaries of `root` and of the cleared modules below it, children first:
      exactly the demanded ones, each once and with the contents of the eager build. */
  method SummarizePrecisely(t: Analyses, root: Signature, cleared0: set<Signature>, summaries0: map<Signature, Summary>,
                            errors0: seq<Error>, ghost d: Demand)
    returns (cleared: set<Signature>, summaries: map<Signature, Summary>, errors: seq<Error>, complete: bool,
             ghost log: seq<Signature>)
    requires d.Valid() && d.t == t && d.root == root && d.cleared == cleared0 && d.summaries == summaries0
    ensures forall s :: s in log <==> Demanded(t, root, cleared0, s)
    ensures d.Summarized(log) && d.Tables(cleared, summaries, log)
    ensures cleared == cleared0 - Members(log)
    ensures Agrees(t, d.walked, cleared, summaries, d.eager)
    ensures SummariesClosed(t, cleared0, summaries0) ==> SummariesClosed(t, cleared, summaries)
    // Errors are those of the modules that do not build, which also leave it incomplete.
    ensures Accounted(t, d.eager, log, errors0, errors, complete, summaries)
  {
    cleared, summaries, errors, complete, log := cleared0, summaries0, errors0, true, [];
    var work := [Entry(root, false)];
    StartStep(d);
    NothingAccounted(t, d.eager, errors0, summaries0);
    while work != []
      invariant d.Invariant(work, cleared, summaries, log)
      invariant Accounted(t, d.eager, log, errors0, errors, complete, summaries)
      decreases |cleared|, |work|
    {
      var Entry(s, childrenDone) := work[|work| - 1];
      SplitLast(work);
      work := work[..|work| - 1];
      if !childrenDone {
        if s in cleared {
          OpenStep(d, work, s, cleared, summaries, log);
          cleared := cleared - {s};
          work := work + [Entry(s, true)] + ChildWork(t, s);
        } else {
          SkipStep(d, work, s, cleared, summaries, log);
        }
        continue;
      }
      BuildsEagerly(d, work, s, cleared, summaries, log);
      var (summary, buildErrors) := PreciseSummary(t, s, summaries);
      AccountStep(d, work, s, cleared, summaries, log, errors0, errors, complete);
      complete := complete && buildErrors == [];
      errors := errors + buildErrors;
      BuildStep(d, work, s, cleared, summaries, log, summary);
      summaries := summaries[s := summary];
      log := log + [s];
    }
    NothingLeft(d, cleared, summaries, log);
  }

  // ---- The whole run ----

  function CoarseChildren(t: Analyses, s: Signature, coarse: map<Signature, Coarse>): seq<Option<Coarse>> {
    seq(|t.children(s)|, i requires 0 <= i < |t.children(s)| => Lookup(coarse, t.children(s)[i]))
  }

  /** The coarse summaries of the modules walked so far, and those the coarse tier cleared. */
  function CoarseTier(t: Analyses, order: seq<Signature>): (result: (map<Signature, Coarse>, set<Signature>))
    ensures result.1 <= set s | s in order
  {
    if order == [] then (map[], {}) else
      var s := order[|order| - 1];
      var (coarse, cleared) := CoarseTier(t, order[..|order| - 1]);
      var (verdict, summary) := t.analyzeCoarsely(s, CoarseChildren(t, s, coarse));
      (coarse[s := summary], if verdict.provesAcyclic then cleared + {s} else cleared)
  }

  lemma {:induction false} CoarseKeys(t: Analyses, order: seq<Signature>)
    ensures CoarseTier(t, order).0.Keys == set s | s in order
  {
    if order != [] {
      CoarseKeys(t, order[..|order| - 1]);
      assert order == order[..|order| - 1] + [order[|order| - 1]];
    }
  }

  lemma {:induction false} CoarseIsFixpointAt(t: Analyses, order: seq<Signature>, i: nat)
    requires ChildrenFirst(t, order) && i < |order|
    ensures var (coarse, cleared) := CoarseTier(t, order);
      var (verdict, summary) := t.analyzeCoarsely(order[i], CoarseChildren(t, order[i], coarse));
      order[i] in coarse && coarse[order[i]] == summary && (order[i] in cleared <==> verdict.provesAcyclic)
  {
    var n := |order| - 1;
    var front, s := order[..n], order[i];
    assert order == front + [order[n]];
    var before, after := CoarseTier(t, front).0, CoarseTier(t, order).0;
    CoarseKeys(t, front);
    forall c | c in t.children(s) ensures Lookup(before, c) == Lookup(after, c) {
      assert c != order[n];
    }
    assert CoarseChildren(t, s, before) == CoarseChildren(t, s, after);
    if i < n {
      assert front[i] == s;
      CoarseIsFixpointAt(t, front, i);
    }
  }

  /** What deciding `s` with the precise tier adds to the reports. */
  function DecideReports(t: Analyses, s: Signature, contents: map<Signature, Content>, errors: seq<Error>,
                         reported: set<(Symbol, VarPaths)>): (result: (seq<Error>, set<(Symbol, VarPaths)>))
    ensures errors <= result.0 && reported <= result.1
  {
    match t.BuildOn(s, contents)
    case Failed(error) => (errors + [error], reported)
    case Built(graph, _) => Report(t.symbol(s), t.search(s, graph, contents, reported).found, errors, reported)
  }

  /** The modules that are cleared together with everything below them. */
  function AcyclicBelow(t: Analyses, order: seq<Signature>): (below: set<Signature>)
    ensures below <= set s | s in order
  {
    if order == [] then {} else
      var s := order[|order| - 1];
      var below := AcyclicBelow(t, order[..|order| - 1]);
      if s in CoarseTier(t, order).1 && forall c | c in t.children(s) :: c in below then below + {s} else below
  }

  /** Cleared modules above one that is not. Their search may only find its cycles again, through its summary. */
  function Echoing(t: Analyses, order: seq<Signature>): set<Signature> {
    CoarseTier(t, order).1 - AcyclicBelow(t, order)
  }

  /** What has been reported and summarized when every module goes to the precise tier. */
  datatype PreciseRun = PreciseRun(contents: map<Signature, Content>, errors: seq<Error>, reported: set<(Symbol, VarPaths)>)

  /** The precise tier for every module, except that those of `unsearched` are only built. */
  function PreciseOnly(t: Analyses, order: seq<Signature>, unsearched: set<Signature>): (run: PreciseRun)
    ensures run.contents == Eager(t, order)
  {
    if order == [] then PreciseRun(map[], [], {}) else
      var s := order[|order| - 1];
      var before := PreciseOnly(t, order[..|order| - 1], unsearched);
      var (errors, reported) := BuildReports(t, s, before, s in unsearched);
      PreciseRun(before.contents[s := t.ContentOf(s, before.contents)], errors, reported)
  }

  function BuildReports(t: Analyses, s: Signature, before: PreciseRun, unsearched: bool): (seq<Error>, set<(Symbol, VarPaths)>) {
    if unsearched && t.BuildOn(s, before.contents).Built? then (before.errors, before.reported)
    else DecideReports(t, s, before.contents, before.errors, before.reported)
  }

  /**
   * If the coarse tier clears the module at `i`, it builds; if it clears everything below as well,
   * it has no cycle the precise tier would report.
   */
  ghost predicate SoundAt(t: Analyses, order: seq<Signature>, i: nat)
    requires i < |order|
  {
    order[i] in CoarseTier(t, order).1 ==>
      var before := PreciseOnly(t, order[..i], Echoing(t, order));
      var built := t.BuildOn(order[i], before.contents);
      built.Built? &&
      (order[i] in AcyclicBelow(t, order) ==> t.search(order[i], built.graph, before.contents, before.reported).found == [])
  }

  ghost predicate CoarseSound(t: Analyses, order: seq<Signature>) {
    forall i {:trigger SoundAt(t, order, i)} | 0 <= i < |order| :: SoundAt(t, order, i)
  }

  /** `below` holds everything a search from `s` can follow: the children of `s`, and those of
      every module it meets that has a summary. */
  ghost predicate Follows(t: Analyses, s: Signature, contents: map<Signature, Content>, below: set<Signature>) {
    && (forall c | c in t.children(s) :: c in below)
    && (forall b, c | b in below && b in contents && c in t.children(b) :: c in below)
  }

  ghost predicate AgreeBelow(t: Analyses, s: Signature, left: map<Signature, Content>, right: map<Signature, Content>) {
    exists below :: Follows(t, s, left, below) && forall b | b in below :: Lookup(left, b) == Lookup(right, b)
  }

  /** A search reads no summaries but those of the modules below. */
  ghost predicate SearchesBelow(t: Analyses) {
    forall s, graph, left, right, reported | AgreeBelow(t, s, left, right) ::
      t.search(s, graph, left, reported) == t.search(s, graph, right, reported)
  }

  lemma {:induction false} CoarsePrefix(t: Analyses, order: seq<Signature>, n: nat)
    requires Distinct(order) && n <= |order|
    ensures CoarseTier(t, order[..n]).1 <= CoarseTier(t, order).1
    ensures forall k | 0 <= k < n :: order[k] in CoarseTier(t, order).1 ==> order[k] in CoarseTier(t, order[..n]).1
  {
    if n == |order| {
      assert order[..n] == order;
    } else {
      var init := order[..|order| - 1];
      assert init[..n] == order[..n];
      CoarsePrefix(t, init, n);
    }
  }

  lemma {:induction false} EagerPrefix(t: Analyses, order: seq<Signature>, n: nat, k: nat)
    requires Distinct(order) && k < n <= |order|
    ensures order[k] in Eager(t, order[..n]) && Eager(t, order[..n])[order[k]] == Eager(t, order)[order[k]]
  {
    assert order[..n][k] == order[k];
    if n == |order| {
      assert order[..n] == order;
    } else {
      var init := order[..|order| - 1];
      assert init[..n] == order[..n] && init[k] == order[k];
      EagerPrefix(t, init, n, k);
    }
  }

  /** When a module is walked, its children have their final contents. */
  lemma EagerChildren(t: Analyses, order: seq<Signature>, i: nat)
    requires ChildrenFirst(t, order) && i < |order|
    ensures t.ChildContents(order[i], Eager(t, order[..i])) == t.ChildContents(order[i], Eager(t, order))
  {
    forall c | c in t.children(order[i]) ensures Lookup(Eager(t, order[..i]), c) == Lookup(Eager(t, order), c) {
      if c in order {
        var j :| 0 <= j < |order| && order[j] == c;
        EagerPrefix(t, order, i, j);
      }
    }
    ContentDependsOnChildren(t, order[i], Eager(t, order[..i]), Eager(t, order));
  }

  function PositionOf(order: seq<Signature>, s: Signature): (i: nat)
    requires s in order
    ensures i < |order| && order[i] == s
  {
    if order[0] == s then 0 else 1 + PositionOf(order[1..], s)
  }

  /** A chain from a module the precise tier decides through cleared modules, each a child of the one before. */
  ghost predicate NeededPath(t: Analyses, visited: set<Signature>, clearable: set<Signature>, path: seq<Signature>) {
    && path != [] && path[0] in visited && path[0] !in clearable
    && forall k | 1 <= k < |path| :: path[k] in clearable && path[k] in t.children(path[k - 1])
  }

  /** The precise tier decides `s`, or a module above it through cleared modules only. */
  ghost predicate Needed(t: Analyses, visited: set<Signature>, clearable: set<Signature>, s: Signature) {
    exists path :: NeededPath(t, visited, clearable, path) && path[|path| - 1] == s
  }

  /** What a run knows beforehand: ranks that grow from children to parents, the contents the
      eager build gives, and the modules the coarse tier clears. */
  datatype Plan = Plan(t: Analyses, rank: map<Signature, nat>, eager: map<Signature, Content>, clearable: set<Signature>) {
    ghost predicate Valid() {
      && eager.Keys == rank.Keys
      && (forall n, c | n in rank && c in t.children(n) && c in rank :: rank[c] < rank[n])
      && (forall s | s in eager :: eager[s] == t.ContentOf(s, eager))
    }

    ghost predicate Needs(s: Signature) {
      Needed(t, rank.Keys, clearable, s)
    }

    /** After walking the modules `walked`. */
    ghost predicate Invariant(walked: set<Signature>, cleared: set<Signature>, summaries: map<Signature, Summary>) {
      && Agrees(t, walked, cleared, summaries, eager)
      && SummariesClosed(t, cleared, summaries)
      && cleared <= clearable
      && forall s | s in summaries :: Needs(s)
    }

    /** `s` is the next module to walk. */
    ghost predicate Next(walked: set<Signature>, s: Signature) {
      && s in eager && s !in walked
      && forall c | c in t.children(s) && c in eager :: c in walked
    }
  }

  lemma PlanOf(t: Analyses, order: seq<Signature>) returns (p: Plan)
    requires ChildrenFirst(t, order)
    ensures p.Valid() && p.t == t && p.eager == Eager(t, order) && p.clearable == CoarseTier(t, order).1
    ensures forall s | s in order :: s in p.rank && p.rank[s] < |order| && order[p.rank[s]] == s
    ensures p.Invariant({}, {}, map[])
  {
    var rank := map s | s in Members(order) :: PositionOf(order, s);
    p := Plan(t, rank, Eager(t, order), CoarseTier(t, order).1);
    forall s | s in p.eager ensures p.eager[s] == t.ContentOf(s, p.eager) {
      EagerIsFixpoint(t, order, s);
    }
  }

  lemma NextInOrder(p: Plan, order: seq<Signature>, i: nat)
    requires ChildrenFirst(p.t, order) && i < |order| && p.eager.Keys == Members(order)
    ensures p.Next(Members(order[..i]), order[i])
    ensures Members(order[..i + 1]) == Members(order[..i]) + {order[i]}
  {
    var before := order[..i];
    assert order[..i + 1] == before + [order[i]];
    assert order[i] !in before;
    forall c | c in p.t.children(order[i]) && c in p.eager ensures c in before {
      var j := PositionOf(order, c);
      assert j < i && before[j] == c;
    }
  }

  /** The call of `SummarizePrecisely` for a child of the next module. */
  lemma DemandOf(p: Plan, walked: set<Signature>, cleared: set<Signature>, summaries: map<Signature, Summary>,
                 s: Signature, root: Signature) returns (d: Demand)
    requires p.Valid() && p.Invariant(walked, cleared, summaries) && p.Next(walked, s) && root in p.t.children(s)
    ensures d.Valid() && d == Demand(p.t, root, cleared, summaries, walked, p.rank, p.eager)
  {
    d := Demand(p.t, root, cleared, summaries, walked, p.rank, p.eager);
  }

  lemma ClearStep(p: Plan, walked: set<Signature>, cleared: set<Signature>, summaries: map<Signature, Summary>, s: Signature)
    requires p.Invariant(walked, cleared, summaries) && p.Next(walked, s) && s in p.clearable
    ensures p.Invariant(walked + {s}, cleared + {s}, summaries)
  {
  }

  lemma DecideStep(p: Plan, walked: set<Signature>, cleared: set<Signature>, summaries: map<Signature, Summary>,
                   s: Signature, summary: Summary)
    requires p.Invariant(walked, cleared, summaries) && p.Next(walked, s) && s !in p.clearable && s in p.rank
    requires forall c | c in p.t.children(s) :: c !in cleared
    requires summary.content == p.eager[s]
    ensures p.Invariant(walked + {s}, cleared, summaries[s := summary])
  {
    assert NeededPath(p.t, p.rank.Keys, p.clearable, [s]);
    assert summaries[s := summary].Keys == summaries.Keys + {s};
  }

  lemma DemandedIsNeeded(p: Plan, parent: Signature, root: Signature, cleared: set<Signature>, s: Signature)
    requires parent in p.rank && parent !in p.clearable
    requires root in p.t.children(parent) && cleared <= p.clearable
    requires Demanded(p.t, root, cleared, s)
    ensures p.Needs(s)
  {
    var path :| ClearedPath(p.t, path, cleared) && path[0] == root && path[|path| - 1] == s;
    var longer := [parent] + path;
    forall k | 1 <= k < |longer| ensures longer[k] in p.clearable && longer[k] in p.t.children(longer[k - 1]) {
      if k > 1 { assert longer[k] == path[(k - 2) + 1] && longer[k - 1] == path[k - 2]; }
    }
    assert NeededPath(p.t, p.rank.Keys, p.clearable, longer);
  }

  lemma SummarizeStep(p: Plan, d: Demand, s: Signature, cleared: set<Signature>, summaries: map<Signature, Summary>,
                      log: seq<Signature>)
    requires p.Invariant(d.walked, d.cleared, d.summaries) && s in p.rank && s !in p.clearable
    requires d.t == p.t && d.eager == p.eager && d.root in p.t.children(s)
    requires d.Summarized(log) && d.Tables(cleared, summaries, log)
    requires Agrees(p.t, d.walked, cleared, summaries, p.eager) && SummariesClosed(p.t, cleared, summaries)
    ensures p.Invariant(d.walked, cleared, summaries)
  {
    forall x | x in summaries ensures p.Needs(x) {
      if x in log { DemandedIsNeeded(p, s, d.root, d.cleared, x); }
    }
  }

  lemma {:induction false} ChainHasSummaries(p: Plan, cleared: set<Signature>, summaries: map<Signature, Summary>,
                                             path: seq<Signature>)
    requires SummariesClosed(p.t, cleared, summaries) && p.clearable <= cleared + summaries.Keys
    requires p.rank.Keys - p.clearable <= summaries.Keys
    requires NeededPath(p.t, p.rank.Keys, p.clearable, path)
    ensures path[|path| - 1] in summaries
  {
    if |path| > 1 {
      ChainHasSummaries(p, cleared, summaries, path[..|path| - 1]);
      assert path[|path| - 1] in p.t.children(path[|path| - 2]);
    }
  }

  /** What is needed is never left cleared. */
  lemma NeededHaveSummaries(p: Plan, cleared: set<Signature>, summaries: map<Signature, Summary>)
    requires p.Valid() && p.Invariant(p.rank.Keys, cleared, summaries) && p.clearable <= p.rank.Keys
    ensures forall s :: s in summaries <==> p.Needs(s)
  {
    forall s | p.Needs(s) ensures s in summaries {
      var path :| NeededPath(p.t, p.rank.Keys, p.clearable, path) && path[|path| - 1] == s;
      ChainHasSummaries(p, cleared, summaries, path);
    }
  }

  /** Summaries are inserted once each, after those of all the visited children. */
  ghost predicate BottomUp(t: Analyses, visited: set<Signature>, log: seq<Signature>) {
    && Distinct(log)
    && forall k, c | 0 <= k < |log| && c in t.children(log[k]) && c in visited :: c in log[..k]
  }

  lemma BottomUpConcat(t: Analyses, visited: set<Signature>, first: seq<Signature>, second: seq<Signature>)
    requires BottomUp(t, visited, first) && Distinct(second)
    requires forall s | s in second :: s !in first
    requires forall k, c | 0 <= k < |second| && c in t.children(second[k]) && c in visited :: c in first || c in second[..k]
    ensures BottomUp(t, visited, first + second) && Members(first + second) == Members(first) + Members(second)
  {
    var both := first + second;
    assert forall k | |first| <= k < |both| :: both[k] == second[k - |first|] && both[k] in second;
    forall k, c | 0 <= k < |both| && c in t.children(both[k]) && c in visited ensures c in both[..k] {
      if k < |first| {
        assert both[..k] == first[..k];
      } else {
        assert both[..k] == first + second[..k - |first|];
      }
    }
  }

  lemma LogConcat(p: Plan, d: Demand, cleared: set<Signature>, summaries: map<Signature, Summary>,
                  inserted: seq<Signature>, log: seq<Signature>)
    requires d.Valid() && d.t == p.t && d.eager == p.eager && d.Summarized(log) && d.Tables(cleared, summaries, log)
    requires BottomUp(p.t, p.eager.Keys, inserted) && Members(inserted) == d.summaries.Keys
    ensures BottomUp(p.t, p.eager.Keys, inserted + log) && Members(inserted + log) == summaries.Keys
  {
    forall k, c | 0 <= k < |log| && c in p.t.children(log[k]) && c in p.eager ensures c in inserted || c in log[..k] {
      assert log[k] in d.cleared && c in d.walked;
      if c !in d.cleared { assert c in Members(inserted); }
    }
    assert forall s :: s in inserted <==> s in Members(inserted);
    BottomUpConcat(p.t, p.eager.Keys, inserted, log);
  }

  /** What the loop over the children keeps: from `start`, the tables and errors before it. */
  datatype Tally = Tally(cleared: set<Signature>, summaries: map<Signature, Summary>, errors: seq<Error>, inserted: seq<Signature>)

  /** The children before `k` have what they need; `now` is where the loop is. */
  ghost predicate ChildrenDone(p: Plan, walked: set<Signature>, s: Signature, k: nat, start: Tally, now: Tally, complete: bool)
    requires k <= |p.t.children(s)|
  {
    && BottomUp(p.t, p.eager.Keys, now.inserted) && Members(now.inserted) == now.summaries.Keys && start.inserted <= now.inserted
    && p.Invariant(walked, now.cleared, now.summaries)
    && (forall j | 0 <= j < k :: p.t.children(s)[j] !in now.cleared)
    && now.cleared <= start.cleared && start.summaries.Keys <= now.summaries.Keys
    && (forall x | x in start.summaries :: now.summaries[x] == start.summaries[x])
    && Accounted(p.t, p.eager, now.inserted[|start.inserted|..], start.errors, now.errors, complete, now.summaries)
    && forall x | x in now.inserted[|start.inserted|..] :: x in p.clearable
  }

  /** A call of `SummarizePrecisely` for a child, and what it returned. */
  ghost predicate Returned(p: Plan, d: Demand, start: Tally, cleared: set<Signature>, summaries: map<Signature, Summary>,
                           errors: seq<Error>, built: bool, log: seq<Signature>)
  {
    && d.Valid() && d.t == p.t && d.eager == p.eager && d.cleared == start.cleared && d.summaries == start.summaries
    && (forall s :: s in log <==> Demanded(p.t, d.root, d.cleared, s))
    && d.Summarized(log) && d.Tables(cleared, summaries, log) && cleared == d.cleared - Members(log)
    && Agrees(p.t, d.walked, cleared, summaries, p.eager) && SummariesClosed(p.t, cleared, summaries)
    && Accounted(p.t, p.eager, log, start.errors, errors, built, summaries)
  }

  /** Summaries that were there keep their children. */
  lemma OldChildrenStay(p: Plan, d: Demand, start: Tally, cleared: set<Signature>, summaries: map<Signature, Summary>,
                        errors: seq<Error>, built: bool, log: seq<Signature>, x: Signature)
    requires Returned(p, d, start, cleared, summaries, errors, built, log)
    requires SummariesClosed(p.t, start.cleared, start.summaries) && x in start.summaries
    ensures Lookup(summaries, x) == Lookup(start.summaries, x)
    ensures forall c | c in p.t.children(x) :: Lookup(summaries, c) == Lookup(start.summaries, c)
  {
    forall c | c in p.t.children(x) ensures c !in log { assert c !in start.cleared; }
    assert forall c :: c in log <==> c in Members(log);
  }

  lemma ChildAccounted(p: Plan, walked: set<Signature>, s: Signature, k: nat, start: Tally, now: Tally, complete: bool, d: Demand,
                       cleared: set<Signature>, summaries: map<Signature, Summary>, errors: seq<Error>, built: bool, log: seq<Signature>)
    requires k < |p.t.children(s)| && ChildrenDone(p, walked, s, k, start, now, complete)
    requires Returned(p, d, now, cleared, summaries, errors, built, log)
    ensures Accounted(p.t, p.eager, now.inserted[|start.inserted|..] + log, start.errors, errors, complete && built, summaries)
  {
    var first := now.inserted[|start.inserted|..];
    forall x | x in first
      ensures Lookup(summaries, x) == Lookup(now.summaries, x) && forall c | c in p.t.children(x) :: Lookup(summaries, c) == Lookup(now.summaries, c)
    {
      assert x in Members(now.inserted);
      OldChildrenStay(p, d, now, cleared, summaries, errors, built, log, x);
    }
    AccountedConcat(p.t, p.eager, first, log, start.errors, now.errors, errors, complete, built, now.summaries, summaries);
  }

  lemma ChildTables(p: Plan, walked: set<Signature>, s: Signature, k: nat, start: Tally, now: Tally, complete: bool, d: Demand,
                    cleared: set<Signature>, summaries: map<Signature, Summary>, errors: seq<Error>, built: bool, log: seq<Signature>)
    requires k < |p.t.children(s)| && ChildrenDone(p, walked, s, k, start, now, complete)
    requires d.walked == walked && d.root == p.t.children(s)[k] && Returned(p, d, now, cleared, summaries, errors, built, log)
    ensures forall j | 0 <= j < k + 1 :: p.t.children(s)[j] !in cleared
    ensures cleared <= start.cleared && start.summaries.Keys <= summaries.Keys
    ensures forall x | x in start.summaries :: summaries[x] == start.summaries[x]
    ensures forall x | x in now.inserted[|start.inserted|..] + log :: x in p.clearable
  {
    RootIsDone(p.t, d.root, d.cleared, log, cleared);
    LogIsClearable(p, walked, d, now, cleared, summaries, errors, built, log);
  }

  lemma LogIsClearable(p: Plan, walked: set<Signature>, d: Demand, now: Tally, cleared: set<Signature>, summaries: map<Signature, Summary>,
                       errors: seq<Error>, built: bool, log: seq<Signature>)
    requires p.Invariant(walked, now.cleared, now.summaries) && Returned(p, d, now, cleared, summaries, errors, built, log)
    ensures forall x | x in log :: x in p.clearable
  {
  }

  lemma ChildStep(p: Plan, walked: set<Signature>, s: Signature, k: nat, start: Tally, now: Tally, complete: bool, d: Demand,
                  cleared: set<Signature>, summaries: map<Signature, Summary>, errors: seq<Error>, built: bool, log: seq<Signature>)
    requires k < |p.t.children(s)| && ChildrenDone(p, walked, s, k, start, now, complete)
    requires s in p.rank && s !in p.clearable && d.walked == walked && d.root == p.t.children(s)[k]
    requires Returned(p, d, now, cleared, summaries, errors, built, log)
    ensures ChildrenDone(p, walked, s, k + 1, start, Tally(cleared, summaries, errors, now.inserted + log), complete && built)
  {
    SummarizeStep(p, d, s, cleared, summaries, log);
    LogConcat(p, d, cleared, summaries, now.inserted, log);
    ChildTables(p, walked, s, k, start, now, complete, d, cleared, summaries, errors, built, log);
    ChildAccounted(p, walked, s, k, start, now, complete, d, cleared, summaries, errors, built, log);
    SuffixOfConcat(now.inserted, log, |start.inserted|);
  }

  lemma NothingDone(p: Plan, walked: set<Signature>, s: Signature, start: Tally)
    requires p.Invariant(walked, start.cleared, start.summaries)
    requires BottomUp(p.t, p.eager.Keys, start.inserted) && Members(start.inserted) == start.summaries.Keys
    ensures ChildrenDone(p, walked, s, 0, start, start, true)
  {
    NothingAccounted(p.t, p.eager, start.errors, start.summaries);
  }

  lemma RootIsDone(t: Analyses, root: Signature, before: set<Signature>, log: seq<Signature>, after: set<Signature>)
    requires after == before - Members(log) && forall s :: s in log <==> Demanded(t, root, before, s)
    ensures root !in after
  {
    if root in before { DemandRoot(t, root, before); }
  }

  /** Summarizes what the children of the next module need, so that none is left cleared. */
  method SummarizeChildren(t: Analyses, s: Signature, cleared0: set<Signature>, summaries0: map<Signature, Summary>,
                           errors0: seq<Error>, ghost p: Plan, ghost walked: set<Signature>, ghost inserted0: seq<Signature>)
    returns (cleared: set<Signature>, summaries: map<Signature, Summary>, errors: seq<Error>, complete: bool,
             ghost inserted: seq<Signature>)
    requires p.Valid() && p.t == t && p.Invariant(walked, cleared0, summaries0) && p.Next(walked, s) && s !in p.clearable
    requires BottomUp(t, p.eager.Keys, inserted0) && Members(inserted0) == summaries0.Keys
    ensures ChildrenDone(p, walked, s, |t.children(s)|, Tally(cleared0, summaries0, errors0, inserted0),
                         Tally(cleared, summaries, errors, inserted), complete)
  {
    ghost var start := Tally(cleared0, summaries0, errors0, inserted0);
    cleared, summaries, errors, complete, inserted := cleared0, summaries0, errors0, true, inserted0;
    NothingDone(p, walked, s, start);
    var children := t.children(s);
    for k := 0 to |children|
      invariant ChildrenDone(p, walked, s, k, start, Tally(cleared, summaries, errors, inserted), complete)
    {
      ghost var now := Tally(cleared, summaries, errors, inserted);
      ghost var d := DemandOf(p, walked, cleared, summaries, s, children[k]);
      var built;
      ghost var log;
      cleared, summaries, errors, built, log := SummarizePrecisely(t, children[k], cleared, summaries, errors, d);
      ChildStep(p, walked, s, k, start, now, complete, d, cleared, summaries, errors, built, log);
      inserted := inserted + log;
      complete := complete && built;
    }
  }

  /** After the loop no child is left cleared, and a sound coarse tier has left the errors as they were. */
  lemma AllChildrenDone(p: Plan, walked: set<Signature>, s: Signature, start: Tally, now: Tally, complete: bool)
    requires ChildrenDone(p, walked, s, |p.t.children(s)|, start, now, complete)
    ensures forall c | c in p.t.children(s) :: c !in now.cleared
    ensures start.errors <= now.errors && (complete ==> now.errors == start.errors)
    ensures (forall x | x in p.clearable :: p.t.BuildOn(x, p.eager).Built?) ==> complete
  {
    AccountedMeans(p.t, p.eager, now.inserted[|start.inserted|..], start.errors, now.errors, complete, now.summaries);
  }

  /** With no child left cleared, a search meets the summaries the eager build would give it. */
  lemma SearchAgrees(p: Plan, walked: set<Signature>, cleared: set<Signature>, summaries: map<Signature, Summary>,
                     s: Signature, early: map<Signature, Content>)
    requires p.Invariant(walked, cleared, summaries)
    requires forall c | c in p.t.children(s) :: c !in cleared
    requires early.Keys == walked && forall x | x in walked :: early[x] == p.eager[x]
    ensures AgreeBelow(p.t, s, Contents(summaries), early)
  {
    var below := set n, c | n in summaries.Keys + {s} && c in p.t.children(n) :: c;
    assert Follows(p.t, s, Contents(summaries), below);
    forall b | b in below ensures Lookup(Contents(summaries), b) == Lookup(early, b) {
      assert b !in cleared;
    }
  }

  lemma SoundBuilds(t: Analyses, order: seq<Signature>, p: Plan, s: Signature)
    requires ChildrenFirst(t, order) && CoarseSound(t, order) && p.t == t && p.eager == Eager(t, order)
    requires s in CoarseTier(t, order).1
    ensures t.BuildOn(s, p.eager).Built?
  {
    var i := PositionOf(order, s);
    assert SoundAt(t, order, i);
    EagerChildren(t, order, i);
  }

  /** The tiered run has reported what the precise tier alone would have. */
  ghost predicate SameReports(t: Analyses, order: seq<Signature>, i: nat, errors: seq<Error>,
                              reported: set<(Symbol, VarPaths)>)
    requires i <= |order|
  {
    CoarseSound(t, order) ==>
      && errors == PreciseOnly(t, order[..i], Echoing(t, order)).errors
      && reported == PreciseOnly(t, order[..i], Echoing(t, order)).reported
  }

  /** The coarse tier's verdict on the module at `i`. */
  function CoarseVerdict(t: Analyses, order: seq<Signature>, i: nat): (Verdict, Coarse)
    requires i < |order|
  {
    t.analyzeCoarsely(order[i], CoarseChildren(t, order[i], CoarseTier(t, order[..i]).0))
  }

  lemma CoarseStep(t: Analyses, order: seq<Signature>, i: nat)
    requires Distinct(order) && i < |order|
    ensures CoarseTier(t, order[..i + 1]).0 == CoarseTier(t, order[..i]).0[order[i] := CoarseVerdict(t, order, i).1]
    ensures order[i] in CoarseTier(t, order).1 <==> CoarseVerdict(t, order, i).0.provesAcyclic
  {
    var longer := order[..i + 1];
    assert longer[..i] == order[..i] && longer[i] == order[i];
    CoarsePrefix(t, order, i + 1);
    assert CoarseTier(t, order[..i]).1 <= Members(order[..i]);
  }

  lemma PreciseStep(t: Analyses, order: seq<Signature>, i: nat, unsearched: set<Signature>)
    requires i < |order|
    ensures var before, after := PreciseOnly(t, order[..i], unsearched), PreciseOnly(t, order[..i + 1], unsearched);
            (after.errors, after.reported) == BuildReports(t, order[i], before, order[i] in unsearched)
  {
    var longer := order[..i + 1];
    assert longer[..i] == order[..i] && longer[i] == order[i];
  }

  lemma ReportsClear(t: Analyses, order: seq<Signature>, i: nat, errors: seq<Error>, reported: set<(Symbol, VarPaths)>)
    requires ChildrenFirst(t, order) && i < |order| && order[i] in CoarseTier(t, order).1
    requires SameReports(t, order, i, errors, reported)
    ensures SameReports(t, order, i + 1, errors, reported)
  {
    if CoarseSound(t, order) {
      assert SoundAt(t, order, i);
      PreciseStep(t, order, i, Echoing(t, order));
    }
  }

  /** A module the precise tier decides is searched. */
  lemma DecidedStep(t: Analyses, order: seq<Signature>, i: nat)
    requires i < |order| && order[i] !in CoarseTier(t, order).1
    ensures var before, after := PreciseOnly(t, order[..i], Echoing(t, order)), PreciseOnly(t, order[..i + 1], Echoing(t, order));
            (after.errors, after.reported) ==
            DecideReports(t, order[i], Eager(t, order[..i]), before.errors, before.reported)
  {
    PreciseStep(t, order, i, Echoing(t, order));
  }

  lemma EarlyIsEager(t: Analyses, order: seq<Signature>, i: nat)
    requires ChildrenFirst(t, order) && i <= |order|
    ensures forall x | x in Members(order[..i]) :: x in Eager(t, order) && Eager(t, order[..i])[x] == Eager(t, order)[x]
  {
    forall x | x in Members(order[..i]) ensures x in Eager(t, order) && Eager(t, order[..i])[x] == Eager(t, order)[x] {
      EagerPrefix(t, order, i, PositionOf(order[..i], x));
    }
  }

  lemma ReportsDecide(t: Analyses, order: seq<Signature>, i: nat, p: Plan, cleared: set<Signature>,
                      summaries: map<Signature, Summary>, errors: seq<Error>, reported: set<(Symbol, VarPaths)>)
    requires ChildrenFirst(t, order) && SearchesBelow(t) && i < |order| && order[i] !in CoarseTier(t, order).1
    requires p.t == t && p.eager == Eager(t, order)
    requires p.Invariant(Members(order[..i]), cleared, summaries)
    requires forall c | c in t.children(order[i]) :: c !in cleared
    requires t.BuildOn(order[i], Contents(summaries)) == t.BuildOn(order[i], p.eager)
    requires SameReports(t, order, i, errors, reported)
    ensures var after := DecideReports(t, order[i], Contents(summaries), errors, reported);
            SameReports(t, order, i + 1, after.0, after.1)
  {
    var s, early := order[i], Eager(t, order[..i]);
    DecidedStep(t, order, i);
    EagerChildren(t, order, i);
    assert t.BuildOn(s, early) == t.BuildOn(s, Contents(summaries));
    EarlyIsEager(t, order, i);
    SearchAgrees(p, Members(order[..i]), cleared, summaries, s, early);
  }

  lemma BottomUpInsert(p: Plan, walked: set<Signature>, cleared: set<Signature>, summaries: map<Signature, Summary>,
                       inserted: seq<Signature>, s: Signature)
    requires p.Invariant(walked, cleared, summaries) && p.Next(walked, s)
    requires forall c | c in p.t.children(s) :: c !in cleared
    requires BottomUp(p.t, p.eager.Keys, inserted) && Members(inserted) == summaries.Keys
    ensures BottomUp(p.t, p.eager.Keys, inserted + [s]) && Members(inserted + [s]) == summaries.Keys + {s}
  {
    forall c | c in p.t.children(s) && c in p.eager ensures c in inserted {
      assert c in summaries.Keys;
    }
    assert s in inserted ==> s in Members(inserted);
    BottomUpConcat(p.t, p.eager.Keys, inserted, [s]);
  }

  /** Everything the driver keeps: after `order[..i]`. */
  ghost predicate RunInvariant(t: Analyses, order: seq<Signature>, i: nat, p: Plan, cleared: set<Signature>,
                               summaries: map<Signature, Summary>, inserted: seq<Signature>, errors: seq<Error>,
                               reported: set<(Symbol, VarPaths)>)
  {
    && ChildrenFirst(t, order) && i <= |order|
    && p.Valid() && p.t == t && p.eager == Eager(t, order) && p.clearable == CoarseTier(t, order).1
    && p.Invariant(Members(order[..i]), cleared, summaries)
    && BottomUp(t, p.eager.Keys, inserted) && Members(inserted) == summaries.Keys
    && (SearchesBelow(t) ==> SameReports(t, order, i, errors, reported))
  }

  lemma RunClear(t: Analyses, order: seq<Signature>, i: nat, p: Plan, cleared: set<Signature>,
                 summaries: map<Signature, Summary>, inserted: seq<Signature>, errors: seq<Error>,
                 reported: set<(Symbol, VarPaths)>)
    requires RunInvariant(t, order, i, p, cleared, summaries, inserted, errors, reported)
    requires i < |order| && order[i] in CoarseTier(t, order).1
    ensures RunInvariant(t, order, i + 1, p, cleared + {order[i]}, summaries, inserted, errors, reported)
  {
    NextInOrder(p, order, i);
    ClearStep(p, Members(order[..i]), cleared, summaries, order[i]);
    if SearchesBelow(t) { ReportsClear(t, order, i, errors, reported); }
  }

  /** A sound coarse tier leaves `errors` as it was while the children are summarized. */
  lemma RunChildren(t: Analyses, order: seq<Signature>, p: Plan, complete: bool)
    requires ChildrenFirst(t, order) && p.t == t && p.eager == Eager(t, order) && p.clearable == CoarseTier(t, order).1
    requires (forall x | x in p.clearable :: t.BuildOn(x, p.eager).Built?) ==> complete
    ensures CoarseSound(t, order) ==> complete
  {
    if CoarseSound(t, order) {
      forall x | x in p.clearable ensures t.BuildOn(x, p.eager).Built? { SoundBuilds(t, order, p, x); }
    }
  }

  lemma DecideTables(p: Plan, walked: set<Signature>, cleared: set<Signature>, summaries: map<Signature, Summary>,
                     inserted: seq<Signature>, s: Signature, summary: Summary)
    requires p.Valid() && p.Invariant(walked, cleared, summaries) && p.Next(walked, s) && s !in p.clearable
    requires BottomUp(p.t, p.eager.Keys, inserted) && Members(inserted) == summaries.Keys
    requires forall c | c in p.t.children(s) :: c !in cleared
    requires summary.content == p.t.ContentOf(s, Contents(summaries))
    ensures p.Invariant(walked + {s}, cleared, summaries[s := summary])
    ensures BottomUp(p.t, p.eager.Keys, inserted + [s])
    ensures Members(inserted + [s]) == summaries[s := summary].Keys
    ensures p.t.BuildOn(s, Contents(summaries)) == p.t.BuildOn(s, p.eager)
  {
    AgreeingContent(p.t, summaries, p.eager, s);
    DecideStep(p, walked, cleared, summaries, s, summary);
    BottomUpInsert(p, walked, cleared, summaries, inserted, s);
  }

  lemma RunDecideTables(t: Analyses, order: seq<Signature>, i: nat, p: Plan, cleared: set<Signature>,
                        summaries: map<Signature, Summary>, inserted: seq<Signature>, summary: Summary)
    requires ChildrenFirst(t, order) && i < |order|
    requires p.Valid() && p.t == t && p.eager == Eager(t, order) && order[i] !in p.clearable
    requires p.Invariant(Members(order[..i]), cleared, summaries)
    requires BottomUp(t, p.eager.Keys, inserted) && Members(inserted) == summaries.Keys
    requires forall c | c in t.children(order[i]) :: c !in cleared
    requires summary.content == t.ContentOf(order[i], Contents(summaries))
    ensures p.Invariant(Members(order[..i + 1]), cleared, summaries[order[i] := summary])
    ensures BottomUp(t, p.eager.Keys, inserted + [order[i]])
    ensures Members(inserted + [order[i]]) == summaries[order[i] := summary].Keys
    ensures t.BuildOn(order[i], Contents(summaries)) == t.BuildOn(order[i], p.eager)
  {
    NextInOrder(p, order, i);
    DecideTables(p, Members(order[..i]), cleared, summaries, inserted, order[i], summary);
  }

  lemma RunDecide(t: Analyses, order: seq<Signature>, i: nat, p: Plan, cleared: set<Signature>,
                  summaries: map<Signature, Summary>, inserted: seq<Signature>, errors: seq<Error>,
                  reported: set<(Symbol, VarPaths)>, summary: Summary)
    requires RunInvariant(t, order, i, p, cleared, summaries, inserted, errors, reported)
    requires i < |order| && order[i] !in CoarseTier(t, order).1
    requires forall c | c in t.children(order[i]) :: c !in cleared
    requires summary.content == t.ContentOf(order[i], Contents(summaries))
    ensures var after := DecideReports(t, order[i], Contents(summaries), errors, reported);
            RunInvariant(t, order, i + 1, p, cleared, summaries[order[i] := summary], inserted + [order[i]], after.0, after.1)
  {
    RunDecideTables(t, order, i, p, cleared, summaries, inserted, summary);
    if SearchesBelow(t) { ReportsDecide(t, order, i, p, cleared, summaries, errors, reported); }
  }

  /** The search of the module at `i` would find nothing. */
  ghost predicate SilentAt(t: Analyses, order: seq<Signature>, i: nat)
    requires i < |order|
  {
    var before := PreciseOnly(t, order[..i], Echoing(t, order));
    var built := t.BuildOn(order[i], before.contents);
    built.Built? ==> t.search(order[i], built.graph, before.contents, before.reported).found == []
  }

  /** No search the tiers save would report anything. */
  ghost predicate EchoFree(t: Analyses, order: seq<Signature>) {
    forall i: nat | i < |order| && order[i] in Echoing(t, order) :: SilentAt(t, order, i)
  }

  lemma SilentReports(t: Analyses, s: Signature, before: PreciseRun)
    requires var built := t.BuildOn(s, before.contents);
      built.Built? ==> t.search(s, built.graph, before.contents, before.reported).found == []
    ensures BuildReports(t, s, before, true) == BuildReports(t, s, before, false)
  {
  }

  lemma EchoFreeStep(t: Analyses, order: seq<Signature>, n: nat)
    requires EchoFree(t, order) && n < |order|
    requires PreciseOnly(t, order[..n], {}) == PreciseOnly(t, order[..n], Echoing(t, order))
    ensures PreciseOnly(t, order[..n + 1], {}) == PreciseOnly(t, order[..n + 1], Echoing(t, order))
  {
    PreciseStep(t, order, n, {});
    PreciseStep(t, order, n, Echoing(t, order));
    if order[n] in Echoing(t, order) {
      assert SilentAt(t, order, n);
      SilentReports(t, order[n], PreciseOnly(t, order[..n], {}));
    }
  }

  /** Where there are no echoes, the precise tier alone reports the same. */
  lemma {:induction false} EchoFreeReports(t: Analyses, order: seq<Signature>, n: nat)
    requires EchoFree(t, order) && n <= |order|
    ensures PreciseOnly(t, order[..n], {}) == PreciseOnly(t, order[..n], Echoing(t, order))
  {
    if n > 0 {
      EchoFreeReports(t, order, n - 1);
      EchoFreeStep(t, order, n - 1);
    }
  }

  // ---- The ledger of a run ----

  /** Step `k` is the `k`-th summary: of a module that is decided, after a search given what an eager build would give it, or not. */
  ghost predicate StepRight(t: Analyses, eager: map<Signature, Content>, clearable: set<Signature>, inserted: seq<Signature>,
                            steps: seq<Step>, k: nat)
    requires k < |steps| == |inserted|
  {
    && steps[k].s == inserted[k] && (steps[k].Summarized? <==> inserted[k] in clearable)
    && (steps[k].Decided? ==>
          AgreeBelow(t, steps[k].s, steps[k].contents, eager) && steps[k].reported == KeysOf(AllEvents(t, eager, steps[..k])))
  }

  /** There is a step for each summary, and every summary's flag is right. */
  ghost predicate StepsRight(p: Plan, steps: seq<Step>, inserted: seq<Signature>, summaries: map<Signature, Summary>) {
    && |steps| == |inserted|
    && (forall k: nat | k < |steps| :: StepRight(p.t, p.eager, p.clearable, inserted, steps, k))
    && forall k: nat | k < |steps| :: FlagRight(p.t, p.eager, summaries, steps[k])
  }

  /** And the errors tell the events of all steps. */
  ghost predicate Ledger(p: Plan, steps: seq<Step>, inserted: seq<Signature>, summaries: map<Signature, Summary>,
                         errors: seq<Error>, reported: set<(Symbol, VarPaths)>)
  {
    && StepsRight(p, steps, inserted, summaries)
    && Tells(AllEvents(p.t, p.eager, steps), errors) && reported == KeysOf(AllEvents(p.t, p.eager, steps))
  }

  lemma StepsStayRight(t: Analyses, eager: map<Signature, Content>, clearable: set<Signature>, inserted: seq<Signature>, steps: seq<Step>,
                       inserted': seq<Signature>, steps': seq<Step>, k: nat)
    requires k < |steps| == |inserted| && |steps'| == |inserted'| && inserted <= inserted' && steps <= steps'
    requires StepRight(t, eager, clearable, inserted, steps, k)
    ensures StepRight(t, eager, clearable, inserted', steps', k)
  {
    assert steps'[..k] == steps[..k];
  }

  /** While the children are summarized, what was there keeps its flags. */
  lemma OldFlagsStay(p: Plan, walked: set<Signature>, s: Signature, start: Tally, now: Tally, complete: bool, step: Step)
    requires ChildrenDone(p, walked, s, |p.t.children(s)|, start, now, complete) && p.Invariant(walked, start.cleared, start.summaries)
    requires FlagRight(p.t, p.eager, start.summaries, step)
    ensures FlagRight(p.t, p.eager, now.summaries, step)
  {
    forall c | c in p.t.children(step.s) ensures Lookup(now.summaries, c) == Lookup(start.summaries, c) {
      assert c !in start.cleared;
      assert c in now.summaries ==> c in walked;
    }
    FlagStays(p.t, p.eager, start.summaries, now.summaries, step);
  }

  lemma ChildrenAreTold(p: Plan, steps: seq<Step>, errors0: seq<Error>, errors: seq<Error>, log: seq<Signature>)
    requires Tells(AllEvents(p.t, p.eager, steps), errors0) && errors == errors0 + BuildErrors(p.t, p.eager, log)
    ensures Tells(AllEvents(p.t, p.eager, steps + SummarizedAll(log)), errors)
    ensures KeysOf(AllEvents(p.t, p.eager, steps + SummarizedAll(log))) == KeysOf(AllEvents(p.t, p.eager, steps))
  {
    SummarizedEvents(p.t, p.eager, steps, log);
    FailuresTell(AllEvents(p.t, p.eager, steps), errors0, BuildErrors(p.t, p.eager, log));
  }

  lemma StepsGoOn(steps: seq<Step>, inserted0: seq<Signature>, inserted: seq<Signature>)
    requires |steps| == |inserted0| && inserted0 <= inserted
    ensures var more := steps + SummarizedAll(inserted[|inserted0|..]);
      && |more| == |inserted| && steps <= more
      && forall k: nat | |steps| <= k < |more| :: more[k] == Summarized(inserted[k])
  {
  }

  lemma LedgerChildren(p: Plan, walked: set<Signature>, s: Signature, start: Tally, now: Tally, complete: bool, steps: seq<Step>,
                       reported: set<(Symbol, VarPaths)>)
    requires ChildrenDone(p, walked, s, |p.t.children(s)|, start, now, complete) && p.Invariant(walked, start.cleared, start.summaries)
    requires Ledger(p, steps, start.inserted, start.summaries, start.errors, reported)
    ensures Ledger(p, steps + SummarizedAll(now.inserted[|start.inserted|..]), now.inserted, now.summaries, now.errors, reported)
  {
    var log := now.inserted[|start.inserted|..];
    var more := steps + SummarizedAll(log);
    ChildrenAreTold(p, steps, start.errors, now.errors, log);
    StepsGoOn(steps, start.inserted, now.inserted);
    ChildrenKeepSteps(p, walked, s, start, now, complete, steps, more);
  }

  lemma ChildrenKeepSteps(p: Plan, walked: set<Signature>, s: Signature, start: Tally, now: Tally, complete: bool, steps: seq<Step>, more: seq<Step>)
    requires ChildrenDone(p, walked, s, |p.t.children(s)|, start, now, complete) && p.Invariant(walked, start.cleared, start.summaries)
    requires StepsRight(p, steps, start.inserted, start.summaries) && |more| == |now.inserted| && steps <= more
    requires forall k: nat | |steps| <= k < |more| :: more[k] == Summarized(now.inserted[k])
    ensures StepsRight(p, more, now.inserted, now.summaries)
  {
    forall k: nat | k < |more|
      ensures StepRight(p.t, p.eager, p.clearable, now.inserted, more, k) && FlagRight(p.t, p.eager, now.summaries, more[k])
    {
      if k < |steps| {
        OldStepStays(p, walked, s, start, now, complete, steps, more, k);
      } else {
        NewStepIsRight(p, walked, s, start, now, complete, more, k);
      }
    }
  }

  lemma OldStepStays(p: Plan, walked: set<Signature>, s: Signature, start: Tally, now: Tally, complete: bool, steps: seq<Step>,
                     more: seq<Step>, k: nat)
    requires ChildrenDone(p, walked, s, |p.t.children(s)|, start, now, complete) && p.Invariant(walked, start.cleared, start.summaries)
    requires k < |steps| == |start.inserted| && |more| == |now.inserted| && steps <= more
    requires StepRight(p.t, p.eager, p.clearable, start.inserted, steps, k) && FlagRight(p.t, p.eager, start.summaries, steps[k])
    ensures StepRight(p.t, p.eager, p.clearable, now.inserted, more, k) && FlagRight(p.t, p.eager, now.summaries, more[k])
  {
    StepsStayRight(p.t, p.eager, p.clearable, start.inserted, steps, now.inserted, more, k);
    OldFlagsStay(p, walked, s, start, now, complete, steps[k]);
  }

  lemma NewStepIsRight(p: Plan, walked: set<Signature>, s: Signature, start: Tally, now: Tally, complete: bool, more: seq<Step>, k: nat)
    requires ChildrenDone(p, walked, s, |p.t.children(s)|, start, now, complete)
    requires |start.inserted| <= k < |now.inserted| == |more| && more[k] == Summarized(now.inserted[k])
    ensures StepRight(p.t, p.eager, p.clearable, now.inserted, more, k) && FlagRight(p.t, p.eager, now.summaries, more[k])
  {
    assert now.inserted[|start.inserted|..][k - |start.inserted|] in now.inserted[|start.inserted|..];
  }

  /** What the search of the next module is given agrees with what the eager build would give it. */
  lemma SearchAgreesFinally(p: Plan, walked: set<Signature>, cleared: set<Signature>, summaries: map<Signature, Summary>, s: Signature)
    requires p.Invariant(walked, cleared, summaries) && p.Next(walked, s)
    requires forall c | c in p.t.children(s) :: c !in cleared
    ensures AgreeBelow(p.t, s, Contents(summaries), p.eager)
  {
    var below := set n, c | n in summaries.Keys + {s} && c in p.t.children(n) :: c;
    assert Follows(p.t, s, Contents(summaries), below);
    forall b | b in below ensures Lookup(Contents(summaries), b) == Lookup(p.eager, b) {
      assert b !in cleared;
    }
  }

  lemma DecidedEvents(t: Analyses, eager: map<Signature, Content>, steps: seq<Step>, step: Step, errors: seq<Error>)
    requires step.Decided? && step.reported == KeysOf(AllEvents(t, eager, steps)) && Tells(AllEvents(t, eager, steps), errors)
    requires t.BuildOn(step.s, step.contents) == t.BuildOn(step.s, eager)
    ensures var (errors', reported') := DecideReports(t, step.s, step.contents, errors, step.reported);
      Tells(AllEvents(t, eager, steps + [step]), errors') && reported' == KeysOf(AllEvents(t, eager, steps + [step]))
  {
    EventsMore(t, eager, steps, step);
    var events := AllEvents(t, eager, steps);
    match t.BuildOn(step.s, eager) {
      case Failed(error) =>
        TellsMore(events, errors, BuildFailed(error));
        KeysMore(events, BuildFailed(error));
      case Built(graph, _) =>
        ReportTells(events, errors, t.symbol(step.s), t.search(step.s, graph, step.contents, step.reported).found);
    }
  }

  lemma LedgerDecide(p: Plan, walked: set<Signature>, cleared: set<Signature>, steps: seq<Step>, inserted: seq<Signature>,
                     summaries: map<Signature, Summary>, errors: seq<Error>, reported: set<(Symbol, VarPaths)>, s: Signature, summary: Summary)
    requires Ledger(p, steps, inserted, summaries, errors, reported) && Members(inserted) == summaries.Keys
    requires p.Valid() && p.Invariant(walked, cleared, summaries) && p.Next(walked, s) && s !in p.clearable && s in p.rank
    requires forall c | c in p.t.children(s) :: c !in cleared
    requires p.t.BuildOn(s, Contents(summaries)) == p.t.BuildOn(s, p.eager)
    requires summary.complete <==> StepComplete(p.t, p.eager, summaries, Decided(s, Contents(summaries), reported))
    ensures var after := DecideReports(p.t, s, Contents(summaries), errors, reported);
      Ledger(p, steps + [Decided(s, Contents(summaries), reported)], inserted + [s], summaries[s := summary], after.0, after.1)
  {
    var step := Decided(s, Contents(summaries), reported);
    SearchAgreesFinally(p, walked, cleared, summaries, s);
    DecidedEvents(p.t, p.eager, steps, step, errors);
    OwnFlag(p.t, p.eager, summaries, step, summary);
    DecidedKeepsSteps(p, walked, cleared, steps, inserted, summaries, step, summary);
  }

  lemma DecidedKeepsSteps(p: Plan, walked: set<Signature>, cleared: set<Signature>, steps: seq<Step>, inserted: seq<Signature>,
                          summaries: map<Signature, Summary>, step: Step, summary: Summary)
    requires StepsRight(p, steps, inserted, summaries)
    requires p.Invariant(walked, cleared, summaries) && p.Next(walked, step.s) && step.s !in summaries
    requires step.Decided? && step.s !in p.clearable && step.reported == KeysOf(AllEvents(p.t, p.eager, steps))
    requires AgreeBelow(p.t, step.s, step.contents, p.eager)
    requires FlagRight(p.t, p.eager, summaries[step.s := summary], step)
    ensures StepsRight(p, steps + [step], inserted + [step.s], summaries[step.s := summary])
  {
    var more := steps + [step];
    assert more[..|steps|] == steps;
    forall k: nat | k < |more|
      ensures StepRight(p.t, p.eager, p.clearable, inserted + [step.s], more, k) && FlagRight(p.t, p.eager, summaries[step.s := summary], more[k])
    {
      if k < |steps| { DecidedKeepsStep(p, walked, cleared, summaries, step.s, summary, inserted, steps, more, k); }
    }
  }

  lemma DecidedKeepsStep(p: Plan, walked: set<Signature>, cleared: set<Signature>, summaries: map<Signature, Summary>, s: Signature, summary: Summary,
                         inserted: seq<Signature>, steps: seq<Step>, more: seq<Step>, k: nat)
    requires p.Invariant(walked, cleared, summaries) && p.Next(walked, s) && s !in summaries
    requires k < |steps| == |inserted| && |more| == |steps| + 1 && steps <= more
    requires StepRight(p.t, p.eager, p.clearable, inserted, steps, k) && FlagRight(p.t, p.eager, summaries, steps[k])
    ensures StepRight(p.t, p.eager, p.clearable, inserted + [s], more, k) && FlagRight(p.t, p.eager, summaries[s := summary], more[k])
  {
    StepsStayRight(p.t, p.eager, p.clearable, inserted, steps, inserted + [s], more, k);
    DecidedIsNoChild(p, walked, cleared, summaries, s, steps[k].s);
    FlagStays(p.t, p.eager, summaries, summaries[s := summary], steps[k]);
  }

  /** The next module is no child of one with a summary. */
  lemma DecidedIsNoChild(p: Plan, walked: set<Signature>, cleared: set<Signature>, summaries: map<Signature, Summary>, s: Signature, x: Signature)
    requires p.Invariant(walked, cleared, summaries) && p.Next(walked, s) && x in summaries
    ensures s !in p.t.children(x)
  {
  }

  lemma OwnFlag(t: Analyses, eager: map<Signature, Content>, summaries: map<Signature, Summary>, step: Step, summary: Summary)
    requires step.s !in t.children(step.s) && (summary.complete <==> StepComplete(t, eager, summaries, step))
    ensures FlagRight(t, eager, summaries[step.s := summary], step)
  {
    var after := summaries[step.s := summary];
    assert forall c | c in t.children(step.s) :: c in after <==> c in summaries;
  }

  /** The run is complete when every cleared module's verdict is, every decided module's summary, and every summarized module builds. */
  ghost predicate CompleteRun(t: Analyses, order: seq<Signature>, i: nat, eager: map<Signature, Content>, clearable: set<Signature>,
                              steps: seq<Step>, summaries: map<Signature, Summary>)
    requires i <= |order|
  {
    && (forall j: nat | j < i && order[j] in clearable :: CoarseVerdict(t, order, j).0.complete)
    && forall k: nat | k < |steps| ::
         if steps[k].Decided? then steps[k].s in summaries && summaries[steps[k].s].complete else t.BuildOn(steps[k].s, eager).Built?
  }

  lemma CompleteClear(t: Analyses, order: seq<Signature>, i: nat, p: Plan, steps: seq<Step>, summaries: map<Signature, Summary>)
    requires i < |order| && order[i] in p.clearable && forall k: nat | k < |steps| :: steps[k].s in summaries
    ensures CompleteRun(t, order, i + 1, p.eager, p.clearable, steps, summaries)
       <==> CompleteRun(t, order, i, p.eager, p.clearable, steps, summaries) && CoarseVerdict(t, order, i).0.complete
  {
  }

  lemma CompleteChildren(order: seq<Signature>, i: nat, p: Plan, walked: set<Signature>, s: Signature, start: Tally, now: Tally, built: bool,
                         steps: seq<Step>)
    requires i <= |order| && ChildrenDone(p, walked, s, |p.t.children(s)|, start, now, built)
    requires forall k: nat | k < |steps| :: steps[k].s in start.summaries
    ensures var more := steps + SummarizedAll(now.inserted[|start.inserted|..]);
      && (forall k: nat | k < |more| :: more[k].s in now.summaries)
      && (CompleteRun(p.t, order, i, p.eager, p.clearable, more, now.summaries) <==>
            CompleteRun(p.t, order, i, p.eager, p.clearable, steps, start.summaries) && built)
  {
    var log := now.inserted[|start.inserted|..];
    var more := steps + SummarizedAll(log);
    forall k: nat | k < |more| ensures more[k].s in now.summaries {
      if k >= |steps| { assert log[k - |steps|] in log && log[k - |steps|] in Members(now.inserted); }
    }
    if CompleteRun(p.t, order, i, p.eager, p.clearable, more, now.summaries) {
      forall k: nat | k < |steps|
        ensures if steps[k].Decided? then start.summaries[steps[k].s].complete else p.t.BuildOn(steps[k].s, p.eager).Built?
      {
        assert more[k] == steps[k];
      }
      forall x | x in log ensures p.t.BuildOn(x, p.eager).Built? {
        var n :| 0 <= n < |log| && log[n] == x;
        assert more[|steps| + n] == Summarized(x);
      }
    }
  }

  lemma CompleteDecide(t: Analyses, order: seq<Signature>, i: nat, p: Plan, steps: seq<Step>, summaries: map<Signature, Summary>,
                       step: Step, summary: Summary)
    requires i < |order| && order[i] !in p.clearable && step.Decided? && step.s !in summaries
    requires forall k: nat | k < |steps| :: steps[k].s in summaries
    ensures CompleteRun(t, order, i + 1, p.eager, p.clearable, steps + [step], summaries[step.s := summary])
       <==> CompleteRun(t, order, i, p.eager, p.clearable, steps, summaries) && summary.complete
  {
    var more, after := steps + [step], summaries[step.s := summary];
    if CompleteRun(t, order, i + 1, p.eager, p.clearable, more, after) {
      forall k: nat | k < |steps| ensures if steps[k].Decided? then summaries[steps[k].s].complete else t.BuildOn(steps[k].s, p.eager).Built? {
        assert more[k] == steps[k];
      }
      assert more[|steps|] == step;
    }
  }

  /** Everything a run keeps. */
  ghost predicate Running(t: Analyses, order: seq<Signature>, i: nat, p: Plan, now: Tally, reported: set<(Symbol, VarPaths)>, steps: seq<Step>, complete: bool) {
    && RunInvariant(t, order, i, p, now.cleared, now.summaries, now.inserted, now.errors, reported)
    && Ledger(p, steps, now.inserted, now.summaries, now.errors, reported)
    && (complete <==> CompleteRun(t, order, i, p.eager, p.clearable, steps, now.summaries))
  }

  lemma RunningFirst(t: Analyses, order: seq<Signature>) returns (p: Plan)
    requires ChildrenFirst(t, order)
    ensures Running(t, order, 0, p, Tally({}, map[], [], []), {}, [], true)
    ensures forall s | s in order :: s in p.rank && p.rank[s] < |order| && order[p.rank[s]] == s
  {
    p := PlanOf(t, order);
    NothingToTell();
    assert Members<Signature>([]) == {};
    assert order[..0] == [];
  }

  lemma RunningClear(t: Analyses, order: seq<Signature>, i: nat, p: Plan, now: Tally, reported: set<(Symbol, VarPaths)>, steps: seq<Step>, complete: bool)
    requires Running(t, order, i, p, now, reported, steps, complete) && i < |order| && order[i] in CoarseTier(t, order).1
    ensures Running(t, order, i + 1, p, now.(cleared := now.cleared + {order[i]}), reported, steps,
                    complete && CoarseVerdict(t, order, i).0.complete)
  {
    RunClear(t, order, i, p, now.cleared, now.summaries, now.inserted, now.errors, reported);
    CompleteClear(t, order, i, p, steps, now.summaries);
  }

  lemma RunAfterChildren(t: Analyses, order: seq<Signature>, i: nat, p: Plan, start: Tally, now: Tally, reported: set<(Symbol, VarPaths)>, built: bool)
    requires i < |order| && RunInvariant(t, order, i, p, start.cleared, start.summaries, start.inserted, start.errors, reported)
    requires ChildrenDone(p, Members(order[..i]), order[i], |t.children(order[i])|, start, now, built)
    ensures RunInvariant(t, order, i, p, now.cleared, now.summaries, now.inserted, now.errors, reported)
  {
    AllChildrenDone(p, Members(order[..i]), order[i], start, now, built);
    RunChildren(t, order, p, built);
  }

  lemma RunningChildren(t: Analyses, order: seq<Signature>, i: nat, p: Plan, start: Tally, now: Tally, reported: set<(Symbol, VarPaths)>,
                        steps: seq<Step>, complete: bool, built: bool)
    requires Running(t, order, i, p, start, reported, steps, complete) && i < |order|
    requires ChildrenDone(p, Members(order[..i]), order[i], |t.children(order[i])|, start, now, built)
    ensures Running(t, order, i, p, now, reported, steps + SummarizedAll(now.inserted[|start.inserted|..]), complete && built)
    ensures forall c | c in t.children(order[i]) :: c !in now.cleared
  {
    AllChildrenDone(p, Members(order[..i]), order[i], start, now, built);
    RunAfterChildren(t, order, i, p, start, now, reported, built);
    LedgerChildren(p, Members(order[..i]), order[i], start, now, built, steps, reported);
    CompleteChildren(order, i, p, Members(order[..i]), order[i], start, now, built, steps);
  }

  /** What deciding module `s` yields. */
  predicate IsDecision(t: Analyses, s: Signature, summaries: map<Signature, Summary>, reported: set<(Symbol, VarPaths)>, summary: Summary) {
    && summary.content == t.ContentOf(s, Contents(summaries))
    && (summary.complete <==>
          var build := t.BuildOn(s, Contents(summaries));
          && build.Built? && build.complete && (forall c | c in t.children(s) :: c in summaries && summaries[c].complete)
          && t.search(s, build.graph, Contents(summaries), reported).complete)
  }

  lemma RunningDecide(t: Analyses, order: seq<Signature>, i: nat, p: Plan, now: Tally, reported: set<(Symbol, VarPaths)>, steps: seq<Step>,
                      complete: bool, summary: Summary)
    requires Running(t, order, i, p, now, reported, steps, complete) && i < |order| && order[i] !in CoarseTier(t, order).1
    requires forall c | c in t.children(order[i]) :: c !in now.cleared
    requires IsDecision(t, order[i], now.summaries, reported, summary)
    ensures var (errors', reported') := DecideReports(t, order[i], Contents(now.summaries), now.errors, reported);
      Running(t, order, i + 1, p, Tally(now.cleared, now.summaries[order[i] := summary], errors', now.inserted + [order[i]]), reported',
              steps + [Decided(order[i], Contents(now.summaries), reported)], complete && summary.complete)
  {
    var s, walked := order[i], Members(order[..i]);
    NextInOrder(p, order, i);
    RunDecideTables(t, order, i, p, now.cleared, now.summaries, now.inserted, summary);
    RunDecide(t, order, i, p, now.cleared, now.summaries, now.inserted, now.errors, reported, summary);
    LedgerDecide(p, walked, now.cleared, steps, now.inserted, now.summaries, now.errors, reported, s, summary);
    CompleteDecide(t, order, i, p, steps, now.summaries, Decided(s, Contents(now.summaries), reported), summary);
  }

  /** Builds a module on the summaries of its children and searches it for cycles. */
  method Decide(t: Analyses, s: Signature, summaries: map<Signature, Summary>, errors0: seq<Error>, reported0: set<(Symbol, VarPaths)>)
    returns (summary: Summary, errors: seq<Error>, reported: set<(Symbol, VarPaths)>)
    ensures IsDecision(t, s, summaries, reported0, summary)
    ensures (errors, reported) == DecideReports(t, s, Contents(summaries), errors0, reported0)
  {
    match t.BuildOn(s, Contents(summaries)) {
      case Failed(error) =>
        errors, reported := errors0 + [error], reported0;
        summary := Summary(t.emptyContent, false);
      case Built(graph, own) =>
        var search := t.search(s, graph, Contents(summaries), reported0);
        var (reportedErrors, seen) := Report(t.symbol(s), search.found, errors0, reported0);
        errors, reported := reportedErrors, seen;
        summary := Summary(t.summarize(s, graph), BuildsCompletely(t, s, own, summaries) && search.complete);
    }
  }

  /** Walks the modules, children first, and reports every cycle the precise tier finds. */
  method CheckInner(t: Analyses, order: seq<Signature>)
    returns (errors: seq<Error>, complete: bool, summaries: map<Signature, Summary>, ghost inserted: seq<Signature>, ghost steps: seq<Step>)
    requires ChildrenFirst(t, order)
    // Each summary is inserted once, when all visited children have theirs.
    ensures BottomUp(t, Members(order), inserted) && Members(inserted) == summaries.Keys
    // A module gets a summary exactly if the precise tier needs one, and it is the one the eager build gives it.
    ensures forall s :: s in summaries <==> Needed(t, Members(order), CoarseTier(t, order).1, s)
    ensures forall s | s in summaries :: s in order && summaries[s].content == Eager(t, order)[s]
    // The errors are those of the builds that fail and of the first cycle found with each key, in order, and no others.
    ensures |steps| == |inserted| && forall k: nat | k < |steps| :: StepRight(t, Eager(t, order), CoarseTier(t, order).1, inserted, steps, k)
    ensures Tells(AllEvents(t, Eager(t, order), steps), errors)
    // A summary and the run are complete exactly when all that went into them is.
    ensures forall k: nat | k < |steps| :: FlagRight(t, Eager(t, order), summaries, steps[k])
    ensures complete <==> CompleteRun(t, order, |order|, Eager(t, order), CoarseTier(t, order).1, steps, summaries)
    // Leaving modules to the coarse tier changes no report, but that echoes of cycles are not searched for.
    ensures SearchesBelow(t) && CoarseSound(t, order) ==> errors == PreciseOnly(t, order, Echoing(t, order)).errors
  {
    var coarse := map[];
    var cleared: set<Signature> := {};
    var reported := {};
    errors, complete, summaries, inserted, steps := [], true, map[], [], [];
    ghost var p := RunningFirst(t, order);
    for i := 0 to |order|
      invariant coarse == CoarseTier(t, order[..i]).0
      invariant Running(t, order, i, p, Tally(cleared, summaries, errors, inserted), reported, steps, complete)
    {
      var s := order[i];
      CoarseStep(t, order, i);
      var (verdict, coarseSummary) := t.analyzeCoarsely(s, CoarseChildren(t, s, coarse));
      coarse := coarse[s := coarseSummary];
      ghost var start := Tally(cleared, summaries, errors, inserted);
      if verdict.provesAcyclic {
        RunningClear(t, order, i, p, start, reported, steps, complete);
        complete := complete && verdict.complete;
        cleared := cleared + {s};
        continue;
      }
      NextInOrder(p, order, i);
      var built;
      cleared, summaries, errors, built, inserted :=
        SummarizeChildren(t, s, cleared, summaries, errors, p, Members(order[..i]), inserted);
      ghost var now := Tally(cleared, summaries, errors, inserted);
      RunningChildren(t, order, i, p, start, now, reported, steps, complete, built);
      steps := steps + SummarizedAll(inserted[|start.inserted|..]);
      complete := complete && built;

      ghost var reported0 := reported;
      var summary;
      summary, errors, reported := Decide(t, s, summaries, errors, reported);
      RunningDecide(t, order, i, p, now, reported0, steps, complete, summary);
      complete := complete && summary.complete;
      steps := steps + [Decided(s, Contents(now.summaries), reported0)];
      inserted := inserted + [s];
      summaries := summaries[s := summary];
    }
    assert order[..|order|] == order;
    NeededHaveSummaries(p, cleared, summaries);
  }

  /** Every module of the walk that the coarse tier does not clear is decided. */
  lemma DecidedIsThere(t: Analyses, order: seq<Signature>, summaries: map<Signature, Summary>, inserted: seq<Signature>, steps: seq<Step>, s: Signature)
    requires Members(inserted) == summaries.Keys && |steps| == |inserted|
    requires forall k: nat | k < |steps| :: StepRight(t, Eager(t, order), CoarseTier(t, order).1, inserted, steps, k)
    requires forall x :: x in summaries <==> Needed(t, Members(order), CoarseTier(t, order).1, x)
    requires s in order && s !in CoarseTier(t, order).1
    ensures exists k: nat :: k < |steps| && steps[k].Decided? && steps[k].s == s
  {
    assert NeededPath(t, Members(order), CoarseTier(t, order).1, [s]);
    assert s in Members(inserted);
    var k: nat :| k < |inserted| && inserted[k] == s;
    assert StepRight(t, Eager(t, order), CoarseTier(t, order).1, inserted, steps, k);
  }
}
