/** What the loop detector reports: every build that fails, and every cycle once. */
module LoopReports {
  import opened Options
  import opened Sequences
  import opened LoopAnalyses

  /** Each cycle is reported once per symbol and set of variables. */
  function Report(symbol: Symbol, found: seq<Cycle>, errors: seq<Error>, reported: set<(Symbol, VarPaths)>):
      (result: (seq<Error>, set<(Symbol, VarPaths)>))
    ensures errors <= result.0 && reported <= result.1
    ensures forall cycle | cycle in found :: (symbol, cycle.paths) in result.1
  {
    if found == [] then (errors, reported) else
      var (before, seen) := Report(symbol, found[..|found| - 1], errors, reported);
      var cycle := found[|found| - 1];
      if (symbol, cycle.paths) in seen then (before, seen) else (before + [cycle.error], seen + {(symbol, cycle.paths)})
  }

  // ---- What is to be reported ----

  /** A build that failed, or a cycle that a search found in a module of that symbol. */
  datatype Event = BuildFailed(error: Error) | CycleFound(symbol: Symbol, cycle: Cycle) {
    predicate SameKey(other: Event) {
      CycleFound? && other.CycleFound? && symbol == other.symbol && cycle.paths == other.cycle.paths
    }

    function ItsError(): Error {
      match this
      case BuildFailed(error) => error
      case CycleFound(_, cycle) => cycle.error
    }
  }

  /** Every failed build is news, and a cycle unless one with its symbol and variables came before. */
  predicate IsNews(events: seq<Event>, i: nat)
    requires i < |events|
  {
    events[i].BuildFailed? || forall j | 0 <= j < i :: !events[j].SameKey(events[i])
  }

  /** The positions of the news, in order. */
  ghost predicate AreNews(events: seq<Event>, news: seq<nat>) {
    && (forall m, n | 0 <= m < n < |news| :: news[m] < news[n])
    && (forall i: nat :: i in news <==> i < |events| && IsNews(events, i))
  }

  /** The errors are those of the news, in order, and no others. */
  ghost predicate Tells(events: seq<Event>, errors: seq<Error>) {
    exists news :: TellsNews(events, errors, news)
  }

  ghost predicate TellsNews(events: seq<Event>, errors: seq<Error>, news: seq<nat>) {
    && AreNews(events, news) && |errors| == |news|
    && forall n | 0 <= n < |news| :: news[n] in news && errors[n] == events[news[n]].ItsError()
  }

  function KeysOf(events: seq<Event>): set<(Symbol, VarPaths)> {
    set e | e in events && e.CycleFound? :: (e.symbol, e.cycle.paths)
  }

  /** One event more: a failed build, or a cycle that is told unless its key is known. */
  function Told(events: seq<Event>, e: Event): seq<Error> {
    if e.CycleFound? && (e.symbol, e.cycle.paths) in KeysOf(events) then [] else [e.ItsError()]
  }

  lemma NewsStay(events: seq<Event>, e: Event, i: nat)
    requires i < |events|
    ensures IsNews(events + [e], i) <==> IsNews(events, i)
  {
    var more := events + [e];
    assert more[i] == events[i] && forall j | 0 <= j < i :: more[j] == events[j];
  }

  lemma LastIsNews(events: seq<Event>, e: Event)
    ensures IsNews(events + [e], |events|) <==> Told(events, e) != []
  {
    var more := events + [e];
    assert more[|events|] == e && forall j | 0 <= j < |events| :: more[j] == events[j];
    if e.CycleFound? && (e.symbol, e.cycle.paths) in KeysOf(events) {
      var x :| x in events && x.CycleFound? && (x.symbol, x.cycle.paths) == (e.symbol, e.cycle.paths);
      var j :| 0 <= j < |events| && events[j] == x;
      assert more[j].SameKey(e);
    }
  }

  function NewsWith(events: seq<Event>, news: seq<nat>, e: Event): seq<nat> {
    if Told(events, e) != [] then news + [|events|] else news
  }

  lemma NewsMore(events: seq<Event>, news: seq<nat>, e: Event)
    requires AreNews(events, news)
    ensures AreNews(events + [e], NewsWith(events, news, e))
  {
    var more := NewsWith(events, news, e);
    LastIsNews(events, e);
    forall m | 0 <= m < |news| ensures news[m] < |events| { assert news[m] in news; }
    forall i: nat ensures i in more <==> i < |events| + 1 && IsNews(events + [e], i) {
      assert i in more <==> i in news || (i == |events| && Told(events, e) != []);
      if i < |events| { NewsStay(events, e, i); }
    }
  }

  lemma TellsMore(events: seq<Event>, errors: seq<Error>, e: Event)
    requires Tells(events, errors)
    ensures Tells(events + [e], errors + Told(events, e))
  {
    var news :| TellsNews(events, errors, news);
    TellsNewsMore(events, errors, e, news);
  }

  lemma TellsNewsMore(events: seq<Event>, errors: seq<Error>, e: Event, news: seq<nat>)
    requires TellsNews(events, errors, news)
    ensures TellsNews(events + [e], errors + Told(events, e), NewsWith(events, news, e))
  {
    var more, told := NewsWith(events, news, e), errors + Told(events, e);
    NewsMore(events, news, e);
    assert |more| == |told|;
    forall n | 0 <= n < |more| ensures more[n] in more && told[n] == (events + [e])[more[n]].ItsError() {
      if n < |news| {
        assert news[n] in news && more[n] == news[n] && told[n] == errors[n];
        assert (events + [e])[news[n]] == events[news[n]];
      } else {
        assert more[n] == |events| && told[n] == e.ItsError();
      }
    }
  }

  lemma NothingToTell()
    ensures Tells([], []) && KeysOf([]) == {}
  {
    assert TellsNews([], [], []);
  }

  // ---- What is reported ----

  function FoundEvents(symbol: Symbol, found: seq<Cycle>): (events: seq<Event>)
    ensures |events| == |found| && forall i | 0 <= i < |found| :: events[i] == CycleFound(symbol, found[i])
  {
    seq(|found|, i requires 0 <= i < |found| => CycleFound(symbol, found[i]))
  }

  /** Reporting the cycles of a search tells those that are news, and remembers the keys of all. */
  lemma {:induction false} ReportTells(events: seq<Event>, errors: seq<Error>, symbol: Symbol, found: seq<Cycle>)
    requires Tells(events, errors)
    ensures var r := Report(symbol, found, errors, KeysOf(events));
      Tells(events + FoundEvents(symbol, found), r.0) && r.1 == KeysOf(events + FoundEvents(symbol, found))
  {
    if found == [] {
      assert events + FoundEvents(symbol, found) == events;
    } else {
      var front, last := found[..|found| - 1], CycleFound(symbol, found[|found| - 1]);
      ReportTells(events, errors, symbol, front);
      var before := events + FoundEvents(symbol, front);
      assert events + FoundEvents(symbol, found) == before + [last];
      var r := Report(symbol, front, errors, KeysOf(events));
      TellsMore(before, r.0, last);
      KeysMore(before, last);
      assert Report(symbol, found, errors, KeysOf(events)).0 == r.0 + Told(before, last);
    }
  }

  lemma KeysMore(events: seq<Event>, e: Event)
    ensures KeysOf(events + [e]) == KeysOf(events) + if e.CycleFound? then {(e.symbol, e.cycle.paths)} else {}
  {
    assert forall x :: x in events + [e] <==> x in events || x == e;
  }

  function FailedEvents(errors: seq<Error>): (events: seq<Event>)
    ensures |events| == |errors| && forall i | 0 <= i < |errors| :: events[i] == BuildFailed(errors[i])
  {
    seq(|errors|, i requires 0 <= i < |errors| => BuildFailed(errors[i]))
  }

  /** Builds that fail are all told. */
  lemma {:induction false} FailuresTell(events: seq<Event>, errors: seq<Error>, more: seq<Error>)
    requires Tells(events, errors)
    ensures Tells(events + FailedEvents(more), errors + more) && KeysOf(events + FailedEvents(more)) == KeysOf(events)
  {
    if more == [] {
      assert events + FailedEvents(more) == events && errors + more == errors;
    } else {
      var front, last := more[..|more| - 1], more[|more| - 1];
      FailuresTell(events, errors, front);
      var before := events + FailedEvents(front);
      assert events + FailedEvents(more) == before + [BuildFailed(last)] && errors + more == errors + front + [last];
      TellsMore(before, errors + front, BuildFailed(last));
      KeysMore(before, BuildFailed(last));
    }
  }

  /** So of each key exactly the first cycle is told, and every failed build. */
  lemma EachIsTold(events: seq<Event>, errors: seq<Error>, i: nat)
    requires Tells(events, errors) && i < |events|
    ensures exists j: nat, n: nat ::
      && j <= i && n < |errors| && IsNews(events, j) && errors[n] == events[j].ItsError()
      && (events[j] == events[i] || events[j].SameKey(events[i]))
  {
    var j := FirstOfKey(events, i);
    var news :| TellsNews(events, errors, news);
    assert j in news;
    var n :| 0 <= n < |news| && news[n] == j;
  }

  lemma {:induction false} FirstOfKey(events: seq<Event>, i: nat) returns (j: nat)
    requires i < |events|
    ensures j <= i && IsNews(events, j) && (events[j] == events[i] || events[j].SameKey(events[i]))
  {
    j := i;
    if !IsNews(events, i) {
      var k: nat :| k < i && events[k].SameKey(events[i]);
      j := FirstOfKey(events, k);
    }
  }

  // ---- What each step of a run reports ----

  /** A module that the precise tier decides, with what its search was given, or one that is only summarized. */
  datatype Step = Decided(s: Signature, contents: map<Signature, Content>, reported: set<(Symbol, VarPaths)>) | Summarized(s: Signature)

  /** All cycles that the search of the module finds; a module that is only summarized is not searched. */
  function FoundBy(t: Analyses, eager: map<Signature, Content>, step: Step): seq<Cycle> {
    match t.BuildOn(step.s, eager)
    case Built(graph, _) => if step.Decided? then t.search(step.s, graph, step.contents, step.reported).found else []
    case Failed(_) => []
  }

  /** The build that failed, or the cycles found. */
  function StepEvents(t: Analyses, eager: map<Signature, Content>, step: Step): seq<Event> {
    match t.BuildOn(step.s, eager)
    case Failed(error) => [BuildFailed(error)]
    case Built(_, _) => FoundEvents(t.symbol(step.s), FoundBy(t, eager, step))
  }

  function AllEvents(t: Analyses, eager: map<Signature, Content>, steps: seq<Step>): seq<Event> {
    if steps == [] then [] else AllEvents(t, eager, steps[..|steps| - 1]) + StepEvents(t, eager, steps[|steps| - 1])
  }

  lemma EventsMore(t: Analyses, eager: map<Signature, Content>, steps: seq<Step>, step: Step)
    ensures AllEvents(t, eager, steps + [step]) == AllEvents(t, eager, steps) + StepEvents(t, eager, step)
  {
    assert (steps + [step])[..|steps|] == steps;
  }

  /** The errors of the modules that do not build. */
  function BuildErrors(t: Analyses, eager: map<Signature, Content>, log: seq<Signature>): seq<Error> {
    if log == [] then [] else
      BuildErrors(t, eager, log[..|log| - 1]) + ErrorsOf(t.BuildOn(log[|log| - 1], eager))
  }

  function ErrorsOf(build: Build): seq<Error> {
    match build
    case Failed(error) => [error]
    case Built(_, _) => []
  }

  lemma {:induction false} NoBuildErrors(t: Analyses, eager: map<Signature, Content>, log: seq<Signature>)
    ensures BuildErrors(t, eager, log) == [] <==> forall s | s in log :: t.BuildOn(s, eager).Built?
  {
    if log != [] {
      var front, last := log[..|log| - 1], log[|log| - 1];
      NoBuildErrors(t, eager, front);
      assert last in log && forall s :: s in log <==> s in front || s == last;
    }
  }

  lemma {:induction false} BuildErrorsConcat(t: Analyses, eager: map<Signature, Content>, first: seq<Signature>, second: seq<Signature>)
    ensures BuildErrors(t, eager, first + second) == BuildErrors(t, eager, first) + BuildErrors(t, eager, second)
  {
    if second == [] {
      assert first + second == first;
    } else {
      var front, last := second[..|second| - 1], second[|second| - 1];
      BuildErrorsConcat(t, eager, first, front);
      AppendedLast(first, second);
      assert (first + front + [last])[..|first + front|] == first + front;
      Associative(BuildErrors(t, eager, first), BuildErrors(t, eager, front), ErrorsOf(t.BuildOn(last, eager)));
    }
  }

  function SummarizedAll(log: seq<Signature>): (steps: seq<Step>)
    ensures |steps| == |log| && forall i | 0 <= i < |log| :: steps[i] == Summarized(log[i])
  {
    seq(|log|, i requires 0 <= i < |log| => Summarized(log[i]))
  }

  lemma SummarizedAllMore(log: seq<Signature>)
    requires log != []
    ensures SummarizedAll(log)[..|log| - 1] == SummarizedAll(log[..|log| - 1])
  {
  }

  lemma FailedConcat(first: seq<Error>, second: seq<Error>)
    ensures FailedEvents(first + second) == FailedEvents(first) + FailedEvents(second)
  {
  }

  lemma SummarizedOne(t: Analyses, eager: map<Signature, Content>, s: Signature)
    ensures StepEvents(t, eager, Summarized(s)) == FailedEvents(ErrorsOf(t.BuildOn(s, eager)))
  {
  }

  lemma {:induction false} SummarizedEvents(t: Analyses, eager: map<Signature, Content>, steps: seq<Step>, log: seq<Signature>)
    ensures AllEvents(t, eager, steps + SummarizedAll(log)) == AllEvents(t, eager, steps) + FailedEvents(BuildErrors(t, eager, log))
  {
    if log == [] {
      assert steps + SummarizedAll(log) == steps;
    } else {
      var front, last := log[..|log| - 1], log[|log| - 1];
      var more := ErrorsOf(t.BuildOn(last, eager));
      SummarizedEvents(t, eager, steps, front);
      SummarizedAllMore(log);
      AppendedLast(steps, SummarizedAll(log));
      EventsMore(t, eager, steps + SummarizedAll(front), Summarized(last));
      SummarizedOne(t, eager, last);
      FailedConcat(BuildErrors(t, eager, front), more);
      var events, first, second := AllEvents(t, eager, steps), FailedEvents(BuildErrors(t, eager, front)), FailedEvents(more);
      Associative(events, first, second);
    }
  }

  // ---- Which summaries are complete ----

  /** Everything there is to the module is in its graph, every child has a complete summary, and the search, if any, was completed. */
  predicate StepComplete(t: Analyses, eager: map<Signature, Content>, summaries: map<Signature, Summary>, step: Step) {
    match t.BuildOn(step.s, eager)
    case Failed(_) => false
    case Built(graph, own) =>
      && own && (forall c | c in t.children(step.s) :: c in summaries && summaries[c].complete)
      && (step.Decided? ==> t.search(step.s, graph, step.contents, step.reported).complete)
  }

  predicate FlagRight(t: Analyses, eager: map<Signature, Content>, summaries: map<Signature, Summary>, step: Step) {
    step.s in summaries && (summaries[step.s].complete <==> StepComplete(t, eager, summaries, step))
  }

  /** A flag depends on the summaries of the module and its children alone. */
  lemma FlagStays(t: Analyses, eager: map<Signature, Content>, summaries: map<Signature, Summary>, after: map<Signature, Summary>, step: Step)
    requires FlagRight(t, eager, summaries, step) && Lookup(after, step.s) == Lookup(summaries, step.s)
    requires forall c | c in t.children(step.s) :: Lookup(after, c) == Lookup(summaries, c)
    ensures FlagRight(t, eager, after, step)
  {
    forall c | c in t.children(step.s) ensures c in after <==> c in summaries
                                       ensures c in after ==> after[c] == summaries[c] {
      assert Lookup(after, c) == Lookup(summaries, c);
    }
  }

  /** What summarizing the modules of `log` adds to the errors and the flags. */
  ghost predicate Accounted(t: Analyses, eager: map<Signature, Content>, log: seq<Signature>, errors0: seq<Error>,
                            errors: seq<Error>, complete: bool, summaries: map<Signature, Summary>)
  {
    && errors == errors0 + BuildErrors(t, eager, log)
    && (complete <==> forall s | s in log :: t.BuildOn(s, eager).Built?)
    && forall s | s in log :: FlagRight(t, eager, summaries, Summarized(s))
  }

  lemma AccountedMeans(t: Analyses, eager: map<Signature, Content>, log: seq<Signature>, errors0: seq<Error>,
                       errors: seq<Error>, complete: bool, summaries: map<Signature, Summary>)
    requires Accounted(t, eager, log, errors0, errors, complete, summaries)
    ensures errors0 <= errors && (complete ==> errors == errors0)
  {
    NoBuildErrors(t, eager, log);
  }

  lemma NothingAccounted(t: Analyses, eager: map<Signature, Content>, errors: seq<Error>, summaries: map<Signature, Summary>)
    ensures Accounted(t, eager, [], errors, errors, true, summaries)
  {
  }

  /** One more summary, of a module that is no child of the ones before. */
  lemma AccountedMore(t: Analyses, eager: map<Signature, Content>, log: seq<Signature>, errors0: seq<Error>, errors: seq<Error>,
                      complete: bool, summaries: map<Signature, Summary>, s: Signature, summary: Summary, more: seq<Error>)
    requires Accounted(t, eager, log, errors0, errors, complete, summaries) && s !in summaries
    requires s !in t.children(s) && forall x | x in log :: s !in t.children(x)
    requires more == ErrorsOf(t.BuildOn(s, eager))
    requires summary.complete <==> StepComplete(t, eager, summaries, Summarized(s))
    ensures Accounted(t, eager, log + [s], errors0, errors + more, complete && more == [], summaries[s := summary])
  {
    var after := summaries[s := summary];
    assert (log + [s])[..|log|] == log;
    assert forall x :: x in log + [s] <==> x in log || x == s;
    forall x | x in log ensures FlagRight(t, eager, after, Summarized(x)) {
      FlagStays(t, eager, summaries, after, Summarized(x));
    }
    assert BuildsCompletely(t, s, true, after) <==> BuildsCompletely(t, s, true, summaries) by {
      assert forall c | c in t.children(s) :: c in after <==> c in summaries;
    }
  }

  /** Two lots of summaries, the second without children of the first. */
  lemma AccountedConcat(t: Analyses, eager: map<Signature, Content>, first: seq<Signature>, second: seq<Signature>,
                        errors0: seq<Error>, errors1: seq<Error>, errors2: seq<Error>, complete1: bool, complete2: bool,
                        summaries1: map<Signature, Summary>, summaries2: map<Signature, Summary>)
    requires Accounted(t, eager, first, errors0, errors1, complete1, summaries1)
    requires Accounted(t, eager, second, errors1, errors2, complete2, summaries2)
    requires forall x | x in first ::
      Lookup(summaries2, x) == Lookup(summaries1, x) && forall c | c in t.children(x) :: Lookup(summaries2, c) == Lookup(summaries1, c)
    ensures Accounted(t, eager, first + second, errors0, errors2, complete1 && complete2, summaries2)
  {
    BuildErrorsConcat(t, eager, first, second);
    assert forall x :: x in first + second <==> x in first || x in second;
    forall x | x in first ensures FlagRight(t, eager, summaries2, Summarized(x)) {
      FlagStays(t, eager, summaries1, summaries2, Summarized(x));
    }
  }

  // ---- What a run tells about each module ----

  lemma {:induction false} StepEventIsIn(t: Analyses, eager: map<Signature, Content>, steps: seq<Step>, k: nat, e: Event)
    requires k < |steps| && e in StepEvents(t, eager, steps[k])
    ensures e in AllEvents(t, eager, steps)
  {
    if k < |steps| - 1 { StepEventIsIn(t, eager, steps[..|steps| - 1], k, e); }
  }

  lemma {:induction false} EventIsOfStep(t: Analyses, eager: map<Signature, Content>, steps: seq<Step>, e: Event) returns (k: nat)
    requires e in AllEvents(t, eager, steps)
    ensures k < |steps| && e in StepEvents(t, eager, steps[k])
  {
    k := |steps| - 1;
    if e !in StepEvents(t, eager, steps[k]) { k := EventIsOfStep(t, eager, steps[..k], e); }
  }

  lemma EventIsTold(events: seq<Event>, errors: seq<Error>, e: Event)
    requires Tells(events, errors) && e in events
    ensures exists first :: first in events && (first == e || first.SameKey(e)) && first.ItsError() in errors
  {
    var i :| 0 <= i < |events| && events[i] == e;
    EachIsTold(events, errors, i);
  }

  lemma FoundIsEvent(t: Analyses, eager: map<Signature, Content>, step: Step, c: Cycle)
    requires c in FoundBy(t, eager, step)
    ensures CycleFound(t.symbol(step.s), c) in StepEvents(t, eager, step)
  {
    var found := FoundBy(t, eager, step);
    var m :| 0 <= m < |found| && found[m] == c;
    assert StepEvents(t, eager, step)[m] == CycleFound(t.symbol(step.s), c);
  }

  /** Every cycle that is found is reported: by its own error, or that of an earlier one with its symbol and variables. */
  lemma FoundIsReported(t: Analyses, eager: map<Signature, Content>, steps: seq<Step>, errors: seq<Error>, k: nat, c: Cycle)
    requires Tells(AllEvents(t, eager, steps), errors) && k < |steps| && c in FoundBy(t, eager, steps[k])
    ensures exists e :: e in AllEvents(t, eager, steps) && e.SameKey(CycleFound(t.symbol(steps[k].s), c)) && e.ItsError() in errors
  {
    var mine := CycleFound(t.symbol(steps[k].s), c);
    FoundIsEvent(t, eager, steps[k], c);
    StepEventIsIn(t, eager, steps, k, mine);
    EventIsTold(AllEvents(t, eager, steps), errors, mine);
  }

  /** Every build that fails is reported. */
  lemma FailureIsReported(t: Analyses, eager: map<Signature, Content>, steps: seq<Step>, errors: seq<Error>, k: nat)
    requires Tells(AllEvents(t, eager, steps), errors) && k < |steps| && t.BuildOn(steps[k].s, eager).Failed?
    ensures t.BuildOn(steps[k].s, eager).error in errors
  {
    var mine := BuildFailed(t.BuildOn(steps[k].s, eager).error);
    StepEventIsIn(t, eager, steps, k, mine);
    EventIsTold(AllEvents(t, eager, steps), errors, mine);
  }

  /** The step's build failed with the error, or its search found a cycle with it. */
  predicate Causes(t: Analyses, eager: map<Signature, Content>, step: Step, error: Error) {
    t.BuildOn(step.s, eager) == Failed(error) || exists c | c in FoundBy(t, eager, step) :: c.error == error
  }

  lemma EventCauses(t: Analyses, eager: map<Signature, Content>, step: Step, e: Event)
    requires e in StepEvents(t, eager, step)
    ensures Causes(t, eager, step, e.ItsError())
  {
    if t.BuildOn(step.s, eager).Built? {
      var events, found := StepEvents(t, eager, step), FoundBy(t, eager, step);
      var m :| 0 <= m < |events| && events[m] == e;
      assert found[m] in found && found[m].error == e.ItsError();
    }
  }

  /** Nothing else is reported. */
  lemma ReportedWasFound(t: Analyses, eager: map<Signature, Content>, steps: seq<Step>, errors: seq<Error>, error: Error)
    requires Tells(AllEvents(t, eager, steps), errors) && error in errors
    ensures exists k: nat :: k < |steps| && Causes(t, eager, steps[k], error)
  {
    var events := AllEvents(t, eager, steps);
    var news :| TellsNews(events, errors, news);
    var n :| 0 <= n < |errors| && errors[n] == error;
    assert news[n] in news;
    var k := EventIsOfStep(t, eager, steps, events[news[n]]);
    EventCauses(t, eager, steps[k], events[news[n]]);
  }
}
