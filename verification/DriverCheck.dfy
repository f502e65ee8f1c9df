/** The multiple-driver check of a module, and of all. */
module DriverCheck {
  import opened Options
  import opened SourceTokens
  import opened Spans
  import opened Strings
  import opened Sequences
  import opened TokenLists
  import opened StableSorts
  import opened DriverSweep
  import opened DriverReports

  datatype RegionWrite = RegionWrite(id: VarId, elements: ArraySpan, bits: PackedSpan, driving: bool, token: RangeRank)

  datatype Variable = Variable(declaration: RangeRank, path: string, allowMultipleAssign: bool)

  /** A specialization: the writes of each of its processes, and its variables. */
  datatype Module = Module(
    processes: seq<seq<RegionWrite>>,
    variables: map<VarId, Variable>,
    interfaceMembers: map<VarId, Variable>)

  function Declared(m: Module, id: VarId): Option<Variable> {
    if id in m.variables then Some(m.variables[id]) else Lookup(m.interfaceMembers, id)
  }

  /** A variable of the module itself, or else one of its interfaces. */
  lemma DeclaredMeans(m: Module, id: VarId, v: Variable)
    ensures Declared(m, id) == Some(v) <==>
      (id in m.variables && m.variables[id] == v) || (id !in m.variables && id in m.interfaceMembers && m.interfaceMembers[id] == v)
    ensures Declared(m, id).None? <==> id !in m.variables && id !in m.interfaceMembers
  {
  }

  // ---- The definition ----

  /** The write `k` of process `p` drives variable `id`. */
  predicate Drives(m: Module, p: int, k: int, id: VarId) {
    0 <= p < |m.processes| && 0 <= k < |m.processes[p]| && m.processes[p][k].driving && m.processes[p][k].id == id
  }

  /** Write `k` of process `p`, as the sweep sees it. */
  function WriteAt(m: Module, p: nat, k: nat): Write
    requires p < |m.processes| && k < |m.processes[p]|
  {
    Write(p, m.processes[p][k].elements, m.processes[p][k].bits, [m.processes[p][k].token])
  }

  /** Two writes of different processes drive a common position of `id`; an empty one counts if it lies inside the other. */
  ghost predicate DoublyDriven(m: Module, id: VarId, p: int, k: int, q: int, l: int) {
    && Drives(m, p, k, id) && Drives(m, q, l, id)
    && var w, v := WriteAt(m, p, k), WriteAt(m, q, l);
       Conflict(w, v) || Stray(w, v) || Stray(v, w)
  }

  /** Writes that each cover some element are doubly driven exactly if they share a position. */
  lemma SharedIffCovered(m: Module, id: VarId, p: int, k: int, q: int, l: int)
    requires Drives(m, p, k, id) && Drives(m, q, l, id)
    requires m.processes[p][k].elements.length != 0 && m.processes[q][l].elements.length != 0
    ensures DoublyDriven(m, id, p, k, q, l) <==>
      && p != q
      && exists a, b ::
           && m.processes[p][k].elements.Holds(a) && m.processes[q][l].elements.Holds(a)
           && m.processes[p][k].bits.Holds(b) && m.processes[q][l].bits.Holds(b)
  {
  }

  /** `t` is the token of a write that drives a position some other process drives too. */
  ghost predicate IsSite(m: Module, id: VarId, t: RangeRank) {
    exists p, k, q, l :: DoublyDriven(m, id, p, k, q, l) && m.processes[p][k].token == t
  }

  // ---- Grouping identical regions of one process ----

  datatype ProcessRegion = ProcessRegion(process: nat, elements: ArraySpan, bits: PackedSpan)

  type Regions = map<ProcessRegion, seq<RangeRank>>

  predicate DrivesRegion(m: Module, p: int, k: int, id: VarId, r: ProcessRegion) {
    Drives(m, p, k, id) && r == ProcessRegion(p, m.processes[p][k].elements, m.processes[p][k].bits)
  }

  /** Write `k` of process `p` comes before position (`pEnd`, `kEnd`). */
  predicate Earlier(p: int, k: int, pEnd: int, kEnd: int) {
    p < pEnd || (p == pEnd && k < kEnd)
  }

  function TokensOf(driven: map<VarId, Regions>, id: VarId, r: ProcessRegion): seq<RangeRank> {
    if id in driven && r in driven[id] then driven[id][r] else []
  }

  /** `driven` groups the writes before (`pEnd`, `kEnd`). */
  ghost predicate Groups(m: Module, driven: map<VarId, Regions>, pEnd: int, kEnd: int) {
    forall id, r, t :: t in TokensOf(driven, id, r) <==>
      exists p, k :: Earlier(p, k, pEnd, kEnd) && DrivesRegion(m, p, k, id, r) && m.processes[p][k].token == t
  }

  /** An entry holds a token. */
  predicate NoEmptyEntries(driven: map<VarId, Regions>) {
    forall id | id in driven :: forall r | r in driven[id] :: driven[id][r] != []
  }

  function Pushed(driven: map<VarId, Regions>, id: VarId, r: ProcessRegion, t: RangeRank): map<VarId, Regions> {
    var regions := if id in driven then driven[id] else map[];
    driven[id := regions[r := TokensOf(driven, id, r) + [t]]]
  }

  lemma PushedTokens(driven: map<VarId, Regions>, id: VarId, r: ProcessRegion, t: RangeRank)
    ensures forall i, s, u :: u in TokensOf(Pushed(driven, id, r, t), i, s) <==>
      u in TokensOf(driven, i, s) || (i == id && s == r && u == t)
  {
  }

  lemma GroupsStep(m: Module, driven: map<VarId, Regions>, p: nat, k: nat)
    requires p < |m.processes| && k < |m.processes[p]| && Groups(m, driven, p, k)
    ensures var w := m.processes[p][k];
      Groups(m, if w.driving then Pushed(driven, w.id, ProcessRegion(p, w.elements, w.bits), w.token) else driven, p, k + 1)
  {
    var w := m.processes[p][k];
    var region := ProcessRegion(p, w.elements, w.bits);
    PushedTokens(driven, w.id, region, w.token);
    var after := if w.driving then Pushed(driven, w.id, region, w.token) else driven;
    forall id, r, t
      ensures t in TokensOf(after, id, r) <==>
        exists q, l :: Earlier(q, l, p, k + 1) && DrivesRegion(m, q, l, id, r) && m.processes[q][l].token == t
    {
      if t in TokensOf(after, id, r) {
        if t in TokensOf(driven, id, r) {
          var q, l :| Earlier(q, l, p, k) && DrivesRegion(m, q, l, id, r) && m.processes[q][l].token == t;
          assert Earlier(q, l, p, k + 1);
        } else {
          assert Earlier(p, k, p, k + 1) && DrivesRegion(m, p, k, id, r);
        }
      }
      if q, l :| Earlier(q, l, p, k + 1) && DrivesRegion(m, q, l, id, r) && m.processes[q][l].token == t {
        if (q, l) != (p, k) { assert Earlier(q, l, p, k); }
      }
    }
  }

  method GroupWrites(m: Module) returns (driven: map<VarId, Regions>)
    ensures Groups(m, driven, |m.processes|, 0) && NoEmptyEntries(driven)
  {
    driven := map[];
    for p := 0 to |m.processes|
      invariant Groups(m, driven, p, 0) && NoEmptyEntries(driven)
    {
      for k := 0 to |m.processes[p]|
        invariant Groups(m, driven, p, k) && NoEmptyEntries(driven)
      {
        var w := m.processes[p][k];
        GroupsStep(m, driven, p, k);
        if w.driving { driven := Pushed(driven, w.id, ProcessRegion(p, w.elements, w.bits), w.token); }
      }
      NextProcess(m, driven, p);
    }
  }

  lemma NextProcess(m: Module, driven: map<VarId, Regions>, p: nat)
    requires p < |m.processes| && Groups(m, driven, p, |m.processes[p]|)
    ensures Groups(m, driven, p + 1, 0)
  {
    forall q, l, id, r | DrivesRegion(m, q, l, id, r)
      ensures Earlier(q, l, p, |m.processes[p]|) <==> Earlier(q, l, p + 1, 0)
    {
    }
  }

  // ---- One variable ----

  function WriteOf(r: ProcessRegion, tokens: seq<RangeRank>): Write {
    Write(r.process, r.elements, r.bits, tokens)
  }

  /** `ws` lists the regions, in any order. */
  ghost predicate Lists(ws: seq<Write>, regions: Regions) {
    forall w :: w in ws <==> exists r :: r in regions && w == WriteOf(r, regions[r])
  }

  method ListRegions(regions: Regions) returns (ws: seq<Write>)
    ensures Lists(ws, regions)
  {
    var left := regions.Keys;
    ws := [];
    while left != {}
      invariant left <= regions.Keys
      invariant forall w :: w in ws <==> exists r :: r in regions && r !in left && w == WriteOf(r, regions[r])
    {
      var r :| r in left;
      left := left - {r};
      ws := ws + [WriteOf(r, regions[r])];
    }
  }

  lemma ReportedIsSite(m: Module, driven: map<VarId, Regions>, id: VarId, ws: seq<Write>, t: RangeRank)
    requires Groups(m, driven, |m.processes|, 0) && NoEmptyEntries(driven) && id in driven && Lists(ws, driven[id])
    requires SweepReports(ws, t)
    ensures IsSite(m, id, t)
  {
    var w, v :| w in ws && v in ws && SweptTogether(w, v) && t in w.tokens;
    SweepIsExact(w, v);
    var r :| r in driven[id] && w == WriteOf(r, driven[id][r]);
    var s :| s in driven[id] && v == WriteOf(s, driven[id][s]);
    var u := driven[id][s][0];
    assert t in TokensOf(driven, id, r) && u in TokensOf(driven, id, s);
    var p, k :| Earlier(p, k, |m.processes|, 0) && DrivesRegion(m, p, k, id, r) && m.processes[p][k].token == t;
    var q, l :| Earlier(q, l, |m.processes|, 0) && DrivesRegion(m, q, l, id, s) && m.processes[q][l].token == u;
    OtherTokens(w, v, WriteAt(m, p, k), WriteAt(m, q, l));
    assert DoublyDriven(m, id, p, k, q, l);
  }

  /** Which tokens writes carry does not matter to whether they conflict. */
  lemma OtherTokens(w: Write, v: Write, w': Write, v': Write)
    requires w' == w.(tokens := w'.tokens) && v' == v.(tokens := v'.tokens)
    ensures Conflict(w', v') <==> Conflict(w, v)
    ensures (Stray(w', v') <==> Stray(w, v)) && (Stray(v', w') <==> Stray(v, w))
  {
    if Overlap(w, v) {
      var a, p :| w.elements.Holds(a) && v.elements.Holds(a) && w.bits.Holds(p) && v.bits.Holds(p);
    }
    if Overlap(w', v') {
      var a, p :| w'.elements.Holds(a) && v'.elements.Holds(a) && w'.bits.Holds(p) && v'.bits.Holds(p);
    }
  }

  lemma SiteIsReported(m: Module, driven: map<VarId, Regions>, id: VarId, ws: seq<Write>, p: nat, k: nat, q: nat, l: nat)
    requires Groups(m, driven, |m.processes|, 0) && id in driven && Lists(ws, driven[id]) && DoublyDriven(m, id, p, k, q, l)
    ensures SweepReports(ws, m.processes[p][k].token)
  {
    var w := GroupedWrite(m, driven, id, ws, p, k);
    var v := GroupedWrite(m, driven, id, ws, q, l);
    OtherTokens(w, v, WriteAt(m, p, k), WriteAt(m, q, l));
    SweepIsExact(w, v);
  }

  /** The sweep's report on the grouped writes is the pairwise report on the writes themselves. */
  lemma GroupingKeepsReports(m: Module, driven: map<VarId, Regions>, id: VarId, ws: seq<Write>, t: RangeRank)
    requires Groups(m, driven, |m.processes|, 0) && NoEmptyEntries(driven) && id in driven && Lists(ws, driven[id])
    ensures SweepReports(ws, t) <==> IsSite(m, id, t)
  {
    if SweepReports(ws, t) { ReportedIsSite(m, driven, id, ws, t); }
    if IsSite(m, id, t) {
      var p, k, q, l :| DoublyDriven(m, id, p, k, q, l) && m.processes[p][k].token == t;
      SiteIsReported(m, driven, id, ws, p, k, q, l);
    }
  }

  lemma GroupedWrite(m: Module, driven: map<VarId, Regions>, id: VarId, ws: seq<Write>, p: nat, k: nat) returns (w: Write)
    requires Groups(m, driven, |m.processes|, 0) && id in driven && Lists(ws, driven[id]) && Drives(m, p, k, id)
    ensures w in ws && w.process == p && w.elements == m.processes[p][k].elements && w.bits == m.processes[p][k].bits
    ensures m.processes[p][k].token in w.tokens
  {
    var r := ProcessRegion(p, m.processes[p][k].elements, m.processes[p][k].bits);
    assert Earlier(p, k, |m.processes|, 0) && DrivesRegion(m, p, k, id, r);
    assert m.processes[p][k].token in TokensOf(driven, id, r);
    w := WriteOf(r, driven[id][r]);
  }

  /** The sites of `id`: in order, without duplicates, the tokens of its doubly driven writes. */
  ghost predicate SitesOf(m: Module, id: VarId, sites: seq<RangeRank>) {
    Increasing(sites) && forall t :: t in sites <==> IsSite(m, id, t)
  }

  method CheckVariable(m: Module, driven: map<VarId, Regions>, id: VarId) returns (sites: seq<RangeRank>)
    requires Groups(m, driven, |m.processes|, 0) && NoEmptyEntries(driven) && id in driven
    ensures SitesOf(m, id, sites)
  {
    var ws := ListRegions(driven[id]);
    var writes := new Write[|ws|](i requires 0 <= i < |ws| => ws[i]);
    assert writes[..] == ws;
    sites := ConflictingSites(writes);
    forall t ensures t in sites <==> IsSite(m, id, t) {
      GroupingKeepsReports(m, driven, id, ws, t);
    }
  }

  // ---- The module ----

  type Reportable = f: Finding | f.sites != [] witness Finding(ReportKey(0, ""), [0])

  /** By first site, then by identifier. */
  predicate ReportableLess(f: Reportable, g: Reportable) {
    f.sites[0] < g.sites[0] || (f.sites[0] == g.sites[0] && StringLess(f.key.identifier, g.key.identifier))
  }

  lemma ReportableLessIsWeak()
    ensures WeakOrder(ReportableLess)
  {
    forall f: Reportable, g: Reportable | ReportableLess(f, g) ensures !ReportableLess(g, f) {
      StringLessTotal(f.key.identifier, g.key.identifier);
    }
    forall f: Reportable, g: Reportable, h: Reportable | ReportableLess(f, h) ensures ReportableLess(f, g) || ReportableLess(g, h) {
      StringLessTotal(f.key.identifier, g.key.identifier);
      StringLessTotal(g.key.identifier, h.key.identifier);
      if StringLess(g.key.identifier, f.key.identifier) && StringLess(f.key.identifier, h.key.identifier) {
        StringLessTransitive(g.key.identifier, f.key.identifier, h.key.identifier);
      }
    }
  }

  /** A declared variable that may not be assigned twice, and is. */
  ghost predicate Conflicted(m: Module, id: VarId) {
    Declared(m, id).Some? && !Declared(m, id).value.allowMultipleAssign && exists t :: IsSite(m, id, t)
  }

  function KeyOf(m: Module, id: VarId): ReportKey
    requires Declared(m, id).Some?
  {
    ReportKey(Declared(m, id).value.declaration, Declared(m, id).value.path)
  }

  /** `f` is what is to be reported of `id`. */
  ghost predicate IsFinding(m: Module, id: VarId, f: Finding) {
    && Conflicted(m, id)
    && f.key == KeyOf(m, id)
    && SitesOf(m, id, f.sites)
  }

  /** The findings are those of the variables `ids`, one each. */
  ghost predicate FindingsOf(m: Module, ids: seq<VarId>, found: seq<Reportable>) {
    && |ids| == |found|
    && (forall i, j | 0 <= i < j < |ids| :: ids[i] != ids[j])
    && forall i | 0 <= i < |ids| :: IsFinding(m, ids[i], found[i])
  }

  /** One finding for each conflicted variable and no other, in order of first site. */
  ghost predicate IsContribution(m: Module, found: seq<Reportable>) {
    && Sorted(ReportableLess, found)
    && exists ids, unsorted: seq<Reportable> ::
      && FindingsOf(m, ids, unsorted) && multiset(unsorted) == multiset(found)
      && forall id :: id in ids <==> Conflicted(m, id)
  }

  /** The findings come by first site; those with the same one by name. */
  lemma ContributionIsOrdered(m: Module, found: seq<Reportable>, i: nat, j: nat)
    requires IsContribution(m, found) && i < j < |found|
    ensures found[i].sites[0] <= found[j].sites[0]
    ensures found[i].sites[0] == found[j].sites[0] ==>
      found[i].key.identifier == found[j].key.identifier || exists n: nat :: ComesFirst(found[i].key.identifier, found[j].key.identifier, n)
  {
    assert !ReportableLess(found[j], found[i]);
    StringLessTotal(found[i].key.identifier, found[j].key.identifier);
    StringLessMeans(found[i].key.identifier, found[j].key.identifier);
  }

  method FindConflicts(m: Module) returns (found: seq<Reportable>)
    ensures IsContribution(m, found)
  {
    var driven := GroupWrites(m);
    var left := driven.Keys;
    var unsorted: seq<Reportable> := [];
    ghost var ids: seq<VarId> := [];
    while left != {}
      invariant left <= driven.Keys
      invariant FindingsOf(m, ids, unsorted)
      invariant forall id :: id in ids <==> id in driven && id !in left && Conflicted(m, id)
    {
      var id :| id in left;
      left := left - {id};
      var variable := Declared(m, id);
      if variable.None? || variable.value.allowMultipleAssign { continue; }
      var sites := CheckVariable(m, driven, id);
      SitesDecide(m, id, sites);
      if sites != [] {
        var finding := Finding(ReportKey(variable.value.declaration, variable.value.path), sites);
        ExtendsFindings(m, ids, unsorted, id, finding);
        unsorted := unsorted + [finding];
        ids := ids + [id];
      }
    }
    forall id | Conflicted(m, id) ensures id in driven { DrivenIfConflicted(m, driven, id); }
    ReportableLessIsWeak();
    InOrderIsSorted(ReportableLess, unsorted);
    found := InOrder(ReportableLess, unsorted);
  }

  lemma DrivenIfConflicted(m: Module, driven: map<VarId, Regions>, id: VarId)
    requires Groups(m, driven, |m.processes|, 0) && Conflicted(m, id)
    ensures id in driven
  {
    var t :| IsSite(m, id, t);
    var p, k, q, l :| DoublyDriven(m, id, p, k, q, l) && m.processes[p][k].token == t;
    var r := ProcessRegion(p, m.processes[p][k].elements, m.processes[p][k].bits);
    assert Earlier(p, k, |m.processes|, 0) && DrivesRegion(m, p, k, id, r);
    assert t in TokensOf(driven, id, r);
  }

  lemma SitesDecide(m: Module, id: VarId, sites: seq<RangeRank>)
    requires SitesOf(m, id, sites) && Declared(m, id).Some? && !Declared(m, id).value.allowMultipleAssign
    ensures Conflicted(m, id) <==> sites != []
  {
    FirstIsIn(sites);
    assert forall t :: IsSite(m, id, t) <==> t in sites;
  }

  lemma ExtendsFindings(m: Module, ids: seq<VarId>, found: seq<Reportable>, id: VarId, f: Reportable)
    requires FindingsOf(m, ids, found) && id !in ids && IsFinding(m, id, f)
    ensures FindingsOf(m, ids + [id], found + [f])
  {
  }

  method CheckModule(m: Module, reports: Reports) returns (ghost found: seq<Reportable>)
    modifies reports
    ensures IsContribution(m, found)
    ensures reports.View() == AllInserted(old(reports.View()), found)
  {
    var conflicts := FindConflicts(m);
    for i := 0 to |conflicts|
      invariant reports.View() == AllInserted(old(reports.View()), conflicts[..i])
    {
      assert conflicts[..i + 1][..i] == conflicts[..i];
      reports.Insert(conflicts[i].key.declaration, conflicts[i].key.identifier, conflicts[i].sites);
    }
    assert conflicts[..|conflicts|] == conflicts;
    found := conflicts;
  }

  // ---- The whole check ----

  /** Some specialization drives the variable declared as `key` twice. */
  ghost predicate IsConflictedKey(modules: seq<Module>, key: ReportKey) {
    exists m, id :: m in modules && Conflicted(m, id) && KeyOf(m, id) == key
  }

  /** `t` is a conflicting write to the variable declared as `key` in some specialization. */
  ghost predicate IsSiteOf(modules: seq<Module>, key: ReportKey, t: RangeRank) {
    exists m, id :: m in modules && Conflicted(m, id) && KeyOf(m, id) == key && IsSite(m, id, t)
  }

  /** The findings name the conflicted variables, and carry their conflicting writes. */
  ghost predicate Accounts(modules: seq<Module>, findings: seq<Finding>) {
    && (forall f | f in findings :: Proper(f))
    && (forall key :: Mentions(findings, key) <==> IsConflictedKey(modules, key))
    && (forall key, t :: Contributes(findings, key, t) <==> IsSiteOf(modules, key, t))
  }

  lemma FindingAccounts(m: Module, id: VarId, f: Finding)
    requires IsFinding(m, id, f)
    ensures Proper(f) && IsConflictedKey([m], f.key)
    ensures forall t | t in f.sites :: IsSiteOf([m], f.key, t)
  {
    var t :| IsSite(m, id, t);
    assert t in f.sites;
    assert m in [m];
  }

  lemma ContributionMentions(m: Module, ids: seq<VarId>, found: seq<Reportable>, key: ReportKey, t: RangeRank)
    requires FindingsOf(m, ids, found) && forall id :: id in ids <==> Conflicted(m, id)
    ensures IsConflictedKey([m], key) ==> Mentions(found, key)
    ensures IsSiteOf([m], key, t) ==> Contributes(found, key, t)
  {
    forall id | Conflicted(m, id) && KeyOf(m, id) == key
      ensures Mentions(found, key) && (IsSite(m, id, t) ==> Contributes(found, key, t))
    {
      var i :| 0 <= i < |ids| && ids[i] == id;
      assert IsFinding(m, ids[i], found[i]);
      assert found[i] in found;
    }
  }

  lemma MentionedElsewhere(findings: seq<Finding>, others: seq<Finding>, key: ReportKey, t: RangeRank)
    requires forall f :: f in findings <==> f in others
    ensures Mentions(findings, key) <==> Mentions(others, key)
    ensures Contributes(findings, key, t) <==> Contributes(others, key, t)
  {
  }

  lemma FindingsAccount(m: Module, ids: seq<VarId>, found: seq<Reportable>)
    requires FindingsOf(m, ids, found) && forall id :: id in ids <==> Conflicted(m, id)
    ensures Accounts([m], found)
  {
    forall f | f in found
      ensures Proper(f) && IsConflictedKey([m], f.key) && forall t | t in f.sites :: IsSiteOf([m], f.key, t)
    {
      var i :| 0 <= i < |found| && found[i] == f;
      FindingAccounts(m, ids[i], f);
    }
    forall key ensures Mentions(found, key) <==> IsConflictedKey([m], key) {
      ContributionMentions(m, ids, found, key, 0);
    }
    forall key, t ensures Contributes(found, key, t) <==> IsSiteOf([m], key, t) {
      ContributionMentions(m, ids, found, key, t);
    }
  }

  lemma AccountsInAnyOrder(modules: seq<Module>, findings: seq<Finding>, others: seq<Finding>)
    requires Accounts(modules, findings) && forall f :: f in findings <==> f in others
    ensures Accounts(modules, others)
  {
    forall key ensures Mentions(others, key) <==> IsConflictedKey(modules, key) { MentionedElsewhere(findings, others, key, 0); }
    forall key, t ensures Contributes(others, key, t) <==> IsSiteOf(modules, key, t) { MentionedElsewhere(findings, others, key, t); }
  }

  lemma ContributionAccounts(m: Module, found: seq<Reportable>)
    requires IsContribution(m, found)
    ensures Accounts([m], found)
  {
    var ids, unsorted: seq<Reportable> :| FindingsOf(m, ids, unsorted) && multiset(unsorted) == multiset(found)
      && forall id :: id in ids <==> Conflicted(m, id);
    FindingsAccount(m, ids, unsorted);
    SameElements(unsorted, found);
    AccountsInAnyOrder([m], unsorted, found);
  }

  lemma MentionedInEither(findings: seq<Finding>, more: seq<Finding>, key: ReportKey, t: RangeRank)
    ensures Mentions(findings + more, key) <==> Mentions(findings, key) || Mentions(more, key)
    ensures Contributes(findings + more, key, t) <==> Contributes(findings, key, t) || Contributes(more, key, t)
  {
    assert forall f :: f in findings + more <==> f in findings || f in more;
  }

  lemma ConflictedInEither(modules: seq<Module>, m: Module, key: ReportKey, t: RangeRank)
    ensures IsConflictedKey(modules + [m], key) <==> IsConflictedKey(modules, key) || IsConflictedKey([m], key)
    ensures IsSiteOf(modules + [m], key, t) <==> IsSiteOf(modules, key, t) || IsSiteOf([m], key, t)
  {
    assert forall n :: n in modules + [m] <==> n in modules || n in [m];
  }

  lemma AccountsStep(modules: seq<Module>, findings: seq<Finding>, m: Module, found: seq<Reportable>)
    requires Accounts(modules, findings) && Accounts([m], found)
    ensures Accounts(modules + [m], findings + found)
  {
    forall key ensures Mentions(findings + found, key) <==> IsConflictedKey(modules + [m], key) {
      MentionedInEither(findings, found, key, 0);
      ConflictedInEither(modules, m, key, 0);
    }
    forall key, t ensures Contributes(findings + found, key, t) <==> IsSiteOf(modules + [m], key, t) {
      MentionedInEither(findings, found, key, t);
      ConflictedInEither(modules, m, key, t);
    }
  }

  /** The errors are those of the variables declared as `keys`, one each. */
  ghost predicate Diagnoses(modules: seq<Module>, keys: seq<ReportKey>, errors: seq<MultipleAssignment>) {
    && |keys| == |errors|
    && (forall i, j | 0 <= i < j < |keys| :: keys[i] != keys[j])
    && (forall key :: key in keys <==> IsConflictedKey(modules, key))
    && (forall i | 0 <= i < |errors| :: IsDiagnosis(modules, keys[i], errors[i]))
  }

  /** The sites are, in order and without duplicates, the conflicting writes of all specializations. */
  ghost predicate IsDiagnosis(modules: seq<Module>, key: ReportKey, e: MultipleAssignment) {
    && e.identifier == key.identifier && e.sites != [] && e.site == e.sites[0]
    && Increasing(e.sites) && forall t :: t in e.sites <==> IsSiteOf(modules, key, t)
  }

  /** One diagnostic for each declared variable that some specialization drives twice, and no other. */
  method Check(modules: seq<Module>) returns (errors: seq<MultipleAssignment>)
    ensures exists keys :: Diagnoses(modules, keys, errors)
  {
    var reports := new Reports();
    ghost var findings: seq<Finding> := [];
    for n := 0 to |modules|
      invariant reports.View() == AllInserted(EMPTY, findings)
      invariant Accounts(modules[..n], findings)
    {
      assert modules[n] in modules;
      ghost var found := CheckModule(modules[n], reports);
      InsertedInTwoParts(EMPTY, findings, found);
      ContributionAccounts(modules[n], found);
      AccountsStep(modules[..n], findings, modules[n], found);
      assert modules[..n + 1] == modules[..n] + [modules[n]];
      findings := findings + found;
    }
    assert modules[..|modules|] == modules;
    TableIsRight(modules, findings);
    errors := reports.IntoErrors();
    RenderedDiagnoses(modules, findings, errors);
  }

  lemma RenderedDiagnoses(modules: seq<Module>, findings: seq<Finding>, errors: seq<MultipleAssignment>)
    requires Accounts(modules, findings) && Rendered(AllInserted(EMPTY, findings), errors)
    ensures Diagnoses(modules, AllInserted(EMPTY, findings).order, errors)
  {
    var table := AllInserted(EMPTY, findings);
    TableIsRight(modules, findings);
    forall i | 0 <= i < |errors| ensures IsDiagnosis(modules, table.order[i], errors[i]) {
      assert table.order[i] in table.order;
    }
  }

  lemma TableIsRight(modules: seq<Module>, findings: seq<Finding>)
    requires Accounts(modules, findings)
    ensures var table := AllInserted(EMPTY, findings);
      && table.Ok()
      && (forall key :: key in table.order <==> IsConflictedKey(modules, key))
      && (forall key, t | key in table.sites :: t in table.sites[key] <==> IsSiteOf(modules, key, t))
  {
    AllInsertedOk(EMPTY, findings);
    var table := AllInserted(EMPTY, findings);
    forall key ensures key in table.order <==> IsConflictedKey(modules, key) {
      FindingsAreMerged(findings, key, 0);
    }
    forall key, t | key in table.sites ensures t in table.sites[key] <==> IsSiteOf(modules, key, t) {
      FindingsAreMerged(findings, key, t);
    }
  }
}
