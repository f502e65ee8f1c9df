/** Dropping symbols: which of the tree's own copies of their ids go away. */
module ScopeDrops {
  import opened Options
  import opened SourceTokens
  import opened ScopeTree

  type Locals = map<string, seq<SymbolId>>
  type Imports = map<string, seq<ImportBinding>>

  /** The scope a symbol was inserted into, and the name it was inserted under. */
  datatype DroppedSymbol = DroppedSymbol(scope: nat, name: string, id: SymbolId)

  function Without(ids: seq<SymbolId>, dropped: set<SymbolId>): (r: seq<SymbolId>)
    ensures forall x :: x in r <==> x in ids && x !in dropped
  {
    if ids == [] then [] else
      var front, last := Without(ids[..|ids| - 1], dropped), ids[|ids| - 1];
      if last in dropped then front else front + [last]
  }

  lemma {:induction false} WithoutTwice(ids: seq<SymbolId>, a: set<SymbolId>, b: set<SymbolId>)
    ensures Without(Without(ids, a), b) == Without(ids, a + b)
  {
    if ids != [] {
      var front, last := ids[..|ids| - 1], ids[|ids| - 1];
      WithoutTwice(front, a, b);
      if last !in a {
        var kept := Without(front, a) + [last];
        assert kept[..|kept| - 1] == Without(front, a);
      }
    }
  }

  lemma {:induction false} WithoutNone(ids: seq<SymbolId>)
    ensures Without(ids, {}) == ids
  {
    if ids != [] { WithoutNone(ids[..|ids| - 1]); }
  }

  /** Only the ids that are there matter. */
  lemma {:induction false} WithoutSame(ids: seq<SymbolId>, a: set<SymbolId>, b: set<SymbolId>)
    requires forall x | x in ids :: x in a <==> x in b
    ensures Without(ids, a) == Without(ids, b)
  {
    if ids != [] {
      assert ids[|ids| - 1] in ids && forall x | x in ids[..|ids| - 1] :: x in ids;
      WithoutSame(ids[..|ids| - 1], a, b);
    }
  }

  function WithoutBindings(bindings: seq<ImportBinding>, dropped: set<SymbolId>): (r: seq<ImportBinding>)
    ensures forall b :: b in r <==> b in bindings && b.symbol !in dropped
  {
    if bindings == [] then [] else
      var front, last := WithoutBindings(bindings[..|bindings| - 1], dropped), bindings[|bindings| - 1];
      if last.symbol in dropped then front else front + [last]
  }

  // ---- What dropping is for ----

  function CleanLocals(locals: Locals, dropped: set<SymbolId>): Locals {
    map n | n in locals && Without(locals[n], dropped) != [] :: Without(locals[n], dropped)
  }

  function CleanImports(imports: Imports, dropped: set<SymbolId>): Imports {
    map n | n in imports && WithoutBindings(imports[n], dropped) != [] :: WithoutBindings(imports[n], dropped)
  }

  /** The scope with no trace of the dropped ids, and everything else as it was. */
  function Cleaned(s: Scope, dropped: set<SymbolId>): Scope {
    s.(locals := CleanLocals(s.locals, dropped),
       imports := CleanImports(s.imports, dropped),
       owner := if s.owner.Some? && s.owner.value in dropped then None else s.owner)
  }

  predicate Names(s: Scope, x: SymbolId) {
    || (exists n | n in s.locals :: x in s.locals[n])
    || (exists n | n in s.imports :: exists b | b in s.imports[n] :: b.symbol == x)
    || s.owner == Some(x)
  }

  /** A cleaned scope names no dropped id, and still names every other one. */
  lemma CleanedNames(s: Scope, dropped: set<SymbolId>, x: SymbolId)
    ensures Names(Cleaned(s, dropped), x) <==> Names(s, x) && x !in dropped
  {
    var r := Cleaned(s, dropped);
    if n :| n in s.locals && x in s.locals[n] && x !in dropped { assert x in Without(s.locals[n], dropped) && n in r.locals; }
    if n :| n in s.imports && x !in dropped && exists b | b in s.imports[n] :: b.symbol == x {
      var b :| b in s.imports[n] && b.symbol == x;
      assert b in WithoutBindings(s.imports[n], dropped) && n in r.imports;
    }
  }

  // ---- What it does ----

  /** The ids to take out of the locals of one name in one scope. */
  function IdsAt(symbols: seq<DroppedSymbol>, scope: nat, name: string): set<SymbolId> {
    set s | s in symbols && s.scope == scope && Canonical(s.name) == name :: s.id
  }

  function IdsOf(symbols: seq<DroppedSymbol>): set<SymbolId> {
    set s | s in symbols :: s.id
  }

  /** Scope `i` is the one that the symbol opened. */
  predicate Opens(intern: Intern, s: DroppedSymbol, i: nat) {
    (s.scope, Canonical(s.name)) in intern && intern[(s.scope, Canonical(s.name))] == i
  }

  predicate Disowned(intern: Intern, symbols: seq<DroppedSymbol>, i: nat, owner: SymbolId) {
    exists s | s in symbols :: s.id == owner && Opens(intern, s, i)
  }

  function OwnerAfter(intern: Intern, owner: Option<SymbolId>, symbols: seq<DroppedSymbol>, i: nat): Option<SymbolId> {
    if owner.Some? && Disowned(intern, symbols, i, owner.value) then None else owner
  }

  function DropLocal(s: Scope, name: string, id: SymbolId): Scope {
    if name !in s.locals then s else
      var kept := Without(s.locals[name], {id});
      s.(locals := if kept == [] then s.locals - {name} else s.locals[name := kept])
  }

  /** One symbol: its local at its own scope and name, and the ownership of the scope it opened. */
  function DropOne(t: Tree, s: DroppedSymbol): (r: Tree)
    ensures |r.scopes| == |t.scopes| && r.intern == t.intern
  {
    var name := Canonical(s.name);
    var scopes := if s.scope < |t.scopes| then t.scopes[s.scope := DropLocal(t.scopes[s.scope], name, s.id)] else t.scopes;
    if (s.scope, name) !in t.intern then t.(scopes := scopes) else
      var owned := t.intern[(s.scope, name)];
      if owned < |scopes| && scopes[owned].owner == Some(s.id) then t.(scopes := scopes[owned := scopes[owned].(owner := None)])
      else t.(scopes := scopes)
  }

  function DropEach(t: Tree, symbols: seq<DroppedSymbol>): (r: Tree)
    ensures |r.scopes| == |t.scopes| && r.intern == t.intern
  {
    if symbols == [] then t else DropOne(DropEach(t, symbols[..|symbols| - 1]), symbols[|symbols| - 1])
  }

  function DropSymbols(t: Tree, symbols: seq<DroppedSymbol>): (r: Tree)
    ensures |r.scopes| == |t.scopes| && r.intern == t.intern
  {
    if symbols == [] then t else
      var each := DropEach(t, symbols);
      each.(scopes := seq(|each.scopes|, i requires 0 <= i < |each.scopes| =>
        each.scopes[i].(imports := CleanImports(each.scopes[i].imports, IdsOf(symbols)))))
  }

  // ---- Step by step ----

  /** Lists are dropped when they become empty. */
  predicate NoEmptyLists(locals: Locals) {
    forall n | n in locals :: locals[n] != []
  }

  function At(locals: Locals, n: string): seq<SymbolId> {
    if n in locals then locals[n] else []
  }

  lemma SameLists(a: Locals, b: Locals)
    requires NoEmptyLists(a) && NoEmptyLists(b) && forall n :: At(a, n) == At(b, n)
    ensures a == b
  {
    forall n ensures n in a <==> n in b
             ensures n in a ==> a[n] == b[n] { assert At(a, n) == At(b, n); }
  }

  lemma DropOneLocals(t: Tree, s: DroppedSymbol, i: nat, n: string)
    requires i < |t.scopes| && NoEmptyLists(t.scopes[i].locals)
    ensures var r := DropOne(t, s);
      && NoEmptyLists(r.scopes[i].locals)
      && At(r.scopes[i].locals, n) ==
           if s.scope == i && Canonical(s.name) == n then Without(At(t.scopes[i].locals, n), {s.id}) else At(t.scopes[i].locals, n)
  {
  }

  lemma DropOneElse(t: Tree, s: DroppedSymbol, i: nat)
    requires i < |t.scopes|
    ensures var r := DropOne(t, s).scopes[i];
      && r == t.scopes[i].(locals := r.locals, owner := r.owner)
      && r.owner == if t.scopes[i].owner == Some(s.id) && Opens(t.intern, s, i) then None else t.scopes[i].owner
  {
  }

  lemma DropOneMore(t: Tree, s: DroppedSymbol, i: nat, n: string, list: seq<SymbolId>, ids: set<SymbolId>)
    requires i < |t.scopes| && NoEmptyLists(t.scopes[i].locals) && At(t.scopes[i].locals, n) == Without(list, ids)
    ensures var r := DropOne(t, s).scopes[i].locals;
      NoEmptyLists(r) && At(r, n) == Without(list, ids + if s.scope == i && Canonical(s.name) == n then {s.id} else {})
  {
    DropOneLocals(t, s, i, n);
    WithoutTwice(list, ids, {s.id});
    assert ids + {} == ids;
  }

  lemma {:induction false} DropEachLocals(t: Tree, symbols: seq<DroppedSymbol>, i: nat, n: string)
    requires i < |t.scopes| && NoEmptyLists(t.scopes[i].locals)
    ensures var r := DropEach(t, symbols);
      NoEmptyLists(r.scopes[i].locals) && At(r.scopes[i].locals, n) == Without(At(t.scopes[i].locals, n), IdsAt(symbols, i, n))
  {
    if symbols == [] {
      assert IdsAt(symbols, i, n) == {};
      WithoutNone(At(t.scopes[i].locals, n));
    } else {
      var front, last := symbols[..|symbols| - 1], symbols[|symbols| - 1];
      DropEachLocals(t, front, i, n);
      DropOneMore(DropEach(t, front), last, i, n, At(t.scopes[i].locals, n), IdsAt(front, i, n));
      IdsAtStep(symbols, i, n);
    }
  }

  lemma IdsAtStep(symbols: seq<DroppedSymbol>, i: nat, n: string)
    requires symbols != []
    ensures var front, last := symbols[..|symbols| - 1], symbols[|symbols| - 1];
      IdsAt(symbols, i, n) == IdsAt(front, i, n) + if last.scope == i && Canonical(last.name) == n then {last.id} else {}
  {
    assert forall s :: s in symbols <==> s in symbols[..|symbols| - 1] || s == symbols[|symbols| - 1];
  }

  lemma {:induction false} DropEachElse(t: Tree, symbols: seq<DroppedSymbol>, i: nat)
    requires i < |t.scopes|
    ensures var r := DropEach(t, symbols).scopes[i];
      r == t.scopes[i].(locals := r.locals, owner := OwnerAfter(t.intern, t.scopes[i].owner, symbols, i))
  {
    if symbols != [] {
      var front, last := symbols[..|symbols| - 1], symbols[|symbols| - 1];
      DropEachElse(t, front, i);
      DropOneElse(DropEach(t, front), last, i);
      if t.scopes[i].owner.Some? { DisownedStep(t.intern, symbols, i, t.scopes[i].owner.value); }
    }
  }

  lemma DisownedStep(intern: Intern, symbols: seq<DroppedSymbol>, i: nat, owner: SymbolId)
    requires symbols != []
    ensures var front, last := symbols[..|symbols| - 1], symbols[|symbols| - 1];
      Disowned(intern, symbols, i, owner) <==> Disowned(intern, front, i, owner) || (last.id == owner && Opens(intern, last, i))
  {
    assert forall s :: s in symbols <==> s in symbols[..|symbols| - 1] || s == symbols[|symbols| - 1];
  }

  // ---- When it does what it is for ----

  /** The dropped ids among the locals are where their symbols were registered. */
  predicate LocalsPlaced(s: Scope, symbols: seq<DroppedSymbol>, i: nat) {
    forall n | n in s.locals :: forall x | x in s.locals[n] :: x in IdsOf(symbols) ==> x in IdsAt(symbols, i, n)
  }

  /** A dropped owner owns the scope its symbol opened. */
  predicate OwnerPlaced(intern: Intern, s: Scope, symbols: seq<DroppedSymbol>, i: nat) {
    s.owner.Some? && s.owner.value in IdsOf(symbols) ==> Disowned(intern, symbols, i, s.owner.value)
  }

  lemma IdsAtAreDropped(symbols: seq<DroppedSymbol>, i: nat, n: string)
    ensures IdsAt(symbols, i, n) <= IdsOf(symbols)
  {
  }

  lemma LocalsAreCleanIffPlaced(t: Tree, symbols: seq<DroppedSymbol>, i: nat)
    requires i < |t.scopes| && NoEmptyLists(t.scopes[i].locals)
    ensures DropEach(t, symbols).scopes[i].locals == CleanLocals(t.scopes[i].locals, IdsOf(symbols))
       <==> LocalsPlaced(t.scopes[i], symbols, i)
  {
    var before, after := t.scopes[i].locals, DropEach(t, symbols).scopes[i].locals;
    var clean := CleanLocals(before, IdsOf(symbols));
    DropEachLocals(t, symbols, i, "");
    if LocalsPlaced(t.scopes[i], symbols, i) {
      forall n ensures At(after, n) == At(clean, n) {
        DropEachLocals(t, symbols, i, n);
        IdsAtAreDropped(symbols, i, n);
        if n in before { WithoutSame(before[n], IdsAt(symbols, i, n), IdsOf(symbols)); }
      }
      SameLists(after, clean);
    }
    if after == clean {
      forall n, x | n in before && x in before[n] && x in IdsOf(symbols) ensures x in IdsAt(symbols, i, n) {
        DropEachLocals(t, symbols, i, n);
        assert x !in At(clean, n);
      }
    }
  }

  /**
   * Dropping leaves each scope clean of the dropped ids, with all other bindings in their order,
   * exactly when the locals and the owner of the scope are where their symbols were registered.
   */
  lemma DropIsCleanIffPlaced(t: Tree, symbols: seq<DroppedSymbol>, i: nat)
    requires i < |t.scopes| && NoEmptyLists(t.scopes[i].locals) && symbols != []
    ensures DropSymbols(t, symbols).scopes[i] == Cleaned(t.scopes[i], IdsOf(symbols))
       <==> LocalsPlaced(t.scopes[i], symbols, i) && OwnerPlaced(t.intern, t.scopes[i], symbols, i)
  {
    LocalsAreCleanIffPlaced(t, symbols, i);
    DropEachElse(t, symbols, i);
    DisownedIsDropped(t.intern, symbols, i);
  }

  lemma DisownedIsDropped(intern: Intern, symbols: seq<DroppedSymbol>, i: nat)
    ensures forall x | Disowned(intern, symbols, i, x) :: x in IdsOf(symbols)
  {
  }

  // ---- Registration ----

  /** Every symbol's scope and canonical name. */
  type Homes = map<SymbolId, (nat, string)>

  /** A symbol is bound at its home, and owns no scope but the one named after it there. */
  predicate AtHome(t: Tree, homes: Homes, i: nat)
    requires i < |t.scopes|
  {
    && (forall n | n in t.scopes[i].locals :: forall x | x in t.scopes[i].locals[n] :: x in homes && homes[x] == (i, n))
    && (t.scopes[i].owner.Some? ==>
          && t.scopes[i].owner.value in homes
          && homes[t.scopes[i].owner.value] in t.intern && t.intern[homes[t.scopes[i].owner.value]] == i)
  }

  predicate KnowHomes(homes: Homes, symbols: seq<DroppedSymbol>) {
    forall s | s in symbols :: s.id in homes && homes[s.id] == (s.scope, Canonical(s.name))
  }

  /** While symbols are bound where they are registered, dropping removes exactly what it should. */
  lemma DropAtHomeIsClean(t: Tree, homes: Homes, symbols: seq<DroppedSymbol>, i: nat)
    requires i < |t.scopes| && NoEmptyLists(t.scopes[i].locals) && AtHome(t, homes, i) && KnowHomes(homes, symbols) && symbols != []
    ensures DropSymbols(t, symbols).scopes[i] == Cleaned(t.scopes[i], IdsOf(symbols))
  {
    forall n, x | n in t.scopes[i].locals && x in t.scopes[i].locals[n] && x in IdsOf(symbols)
      ensures x in IdsAt(symbols, i, n)
    {
      var s :| s in symbols && s.id == x;
    }
    if t.scopes[i].owner.Some? && t.scopes[i].owner.value in IdsOf(symbols) {
      var s :| s in symbols && s.id == t.scopes[i].owner.value;
      assert Opens(t.intern, s, i);
    }
    DropIsCleanIffPlaced(t, symbols, i);
  }
}
