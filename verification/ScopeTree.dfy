/** The interned tree of scopes: one id for each path of names. */
module ScopeTree {
  import opened Options
  import opened SourceTokens

  type PackagePath(==, !new)

  /** The ifdef conditions a declaration stands under: what must be defined, and what must not. */
  datatype DefineContext = DefineContext(pos: set<string>, neg: set<string>) {
    predicate Exclusive(other: DefineContext) {
      pos * other.neg != {} || neg * other.pos != {}
    }
  }

  datatype ScopeKind =
    | Root | Project | Package | Module | Interface | Function | Modport | Enum
    | StructUnion | Block | SystemVerilog | GenericInstance | Unknown

  datatype ImportBinding = ImportBinding(symbol: SymbolId, defineContext: DefineContext, packagePath: PackagePath)

  datatype WildcardImport = WildcardImport(
    source: nat, defineContext: DefineContext, sourceDefineContext: DefineContext, packagePath: PackagePath)

  datatype Scope = Scope(
    parent: Option<nat>,
    kind: ScopeKind,
    owner: Option<SymbolId>,
    name: Option<string>,
    locals: map<string, seq<SymbolId>>,
    imports: map<string, seq<ImportBinding>>,
    wildcards: seq<WildcardImport>)

  type Intern = map<(nat, string), nat>

  /** A scope's id is its index. */
  datatype Tree = Tree(scopes: seq<Scope>, intern: Intern) {
    /** Parents come before their children, and `intern` is exactly the map from parent and name to child. */
    ghost predicate Ok() {
      && scopes != [] && scopes[0].parent.None? && scopes[0].name.None?
      && (forall i | 0 < i < |scopes| :: HasPlace(i))
      && (forall k | k in intern :: 0 < intern[k] < |scopes| && scopes[intern[k]].parent == Some(k.0) && scopes[intern[k]].name == Some(k.1))
    }

    predicate HasPlace(i: nat)
      requires i < |scopes|
    {
      && scopes[i].parent.Some? && scopes[i].parent.value < i && scopes[i].name.Some?
      && (scopes[i].parent.value, scopes[i].name.value) in intern
      && intern[(scopes[i].parent.value, scopes[i].name.value)] == i
    }
  }

  const EMPTY_SCOPE := Scope(None, Root, None, None, map[], map[], [])

  const NEW_TREE := Tree([EMPTY_SCOPE], map[])

  /** A raw identifier `r#name` stands for `name`. */
  function Canonical(name: string): string {
    if "r#" <= name then name[2..] else name
  }

  predicate IsCanonical(name: string) {
    Canonical(name) == name
  }

  /** Imports are not seen across its border. */
  predicate IsContainerKind(kind: ScopeKind) {
    kind in {Module, Interface, Package}
  }

  // ---- Interning ----

  /** `after` has all scopes of `t`, where they were. */
  predicate Extends(t: Tree, after: Tree) {
    && |t.scopes| <= |after.scopes|
    && (forall i | 0 <= i < |t.scopes| :: after.scopes[i].parent == t.scopes[i].parent && after.scopes[i].name == t.scopes[i].name)
    && forall k | k in t.intern :: k in after.intern && after.intern[k] == t.intern[k]
  }

  /** Every scope binds in `after` what it binds in `t`; new ones are bare. */
  predicate BindsNothing(t: Tree, after: Tree) {
    forall i | 0 <= i < |after.scopes| ::
      var s := if i < |t.scopes| then t.scopes[i] else EMPTY_SCOPE;
      after.scopes[i].locals == s.locals && after.scopes[i].imports == s.imports && after.scopes[i].owner == s.owner
  }

  predicate KeepsKinds(t: Tree, after: Tree) {
    |t.scopes| <= |after.scopes| && forall i | 0 <= i < |t.scopes| :: after.scopes[i].kind == t.scopes[i].kind
  }

  function WithKind(t: Tree, id: nat, kind: ScopeKind): (r: Tree)
    requires t.Ok() && id < |t.scopes|
    ensures r.Ok() && Extends(t, r) && BindsNothing(t, r)
  {
    var r := if kind == Unknown then t else t.(scopes := t.scopes[id := t.scopes[id].(kind := kind)]);
    assert forall i | 0 < i < |t.scopes| :: t.HasPlace(i) ==> r.HasPlace(i);
    r
  }

  /** A new scope at the end. */
  function Grown(t: Tree, parent: nat, name: string, kind: ScopeKind): (r: Tree)
    requires t.Ok() && parent < |t.scopes| && (parent, name) !in t.intern
    ensures r.Ok() && Extends(t, r) && BindsNothing(t, r)
  {
    var id := |t.scopes|;
    var scope := EMPTY_SCOPE.(parent := Some(parent), kind := kind, name := Some(name));
    var r := Tree(t.scopes + [scope], t.intern[(parent, name) := id]);
    assert forall i | 0 < i < |t.scopes| :: t.HasPlace(i) ==> r.HasPlace(i);
    assert r.HasPlace(id);
    r
  }

  /** The child of `parent` of that name, made if need be. */
  function InternChild(t: Tree, parent: nat, name: string, kind: ScopeKind): (r: (Tree, nat))
    requires t.Ok() && parent < |t.scopes|
    ensures r.0.Ok() && r.1 < |r.0.scopes| && Extends(t, r.0) && BindsNothing(t, r.0)
    ensures r.0.scopes[r.1].parent == Some(parent) && r.0.scopes[r.1].name == Some(Canonical(name))
  {
    var key := (parent, Canonical(name));
    if key in t.intern then (WithKind(t, t.intern[key], kind), t.intern[key])
    else (Grown(t, parent, Canonical(name), kind), |t.scopes|)
  }

  function InternPath(t: Tree, from: nat, path: seq<string>): (r: (Tree, nat))
    requires t.Ok() && from < |t.scopes|
    ensures r.0.Ok() && r.1 < |r.0.scopes|
  {
    if path == [] then (t, from) else
      var (before, parent) := InternPath(t, from, path[..|path| - 1]);
      InternChild(before, parent, path[|path| - 1], Unknown)
  }

  // ---- Names ----

  /** The names from the root down to the scope. */
  function NamePath(t: Tree, id: nat): seq<string>
    requires t.Ok() && id < |t.scopes|
  {
    if id == 0 then [] else
      assert t.HasPlace(id);
      NamePath(t, t.scopes[id].parent.value) + [t.scopes[id].name.value]
  }

  function CanonicalPath(path: seq<string>): (r: seq<string>)
    ensures |r| == |path| && forall i | 0 <= i < |path| :: r[i] == Canonical(path[i])
  {
    seq(|path|, i requires 0 <= i < |path| => Canonical(path[i]))
  }

  predicate AllCanonical(path: seq<string>) {
    forall i | 0 <= i < |path| :: IsCanonical(path[i])
  }

  lemma {:induction false} ExtendedNamePath(t: Tree, after: Tree, id: nat)
    requires t.Ok() && after.Ok() && Extends(t, after) && id < |t.scopes|
    ensures NamePath(after, id) == NamePath(t, id)
  {
    if id > 0 {
      assert t.HasPlace(id) && after.HasPlace(id);
      ExtendedNamePath(t, after, t.scopes[id].parent.value);
    }
  }

  lemma CanonicalFront(path: seq<string>)
    requires path != []
    ensures CanonicalPath(path) == CanonicalPath(path[..|path| - 1]) + [Canonical(path[|path| - 1])]
  {
  }

  lemma ChildIsNamed(t: Tree, parent: nat, name: string, kind: ScopeKind)
    requires t.Ok() && parent < |t.scopes|
    ensures var r := InternChild(t, parent, name, kind);
      NamePath(r.0, r.1) == NamePath(t, parent) + [Canonical(name)]
  {
    var r := InternChild(t, parent, name, kind);
    ExtendedNamePath(t, r.0, parent);
    assert r.0.HasPlace(r.1);
  }

  lemma ExtendsTransitive(t: Tree, before: Tree, after: Tree)
    requires Extends(t, before) && Extends(before, after)
    ensures Extends(t, after)
  {
  }

  lemma BindsNothingTransitive(t: Tree, before: Tree, after: Tree)
    requires |t.scopes| <= |before.scopes| <= |after.scopes| && BindsNothing(t, before) && BindsNothing(before, after)
    ensures BindsNothing(t, after)
  {
  }

  /** Interning a path yields the scope of that path, in canonical names. */
  lemma {:induction false} InternedPathIsNamed(t: Tree, path: seq<string>)
    requires t.Ok()
    ensures Extends(t, InternPath(t, 0, path).0)
    ensures NamePath(InternPath(t, 0, path).0, InternPath(t, 0, path).1) == CanonicalPath(path)
  {
    if path != [] {
      var front, name := path[..|path| - 1], path[|path| - 1];
      InternedPathIsNamed(t, front);
      var before := InternPath(t, 0, front);
      ChildIsNamed(before.0, before.1, name, Unknown);
      ExtendsTransitive(t, before.0, InternChild(before.0, before.1, name, Unknown).0);
      CanonicalFront(path);
    }
  }

  /** Interning the path of a scope yields that scope and changes nothing, if its names are canonical. */
  lemma {:induction false} NamedPathIsInterned(t: Tree, id: nat)
    requires t.Ok() && id < |t.scopes| && AllCanonical(NamePath(t, id))
    ensures InternPath(t, 0, NamePath(t, id)) == (t, id)
  {
    if id > 0 {
      assert t.HasPlace(id);
      var path := NamePath(t, id);
      var parent := t.scopes[id].parent.value;
      assert path[..|path| - 1] == NamePath(t, parent);
      assert forall i | 0 <= i < |path| - 1 :: IsCanonical(path[i]);
      NamedPathIsInterned(t, parent);
      assert IsCanonical(path[|path| - 1]);
    }
  }

  /** And only then. */
  lemma RoundTripIffCanonical(t: Tree, id: nat)
    requires t.Ok() && id < |t.scopes|
    ensures InternPath(t, 0, NamePath(t, id)) == (t, id) <==> AllCanonical(NamePath(t, id))
  {
    var path := NamePath(t, id);
    InternedPathIsNamed(t, path);
    if AllCanonical(path) {
      NamedPathIsInterned(t, id);
    }
    assert CanonicalPath(path) == path ==> forall i | 0 <= i < |path| :: CanonicalPath(path)[i] == path[i];
  }

  /**
   * A doubly raw name is stored with one prefix left, and interning it again makes another scope. The
   * arena takes any name; no identifier of the language is doubly raw.
   */
  lemma DoublyRawNameIsLost()
    ensures var r := InternChild(NEW_TREE, 0, "r#r#x", Unknown);
      InternPath(r.0, 0, NamePath(r.0, r.1)) != (r.0, r.1)
  {
    var r := InternChild(NEW_TREE, 0, "r#r#x", Unknown);
    ChildIsNamed(NEW_TREE, 0, "r#r#x", Unknown);
    assert NamePath(r.0, r.1) == ["r#x"];
    assert !IsCanonical("r#x");
    assert !AllCanonical(NamePath(r.0, r.1)) by { assert !IsCanonical(NamePath(r.0, r.1)[0]); }
    RoundTripIffCanonical(r.0, r.1);
  }

  lemma OnlyRootIsUnnamed(t: Tree, id: nat)
    requires t.Ok() && id < |t.scopes|
    ensures NamePath(t, id) == [] <==> id == 0
  {
  }

  /** Different scopes have different paths. */
  lemma {:induction false} PathsAreDistinct(t: Tree, id: nat, other: nat)
    requires t.Ok() && id < |t.scopes| && other < |t.scopes| && NamePath(t, id) == NamePath(t, other)
    ensures id == other
    decreases id
  {
    OnlyRootIsUnnamed(t, id);
    OnlyRootIsUnnamed(t, other);
    if id > 0 && other > 0 {
      assert t.HasPlace(id) && t.HasPlace(other);
      var p, q := NamePath(t, id), NamePath(t, other);
      assert p[..|p| - 1] == NamePath(t, t.scopes[id].parent.value) && q[..|q| - 1] == NamePath(t, t.scopes[other].parent.value);
      assert p[|p| - 1] == q[|q| - 1];
      PathsAreDistinct(t, t.scopes[id].parent.value, t.scopes[other].parent.value);
    }
  }
}
