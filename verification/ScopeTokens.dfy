/** Where each token appears, and how a file's tokens leave the arena and come back. */
module ScopeTokens {
  import opened Options
  import opened SourceTokens
  import opened ScopeTree

  /** Token ids are ordered. */
  type TokenId = nat

  datatype TokenScope = TokenScope(scope: nat, defineContext: DefineContext, file: PathId)

  datatype Namespace = Namespace(paths: seq<string>, defineContext: DefineContext)

  datatype Entry = Entry(token: TokenId, namespace: Namespace)

  /** The tree with the scope of every token recorded so far. */
  datatype Tokens = Tokens(tree: Tree, scopes: map<TokenId, TokenScope>) {
    ghost predicate Ok() {
      tree.Ok() && forall t | t in scopes :: scopes[t].scope < |tree.scopes|
    }
  }

  function NamespaceOf(t: Tree, scope: nat, defineContext: DefineContext): Namespace
    requires t.Ok() && scope < |t.scopes|
  {
    Namespace(NamePath(t, scope), defineContext)
  }

  /** The root-level ancestor's name. */
  function ProjectOf(t: Tree, scope: nat): Option<string>
    requires t.Ok() && scope < |t.scopes|
  {
    var path := NamePath(t, scope);
    if path == [] then None else Some(path[0])
  }

  function InsertToken(a: Tokens, e: Entry, file: PathId): (r: Tokens)
    requires a.Ok()
    ensures r.Ok()
  {
    var (tree, scope) := InternPath(a.tree, 0, e.namespace.paths);
    InternedPathIsNamed(a.tree, e.namespace.paths);
    Tokens(tree, a.scopes[e.token := TokenScope(scope, e.namespace.defineContext, file)])
  }

  function InsertTokens(a: Tokens, entries: seq<Entry>, file: PathId): (r: Tokens)
    requires a.Ok()
    ensures r.Ok()
  {
    if entries == [] then a else
      InsertToken(InsertTokens(a, entries[..|entries| - 1], file), entries[|entries| - 1], file)
  }

  predicate InProject(a: Tokens, t: TokenId, project: Option<string>)
    requires a.Ok() && t in a.scopes
  {
    project.None? || ProjectOf(a.tree, a.scopes[t].scope) == Some(Canonical(project.value))
  }

  /** The file's tokens go; all of them, or those of one project. */
  function DropTokens(a: Tokens, file: PathId, project: Option<string>): (r: Tokens)
    requires a.Ok()
    ensures r.Ok()
  {
    a.(scopes := map t | t in a.scopes && !(a.scopes[t].file == file && InProject(a, t, project)) :: a.scopes[t])
  }

  /**
   * What stays: the tokens of other files, and when one project is named those of scopes whose first
   * name, from the root down, is another, or that have none.
   */
  lemma DroppedTokens(a: Tokens, file: PathId, project: Option<string>, t: TokenId)
    requires a.Ok()
    ensures DropTokens(a, file, project).tree == a.tree
    ensures var path := if t in a.scopes then NamePath(a.tree, a.scopes[t].scope) else [];
      t in DropTokens(a, file, project).scopes <==>
        && t in a.scopes
        && (a.scopes[t].file != file || (project.Some? && (path == [] || path[0] != Canonical(project.value))))
    ensures t in DropTokens(a, file, project).scopes ==> DropTokens(a, file, project).scopes[t] == a.scopes[t]
  {
  }

  predicate IsEntryOf(a: Tokens, file: PathId, e: Entry)
    requires a.Ok()
  {
    && e.token in a.scopes && a.scopes[e.token].file == file
    && e.namespace == NamespaceOf(a.tree, a.scopes[e.token].scope, a.scopes[e.token].defineContext)
  }

  /** The file's tokens with their namespaces, in order of token id. */
  predicate IsTokenExport(a: Tokens, file: PathId, entries: seq<Entry>)
    requires a.Ok()
  {
    && (forall i, j | 0 <= i < j < |entries| :: entries[i].token < entries[j].token)
    && (forall i | 0 <= i < |entries| :: IsEntryOf(a, file, entries[i]))
    && (forall t | t in a.scopes && a.scopes[t].file == file :: exists i :: 0 <= i < |entries| && entries[i].token == t)
  }

  // ---- Reading in an export, into any arena ----

  /** A token read in stands in the scope named like its namespace. */
  predicate Stands(a: Tokens, e: Entry, file: PathId)
    requires a.Ok()
  {
    && e.token in a.scopes && a.scopes[e.token].file == file && a.scopes[e.token].defineContext == e.namespace.defineContext
    && NamePath(a.tree, a.scopes[e.token].scope) == CanonicalPath(e.namespace.paths)
  }

  lemma InsertedStands(a: Tokens, e: Entry, file: PathId)
    requires a.Ok()
    ensures Stands(InsertToken(a, e, file), e, file) && Extends(a.tree, InsertToken(a, e, file).tree)
  {
    InternedPathIsNamed(a.tree, e.namespace.paths);
  }

  lemma StillStands(a: Tokens, e: Entry, f: Entry, file: PathId)
    requires a.Ok() && Stands(a, e, file) && e.token != f.token
    ensures Stands(InsertToken(a, f, file), e, file)
  {
    InternedPathIsNamed(a.tree, f.namespace.paths);
    ExtendedNamePath(a.tree, InsertToken(a, f, file).tree, a.scopes[e.token].scope);
  }

  predicate DistinctTokens(entries: seq<Entry>) {
    forall i, j | 0 <= i < j < |entries| :: entries[i].token != entries[j].token
  }

  lemma OneMoreStands(before: Tokens, entries: seq<Entry>, file: PathId, i: nat)
    requires before.Ok() && DistinctTokens(entries) && i < |entries|
    requires i < |entries| - 1 ==> Stands(before, entries[i], file)
    ensures Stands(InsertToken(before, entries[|entries| - 1], file), entries[i], file)
  {
    if i < |entries| - 1 {
      StillStands(before, entries[i], entries[|entries| - 1], file);
    } else {
      InsertedStands(before, entries[i], file);
    }
  }

  lemma {:induction false} InsertedTokensStand(a: Tokens, entries: seq<Entry>, file: PathId, i: nat)
    requires a.Ok() && DistinctTokens(entries) && i < |entries|
    ensures Stands(InsertTokens(a, entries, file), entries[i], file)
  {
    var front := entries[..|entries| - 1];
    if i < |front| {
      assert front[i] == entries[i];
      InsertedTokensStand(a, front, file, i);
    }
    OneMoreStands(InsertTokens(a, front, file), entries, file, i);
  }

  // ---- Dropping a file and reading it back in ----

  predicate Mentioned(entries: seq<Entry>, n: nat, t: TokenId) {
    exists i :: n <= i < |entries| && entries[i].token == t
  }

  /** `a` without the tokens of `entries` from `n` on. */
  function WithoutFrom(a: Tokens, entries: seq<Entry>, n: nat): Tokens {
    a.(scopes := map t | t in a.scopes && !Mentioned(entries, n, t) :: a.scopes[t])
  }

  lemma WithoutAll(a: Tokens, file: PathId, entries: seq<Entry>)
    requires a.Ok() && IsTokenExport(a, file, entries)
    ensures DropTokens(a, file, None) == WithoutFrom(a, entries, 0)
  {
    forall t | t in a.scopes ensures Mentioned(entries, 0, t) <==> a.scopes[t].file == file {
      if i :| 0 <= i < |entries| && entries[i].token == t { assert IsEntryOf(a, file, entries[i]); }
    }
    assert DropTokens(a, file, None).scopes == WithoutFrom(a, entries, 0).scopes;
  }

  lemma WithoutOneLess(a: Tokens, file: PathId, entries: seq<Entry>, n: nat)
    requires a.Ok() && IsTokenExport(a, file, entries) && n < |entries|
    ensures IsEntryOf(a, file, entries[n])
    ensures WithoutFrom(a, entries, n + 1).scopes == WithoutFrom(a, entries, n).scopes[entries[n].token := a.scopes[entries[n].token]]
  {
    var e := entries[n].token;
    assert IsEntryOf(a, file, entries[n]);
    forall t | t in a.scopes ensures Mentioned(entries, n, t) <==> Mentioned(entries, n + 1, t) || t == e {
      if t == e { assert entries[n].token == t; }
    }
    assert !Mentioned(entries, n + 1, e);
  }

  /** Reading in a token of the same tree puts it back where it was. */
  lemma PutBack(a: Tokens, b: Tokens, file: PathId, e: Entry)
    requires a.Ok() && b.Ok() && a.tree == b.tree && IsEntryOf(a, file, e) && AllCanonical(e.namespace.paths)
    ensures InsertToken(b, e, file) == b.(scopes := b.scopes[e.token := a.scopes[e.token]])
  {
    NamedPathIsInterned(a.tree, a.scopes[e.token].scope);
  }

  lemma ReinsertOne(a: Tokens, b: Tokens, file: PathId, entries: seq<Entry>, n: nat)
    requires a.Ok() && IsTokenExport(a, file, entries) && n < |entries| && AllCanonical(entries[n].namespace.paths)
    requires b == WithoutFrom(a, entries, n)
    ensures b.Ok() && InsertToken(b, entries[n], file) == WithoutFrom(a, entries, n + 1)
  {
    WithoutOneLess(a, file, entries, n);
    PutBack(a, b, file, entries[n]);
  }

  lemma {:induction false} ReinsertedUpTo(a: Tokens, file: PathId, entries: seq<Entry>, n: nat)
    requires a.Ok() && IsTokenExport(a, file, entries) && n <= |entries|
    requires forall i | 0 <= i < |entries| :: AllCanonical(entries[i].namespace.paths)
    ensures InsertTokens(DropTokens(a, file, None), entries[..n], file) == WithoutFrom(a, entries, n)
  {
    if n == 0 {
      WithoutAll(a, file, entries);
    } else {
      ReinsertedUpTo(a, file, entries, n - 1);
      assert entries[..n][..n - 1] == entries[..n - 1];
      ReinsertOne(a, InsertTokens(DropTokens(a, file, None), entries[..n - 1], file), file, entries, n - 1);
    }
  }

  lemma NothingLeftOut(a: Tokens, entries: seq<Entry>)
    ensures WithoutFrom(a, entries, |entries|) == a
  {
    assert WithoutFrom(a, entries, |entries|).scopes == a.scopes;
  }

  /** Exporting a file, dropping it for all projects and reading the export back in leaves the arena as it was, if its names are canonical. */
  lemma ReinsertionRestores(a: Tokens, file: PathId, entries: seq<Entry>)
    requires a.Ok() && IsTokenExport(a, file, entries)
    requires forall i | 0 <= i < |entries| :: AllCanonical(entries[i].namespace.paths)
    ensures InsertTokens(DropTokens(a, file, None), entries, file) == a
  {
    ReinsertedUpTo(a, file, entries, |entries|);
    assert entries[..|entries|] == entries;
    NothingLeftOut(a, entries);
  }

  /** And only then. */
  lemma RestoredIffCanonical(a: Tokens, file: PathId, entries: seq<Entry>)
    requires a.Ok() && IsTokenExport(a, file, entries)
    ensures InsertTokens(DropTokens(a, file, None), entries, file) == a
       <==> forall i | 0 <= i < |entries| :: AllCanonical(entries[i].namespace.paths)
  {
    var restored := InsertTokens(DropTokens(a, file, None), entries, file);
    if restored == a {
      forall i | 0 <= i < |entries| ensures AllCanonical(entries[i].namespace.paths) {
        var e := entries[i];
        InsertedTokensStand(DropTokens(a, file, None), entries, file, i);
        assert IsEntryOf(a, file, e);
        assert CanonicalPath(e.namespace.paths) == e.namespace.paths;
      }
    }
    if forall i | 0 <= i < |entries| :: AllCanonical(entries[i].namespace.paths) {
      ReinsertionRestores(a, file, entries);
    }
  }
}
