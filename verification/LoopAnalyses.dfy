/** The hierarchy of modules, and what the loop detector asks of each. */
module LoopAnalyses {
  import opened Options

  type Signature(==,!new)
  type Symbol(==,!new)
  type VarPaths(==,!new)
  type Error(==,!new)
  type Coarse(==,!new)
  type Graph(==,!new)
  type Content(==,!new)

  datatype Verdict = Verdict(provesAcyclic: bool, complete: bool)
  datatype Build = Built(graph: Graph, complete: bool) | Failed(error: Error)
  datatype Cycle = Cycle(paths: VarPaths, error: Error)
  datatype Search = Search(found: seq<Cycle>, complete: bool)

  /** A module summary: its nodes and edges, and the flag that says whether
      they are all there are. */
  datatype Summary = Summary(content: Content, complete: bool)

  /** The hierarchy and the analyses the driver calls, whose algorithms are not
      part of this model. A graph depends on a module and on the contents of
      its children's summaries. */
  datatype Analyses = Analyses(
    children: Signature -> seq<Signature>,
    suppressed: Signature -> bool,
    symbol: Signature -> Symbol,
    analyzeCoarsely: (Signature, seq<Option<Coarse>>) -> (Verdict, Coarse),
    build: (Signature, seq<Option<Content>>) -> Build,
    summarize: (Signature, Graph) -> Content,
    emptyContent: Content,
    search: (Signature, Graph, map<Signature, Content>, set<(Symbol, VarPaths)>) -> Search)
  {
    function ChildContents(s: Signature, contents: map<Signature, Content>): seq<Option<Content>> {
      seq(|children(s)|, i requires 0 <= i < |children(s)| => Lookup(contents, children(s)[i]))
    }

    function BuildOn(s: Signature, contents: map<Signature, Content>): Build {
      build(s, ChildContents(s, contents))
    }

    /** What a parent imports from `s`: nothing when it does not build. */
    function ContentOf(s: Signature, contents: map<Signature, Content>): Content {
      match BuildOn(s, contents)
      case Built(graph, _) => summarize(s, graph)
      case Failed(_) => emptyContent
    }
  }

  function Contents(summaries: map<Signature, Summary>): map<Signature, Content> {
    map s | s in summaries :: summaries[s].content
  }

  /** Complete when the module's own constructs are and every child has a complete summary. */
  predicate BuildsCompletely(t: Analyses, s: Signature, own: bool, summaries: map<Signature, Summary>) {
    own && forall c | c in t.children(s) :: c in summaries && summaries[c].complete
  }
}
