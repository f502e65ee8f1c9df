/** Diagnostics over several sources, spliced into one buffer of positions. */
module SplicedSources {
  import opened Options
  import opened SourceTokens
  import opened MachineIntegers
  import opened SourceText

  /** The path and the complete text of each token source. */
  datatype Files = Files(path: TokenSource -> string, text: TokenSource -> Text) {
    ghost predicate Valid() {
      forall s :: Utf8(text(s)) && |text(s)| <= ISIZE_MAX
    }
  }

  datatype TokenRange = TokenRange(beg: Token, end: Token) {
    /** A range ends after it begins; the length of the span is computed from both ends. */
    predicate Valid() {
      beg.pos <= end.pos
    }

    function Span(): SourceSpan
      requires Valid()
    {
      SourceSpan(beg.pos, end.pos - beg.pos + end.length)
    }
  }

  datatype Source = Source(path: string, text: Text, lineOffset: usize)

  function FromExcerpt(path: string, text: Text, e: SourceExcerpt): Option<Source> {
    match Get(text, e.start, e.end)
    case None => None
    case Some(part) => Some(Source(path, part, e.lineOffset))
  }

  // ---- The buffer ----

  /** The position at which source `i` starts. */
  function Base(sources: seq<Source>, i: nat): nat
    requires i <= |sources|
  {
    if i == 0 then 0 else Base(sources, i - 1) + |sources[i - 1].text|
  }

  lemma {:induction false} BaseOfPrefix(sources: seq<Source>, more: seq<Source>, i: nat)
    requires i <= |sources|
    ensures Base(sources + more, i) == Base(sources, i)
  {
    if i > 0 { BaseOfPrefix(sources, more, i - 1); }
  }

  lemma {:induction false} BaseGrows(sources: seq<Source>, i: nat, j: nat)
    requires i <= j <= |sources|
    ensures Base(sources, i) <= Base(sources, j)
  {
    if i < j { BaseGrows(sources, i, j - 1); }
  }

  datatype Contents = Contents(name: string, data: Text, span: SourceSpan, line: usize)

  /** The span starts on a byte of source `i` and ends within that source. */
  predicate LiesIn(sources: seq<Source>, i: int, span: SourceSpan) {
    && 0 <= i < |sources| && Base(sources, i) <= span.offset < Base(sources, i) + |sources[i].text|
    && span.offset + span.length <= Base(sources, i) + |sources[i].text|
  }

  function LineAt(sources: seq<Source>, i: int, span: SourceSpan): nat
    requires LiesIn(sources, i, span)
  {
    Breaks(sources[i].text, span.offset - Base(sources, i)) + sources[i].lineOffset
  }

  /** Reading the span from source `i`, with no lines of context. */
  predicate Reads(sources: seq<Source>, span: SourceSpan, i: int, c: Contents) {
    && LiesIn(sources, i, span)
    && var local := span.offset - Base(sources, i);
    && c == Contents(sources[i].path, sources[i].text[local..local + span.length], span, c.line)
    && c.line == LineAt(sources, i, span)
  }

  /** The first source that ends after the span starts; the whole span must lie in it. */
  method ReadSpan(sources: seq<Source>, span: SourceSpan) returns (r: Option<Contents>)
    requires Base(sources, |sources|) <= ISIZE_MAX
    ensures r.Some? ==> exists i :: Reads(sources, span, i, r.value)
    ensures r.None? ==> forall i | LiesIn(sources, i, span) :: LineAt(sources, i, span) > USIZE_MAX
  {
    var start: usize := 0;
    var n := 0;
    while n < |sources|
      invariant 0 <= n <= |sources| && start == Base(sources, n)
      invariant start <= span.offset
    {
      BaseGrows(sources, n + 1, |sources|);
      var end: usize := start + |sources[n].text|;
      if span.offset < end { break; }
      start := end;
      n := n + 1;
    }
    forall i | LiesIn(sources, i, span) ensures i == n {
      if i < n { BaseGrows(sources, i + 1, n); }
      if n < i { BaseGrows(sources, n + 1, i); }
    }
    if n == |sources| { return None; }
    var spanEnd := span.End();
    if spanEnd.None? || spanEnd.value > start + |sources[n].text| { return None; }
    var local := span.offset - start;
    var line := CheckedUsize(Breaks(sources[n].text, local) + sources[n].lineOffset);
    if line.None? { return None; }
    var c := Contents(sources[n].path, sources[n].text[local..local + span.length], span, line.value);
    assert Reads(sources, span, n, c);
    r := Some(c);
  }

  /** At most one source holds the first byte of a span. */
  lemma LiesInOnce(sources: seq<Source>, span: SourceSpan, i: int, j: int)
    requires LiesIn(sources, i, span) && LiesIn(sources, j, span)
    ensures i == j
  {
    if i < j { BaseGrows(sources, i + 1, j); }
    if j < i { BaseGrows(sources, j + 1, i); }
  }

  /** So what a read yields is determined. */
  lemma ReadIsDetermined(sources: seq<Source>, span: SourceSpan, i: int, c: Contents, j: int, d: Contents)
    requires Reads(sources, span, i, c) && Reads(sources, span, j, d)
    ensures i == j && c == d
  {
    LiesInOnce(sources, span, i, j);
  }

  // ---- Reading a token back ----

  /** A token with at least one byte, inside its file. */
  predicate Readable(files: Files, t: TokenRange) {
    t.Valid() && t.Span().length > 0 && InBounds(files.text(t.beg.source), t.Span())
  }

  function BytesOf(files: Files, t: TokenRange): Text
    requires Readable(files, t)
  {
    files.text(t.beg.source)[t.Span().offset..t.Span().offset + t.Span().length]
  }

  /** The token knows its line. */
  predicate KnowsLine(files: Files, t: TokenRange) {
    && t.Valid() && t.Span().offset <= |files.text(t.beg.source)|
    && t.beg.line == Breaks(files.text(t.beg.source), t.Span().offset) + 1
  }

  /** `span` reads back as `t`: its bytes, under the path of its file. */
  ghost predicate ReadsBack(files: Files, sources: seq<Source>, span: SourceSpan, t: TokenRange)
    requires Readable(files, t)
  {
    exists i :: ReadsBackFrom(files, sources, span, t, i)
  }

  predicate ReadsBackFrom(files: Files, sources: seq<Source>, span: SourceSpan, t: TokenRange, i: int)
    requires Readable(files, t)
  {
    && LiesIn(sources, i, span) && sources[i].path == files.path(t.beg.source)
    && var local := span.offset - Base(sources, i);
       sources[i].text[local..local + span.length] == BytesOf(files, t)
  }

  /** And its line, counted from zero. */
  ghost predicate ReadsBackLine(files: Files, sources: seq<Source>, span: SourceSpan, t: TokenRange)
    requires Readable(files, t)
  {
    forall i | LiesIn(sources, i, span) :: LineAt(sources, i, span) == t.beg.line - 1
  }

  /** Sources added at the end do not change what a span reads. */
  lemma StillReadsBack(files: Files, sources: seq<Source>, more: seq<Source>, span: SourceSpan, t: TokenRange)
    requires Readable(files, t) && ReadsBack(files, sources, span, t)
    ensures ReadsBack(files, sources + more, span, t)
    ensures ReadsBackLine(files, sources, span, t) ==> ReadsBackLine(files, sources + more, span, t)
  {
    var i :| ReadsBackFrom(files, sources, span, t, i);
    BaseOfPrefix(sources, more, i);
    assert ReadsBackFrom(files, sources + more, span, t, i);
    forall j | LiesIn(sources + more, j, span) ensures j == i { LiesInOnce(sources + more, span, i, j); }
  }

  /** The whole buffer fits in memory, and the sources start on 32-bit lines. */
  predicate Bounded(sources: seq<Source>) {
    Base(sources, |sources|) <= ISIZE_MAX && forall s | s in sources :: s.lineOffset <= U32_MAX
  }

  /** So no line overflows. */
  lemma BoundedLine(sources: seq<Source>, i: int, span: SourceSpan)
    requires Bounded(sources) && LiesIn(sources, i, span)
    ensures LineAt(sources, i, span) <= USIZE_MAX
  {
    FewBreaks(sources[i].text, span.offset - Base(sources, i));
    BaseGrows(sources, i + 1, |sources|);
    assert sources[i] in sources;
  }

  /** Reading a span that reads back as a token succeeds, and yields the token. */
  method ReadToken(files: Files, sources: seq<Source>, span: SourceSpan, ghost t: TokenRange) returns (r: Option<Contents>)
    requires Bounded(sources)
    ensures Readable(files, t) && ReadsBack(files, sources, span, t) ==>
      && r.Some? && r.value.data == BytesOf(files, t) && r.value.name == files.path(t.beg.source)
      && (ReadsBackLine(files, sources, span, t) ==> r.value.line == t.beg.line - 1)
  {
    r := ReadSpan(sources, span);
    if Readable(files, t) && ReadsBack(files, sources, span, t) {
      var j :| ReadsBackFrom(files, sources, span, t, j);
      BoundedLine(sources, j, span);
      var i :| Reads(sources, span, i, r.value);
      ReadsBackIsRead(files, sources, span, t, i, r.value);
    }
  }

  /** What `ReadSpan` yields of it is the token. */
  lemma ReadsBackIsRead(files: Files, sources: seq<Source>, span: SourceSpan, t: TokenRange, i: int, c: Contents)
    requires Readable(files, t) && ReadsBack(files, sources, span, t) && Reads(sources, span, i, c)
    ensures c.data == BytesOf(files, t) && c.name == files.path(t.beg.source)
    ensures ReadsBackLine(files, sources, span, t) ==> c.line == t.beg.line - 1
  {
    var j :| ReadsBackFrom(files, sources, span, t, j);
    LiesInOnce(sources, span, i, j);
  }
}
