/** The sources of a diagnostic with labels: bounded excerpts, shared through two caches. */
module OrderedContext {
  import opened Options
  import opened Sequences
  import opened SourceTokens
  import opened MachineIntegers
  import opened SourceText
  import opened SplicedSources

  datatype WindowKey = WindowKey(source: TokenSource, begLine: u32, endLine: u32)

  datatype ExcerptKey = ExcerptKey(source: TokenSource, excerpt: SourceExcerpt)

  const CONTEXT_LINES: nat := 1

  /** An excerpt that can be cut out of `text`, of whole lines at its end, on a 32-bit line. */
  predicate IsExcerpt(text: Text, e: SourceExcerpt) {
    e.FitsIn(text) && (e.end == |text| || IsLineStart(text, e.end)) && e.lineOffset <= U32_MAX
  }

  // ---- The window cache ----

  /** The token can be shown, and `e` is the window around it. */
  ghost predicate WindowOf(files: Files, t: TokenRange, e: SourceExcerpt) {
    && t.Valid() && InBounds(files.text(t.beg.source), t.Span())
    && IsWindow(files.text(t.beg.source), t.Span(), t.beg.line, CONTEXT_LINES, e)
  }

  function KeyOf(t: TokenRange): WindowKey {
    WindowKey(t.beg.source, t.beg.line, t.end.line)
  }

  /** `e` is the window around some token of the context with this source, first line and last line. */
  ghost predicate IsWindowFor(files: Files, context: seq<TokenRange>, k: WindowKey, e: SourceExcerpt) {
    exists u :: u in context && KeyOf(u) == k && WindowOf(files, u, e)
  }

  ghost predicate WindowsFit(files: Files, context: seq<TokenRange>, windows: map<WindowKey, SourceExcerpt>) {
    forall k | k in windows :: IsWindowFor(files, context, k, windows[k])
  }

  lemma WindowIsExcerpt(files: Files, context: seq<TokenRange>, k: WindowKey, e: SourceExcerpt)
    requires IsWindowFor(files, context, k, e)
    ensures IsExcerpt(files.text(k.source), e)
  {
  }

  predicate WindowsKnowLines(files: Files, windows: map<WindowKey, SourceExcerpt>) {
    forall k | k in windows :: LineIsRight(files.text(k.source), windows[k])
  }

  /** If the token can be shown at all, its line is right, and it splits no CRLF below the first line. */
  predicate Truthful(files: Files, t: TokenRange) {
    t.Valid() && (InBounds(files.text(t.beg.source), t.Span()) ==> KnowsLine(files, t) && KeepsLine(files, t))
  }

  predicate KeepsLine(files: Files, t: TokenRange)
    requires t.Valid()
  {
    !InsideCrlf(files.text(t.beg.source), t.Span().offset) || t.beg.line <= CONTEXT_LINES
  }

  /**
   * The excerpt for a token: the window around a token on the same lines that holds it too. Only a
   * token that cannot be shown may get the whole text.
   */
  ghost predicate Chosen(files: Files, context: seq<TokenRange>, t: TokenRange, e: SourceExcerpt)
    requires t.Valid()
  {
    || (e.LocalSpan(t.Span()).Some? && IsWindowFor(files, context, KeyOf(t), e))
    || (!InBounds(files.text(t.beg.source), t.Span()) && |files.text(t.beg.source)| <= ISIZE_MAX && e == WholeExcerpt(files.text(t.beg.source)))
  }

  /** A cached window that holds the span, or a new one. Only a span that cannot be shown gets the whole text. */
  method ExcerptFor(files: Files, t: TokenRange, windows: map<WindowKey, SourceExcerpt>, ghost context: seq<TokenRange>)
    returns (e: SourceExcerpt, local: SourceSpan, windows': map<WindowKey, SourceExcerpt>)
    requires files.Valid() && t.Valid() && t in context && WindowsFit(files, context, windows)
    ensures WindowsFit(files, context, windows') && Chosen(files, context, t, e) && IsExcerpt(files.text(t.beg.source), e)
    ensures local == (if e.LocalSpan(t.Span()).Some? then e.LocalSpan(t.Span()).value else t.Span()) && local.offset <= U32_MAX
    ensures WindowsKnowLines(files, windows) && Truthful(files, t) ==>
      WindowsKnowLines(files, windows') && LineIsRight(files.text(t.beg.source), e)
  {
    var text, span := files.text(t.beg.source), t.Span();
    var key := KeyOf(t);
    StartIsBoundary(text);
    windows' := windows;
    if key in windows && windows[key].LocalSpan(span).Some? {
      e, local := windows[key], windows[key].LocalSpan(span).value;
      WindowIsExcerpt(files, context, key, e);
      return;
    }
    var window := ExcerptWindow(text, span, t.beg.line, CONTEXT_LINES);
    if window.Some? {
      windows' := windows'[key := window.value];
      assert WindowOf(files, t, window.value);
      WindowIsExcerpt(files, context, key, window.value);
      if KnowsLine(files, t) { WindowKeepsLine(text, span, t.beg.line, CONTEXT_LINES, window.value); }
      e, local := window.value, window.value.LocalSpan(span).value;
    } else {
      e, local := WholeExcerpt(text), span;
    }
  }

  // ---- The excerpt cache ----

  predicate OnSmallLines(sources: seq<Source>) {
    forall s | s in sources :: s.lineOffset <= U32_MAX
  }

  /** Source `i`, at `base`, is the excerpt. */
  predicate HoldsExcerpt(files: Files, sources: seq<Source>, key: ExcerptKey, base: nat, i: int) {
    && 0 <= i < |sources| && Base(sources, i) == base
    && FromExcerpt(files.path(key.source), files.text(key.source), key.excerpt) == Some(sources[i])
  }

  /** The sources after the first are the excerpts `placed`, each of them once, and `bases` says where they start. */
  ghost predicate Laid(files: Files, sources: seq<Source>, placed: seq<ExcerptKey>, bases: map<ExcerptKey, nat>) {
    && |sources| == |placed| + 1 && Distinct(placed)
    && (forall k :: k in bases <==> k in placed)
    && forall i | 0 <= i < |placed| :: placed[i] in bases && HoldsExcerpt(files, sources, placed[i], bases[placed[i]], i + 1)
  }

  lemma StillHolds(files: Files, sources: seq<Source>, more: seq<Source>, key: ExcerptKey, base: nat, i: int)
    requires HoldsExcerpt(files, sources, key, base, i)
    ensures HoldsExcerpt(files, sources + more, key, base, i)
  {
    BaseOfPrefix(sources, more, i);
  }

  lemma LaidMore(files: Files, sources: seq<Source>, placed: seq<ExcerptKey>, bases: map<ExcerptKey, nat>, key: ExcerptKey, s: Source)
    requires Laid(files, sources, placed, bases) && key !in bases
    requires FromExcerpt(files.path(key.source), files.text(key.source), key.excerpt) == Some(s)
    ensures Laid(files, sources + [s], placed + [key], bases[key := Base(sources, |sources|)])
    ensures Base(sources + [s], |sources| + 1) == Base(sources, |sources|) + |s.text|
  {
    BaseOfPrefix(sources, [s], |sources|);
    forall i: nat | i < |placed| + 1
      ensures HoldsExcerpt(files, sources + [s], (placed + [key])[i], bases[key := Base(sources, |sources|)][(placed + [key])[i]], i + 1)
    {
      LaidAt(files, sources, placed, bases, key, s, i);
    }
  }

  lemma LaidAt(files: Files, sources: seq<Source>, placed: seq<ExcerptKey>, bases: map<ExcerptKey, nat>, key: ExcerptKey, s: Source, i: nat)
    requires Laid(files, sources, placed, bases) && key !in bases && i < |placed| + 1
    requires FromExcerpt(files.path(key.source), files.text(key.source), key.excerpt) == Some(s)
    ensures var k := (placed + [key])[i];
      k in bases[key := Base(sources, |sources|)] && HoldsExcerpt(files, sources + [s], k, bases[key := Base(sources, |sources|)][k], i + 1)
  {
    if i < |placed| {
      LaidStays(files, sources, placed, bases, s, i);
    } else {
      LastHolds(files, sources, key, s);
    }
  }

  lemma LastHolds(files: Files, sources: seq<Source>, key: ExcerptKey, s: Source)
    requires FromExcerpt(files.path(key.source), files.text(key.source), key.excerpt) == Some(s)
    ensures HoldsExcerpt(files, sources + [s], key, Base(sources, |sources|), |sources|)
  {
    BaseOfPrefix(sources, [s], |sources|);
  }

  lemma LaidStays(files: Files, sources: seq<Source>, placed: seq<ExcerptKey>, bases: map<ExcerptKey, nat>, s: Source, i: nat)
    requires Laid(files, sources, placed, bases) && i < |placed|
    ensures placed[i] in bases && HoldsExcerpt(files, sources + [s], placed[i], bases[placed[i]], i + 1)
  {
    StillHolds(files, sources, [s], placed[i], bases[placed[i]], i + 1);
  }

  /** The source that holds the excerpt, added at the end unless it is there already. */
  method PlaceExcerpt(files: Files, key: ExcerptKey, sources: seq<Source>, bases: map<ExcerptKey, nat>, ghost placed: seq<ExcerptKey>)
    returns (base: nat, sources': seq<Source>, bases': map<ExcerptKey, nat>, ghost placed': seq<ExcerptKey>)
    requires IsExcerpt(files.text(key.source), key.excerpt) && Laid(files, sources, placed, bases)
    ensures sources <= sources' && Laid(files, sources', placed', bases')
    ensures placed' == if key in placed then placed else placed + [key]
    ensures exists i :: 0 <= i < |placed'| && placed'[i] == key && HoldsExcerpt(files, sources', key, base, i + 1)
    ensures Base(sources', |sources'|) <= Base(sources, |sources|) + |files.text(key.source)|
    ensures OnSmallLines(sources) ==> OnSmallLines(sources')
  {
    if key in bases { return bases[key], sources, bases, placed; }
    var path, text := files.path(key.source), files.text(key.source);
    var cut := FromExcerpt(path, text, key.excerpt);
    // The excerpt can always be cut out, so the whole text never has to stand in for it.
    var source := cut.value;
    base := Base(sources, |sources|);
    LaidMore(files, sources, placed, bases, key, source);
    sources' := sources + [source];
    bases' := bases[key := base];
    placed' := placed + [key];
    assert placed'[|placed|] == key;
  }

  // ---- The labels ----

  lemma SliceOfSlice(text: Text, start: nat, end: nat, from: nat, length: nat)
    requires start <= end <= |text| && start + from + length <= end
    ensures text[start..end][from..from + length] == text[start + from..start + from + length]
  {
    var l, r := text[start..end][from..from + length], text[start + from..start + from + length];
    assert |l| == |r| && forall i | 0 <= i < length :: l[i] == r[i];
  }

  lemma LocalBytes(files: Files, t: TokenRange, e: SourceExcerpt, local: SourceSpan)
    requires Readable(files, t) && e.FitsIn(files.text(t.beg.source)) && e.LocalSpan(t.Span()) == Some(local)
    ensures local.length == t.Span().length && local.offset + local.length <= e.end - e.start
    ensures files.text(t.beg.source)[e.start..e.end][local.offset..local.offset + local.length] == BytesOf(files, t)
  {
    SliceOfSlice(files.text(t.beg.source), e.start, e.end, local.offset, local.length);
  }

  /** A local span of a placed excerpt reads back as the token. */
  lemma PlacedReadsBack(files: Files, sources: seq<Source>, t: TokenRange, e: SourceExcerpt, local: SourceSpan, base: nat, i: int, span: SourceSpan)
    requires Readable(files, t) && IsExcerpt(files.text(t.beg.source), e) && e.LocalSpan(t.Span()) == Some(local)
    requires HoldsExcerpt(files, sources, ExcerptKey(t.beg.source, e), base, i)
    requires span.offset == base + local.offset && span.length == local.length
    ensures ReadsBackFrom(files, sources, span, t, i)
    ensures LineIsRight(files.text(t.beg.source), e) && KnowsLine(files, t) ==> LineAt(sources, i, span) == t.beg.line - 1
  {
    var text := files.text(t.beg.source);
    assert sources[i] == Source(files.path(t.beg.source), text[e.start..e.end], e.lineOffset);
    LocalBytes(files, t, e, local);
    BreaksInside(text, e, local.offset);
  }

  /** What has been promised of the first labels. */
  ghost predicate LabelsReadBack(files: Files, sources: seq<Source>, spans: seq<SourceSpan>, context: seq<TokenRange>) {
    |spans| <= |context| && forall k | 0 <= k < |spans| && Readable(files, context[k]) :: ReadsBack(files, sources, spans[k], context[k])
  }

  ghost predicate LabelsReadBackLines(files: Files, sources: seq<Source>, spans: seq<SourceSpan>, context: seq<TokenRange>) {
    |spans| <= |context| && forall k | 0 <= k < |spans| && Readable(files, context[k]) :: ReadsBackLine(files, sources, spans[k], context[k])
  }

  /** All the texts a diagnostic can quote, one after the other. */
  function TextOfAll(files: Files, context: seq<TokenRange>): nat {
    if context == [] then 0 else TextOfAll(files, context[..|context| - 1]) + |files.text(context[|context| - 1].beg.source)|
  }

  lemma {:induction false} TextOfPrefix(files: Files, context: seq<TokenRange>, n: nat)
    requires n <= |context|
    ensures TextOfAll(files, context[..n]) <= TextOfAll(files, context)
  {
    if n < |context| {
      assert context[..|context| - 1][..n] == context[..n];
      TextOfPrefix(files, context[..|context| - 1], n);
    } else {
      assert context[..n] == context;
    }
  }

  /** The label shows the token where a placed excerpt that was chosen for it has it. */
  ghost predicate Shows(files: Files, context: seq<TokenRange>, sources: seq<Source>, placed: seq<ExcerptKey>, t: TokenRange, span: SourceSpan, i: int)
    requires t.Valid()
  {
    && 0 <= i < |placed| && |sources| == |placed| + 1 && placed[i].source == t.beg.source
    && var e := placed[i].excerpt;
    && Chosen(files, context, t, e)
    && HoldsExcerpt(files, sources, placed[i], Base(sources, i + 1), i + 1)
    && span.offset == Base(sources, i + 1) + (if e.LocalSpan(t.Span()).Some? then t.Span().offset - e.start else t.Span().offset)
    && span.length == t.Span().length
  }

  ghost predicate IsShown(files: Files, context: seq<TokenRange>, sources: seq<Source>, placed: seq<ExcerptKey>, t: TokenRange, span: SourceSpan) {
    t.Valid() && exists i :: Shows(files, context, sources, placed, t, span, i)
  }

  ghost predicate LabelsShow(files: Files, context: seq<TokenRange>, sources: seq<Source>, placed: seq<ExcerptKey>, spans: seq<SourceSpan>) {
    && |spans| <= |context|
    && forall k | 0 <= k < |spans| :: IsShown(files, context, sources, placed, context[k], spans[k])
  }

  /** Every excerpt was chosen for some token. */
  ghost predicate AllChosen(files: Files, context: seq<TokenRange>, placed: seq<ExcerptKey>) {
    forall key | key in placed :: exists t :: t in context && t.Valid() && t.beg.source == key.source && Chosen(files, context, t, key.excerpt)
  }

  lemma StillShows(files: Files, context: seq<TokenRange>, sources: seq<Source>, placed: seq<ExcerptKey>, t: TokenRange, span: SourceSpan, i: int,
                   sources': seq<Source>, placed': seq<ExcerptKey>)
    requires t.Valid() && Shows(files, context, sources, placed, t, span, i)
    requires sources <= sources' && placed <= placed' && |sources'| == |placed'| + 1
    ensures Shows(files, context, sources', placed', t, span, i)
  {
    var more := sources'[|sources|..];
    assert sources' == sources + more;
    StillHolds(files, sources, more, placed[i], Base(sources, i + 1), i + 1);
  }

  lemma LabelsStillShow(files: Files, context: seq<TokenRange>, sources: seq<Source>, placed: seq<ExcerptKey>, spans: seq<SourceSpan>,
                        sources': seq<Source>, placed': seq<ExcerptKey>)
    requires LabelsShow(files, context, sources, placed, spans)
    requires sources <= sources' && placed <= placed' && |sources'| == |placed'| + 1
    ensures LabelsShow(files, context, sources', placed', spans)
  {
    forall k | 0 <= k < |spans| ensures IsShown(files, context, sources', placed', context[k], spans[k]) {
      assert IsShown(files, context, sources, placed, context[k], spans[k]);
      var i :| Shows(files, context, sources, placed, context[k], spans[k], i);
      StillShows(files, context, sources, placed, context[k], spans[k], i, sources', placed');
    }
  }

  /** What the rounds of the loop have made so far. */
  ghost predicate Made(files: Files, context: seq<TokenRange>, sources: seq<Source>, ranges: seq<SourceSpan>, bases: map<ExcerptKey, nat>,
                       placed: seq<ExcerptKey>)
  {
    Laid(files, sources, placed, bases) && LabelsShow(files, context, sources, placed, ranges) && AllChosen(files, context, placed)
  }

  lemma LabelMade(files: Files, context: seq<TokenRange>, sources: seq<Source>, ranges: seq<SourceSpan>, bases: map<ExcerptKey, nat>,
                  placed: seq<ExcerptKey>, sources': seq<Source>, bases': map<ExcerptKey, nat>, placed': seq<ExcerptKey>, i: int, span: SourceSpan)
    requires Made(files, context, sources, ranges, bases, placed) && |ranges| < |context| && context[|ranges|].Valid()
    requires Laid(files, sources', placed', bases') && sources <= sources'
    requires Shows(files, context, sources', placed', context[|ranges|], span, i)
    requires placed' == placed || placed' == placed + [placed'[i]]
    ensures Made(files, context, sources', ranges + [span], bases', placed')
  {
    LabelsStillShow(files, context, sources, placed, ranges, sources', placed');
    forall k | 0 <= k < |ranges| + 1 ensures IsShown(files, context, sources', placed', context[k], (ranges + [span])[k]) {
      if k < |ranges| { assert IsShown(files, context, sources', placed', context[k], ranges[k]); }
    }
    forall key | key in placed' ensures exists t :: t in context && t.Valid() && t.beg.source == key.source && Chosen(files, context, t, key.excerpt) {
      if key !in placed { assert context[|ranges|] in context; }
    }
  }

  lemma PlacedShows(files: Files, context: seq<TokenRange>, sources: seq<Source>, placed: seq<ExcerptKey>, t: TokenRange, e: SourceExcerpt,
                    local: SourceSpan, i: int, span: SourceSpan)
    requires t.Valid() && Chosen(files, context, t, e) && |sources| == |placed| + 1
    requires local == (if e.LocalSpan(t.Span()).Some? then e.LocalSpan(t.Span()).value else t.Span())
    requires 0 <= i < |placed| && placed[i] == ExcerptKey(t.beg.source, e)
    requires HoldsExcerpt(files, sources, placed[i], Base(sources, i + 1), i + 1)
    requires span.offset == Base(sources, i + 1) + local.offset && span.length == local.length
    ensures Shows(files, context, sources, placed, t, span, i)
  {
  }

  lemma OnlySource(files: Files, sources: seq<Source>, span: SourceSpan, t: TokenRange, i: int)
    requires Readable(files, t) && ReadsBackFrom(files, sources, span, t, i)
    ensures LineAt(sources, i, span) == t.beg.line - 1 ==> ReadsBackLine(files, sources, span, t)
  {
    forall j | LiesIn(sources, j, span) ensures j == i { LiesInOnce(sources, span, i, j); }
  }

  /** A label that shows a token with at least one byte reads back as the token. */
  lemma ShownReadsBack(files: Files, context: seq<TokenRange>, sources: seq<Source>, placed: seq<ExcerptKey>, t: TokenRange, span: SourceSpan, i: int)
    requires files.Valid() && Readable(files, t) && Shows(files, context, sources, placed, t, span, i)
    ensures ReadsBack(files, sources, span, t)
    ensures LineIsRight(files.text(t.beg.source), placed[i].excerpt) && KnowsLine(files, t) ==> ReadsBackLine(files, sources, span, t)
  {
    var e := placed[i].excerpt;
    var local := e.LocalSpan(t.Span()).value;
    WindowIsExcerpt(files, context, KeyOf(t), e);
    PlacedReadsBack(files, sources, t, e, local, Base(sources, i + 1), i + 1, span);
    OnlySource(files, sources, span, t, i + 1);
  }

  lemma ShownReadBack(files: Files, context: seq<TokenRange>, sources: seq<Source>, placed: seq<ExcerptKey>, spans: seq<SourceSpan>)
    requires files.Valid() && LabelsShow(files, context, sources, placed, spans)
    ensures LabelsReadBack(files, sources, spans, context)
  {
    forall k | 0 <= k < |spans| && Readable(files, context[k]) ensures ReadsBack(files, sources, spans[k], context[k]) {
      assert IsShown(files, context, sources, placed, context[k], spans[k]);
      var i :| Shows(files, context, sources, placed, context[k], spans[k], i);
      ShownReadsBack(files, context, sources, placed, context[k], spans[k], i);
    }
  }

  /** All placed excerpts start on the line they say. */
  ghost predicate LinesAreRight(files: Files, placed: seq<ExcerptKey>) {
    forall key | key in placed :: LineIsRight(files.text(key.source), key.excerpt)
  }

  lemma LinesStayRight(files: Files, placed: seq<ExcerptKey>, key: ExcerptKey)
    ensures LinesAreRight(files, placed + [key]) <==> LinesAreRight(files, placed) && LineIsRight(files.text(key.source), key.excerpt)
  {
    assert forall k :: k in placed + [key] <==> k in placed || k == key;
  }

  lemma ShownReadBackLines(files: Files, context: seq<TokenRange>, sources: seq<Source>, placed: seq<ExcerptKey>, spans: seq<SourceSpan>)
    requires files.Valid() && LabelsShow(files, context, sources, placed, spans) && LinesAreRight(files, placed)
    requires forall t | t in context :: Truthful(files, t)
    ensures LabelsReadBackLines(files, sources, spans, context)
  {
    forall k | 0 <= k < |spans| && Readable(files, context[k]) ensures ReadsBackLine(files, sources, spans[k], context[k]) {
      assert IsShown(files, context, sources, placed, context[k], spans[k]);
      var i :| Shows(files, context, sources, placed, context[k], spans[k], i);
      assert placed[i] in placed && context[k] in context;
      ShownReadsBack(files, context, sources, placed, context[k], spans[k], i);
    }
  }

  lemma PlacedAt(files: Files, sources: seq<Source>, placed: seq<ExcerptKey>, key: ExcerptKey, base: nat) returns (i: nat)
    requires exists i :: 0 <= i < |placed| && placed[i] == key && HoldsExcerpt(files, sources, key, base, i + 1)
    requires |sources| == |placed| + 1
    ensures i < |placed| && placed[i] == key && HoldsExcerpt(files, sources, key, base, i + 1)
    ensures base == Base(sources, i + 1) <= Base(sources, |sources|)
  {
    i :| 0 <= i < |placed| && placed[i] == key && HoldsExcerpt(files, sources, key, base, i + 1);
    BaseGrows(sources, i + 1, |sources|);
  }

  /** One round of the loop: the next token of the context gets its label. */
  method AddLabel(files: Files, context: seq<TokenRange>, sources: seq<Source>, ranges: seq<SourceSpan>,
                  windows: map<WindowKey, SourceExcerpt>, bases: map<ExcerptKey, nat>, ghost placed: seq<ExcerptKey>)
    returns (sources': seq<Source>, ranges': seq<SourceSpan>, windows': map<WindowKey, SourceExcerpt>, bases': map<ExcerptKey, nat>,
             ghost placed': seq<ExcerptKey>)
    requires files.Valid() && |ranges| < |context| && context[|ranges|].Valid()
    requires WindowsFit(files, context, windows) && Made(files, context, sources, ranges, bases, placed)
    requires Base(sources, |sources|) + |files.text(context[|ranges|].beg.source)| <= ISIZE_MAX
    ensures WindowsFit(files, context, windows') && Made(files, context, sources', ranges', bases', placed')
    ensures sources <= sources' && |ranges'| == |ranges| + 1
    ensures Base(sources', |sources'|) <= Base(sources, |sources|) + |files.text(context[|ranges|].beg.source)|
    ensures OnSmallLines(sources) ==> OnSmallLines(sources')
    ensures WindowsKnowLines(files, windows) && Truthful(files, context[|ranges|]) && LinesAreRight(files, placed) ==>
      WindowsKnowLines(files, windows') && LinesAreRight(files, placed')
  {
    var t := context[|ranges|];
    var e, local;
    e, local, windows' := ExcerptFor(files, t, windows, context);
    var base;
    var key := ExcerptKey(t.beg.source, e);
    base, sources', bases', placed' := PlaceExcerpt(files, key, sources, bases, placed);
    ghost var i := PlacedAt(files, sources', placed', key, base);
    var span := SourceSpan(base + local.offset, local.length);
    PlacedShows(files, context, sources', placed', t, e, local, i, span);
    LabelMade(files, context, sources, ranges, bases, placed, sources', bases', placed', i, span);
    LinesStayRight(files, placed, key);
    ranges' := ranges + [span];
  }

  /**
   * Whatever the two caches share, each label shows its own token in a window around tokens on its
   * lines, and reads back as this token: the same bytes, from a source named after its own file, and
   * on its own line when the tokens' lines are right. No excerpt is there twice or for nothing.
   */
  method SourceWithOrderedContext(files: Files, token: TokenRange, context: seq<TokenRange>)
    returns (sources: seq<Source>, ranges: seq<SourceSpan>, ghost placed: seq<ExcerptKey>)
    requires files.Valid() && forall t | t in context :: t.Valid()
    // All the quoted files fit in memory together.
    requires |files.text(token.beg.source)| + TextOfAll(files, context) <= ISIZE_MAX
    ensures sources != [] && sources[0] == Source(files.path(token.beg.source), files.text(token.beg.source), 0)
    ensures Bounded(sources)
    ensures |ranges| == |context| && LabelsReadBack(files, sources, ranges, context)
    ensures (forall t | t in context :: Truthful(files, t)) ==> LabelsReadBackLines(files, sources, ranges, context)
    ensures LabelsShow(files, context, sources, placed, ranges)
    ensures |sources| == |placed| + 1 && Distinct(placed) && AllChosen(files, context, placed)
  {
    sources := [Source(files.path(token.beg.source), files.text(token.beg.source), 0)];
    ranges := [];
    var windows: map<WindowKey, SourceExcerpt> := map[];
    var bases: map<ExcerptKey, nat> := map[];
    placed := [];
    assert Base(sources, 1) == Base(sources, 0) + |sources[0].text|;
    for n := 0 to |context|
      invariant sources != [] && sources[0] == Source(files.path(token.beg.source), files.text(token.beg.source), 0)
      invariant Base(sources, |sources|) <= |files.text(token.beg.source)| + TextOfAll(files, context[..n])
      invariant OnSmallLines(sources)
      invariant WindowsFit(files, context, windows) && |ranges| == n && Made(files, context, sources, ranges, bases, placed)
      invariant (forall t | t in context :: Truthful(files, t)) ==> WindowsKnowLines(files, windows) && LinesAreRight(files, placed)
    {
      var t := context[n];
      assert t in context;
      TextOfPrefix(files, context, n + 1);
      assert context[..n + 1][..n] == context[..n];
      sources, ranges, windows, bases, placed := AddLabel(files, context, sources, ranges, windows, bases, placed);
    }
    TextOfPrefix(files, context, |context|);
    ShownReadBack(files, context, sources, placed, ranges);
    if forall t | t in context :: Truthful(files, t) { ShownReadBackLines(files, context, sources, placed, ranges); }
  }

  /** Reading label `k` yields token `k`: its bytes under its file's path, on its line when the tokens' lines are right. */
  ghost predicate IsReadAs(files: Files, context: seq<TokenRange>, k: nat, c: Option<Contents>)
    requires k < |context| && Readable(files, context[k])
  {
    && c.Some? && c.value.data == BytesOf(files, context[k]) && c.value.name == files.path(context[k].beg.source)
    && ((forall t | t in context :: Truthful(files, t)) ==> c.value.line == context[k].beg.line - 1)
  }

  method ReadEach(files: Files, context: seq<TokenRange>, sources: seq<Source>, ranges: seq<SourceSpan>) returns (contents: seq<Option<Contents>>)
    requires Bounded(sources) && |ranges| == |context| && LabelsReadBack(files, sources, ranges, context)
    requires (forall t | t in context :: Truthful(files, t)) ==> LabelsReadBackLines(files, sources, ranges, context)
    ensures |contents| == |context|
    ensures forall k | 0 <= k < |context| && Readable(files, context[k]) :: IsReadAs(files, context, k, contents[k])
  {
    contents := [];
    for n := 0 to |context|
      invariant |contents| == n
      invariant forall k | 0 <= k < n && Readable(files, context[k]) :: IsReadAs(files, context, k, contents[k])
    {
      var c := ReadToken(files, sources, ranges[n], context[n]);
      contents := contents + [c];
    }
  }

  /** Splicing the sources and reading every label: each one is read, and read as its token. */
  method ReadLabels(files: Files, token: TokenRange, context: seq<TokenRange>) returns (contents: seq<Option<Contents>>)
    requires files.Valid() && forall t | t in context :: t.Valid()
    requires |files.text(token.beg.source)| + TextOfAll(files, context) <= ISIZE_MAX
    ensures |contents| == |context|
    ensures forall k | 0 <= k < |context| && Readable(files, context[k]) :: IsReadAs(files, context, k, contents[k])
  {
    var sources, ranges, placed := SourceWithOrderedContext(files, token, context);
    contents := ReadEach(files, context, sources, ranges);
  }
}
