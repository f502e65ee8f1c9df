/** The sources and labels of two diagnostics: whole files in reverse, and ordered excerpts. */
module DiagnosticSources {
  import opened MachineIntegers
  import opened SourceText
  import opened SplicedSources
  import opened OrderedContext

  const U32_RANGE: int := U32_MAX + 1

  /** `range.offset(value)`, on 32-bit positions that wrap; a build with overflow checks panics instead. */
  function Shifted(t: TokenRange, value: u32): TokenRange {
    TokenRange(t.beg.(pos := (t.beg.pos + value) % U32_RANGE), t.end.(pos := (t.end.pos + value) % U32_RANGE))
  }

  /** The span of any range, on 64-bit lengths. */
  function WrappedSpan(t: TokenRange): SourceSpan {
    SourceSpan(t.beg.pos, (t.end.pos - t.beg.pos + t.end.length) % (USIZE_MAX + 1))
  }

  /** The token label `j` belongs to: the `j`-th from the end. */
  function Labelled(context: seq<TokenRange>, j: nat): TokenRange
    requires j < |context|
  {
    context[|context| - 1 - j]
  }

  /** Label `j` is its token's span, moved to where source `j + 1` starts, which is the token's whole file. */
  predicate LabelPlaced(files: Files, sources: seq<Source>, ranges: seq<SourceSpan>, context: seq<TokenRange>, j: nat)
    requires j < |context| && j < |ranges| && j + 1 < |sources|
  {
    var t := Labelled(context, j);
    && sources[j + 1] == Source(files.path(t.beg.source), files.text(t.beg.source), 0)
    && ranges[j] == WrappedSpan(Shifted(t, Base(sources, j + 1) % U32_RANGE))
  }

  predicate LabelsPlaced(files: Files, sources: seq<Source>, ranges: seq<SourceSpan>, context: seq<TokenRange>) {
    && |ranges| <= |context| && |sources| == |ranges| + 1
    && forall j | 0 <= j < |ranges| :: LabelPlaced(files, sources, ranges, context, j)
  }

  lemma OneMorePlaced(files: Files, sources: seq<Source>, ranges: seq<SourceSpan>, context: seq<TokenRange>, s: Source, span: SourceSpan)
    requires LabelsPlaced(files, sources, ranges, context) && |ranges| < |context|
    requires var t := Labelled(context, |ranges|);
      && s == Source(files.path(t.beg.source), files.text(t.beg.source), 0)
      && span == WrappedSpan(Shifted(t, Base(sources, |sources|) % U32_RANGE))
    ensures LabelsPlaced(files, sources + [s], ranges + [span], context)
    ensures Base(sources + [s], |sources| + 1) == Base(sources, |sources|) + |s.text|
  {
    BaseOfPrefix(sources, [s], |sources|);
    forall j | 0 <= j < |ranges| ensures LabelPlaced(files, sources + [s], ranges + [span], context, j) {
      assert LabelPlaced(files, sources, ranges, context, j);
      BaseOfPrefix(sources, [s], j + 1);
    }
  }

  /** Where the file of label `j` starts: after the file of `token` and those of the labels before. */
  function LabelBase(files: Files, token: TokenRange, context: seq<TokenRange>, j: nat): nat
    requires j <= |context|
  {
    if j == 0 then |files.text(token.beg.source)| else
      LabelBase(files, token, context, j - 1) + |files.text(Labelled(context, j - 1).beg.source)|
  }

  /** The 32-bit positions of label `j` do not overflow. */
  predicate PositionsFit(files: Files, token: TokenRange, context: seq<TokenRange>, j: nat)
    requires j < |context|
  {
    LabelBase(files, token, context, j) + Labelled(context, j).end.pos <= U32_MAX
  }

  /** What `SourceWithContext` makes of `token` and `context`. */
  predicate Spliced(files: Files, token: TokenRange, sources: seq<Source>, ranges: seq<SourceSpan>, context: seq<TokenRange>) {
    && LabelsPlaced(files, sources, ranges, context)
    && sources[0] == Source(files.path(token.beg.source), files.text(token.beg.source), 0)
  }

  lemma {:induction false} BaseOfLabel(files: Files, token: TokenRange, sources: seq<Source>, ranges: seq<SourceSpan>, context: seq<TokenRange>, j: nat)
    requires Spliced(files, token, sources, ranges, context) && j <= |ranges|
    ensures Base(sources, j + 1) == LabelBase(files, token, context, j)
  {
    if j == 0 {
      assert Base(sources, 1) == Base(sources, 0) + |sources[0].text|;
    } else {
      BaseOfLabel(files, token, sources, ranges, context, j - 1);
      assert LabelPlaced(files, sources, ranges, context, j - 1);
    }
  }

  /** Labels come in reverse. */
  method SourceWithContext(files: Files, token: TokenRange, context: seq<TokenRange>)
    returns (sources: seq<Source>, ranges: seq<SourceSpan>)
    ensures |ranges| == |context| && Spliced(files, token, sources, ranges, context)
  {
    var first := files.text(token.beg.source);
    var base := |first|;
    ranges := [];
    sources := [Source(files.path(token.beg.source), first, 0)];
    assert Base(sources, 1) == Base(sources, 0) + |sources[0].text|;
    for n := 0 to |context|
      invariant |ranges| == n && Spliced(files, token, sources, ranges, context)
      invariant base == Base(sources, |sources|)
    {
      var t := context[|context| - 1 - n];
      var text := files.text(t.beg.source);
      var range := Shifted(t, base % U32_RANGE);
      var source := Source(files.path(t.beg.source), text, 0);
      OneMorePlaced(files, sources, ranges, context, source, WrappedSpan(range));
      ranges := ranges + [WrappedSpan(range)];
      base := base + |text|;
      sources := sources + [source];
    }
  }

  // ---- When the labels read back ----

  lemma Wraps(x: nat)
    requires x < 2 * U32_RANGE
    ensures x % U32_RANGE == if x <= U32_MAX then x else x - U32_RANGE
  {
  }

  predicate InText(t: TokenRange, length: nat) {
    t.Valid() && t.Span().length > 0 && t.Span().offset + t.Span().length <= length <= ISIZE_MAX
  }

  /** While its 32-bit positions do not overflow, a moved span is the span at its new place. */
  lemma MovedSpanFits(base: nat, t: TokenRange, length: nat)
    requires InText(t, length) && base + t.end.pos <= U32_MAX
    ensures WrappedSpan(Shifted(t, base % U32_RANGE)) == SourceSpan(base + t.beg.pos, t.Span().length)
  {
    Wraps(base);
    Wraps(t.end.pos + base);
    Wraps(t.beg.pos + base);
  }

  /** Otherwise it starts before its file, or has another length. */
  lemma MovedSpanOverflows(base: nat, t: TokenRange, length: nat)
    requires InText(t, length) && base + t.end.pos > U32_MAX
    ensures var moved := WrappedSpan(Shifted(t, base % U32_RANGE));
      moved.offset < base || moved.length != t.Span().length
  {
    if base <= U32_MAX {
      Wraps(base);
      Wraps(t.end.pos + base);
      Wraps(t.beg.pos + base);
    }
  }

  lemma FittingLabelReadsBack(files: Files, token: TokenRange, sources: seq<Source>, ranges: seq<SourceSpan>, context: seq<TokenRange>, j: nat)
    requires files.Valid() && Spliced(files, token, sources, ranges, context)
    requires j < |ranges| && Readable(files, Labelled(context, j)) && PositionsFit(files, token, context, j)
    ensures ReadsBackFrom(files, sources, ranges[j], Labelled(context, j), j + 1)
    ensures KnowsLine(files, Labelled(context, j)) ==> ReadsBackLine(files, sources, ranges[j], Labelled(context, j))
  {
    var t := Labelled(context, j);
    assert LabelPlaced(files, sources, ranges, context, j);
    BaseOfLabel(files, token, sources, ranges, context, j);
    MovedSpanFits(Base(sources, j + 1), t, |files.text(t.beg.source)|);
    assert ranges[j].offset - Base(sources, j + 1) == t.Span().offset;
    OnlySource(files, sources, ranges[j], t, j + 1);
  }

  /**
   * A label reads back as its token from its own source exactly when its 32-bit positions do not
   * overflow. If they do, it can read back at most from the source of an earlier label.
   */
  lemma LabelReadsBackIffItFits(files: Files, token: TokenRange, sources: seq<Source>, ranges: seq<SourceSpan>, context: seq<TokenRange>, j: nat)
    requires files.Valid() && Spliced(files, token, sources, ranges, context)
    requires j < |ranges| && Readable(files, Labelled(context, j))
    ensures ReadsBackFrom(files, sources, ranges[j], Labelled(context, j), j + 1) <==> PositionsFit(files, token, context, j)
    ensures ReadsBack(files, sources, ranges[j], Labelled(context, j)) ==>
      PositionsFit(files, token, context, j) || exists i :: i <= j && ReadsBackFrom(files, sources, ranges[j], Labelled(context, j), i)
  {
    var t := Labelled(context, j);
    if PositionsFit(files, token, context, j) {
      FittingLabelReadsBack(files, token, sources, ranges, context, j);
    } else {
      assert LabelPlaced(files, sources, ranges, context, j);
      BaseOfLabel(files, token, sources, ranges, context, j);
      MovedSpanOverflows(Base(sources, j + 1), t, |files.text(t.beg.source)|);
      assert |BytesOf(files, t)| == t.Span().length;
      if i :| ReadsBackFrom(files, sources, ranges[j], t, i) {
        assert ranges[j].length == t.Span().length;
        if i > j { BaseGrows(sources, j + 1, i); }
      }
    }
  }

  // ---- Two diagnostics ----

  /** Each of the spans reads back as the token it was made for. */
  ghost predicate AllReadBack(files: Files, sources: seq<Source>, spans: seq<SourceSpan>, tokens: seq<TokenRange>) {
    && |spans| == |tokens|
    && forall k | 0 <= k < |tokens| && Readable(files, tokens[k]) :: ReadsBack(files, sources, spans[k], tokens[k])
  }

  /** And on the token's line. */
  ghost predicate AllReadLines(files: Files, sources: seq<Source>, spans: seq<SourceSpan>, tokens: seq<TokenRange>) {
    && |spans| == |tokens|
    && forall k | 0 <= k < |tokens| && Readable(files, tokens[k]) :: ReadsBackLine(files, sources, spans[k], tokens[k])
  }

  /** Labels of two lists of tokens, one after the other. */
  lemma PartsReadBack(files: Files, sources: seq<Source>, spans: seq<SourceSpan>, first: seq<TokenRange>, second: seq<TokenRange>)
    requires AllReadBack(files, sources, spans, first + second)
    ensures AllReadBack(files, sources, spans[..|first|], first) && AllReadBack(files, sources, spans[|first|..], second)
    ensures AllReadLines(files, sources, spans, first + second) ==>
      AllReadLines(files, sources, spans[..|first|], first) && AllReadLines(files, sources, spans[|first|..], second)
  {
    var tokens := first + second;
    forall k | 0 <= k < |first| && Readable(files, first[k])
      ensures ReadsBack(files, sources, spans[..|first|][k], first[k])
      ensures AllReadLines(files, sources, spans, tokens) ==> ReadsBackLine(files, sources, spans[..|first|][k], first[k])
    {
      assert tokens[k] == first[k] && spans[..|first|][k] == spans[k];
    }
    forall k | 0 <= k < |second| && Readable(files, second[k])
      ensures ReadsBack(files, sources, spans[|first|..][k], second[k])
      ensures AllReadLines(files, sources, spans, tokens) ==> ReadsBackLine(files, sources, spans[|first|..][k], second[k])
    {
      assert tokens[|first| + k] == second[k] && spans[|first|..][k] == spans[|first| + k];
    }
  }

  /** Participants first, then dependency sites; both keep their order. */
  method CombinationalLoop(files: Files, token: TokenRange, participants: seq<TokenRange>, sites: seq<TokenRange>)
    returns (sources: seq<Source>, loopParticipants: seq<SourceSpan>, dependencySites: seq<SourceSpan>)
    requires files.Valid() && forall t | t in participants + sites :: t.Valid()
    requires |files.text(token.beg.source)| + TextOfAll(files, participants + sites) <= ISIZE_MAX
    ensures Bounded(sources)
    ensures AllReadBack(files, sources, loopParticipants, participants)
    ensures AllReadBack(files, sources, dependencySites, sites)
    ensures (forall t | t in participants + sites :: Truthful(files, t)) ==>
      AllReadLines(files, sources, loopParticipants, participants) && AllReadLines(files, sources, dependencySites, sites)
  {
    var context := participants + sites;
    var ranges;
    ghost var placed;
    sources, ranges, placed := SourceWithOrderedContext(files, token, context);
    loopParticipants, dependencySites := ranges[..|participants|], ranges[|participants|..];
    PartsReadBack(files, sources, ranges, participants, sites);
  }

  function Reversed(tokens: seq<TokenRange>): (r: seq<TokenRange>)
    ensures |r| == |tokens| && forall k | 0 <= k < |tokens| :: r[k] == tokens[|tokens| - 1 - k]
  {
    seq(|tokens|, k requires 0 <= k < |tokens| => tokens[|tokens| - 1 - k])
  }

  /** The quoted files together stay within 32-bit positions. */
  predicate Small(files: Files, token: TokenRange, context: seq<TokenRange>) {
    LabelBase(files, token, context, |context|) <= U32_MAX
  }

  lemma {:induction false} LabelBaseGrows(files: Files, token: TokenRange, context: seq<TokenRange>, i: nat, j: nat)
    requires i <= j <= |context|
    ensures LabelBase(files, token, context, i) <= LabelBase(files, token, context, j)
  {
    if i < j { LabelBaseGrows(files, token, context, i, j - 1); }
  }

  predicate KnowLines(files: Files, tokens: seq<TokenRange>) {
    forall t | t in tokens :: t.Valid() && KnowsLine(files, t)
  }

  /** Then all labels read back, in reverse. */
  lemma SmallLabelsReadBack(files: Files, token: TokenRange, sources: seq<Source>, ranges: seq<SourceSpan>, context: seq<TokenRange>)
    requires files.Valid() && Spliced(files, token, sources, ranges, context) && Small(files, token, context) && |ranges| == |context|
    ensures AllReadBack(files, sources, ranges, Reversed(context))
    ensures KnowLines(files, context) ==> AllReadLines(files, sources, ranges, Reversed(context))
  {
    forall j | 0 <= j < |context| && Readable(files, Labelled(context, j))
      ensures ReadsBack(files, sources, ranges[j], Labelled(context, j))
      ensures KnowsLine(files, Labelled(context, j)) ==> ReadsBackLine(files, sources, ranges[j], Labelled(context, j))
    {
      LabelBaseGrows(files, token, context, j + 1, |context|);
      FittingLabelReadsBack(files, token, sources, ranges, context, j);
      assert ReadsBackFrom(files, sources, ranges[j], Labelled(context, j), j + 1);
    }
    assert forall j | 0 <= j < |context| :: Reversed(context)[j] == Labelled(context, j) && Labelled(context, j) in context;
  }

  /** The quoted tokens, last label first. */
  function Quoted(definition: TokenRange, calls: seq<TokenRange>, writes: seq<TokenRange>): seq<TokenRange> {
    if writes == [] then [definition] else Reversed(writes) + Reversed(calls)
  }

  lemma ReversedTwice(calls: seq<TokenRange>, writes: seq<TokenRange>)
    ensures Reversed(Reversed(writes) + Reversed(calls)) == calls + writes
  {
    var r := Reversed(Reversed(writes) + Reversed(calls));
    assert forall k | 0 <= k < |calls| :: r[k] == Reversed(calls)[|calls| - 1 - k] == calls[k];
    assert forall k | 0 <= k < |writes| :: r[|calls| + k] == Reversed(writes)[|writes| - 1 - k] == writes[k];
  }

  lemma CallsAndWritesReadBack(files: Files, token: TokenRange, sources: seq<Source>, ranges: seq<SourceSpan>,
                               calls: seq<TokenRange>, writes: seq<TokenRange>)
    requires files.Valid() && |ranges| == |calls| + |writes|
    requires var context := Reversed(writes) + Reversed(calls);
      Spliced(files, token, sources, ranges, context) && Small(files, token, context)
    ensures AllReadBack(files, sources, ranges[..|calls|], calls) && AllReadBack(files, sources, ranges[|calls|..], writes)
    ensures KnowLines(files, Reversed(writes) + Reversed(calls)) ==>
      AllReadLines(files, sources, ranges[..|calls|], calls) && AllReadLines(files, sources, ranges[|calls|..], writes)
  {
    ReversedTwice(calls, writes);
    SmallLabelsReadBack(files, token, sources, ranges, Reversed(writes) + Reversed(calls));
    PartsReadBack(files, sources, ranges, calls, writes);
  }

  /** The three lists of labels read back as the tokens they were made for; without writes only the definition is shown. */
  ghost predicate ShowsAll(files: Files, sources: seq<Source>, definition: TokenRange, calls: seq<TokenRange>, writes: seq<TokenRange>,
                           callStack: seq<SourceSpan>, externalWrites: seq<SourceSpan>, functionDefinition: seq<SourceSpan>)
  {
    if writes == [] then AllReadBack(files, sources, functionDefinition, [definition])
    else AllReadBack(files, sources, callStack, calls) && AllReadBack(files, sources, externalWrites, writes)
  }

  ghost predicate ShowsLines(files: Files, sources: seq<Source>, definition: TokenRange, calls: seq<TokenRange>, writes: seq<TokenRange>,
                             callStack: seq<SourceSpan>, externalWrites: seq<SourceSpan>, functionDefinition: seq<SourceSpan>)
  {
    if writes == [] then AllReadLines(files, sources, functionDefinition, [definition])
    else AllReadLines(files, sources, callStack, calls) && AllReadLines(files, sources, externalWrites, writes)
  }

  /** Two reversals cancel: the calls come in order, then the writes in order. */
  method SideEffectFunctionCallInAlwaysFf(files: Files, token: TokenRange, definition: TokenRange,
                                          calls: seq<TokenRange>, writes: seq<TokenRange>)
    returns (sources: seq<Source>, callStack: seq<SourceSpan>, externalWrites: seq<SourceSpan>, functionDefinition: seq<SourceSpan>)
    requires files.Valid()
    ensures if writes == [] then callStack == [] && externalWrites == [] else functionDefinition == []
    ensures Small(files, token, Quoted(definition, calls, writes)) ==>
      ShowsAll(files, sources, definition, calls, writes, callStack, externalWrites, functionDefinition)
    ensures Small(files, token, Quoted(definition, calls, writes)) && KnowLines(files, Quoted(definition, calls, writes)) ==>
      ShowsLines(files, sources, definition, calls, writes, callStack, externalWrites, functionDefinition)
  {
    callStack, externalWrites, functionDefinition := [], [], [];
    if writes == [] {
      sources, functionDefinition := SourceWithContext(files, token, [definition]);
      if Small(files, token, [definition]) {
        SmallLabelsReadBack(files, token, sources, functionDefinition, [definition]);
        assert Reversed([definition]) == [definition];
      }
    } else {
      var ranges;
      sources, ranges := SourceWithContext(files, token, Reversed(writes) + Reversed(calls));
      callStack, externalWrites := ranges[..|calls|], ranges[|calls|..];
      if Small(files, token, Reversed(writes) + Reversed(calls)) {
        CallsAndWritesReadBack(files, token, sources, ranges, calls, writes);
      }
    }
  }
}
