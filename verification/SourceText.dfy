/** Lines and excerpts of a source text. */
module SourceText {
  import opened Options
  import opened MachineIntegers

  type byte = x: int | 0 <= x < 256

  type Text = seq<byte>

  const CR: byte := 13
  const LF: byte := 10

  // ---- UTF-8 ----

  predicate Continuation(b: byte) {
    0x80 <= b < 0xC0
  }

  /** The length of the character that starts with `b`. */
  function CharLength(b: byte): nat {
    if b < 0x80 then 1 else if b < 0xE0 then 2 else if b < 0xF0 then 3 else 4
  }

  /** A sequence of characters, each a leading byte with its continuation bytes. */
  predicate Utf8(text: Text) {
    text == [] || (
      && !Continuation(text[0]) && CharLength(text[0]) <= |text|
      && (forall i | 1 <= i < CharLength(text[0]) :: Continuation(text[i]))
      && Utf8(text[CharLength(text[0])..]))
  }

  predicate IsCharBoundary(text: Text, i: nat) {
    i == |text| || (i < |text| && !Continuation(text[i]))
  }

  /** Only a leading byte can follow an ASCII byte. */
  lemma {:induction false} AfterAscii(text: Text, i: nat)
    requires Utf8(text) && 0 < i <= |text| && text[i - 1] < 0x80
    ensures IsCharBoundary(text, i)
  {
    var n := CharLength(text[0]);
    if n < i {
      AfterAscii(text[n..], i - n);
    } else if n == i && i < |text| {
      assert Utf8(text[n..]);
    }
  }

  lemma StartIsBoundary(text: Text)
    requires Utf8(text)
    ensures IsCharBoundary(text, 0)
  {
  }

  /** `text.get(start..end)`. */
  function Get(text: Text, start: nat, end: nat): Option<Text> {
    if start <= end <= |text| && IsCharBoundary(text, start) && IsCharBoundary(text, end) then Some(text[start..end]) else None
  }

  // ---- Lines: LF, CR and CRLF each end one ----

  predicate IsTerminator(b: byte) {
    b == CR || b == LF
  }

  /** A line ends with byte `i`; a CRLF ends it once, with the LF. */
  predicate EndsLine(text: Text, i: nat)
    requires i < |text|
  {
    text[i] == LF || (text[i] == CR && !(i + 1 < |text| && text[i + 1] == LF))
  }

  predicate IsLineStart(text: Text, i: nat) {
    i <= |text| && (i == 0 || EndsLine(text, i - 1))
  }

  predicate InsideCrlf(text: Text, i: nat) {
    0 < i < |text| && text[i - 1] == CR && text[i] == LF
  }

  /** The number of lines that end before position `i`, which is the zero-based line of `i`. */
  function Breaks(text: Text, i: nat): nat
    requires i <= |text|
  {
    if i == 0 then 0 else Breaks(text, i - 1) + if EndsLine(text, i - 1) then 1 else 0
  }

  lemma {:induction false} NoBreaksBetween(text: Text, i: nat, j: nat)
    requires i <= j <= |text| && forall k | i <= k < j :: !EndsLine(text, k)
    ensures Breaks(text, i) == Breaks(text, j)
  {
    if i < j { NoBreaksBetween(text, i, j - 1); }
  }

  lemma {:induction false} FewBreaks(text: Text, i: nat)
    requires i <= |text|
    ensures Breaks(text, i) <= i
  {
    if i > 0 { FewBreaks(text, i - 1); }
  }

  lemma {:induction false} BreaksGrow(text: Text, i: nat, j: nat)
    requires i <= j <= |text|
    ensures Breaks(text, i) <= Breaks(text, j)
  {
    if i < j { BreaksGrow(text, i, j - 1); }
  }

  /** After the last terminator before `position`. */
  function LineStart(text: Text, position: nat): (r: nat)
    requires position <= |text|
    ensures r <= position && (r == 0 || IsTerminator(text[r - 1]))
    ensures forall k | r <= k < position :: !IsTerminator(text[k])
  {
    if position == 0 || IsTerminator(text[position - 1]) then position else LineStart(text, position - 1)
  }

  function PreviousLineStart(text: Text, current: nat): nat
    requires 0 < current <= |text|
  {
    var terminator := if current >= 2 && text[current - 2] == CR && text[current - 1] == LF then current - 2 else current - 1;
    LineStart(text, terminator)
  }

  /** The first terminator from `position` on, if any. */
  function FindTerminator(text: Text, position: nat): (r: Option<nat>)
    requires position <= |text|
    ensures r.None? ==> forall k | position <= k < |text| :: !IsTerminator(text[k])
    ensures r.Some? ==> position <= r.value < |text| && IsTerminator(text[r.value])
    ensures r.Some? ==> forall k | position <= k < r.value :: !IsTerminator(text[k])
    decreases |text| - position
  {
    if position == |text| then None
    else if IsTerminator(text[position]) then Some(position)
    else FindTerminator(text, position + 1)
  }

  function NextLineEnd(text: Text, position: nat): nat
    requires position <= |text|
  {
    match FindTerminator(text, position)
    case None => |text|
    case Some(terminator) =>
      if text[terminator] == CR && terminator + 1 < |text| && text[terminator + 1] == LF then terminator + 2 else terminator + 1
  }

  /** `LineStart` is the start of the position's line, unless the position splits a CRLF. */
  lemma LineStartIsRight(text: Text, position: nat)
    requires position <= |text|
    ensures IsLineStart(text, LineStart(text, position)) <==> !InsideCrlf(text, position)
    ensures Breaks(text, LineStart(text, position)) == Breaks(text, position)
  {
    NoBreaksBetween(text, LineStart(text, position), position);
  }

  /** From the start of a line it is one line up; from inside a CRLF it is the start of the line just ended. */
  lemma PreviousLineStartIsRight(text: Text, current: nat)
    requires 0 < current <= |text| && (IsLineStart(text, current) || InsideCrlf(text, current))
    ensures var previous := PreviousLineStart(text, current);
      && previous < current && IsLineStart(text, previous)
      && Breaks(text, current) == Breaks(text, previous) + if InsideCrlf(text, current) then 0 else 1
  {
    var terminator := if current >= 2 && text[current - 2] == CR && text[current - 1] == LF then current - 2 else current - 1;
    LineStartIsRight(text, terminator);
    assert !InsideCrlf(text, terminator);
    assert Breaks(text, terminator + 1) == Breaks(text, terminator) + if EndsLine(text, terminator) then 1 else 0;
  }

  /** One line further, or the end of the text. */
  lemma NextLineEndIsRight(text: Text, position: nat)
    requires position <= |text|
    ensures var end := NextLineEnd(text, position);
      && position <= end <= |text|
      && (end == |text| || IsLineStart(text, end))
      && (end < |text| ==> Breaks(text, end) == Breaks(text, position) + 1)
      && Breaks(text, position) <= Breaks(text, end) <= Breaks(text, position) + 1
  {
    match FindTerminator(text, position) {
      case None => NoBreaksBetween(text, position, |text|);
      case Some(terminator) =>
        NoBreaksBetween(text, position, terminator);
        assert Breaks(text, terminator + 1) == Breaks(text, terminator) + if EndsLine(text, terminator) then 1 else 0;
    }
  }

  // ---- Excerpts ----

  datatype SourceSpan = SourceSpan(offset: usize, length: usize) {
    function End(): Option<usize> {
      CheckedUsize(offset + length)
    }
  }

  /** A window of a text, and the zero-based line it starts on. */
  datatype SourceExcerpt = SourceExcerpt(start: usize, end: usize, lineOffset: usize) {
    /** `span` as seen from inside the excerpt. */
    function LocalSpan(span: SourceSpan): (r: Option<SourceSpan>) {
      var end := span.End();
      if end.None? || span.offset < start || end.value > this.end then None
      else Some(SourceSpan(span.offset - start, span.length))
    }

    /** The excerpt can be cut out of `text`. */
    predicate FitsIn(text: Text) {
      start <= end <= |text| && IsCharBoundary(text, start) && IsCharBoundary(text, end)
    }
  }

  function WholeExcerpt(text: Text): SourceExcerpt
    requires |text| <= ISIZE_MAX
  {
    SourceExcerpt(0, |text|, 0)
  }

  /** The span lies in the text and does not split a character. */
  predicate InBounds(text: Text, span: SourceSpan) {
    span.offset + span.length <= |text| && IsCharBoundary(text, span.offset) && IsCharBoundary(text, span.offset + span.length)
  }

  /** The lines of context before the span; one that splits a CRLF counts a line too many. */
  function ContextBefore(text: Text, span: SourceSpan, excerpt: SourceExcerpt, contextLines: nat): int
    requires InBounds(text, span) && excerpt.start <= |text|
  {
    Breaks(text, span.offset) - Breaks(text, excerpt.start) + if InsideCrlf(text, span.offset) && contextLines > 0 then 1 else 0
  }

  /** Whole lines around the span: up to `contextLines` before its first and after its last. */
  ghost predicate IsWindow(text: Text, span: SourceSpan, spanLine: usize, contextLines: nat, e: SourceExcerpt)
    requires InBounds(text, span)
  {
    var spanEnd := span.offset + span.length;
    && e.start <= span.offset && spanEnd <= e.end && e.FitsIn(text)
    && (e.end == |text| || IsLineStart(text, e.end))
    && (!InsideCrlf(text, span.offset) ==> IsLineStart(text, e.start))
    && var before := ContextBefore(text, span, e, contextLines);
    && 0 <= before <= contextLines && (before < contextLines ==> e.start == 0)
    && var after := Breaks(text, e.end) - Breaks(text, spanEnd);
    && 0 <= after <= contextLines + 1 && (after < contextLines + 1 ==> e.end == |text|)
    && e.lineOffset == Max(0, spanLine - 1 - before)
  }

  method WindowStart(text: Text, position: nat, contextLines: nat) returns (start: nat, before: nat)
    requires Utf8(text) && position <= |text| && IsCharBoundary(text, position)
    ensures start <= position && IsCharBoundary(text, start)
    ensures !InsideCrlf(text, position) ==> IsLineStart(text, start)
    ensures before <= contextLines && (before < contextLines ==> start == 0)
    ensures before == Breaks(text, position) - Breaks(text, start) + if InsideCrlf(text, position) && contextLines > 0 then 1 else 0
  {
    start := LineStart(text, position);
    before := 0;
    LineStartIsRight(text, position);
    if start > 0 { AfterAscii(text, start); }
    StartIsBoundary(text);
    ghost var inside := InsideCrlf(text, position);
    for n := 0 to contextLines
      invariant before == n && start <= position && IsCharBoundary(text, start)
      invariant inside && n == 0 ==> InsideCrlf(text, start)
      invariant !inside || n > 0 ==> IsLineStart(text, start)
      invariant before == Breaks(text, position) - Breaks(text, start) + if inside && n > 0 then 1 else 0
    {
      if start == 0 { break; }
      PreviousLineStartIsRight(text, start);
      start := PreviousLineStart(text, start);
      before := before + 1;
      if start > 0 { AfterAscii(text, start); }
    }
  }

  method WindowEnd(text: Text, position: nat, contextLines: nat) returns (end: nat)
    requires Utf8(text) && position <= |text|
    ensures position <= end <= |text| && IsCharBoundary(text, end)
    ensures end == |text| || IsLineStart(text, end)
    ensures var after := Breaks(text, end) - Breaks(text, position);
      0 <= after <= contextLines + 1 && (after < contextLines + 1 ==> end == |text|)
  {
    end := position;
    for n := 0 to contextLines + 1
      invariant position <= end <= |text| && (n > 0 ==> IsLineStart(text, end)) && (n > 0 ==> end < |text|)
      invariant Breaks(text, end) - Breaks(text, position) == n
    {
      NextLineEndIsRight(text, end);
      end := NextLineEnd(text, end);
      if end == |text| { break; }
    }
    if end < |text| { AfterAscii(text, end); }
  }

  lemma EndsMakeWindow(text: Text, span: SourceSpan, spanLine: usize, contextLines: nat, e: SourceExcerpt, before: int)
    requires InBounds(text, span) && e.start <= span.offset && IsCharBoundary(text, e.start)
    requires !InsideCrlf(text, span.offset) ==> IsLineStart(text, e.start)
    requires 0 <= before <= contextLines && (before < contextLines ==> e.start == 0)
    requires before == ContextBefore(text, span, e, contextLines)
    requires span.offset + span.length <= e.end <= |text| && IsCharBoundary(text, e.end) && (e.end == |text| || IsLineStart(text, e.end))
    requires var after := Breaks(text, e.end) - Breaks(text, span.offset + span.length);
      0 <= after <= contextLines + 1 && (after < contextLines + 1 ==> e.end == |text|)
    requires e.lineOffset == Max(0, spanLine - (before + 1))
    ensures IsWindow(text, span, spanLine, contextLines, e)
  {
  }

  method WindowAround(text: Text, span: SourceSpan, spanLine: usize, contextLines: nat) returns (e: SourceExcerpt)
    requires Utf8(text) && |text| <= ISIZE_MAX && InBounds(text, span)
    ensures IsWindow(text, span, spanLine, contextLines, e)
  {
    var start, before := WindowStart(text, span.offset, contextLines);
    var end := WindowEnd(text, span.offset + span.length, contextLines);
    e := SourceExcerpt(start, end, Max(0, spanLine - (before + 1)));
    EndsMakeWindow(text, span, spanLine, contextLines, e, before);
  }

  lemma InBoundsIff(text: Text, span: SourceSpan)
    requires |text| <= ISIZE_MAX
    ensures InBounds(text, span) <==> var spanEnd := span.End();
      spanEnd.Some? && spanEnd.value <= |text| && IsCharBoundary(text, span.offset) && IsCharBoundary(text, spanEnd.value)
  {
  }

  /** A window of whole lines, for exactly the spans that can be shown. */
  method ExcerptWindow(text: Text, span: SourceSpan, spanLine: usize, contextLines: nat) returns (r: Option<SourceExcerpt>)
    requires Utf8(text) && |text| <= ISIZE_MAX
    ensures r.Some? <==> InBounds(text, span)
    ensures r.Some? ==> IsWindow(text, span, spanLine, contextLines, r.value)
  {
    InBoundsIff(text, span);
    var spanEnd := span.End();
    if spanEnd.None? || spanEnd.value > |text| || !IsCharBoundary(text, span.offset) || !IsCharBoundary(text, spanEnd.value) {
      return None;
    }
    var e := WindowAround(text, span, spanLine, contextLines);
    r := Some(e);
  }

  /** The excerpt starts on the line it says. */
  predicate LineIsRight(text: Text, e: SourceExcerpt) {
    e.start <= |text| && e.lineOffset == Breaks(text, e.start)
  }

  /** A window keeps the line of a span that knows its own, unless the span splits a CRLF further down than the context reaches. */
  lemma WindowKeepsLine(text: Text, span: SourceSpan, spanLine: usize, contextLines: nat, e: SourceExcerpt)
    requires InBounds(text, span) && IsWindow(text, span, spanLine, contextLines, e)
    requires spanLine == Breaks(text, span.offset) + 1
    ensures LineIsRight(text, e) <==> !InsideCrlf(text, span.offset) || contextLines == 0 || spanLine <= contextLines
  {
  }

  /** The LF of the CRLF in "a LF b CR LF c" is on line 2, but every window around it starts a line too early. */
  lemma SplitCrlfLosesALine(e: SourceExcerpt)
    requires var text: Text := [97, LF, 98, CR, LF, 99];
             InBounds(text, SourceSpan(4, 1)) && IsWindow(text, SourceSpan(4, 1), 2, 1, e)
    ensures !LineIsRight([97, LF, 98, CR, LF, 99], e)
  {
    var text: Text := [97, LF, 98, CR, LF, 99];
    assert Breaks(text, 1) == 0 && Breaks(text, 2) == 1;
    assert Breaks(text, 3) == 1 && Breaks(text, 4) == 1;
    WindowKeepsLine(text, SourceSpan(4, 1), 2, 1, e);
  }

  /** Lines are counted inside an excerpt as they are in the whole text. */
  lemma {:induction false} BreaksInside(text: Text, e: SourceExcerpt, i: nat)
    requires e.FitsIn(text) && (e.end == |text| || IsLineStart(text, e.end)) && e.start + i <= e.end
    ensures Breaks(text[e.start..e.end], i) == Breaks(text, e.start + i) - Breaks(text, e.start)
  {
    if i > 0 {
      BreaksInside(text, e, i - 1);
      var inside := text[e.start..e.end];
      assert inside[i - 1] == text[e.start + i - 1];
      assert EndsLine(inside, i - 1) <==> EndsLine(text, e.start + i - 1);
    }
  }
}
