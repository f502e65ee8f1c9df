/** Ids on the wire, and how they are rebased when read. */
module FragmentCodec {
  import opened Options

  datatype Result<+T> = Ok(value: T) | Error

  datatype Kind = Token | Text | Symbol | Definition

  /** An id inside a payload. */
  datatype Ref = Ref(kind: Kind, id: nat)

  /** The ids `start + 1` to `end`. */
  datatype IdWindow = IdWindow(start: nat, end: nat) {
    predicate Holds(id: nat) {
      start < id <= end
    }

    function Encode(id: nat): Result<nat> {
      if Holds(id) then Ok(id - start - 1) else Error
    }
  }

  datatype IdRebase = IdRebase(base: nat, count: nat) {
    function Decode(local: nat): Result<nat> {
      if local < count then Ok(base + local + 1) else Error
    }

    function Window(): IdWindow {
      IdWindow(base, base + count)
    }
  }

  /** Symbol and definition ids have 0 for an unresolved reference; it keeps its own wire value. */
  function EncodeSentinel(w: IdWindow, id: nat): Result<nat> {
    if id == 0 then Ok(0) else
      match w.Encode(id)
      case Ok(v) => Ok(v + 1)
      case Error => Error
  }

  function DecodeSentinel(r: IdRebase, value: nat): Result<nat> {
    if value == 0 then Ok(0) else r.Decode(value - 1)
  }

  predicate HasSentinel(k: Kind) {
    k == Symbol || k == Definition
  }

  datatype Windows = Windows(token: IdWindow, text: IdWindow, symbol: IdWindow, definition: IdWindow) {
    function Of(k: Kind): IdWindow {
      match k
      case Token => token
      case Text => text
      case Symbol => symbol
      case Definition => definition
    }
  }

  datatype Rebases = Rebases(token: IdRebase, text: IdRebase, symbol: IdRebase, definition: IdRebase) {
    function Of(k: Kind): IdRebase {
      match k
      case Token => token
      case Text => text
      case Symbol => symbol
      case Definition => definition
    }
  }

  /** Without a session ids are written as they are. */
  function EncodeRef(session: Option<Windows>, r: Ref): Result<nat> {
    if session.None? then Ok(r.id)
    else if HasSentinel(r.kind) then EncodeSentinel(session.value.Of(r.kind), r.id)
    else session.value.Of(r.kind).Encode(r.id)
  }

  function DecodeRef(session: Option<Rebases>, kind: Kind, value: nat): Result<Ref> {
    var id := if session.None? then Ok(value)
              else if HasSentinel(kind) then DecodeSentinel(session.value.Of(kind), value)
              else session.value.Of(kind).Decode(value);
    match id
    case Ok(n) => Ok(Ref(kind, n))
    case Error => Error
  }

  /** The id may appear in a fragment of these windows. */
  predicate Belongs(w: Windows, r: Ref) {
    (HasSentinel(r.kind) && r.id == 0) || w.Of(r.kind).Holds(r.id)
  }

  /** The id moved from its window onto the new range; the sentinel stays. */
  function Shifted(w: Windows, b: Rebases, r: Ref): Ref {
    if r.id > w.Of(r.kind).start && r.id != 0 then Ref(r.kind, b.Of(r.kind).base + (r.id - w.Of(r.kind).start)) else r
  }

  /** The ranges are as large as the windows. */
  predicate Fits(w: Windows, b: Rebases) {
    forall k: Kind :: w.Of(k).start <= w.Of(k).end && b.Of(k).count == w.Of(k).end - w.Of(k).start
  }

  /** An id is written exactly if it belongs, and reads back moved onto the new range. */
  lemma RefRoundTrip(w: Windows, b: Rebases, r: Ref)
    requires Fits(w, b)
    ensures EncodeRef(Some(w), r).Ok? <==> Belongs(w, r)
    ensures Belongs(w, r) ==> DecodeRef(Some(b), r.kind, EncodeRef(Some(w), r).value) == Ok(Shifted(w, b, r))
  {
    assert w.Of(r.kind).start <= w.Of(r.kind).end && b.Of(r.kind).count == w.Of(r.kind).end - w.Of(r.kind).start;
  }

  /** What is read lies in the new range or is the sentinel, whatever the bytes. */
  lemma DecodedIsFresh(b: Rebases, kind: Kind, value: nat)
    ensures DecodeRef(Some(b), kind, value).Ok? ==>
      && var r := DecodeRef(Some(b), kind, value).value;
      && r.kind == kind && (b.Of(kind).Window().Holds(r.id) || (HasSentinel(kind) && r.id == 0))
  {
  }

  // ---- Payloads ----

  /** A definition: its syntax tree with its ids taken out, and the ids in order. */
  datatype Body = Body(syntax: string, refs: seq<Ref>)

  /** A definition under its id, or any other entry with ids in it. */
  datatype Entry = Entry(id: Ref, body: Body)

  datatype WireEntry = WireEntry(kind: Kind, id: nat, syntax: string, refs: seq<(Kind, nat)>)

  function EncodeRefs(session: Option<Windows>, refs: seq<Ref>): Result<seq<(Kind, nat)>> {
    if refs == [] then Ok([]) else
      var front, last := EncodeRefs(session, refs[..|refs| - 1]), EncodeRef(session, refs[|refs| - 1]);
      if front.Error? || last.Error? then Error else Ok(front.value + [(refs[|refs| - 1].kind, last.value)])
  }

  function DecodeRefs(session: Option<Rebases>, wire: seq<(Kind, nat)>): Result<seq<Ref>> {
    if wire == [] then Ok([]) else
      var front := DecodeRefs(session, wire[..|wire| - 1]);
      var last := DecodeRef(session, wire[|wire| - 1].0, wire[|wire| - 1].1);
      if front.Error? || last.Error? then Error else Ok(front.value + [last.value])
  }

  function EncodeEntry(session: Option<Windows>, e: Entry): Result<WireEntry> {
    var id, refs := EncodeRef(session, e.id), EncodeRefs(session, e.body.refs);
    if id.Error? || refs.Error? then Error else Ok(WireEntry(e.id.kind, id.value, e.body.syntax, refs.value))
  }

  function DecodeEntry(session: Option<Rebases>, w: WireEntry): Result<Entry> {
    var id, refs := DecodeRef(session, w.kind, w.id), DecodeRefs(session, w.refs);
    if id.Error? || refs.Error? then Error else Ok(Entry(id.value, Body(w.syntax, refs.value)))
  }

  function EncodeEntries(session: Option<Windows>, entries: seq<Entry>): Result<seq<WireEntry>> {
    if entries == [] then Ok([]) else
      var front, last := EncodeEntries(session, entries[..|entries| - 1]), EncodeEntry(session, entries[|entries| - 1]);
      if front.Error? || last.Error? then Error else Ok(front.value + [last.value])
  }

  function DecodeEntries(session: Option<Rebases>, wire: seq<WireEntry>): Result<seq<Entry>> {
    if wire == [] then Ok([]) else
      var front, last := DecodeEntries(session, wire[..|wire| - 1]), DecodeEntry(session, wire[|wire| - 1]);
      if front.Error? || last.Error? then Error else Ok(front.value + [last.value])
  }

  function ShiftedRefs(w: Windows, b: Rebases, refs: seq<Ref>): (r: seq<Ref>)
    ensures |r| == |refs| && forall i | 0 <= i < |refs| :: r[i] == Shifted(w, b, refs[i])
  {
    seq(|refs|, i requires 0 <= i < |refs| => Shifted(w, b, refs[i]))
  }

  function ShiftedEntry(w: Windows, b: Rebases, e: Entry): Entry {
    Entry(Shifted(w, b, e.id), Body(e.body.syntax, ShiftedRefs(w, b, e.body.refs)))
  }

  function ShiftedEntries(w: Windows, b: Rebases, entries: seq<Entry>): (r: seq<Entry>)
    ensures |r| == |entries| && forall i | 0 <= i < |entries| :: r[i] == ShiftedEntry(w, b, entries[i])
  {
    seq(|entries|, i requires 0 <= i < |entries| => ShiftedEntry(w, b, entries[i]))
  }

  predicate EntryBelongs(w: Windows, e: Entry) {
    Belongs(w, e.id) && forall r | r in e.body.refs :: Belongs(w, r)
  }

  lemma {:induction false} RefsRoundTrip(w: Windows, b: Rebases, refs: seq<Ref>)
    requires Fits(w, b)
    ensures EncodeRefs(Some(w), refs).Ok? <==> forall r | r in refs :: Belongs(w, r)
    ensures EncodeRefs(Some(w), refs).Ok? ==>
      DecodeRefs(Some(b), EncodeRefs(Some(w), refs).value) == Ok(ShiftedRefs(w, b, refs))
  {
    if refs != [] {
      var front, last := refs[..|refs| - 1], refs[|refs| - 1];
      assert forall r :: r in refs <==> r in front || r == last;
      RefsRoundTrip(w, b, front);
      RefRoundTrip(w, b, last);
      if EncodeRefs(Some(w), refs).Ok? {
        var wire := EncodeRefs(Some(w), refs).value;
        assert wire[..|wire| - 1] == EncodeRefs(Some(w), front).value;
        assert ShiftedRefs(w, b, refs) == ShiftedRefs(w, b, front) + [Shifted(w, b, last)];
      }
    }
  }

  lemma EntryRoundTrip(w: Windows, b: Rebases, e: Entry)
    requires Fits(w, b)
    ensures EncodeEntry(Some(w), e).Ok? <==> EntryBelongs(w, e)
    ensures EntryBelongs(w, e) ==> DecodeEntry(Some(b), EncodeEntry(Some(w), e).value) == Ok(ShiftedEntry(w, b, e))
  {
    RefRoundTrip(w, b, e.id);
    RefsRoundTrip(w, b, e.body.refs);
  }

  /** A payload is written exactly if every id in it belongs, and reads back with every id moved, in the same order. */
  lemma {:induction false} EntriesRoundTrip(w: Windows, b: Rebases, entries: seq<Entry>)
    requires Fits(w, b)
    ensures EncodeEntries(Some(w), entries).Ok? <==> forall e | e in entries :: EntryBelongs(w, e)
    ensures EncodeEntries(Some(w), entries).Ok? ==>
      DecodeEntries(Some(b), EncodeEntries(Some(w), entries).value) == Ok(ShiftedEntries(w, b, entries))
  {
    if entries != [] {
      var front, last := entries[..|entries| - 1], entries[|entries| - 1];
      assert forall e :: e in entries <==> e in front || e == last;
      EntriesRoundTrip(w, b, front);
      EntryRoundTrip(w, b, last);
      if EncodeEntries(Some(w), entries).Ok? {
        var wire := EncodeEntries(Some(w), entries).value;
        assert wire[..|wire| - 1] == EncodeEntries(Some(w), front).value;
        assert ShiftedEntries(w, b, entries) == ShiftedEntries(w, b, front) + [ShiftedEntry(w, b, last)];
      }
    }
  }
}
