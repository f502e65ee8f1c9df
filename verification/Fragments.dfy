/** Capturing what one file wrote into the tables, and restoring it under fresh ids. */
module Fragments {
  import opened Options
  import opened Sequences
  import opened StableSorts
  import opened FragmentCodec

  /** Definitions by id, with the project of each. */
  type DefinitionTable = map<nat, (string, Body)>

  // ---- Windows of the table ----

  predicate Ascending(entries: seq<Entry>) {
    forall i, j | 0 <= i < j < |entries| :: entries[i].id.id < entries[j].id.id
  }

  predicate IsDefinition(table: DefinitionTable, window: IdWindow, e: Entry) {
    e.id.kind == Definition && e.id.id in table && window.Holds(e.id.id) && e.body == table[e.id.id].1
  }

  /** The definitions in the window, in order of id. */
  ghost predicate IsDefinitionExport(table: DefinitionTable, window: IdWindow, entries: seq<Entry>) {
    && Ascending(entries)
    && forall e :: e in entries <==> IsDefinition(table, window, e)
  }

  /** So there is one export of a window. */
  lemma {:induction false} AscendingIsUnique(s: seq<Entry>, r: seq<Entry>)
    requires Ascending(s) && Ascending(r) && forall e :: e in s <==> e in r
    ensures s == r
  {
    FirstIsIn(s);
    FirstIsIn(r);
    if s != [] && r != [] {
      forall e ensures e in s[1..] <==> e in r[1..] { assert e in s <==> e in r; }
      AscendingIsUnique(s[1..], r[1..]);
    }
  }

  predicate IdLess(e: Entry, f: Entry) {
    e.id.id < f.id.id
  }

  /** Sorting entries of different ids gives strictly ascending ones. */
  lemma SortedAscends(found: seq<Entry>)
    requires DistinctBy((e: Entry) => e.id.id, found)
    ensures Ascending(InOrder(IdLess, found))
    ensures forall e :: e in InOrder(IdLess, found) <==> e in found
  {
    var entries := InOrder(IdLess, found);
    InOrderIsSorted(IdLess, found);
    SameElements(entries, found);
    PermutedStaysDistinct((e: Entry) => e.id.id, found, entries);
    assert forall i, j | 0 <= i < j < |entries| :: !IdLess(entries[j], entries[i]);
  }

  // ---- Inserting ----

  function WithEntries(table: DefinitionTable, prj: string, entries: seq<Entry>): DefinitionTable {
    if entries == [] then table else
      var last := entries[|entries| - 1];
      WithEntries(table, prj, entries[..|entries| - 1])[last.id.id := (prj, last.body)]
  }

  lemma {:induction false} InsertedEntries(table: DefinitionTable, prj: string, entries: seq<Entry>, id: nat)
    requires Ascending(entries)
    ensures (forall i | 0 <= i < |entries| :: entries[i].id.id != id) ==>
      Lookup(WithEntries(table, prj, entries), id) == Lookup(table, id)
    ensures forall i | 0 <= i < |entries| && entries[i].id.id == id ::
      Lookup(WithEntries(table, prj, entries), id) == Some((prj, entries[i].body))
  {
    if entries != [] { InsertedEntries(table, prj, entries[..|entries| - 1], id); }
  }

  // ---- The round trip of the definitions ----

  /** No id of the table is beyond the counter. */
  predicate Issued(table: DefinitionTable, counter: nat) {
    forall id | id in table :: id <= counter
  }

  lemma ShiftedAscends(w: Windows, b: Rebases, entries: seq<Entry>)
    requires Ascending(entries) && forall e | e in entries :: e.id.kind == Definition && w.definition.Holds(e.id.id)
    ensures Ascending(ShiftedEntries(w, b, entries))
  {
    forall i, j | 0 <= i < j < |entries|
      ensures Shifted(w, b, entries[i].id).id < Shifted(w, b, entries[j].id).id
    {
      assert entries[i] in entries && entries[j] in entries;
    }
  }

  /** After a restore the new definition window holds what was captured, moved, in the same order. */
  lemma RestoredExport(captured: DefinitionTable, w: Windows, b: Rebases, entries: seq<Entry>,
                       table: DefinitionTable, counter: nat, prj: string)
    requires Fits(w, b) && IsDefinitionExport(captured, w.definition, entries)
    requires Issued(table, counter) && b.definition.base == counter
    ensures IsDefinitionExport(WithEntries(table, prj, ShiftedEntries(w, b, entries)), b.definition.Window(), ShiftedEntries(w, b, entries))
  {
    var moved := ShiftedEntries(w, b, entries);
    var after := WithEntries(table, prj, moved);
    ShiftedAscends(w, b, entries);
    forall e | e in moved ensures IsDefinition(after, b.definition.Window(), e) {
      var i :| 0 <= i < |moved| && moved[i] == e;
      MovedIntoWindow(captured, w, b, entries, i);
      InsertedEntries(table, prj, moved, e.id.id);
    }
    forall e | IsDefinition(after, b.definition.Window(), e) ensures e in moved {
      InsertedEntries(table, prj, moved, e.id.id);
      var i :| 0 <= i < |moved| && moved[i].id.id == e.id.id;
      MovedIntoWindow(captured, w, b, entries, i);
      assert moved[i] == e;
    }
  }

  lemma MovedIntoWindow(captured: DefinitionTable, w: Windows, b: Rebases, entries: seq<Entry>, i: nat)
    requires Fits(w, b) && IsDefinitionExport(captured, w.definition, entries) && i < |entries|
    ensures var moved := ShiftedEntries(w, b, entries)[i];
      moved.id.kind == Definition && b.definition.Window().Holds(moved.id.id)
  {
    assert entries[i] in entries;
    assert w.Of(Definition).start <= w.Of(Definition).end && b.Of(Definition).count == w.Of(Definition).end - w.Of(Definition).start;
  }

  // ---- The tables ----

  datatype Watermark = Watermark(token: nat, text: nat, symbol: nat, definition: nat)

  datatype Fragment = Fragment(
    tokenCount: nat, symbolCount: nat, definitionCount: nat,
    definitions: seq<WireEntry>, others: seq<WireEntry>)

  type Clash = seq<Entry> -> bool

  datatype FileWindow = FileWindow(token: IdWindow, text: IdWindow)

  /** The four counters, the definition table, and the codec sessions. */
  class Tables {
    var token: nat
    var text: nat
    var symbol: nat
    var definition: nat
    var table: DefinitionTable
    var encode: Option<Windows>
    var decode: Option<Rebases>

    ghost predicate Valid()
      reads this
    {
      Issued(table, definition) && encode.None? && decode.None?
    }

    constructor ()
      ensures Valid() && table == map[] && token == 0 && text == 0 && symbol == 0 && definition == 0
    {
      token, text, symbol, definition, table, encode, decode := 0, 0, 0, 0, map[], None, None;
    }

    method Insert(prj: string, body: Body) returns (id: nat)
      requires Valid()
      modifies `definition, `table
      ensures Valid() && id == definition == old(definition) + 1 && id !in old(table)
      ensures table == old(table)[id := (prj, body)]
    {
      definition := definition + 1;
      id := definition;
      table := table[id := (prj, body)];
    }

    /** Collected in any order, then sorted by id. */
    method ExportInWindow(window: IdWindow) returns (entries: seq<Entry>)
      ensures IsDefinitionExport(table, window, entries)
    {
      var found: seq<Entry> := [];
      var left := table.Keys;
      while left != {}
        invariant left <= table.Keys && DistinctBy((e: Entry) => e.id.id, found)
        invariant forall e :: e in found <==> IsDefinition(table, window, e) && e.id.id !in left
      {
        var id :| id in left;
        left := left - {id};
        if window.Holds(id) { found := found + [Entry(Ref(Definition, id), table[id].1)]; }
      }
      SortedAscends(found);
      entries := InOrder(IdLess, found);
    }

    /** The windows from the watermark to where the counters are. */
    function WindowsSince(mark: Watermark): Windows
      reads this
    {
      Windows(IdWindow(mark.token, token), IdWindow(mark.text, text), IdWindow(mark.symbol, symbol), IdWindow(mark.definition, definition))
    }

    predicate After(mark: Watermark)
      reads this
    {
      mark.token <= token && mark.text <= text && mark.symbol <= symbol && mark.definition <= definition
    }

    /** `others` are the entries the other tables export. */
    method Capture(mark: Watermark, others: seq<Entry>) returns (r: Result<Fragment>, ghost definitions: seq<Entry>)
      requires Valid() && After(mark)
      modifies `encode
      ensures Valid() && IsDefinitionExport(table, IdWindow(mark.definition, definition), definitions)
      ensures r.Ok? <==> text == mark.text + 1 && forall e | e in definitions + others :: EntryBelongs(WindowsSince(mark), e)
      ensures r.Ok? ==>
        && r.value.tokenCount == token - mark.token && r.value.symbolCount == symbol - mark.symbol
        && r.value.definitionCount == definition - mark.definition
        && EncodeEntries(Some(WindowsSince(mark)), definitions) == Ok(r.value.definitions)
        && EncodeEntries(Some(WindowsSince(mark)), others) == Ok(r.value.others)
    {
      var exported := ExportInWindow(IdWindow(mark.definition, definition));
      definitions := exported;
      if text - mark.text != 1 { return Error, definitions; }
      encode := Some(WindowsSince(mark));
      var first := EncodeEntries(encode, exported);
      var second := EncodeEntries(encode, others);
      assert forall e :: e in exported + others <==> e in exported || e in others;
      BelongsIffEncoded(WindowsSince(mark), exported);
      BelongsIffEncoded(WindowsSince(mark), others);
      encode := None;
      if first.Error? || second.Error? { return Error, definitions; }
      r := Ok(Fragment(token - mark.token, symbol - mark.symbol, definition - mark.definition, first.value, second.value));
    }

    /** The ranges a restore will reserve. */
    function RangesFor(f: Fragment): Rebases
      reads this
    {
      Rebases(IdRebase(token, f.tokenCount), IdRebase(text, 1), IdRebase(symbol, f.symbolCount), IdRebase(definition, f.definitionCount))
    }

    /** A range right after all the ids issued so far. */
    method ReserveDefinitionIds(count: nat) returns (base: nat)
      modifies `definition
      ensures base == old(definition) && definition == old(definition) + count
    {
      base := definition;
      definition := definition + count;
    }

    /** `clash` says which entries the symbol table refuses; it is asked before any definition goes in. */
    method Restore(f: Fragment, prj: string, clash: Clash) returns (r: Result<seq<Entry>>, window: FileWindow)
      requires Valid() && forall e | e in f.definitions :: e.kind == Definition
      modifies this
      ensures token == old(token) + f.tokenCount && text == old(text) + 1
      ensures symbol == old(symbol) + f.symbolCount && definition == old(definition) + f.definitionCount
      ensures Valid()
      ensures window == FileWindow(IdWindow(old(token), token), IdWindow(old(text), text))
      ensures r.Ok? <==>
        && DecodeEntries(Some(old(RangesFor(f))), f.definitions).Ok?
        && DecodeEntries(Some(old(RangesFor(f))), f.others).Ok?
        && !clash(DecodeEntries(Some(old(RangesFor(f))), f.others).value)
      ensures r.Ok? ==>
        && r == DecodeEntries(Some(old(RangesFor(f))), f.others)
        && table == WithEntries(old(table), prj, DecodeEntries(Some(old(RangesFor(f))), f.definitions).value)
      ensures r.Error? ==> table == old(table)
    {
      var ranges := RangesFor(f);
      token := token + f.tokenCount;
      text := text + 1;
      symbol := symbol + f.symbolCount;
      var base := ReserveDefinitionIds(f.definitionCount);
      window := FileWindow(ranges.token.Window(), ranges.text.Window());
      decode := Some(ranges);
      var definitions := DecodeEntries(decode, f.definitions);
      r := DecodeEntries(decode, f.others);
      decode := None;
      if definitions.Error? { r := Error; }
      if r.Ok? && clash(r.value) { r := Error; }
      if r.Error? { return; }
      DecodedAreIssued(ranges, f.definitions);
      for n := 0 to |definitions.value|
        invariant table == WithEntries(old(table), prj, definitions.value[..n])
        invariant encode.None? && decode.None? && Issued(table, definition)
        invariant token == old(token) + f.tokenCount && text == old(text) + 1
        invariant symbol == old(symbol) + f.symbolCount && definition == old(definition) + f.definitionCount
      {
        var e := definitions.value[n];
        assert e in definitions.value;
        assert definitions.value[..n + 1][..n] == definitions.value[..n];
        table := table[e.id.id := (prj, e.body)];
      }
      assert definitions.value[..|definitions.value|] == definitions.value;
    }

    /** Where the counters are. */
    function Mark(): Watermark
      reads this
    {
      Watermark(token, text, symbol, definition)
    }

    /** One file after the other. No restore touches what an earlier one put into its window. */
    method RestoreAll(fs: seq<Fragment>, prj: string, clashes: nat -> Clash) returns (rs: seq<Result<seq<Entry>>>, ghost log: RestoreLog)
      requires Valid() && forall f | f in fs :: DefinesOnly(f)
      modifies this
      ensures Valid() && |rs| == |fs|
      ensures log.Valid(fs, prj, clashes, old(Mark()), old(table), rs) && Mark() == log.mark && table == log.Now()
    {
      rs, log := [], RestoreLog(Mark(), [], [table]);
      for n := 0 to |fs|
        invariant Valid() && |rs| == n && log.Valid(fs[..n], prj, clashes, old(Mark()), old(table), rs)
        invariant Mark() == log.mark && table == log.Now()
      {
        assert fs[n] in fs;
        ghost var range := RangesFor(fs[n]);
        var r, window := Restore(fs[n], prj, clashes(n));
        LogGrows(log, fs, n, prj, clashes, old(Mark()), old(table), rs, range, table, r);
        rs, log := rs + [r], log.Grown(fs[n], range, table);
      }
      assert fs[..|fs|] == fs;
    }
  }

  lemma BelongsIffEncoded(w: Windows, entries: seq<Entry>)
    requires w.token.start <= w.token.end && w.text.start <= w.text.end && w.symbol.start <= w.symbol.end
    requires w.definition.start <= w.definition.end
    ensures EncodeEntries(Some(w), entries).Ok? <==> forall e | e in entries :: EntryBelongs(w, e)
  {
    var b := Rebases(
      IdRebase(0, w.token.end - w.token.start), IdRebase(0, w.text.end - w.text.start),
      IdRebase(0, w.symbol.end - w.symbol.start), IdRebase(0, w.definition.end - w.definition.start));
    EntriesRoundTrip(w, b, entries);
  }

  /** Definitions that are read have ids of the new range, or the sentinel. */
  lemma {:induction false} DecodedAreIssued(b: Rebases, wire: seq<WireEntry>)
    requires forall e | e in wire :: e.kind == Definition
    ensures DecodeEntries(Some(b), wire).Ok? ==>
      forall e | e in DecodeEntries(Some(b), wire).value :: e.id.id == 0 || b.definition.Window().Holds(e.id.id)
  {
    if wire != [] {
      var front, last := wire[..|wire| - 1], wire[|wire| - 1];
      assert last in wire && forall e | e in front :: e in wire;
      DecodedAreIssued(b, front);
      DecodedIsFresh(b, last.kind, last.id);
    }
  }

  lemma {:induction false} KindsAreKept(w: Windows, entries: seq<Entry>)
    requires EncodeEntries(Some(w), entries).Ok? && forall e | e in entries :: e.id.kind == Definition
    ensures forall e | e in EncodeEntries(Some(w), entries).value :: e.kind == Definition
  {
    if entries != [] {
      assert entries[|entries| - 1] in entries && forall e | e in entries[..|entries| - 1] :: e in entries;
      KindsAreKept(w, entries[..|entries| - 1]);
    }
  }

  /**
   * A captured fragment can be restored into any tables whose ranges are as large: it decodes to
   * what was captured with every id moved, and exporting the new definition window then gives the
   * captured definitions moved, in the same order.
   */
  lemma CapturedFragmentRestores(captured: DefinitionTable, w: Windows, definitions: seq<Entry>, others: seq<Entry>, f: Fragment,
                                 b: Rebases, table: DefinitionTable, counter: nat, prj: string)
    requires Fits(w, b) && IsDefinitionExport(captured, w.definition, definitions)
    requires EncodeEntries(Some(w), definitions) == Ok(f.definitions) && EncodeEntries(Some(w), others) == Ok(f.others)
    requires Issued(table, counter) && b.definition.base == counter
    ensures forall e | e in f.definitions :: e.kind == Definition
    ensures DecodeEntries(Some(b), f.definitions) == Ok(ShiftedEntries(w, b, definitions))
    ensures DecodeEntries(Some(b), f.others) == Ok(ShiftedEntries(w, b, others))
    ensures IsDefinitionExport(WithEntries(table, prj, ShiftedEntries(w, b, definitions)), b.definition.Window(), ShiftedEntries(w, b, definitions))
  {
    EntriesRoundTrip(w, b, definitions);
    EntriesRoundTrip(w, b, others);
    KindsAreKept(w, definitions);
    RestoredExport(captured, w, b, definitions, table, counter, prj);
  }

  // ---- Successive restores ----

  predicate DefinesOnly(f: Fragment) {
    forall e | e in f.definitions :: e.kind == Definition
  }

  function CountOf(f: Fragment, k: Kind): nat {
    match k
    case Token => f.tokenCount
    case Text => 1
    case Symbol => f.symbolCount
    case Definition => f.definitionCount
  }

  function MarkOf(mark: Watermark, k: Kind): nat {
    match k
    case Token => mark.token
    case Text => mark.text
    case Symbol => mark.symbol
    case Definition => mark.definition
  }

  /** Where the counters are after restoring `fs`. */
  function Advanced(mark: Watermark, fs: seq<Fragment>): Watermark {
    if fs == [] then mark else
      AfterOne(Advanced(mark, fs[..|fs| - 1]), fs[|fs| - 1])
  }

  function AfterOne(mark: Watermark, f: Fragment): Watermark {
    Watermark(mark.token + f.tokenCount, mark.text + 1, mark.symbol + f.symbolCount, mark.definition + f.definitionCount)
  }

  /** What restoring `f` does to the table: all of its definitions go in, or none. */
  predicate RestoredOne(f: Fragment, prj: string, clash: Clash, b: Rebases, before: DefinitionTable, after: DefinitionTable, r: Result<seq<Entry>>) {
    var definitions := DecodeEntries(Some(b), f.definitions);
    var others := DecodeEntries(Some(b), f.others);
    if definitions.Ok? && others.Ok? && !clash(others.value) then r == others && after == WithEntries(before, prj, definitions.value)
    else r == Error && after == before
  }

  /** It writes nothing outside its window, but for the sentinel. */
  lemma RestoredElsewhere(f: Fragment, prj: string, clash: Clash, b: Rebases, before: DefinitionTable, after: DefinitionTable, r: Result<seq<Entry>>)
    requires DefinesOnly(f) && RestoredOne(f, prj, clash, b, before, after, r)
    ensures forall id: nat | id != 0 && !b.definition.Window().Holds(id) :: Lookup(after, id) == Lookup(before, id)
  {
    DecodedAreIssued(b, f.definitions);
    var definitions := DecodeEntries(Some(b), f.definitions);
    if definitions.Ok? {
      forall id: nat | id != 0 && !b.definition.Window().Holds(id)
        ensures Lookup(WithEntries(before, prj, definitions.value), id) == Lookup(before, id)
      {
        forall i | 0 <= i < |definitions.value| ensures definitions.value[i].id.id != id { assert definitions.value[i] in definitions.value; }
        EntriesElsewhere(before, prj, definitions.value, id);
      }
    }
  }

  lemma {:induction false} EntriesElsewhere(table: DefinitionTable, prj: string, entries: seq<Entry>, id: nat)
    requires forall i | 0 <= i < |entries| :: entries[i].id.id != id
    ensures Lookup(WithEntries(table, prj, entries), id) == Lookup(table, id)
  {
    if entries != [] { EntriesElsewhere(table, prj, entries[..|entries| - 1], id); }
  }

  /** Where the counters are, the ranges of the restores so far, and the table before and after each. */
  datatype RestoreLog = RestoreLog(mark: Watermark, ranges: seq<Rebases>, tables: seq<DefinitionTable>) {
    function Now(): DefinitionTable
      requires tables != []
    {
      tables[|tables| - 1]
    }

    function Grown(f: Fragment, b: Rebases, after: DefinitionTable): RestoreLog {
      RestoreLog(AfterOne(mark, f), ranges + [b], tables + [after])
    }

    ghost predicate Valid(fs: seq<Fragment>, prj: string, clashes: nat -> Clash, start: Watermark, table: DefinitionTable, rs: seq<Result<seq<Entry>>>) {
      && |rs| == |ranges| == |fs| && |tables| == |fs| + 1 && tables[0] == table && mark == Advanced(start, fs)
      && Restored(fs, prj, clashes, ranges, tables, rs)
      && Reserves(fs, start, ranges) && Keeps(ranges, tables, mark.definition)
    }
  }

  ghost predicate Restored(fs: seq<Fragment>, prj: string, clashes: nat -> Clash, ranges: seq<Rebases>, tables: seq<DefinitionTable>,
                           rs: seq<Result<seq<Entry>>>)
    requires |rs| == |ranges| == |fs| && |tables| == |fs| + 1
  {
    forall i: nat | i < |rs| :: RestoredOne(fs[i], prj, clashes(i), ranges[i], tables[i], tables[i + 1], rs[i])
  }

  lemma RestoredMore(fs: seq<Fragment>, f: Fragment, prj: string, clashes: nat -> Clash, ranges: seq<Rebases>, tables: seq<DefinitionTable>,
                     rs: seq<Result<seq<Entry>>>, b: Rebases, after: DefinitionTable, r: Result<seq<Entry>>)
    requires |rs| == |ranges| == |fs| && |tables| == |fs| + 1 && Restored(fs, prj, clashes, ranges, tables, rs)
    requires RestoredOne(f, prj, clashes(|fs|), b, tables[|fs|], after, r)
    ensures Restored(fs + [f], prj, clashes, ranges + [b], tables + [after], rs + [r])
  {
  }

  /** Each restore gets ranges as large as it asks for, right after those before it. */
  ghost predicate Reserves(fs: seq<Fragment>, mark: Watermark, ranges: seq<Rebases>)
    requires |ranges| <= |fs|
  {
    forall i, k | 0 <= i < |ranges| :: ranges[i].Of(k) == IdRebase(MarkOf(Advanced(mark, fs[..i]), k), CountOf(fs[i], k))
  }

  /** At the end the window of restore `i` holds what that restore put there. */
  ghost predicate KeepsOne(ranges: seq<Rebases>, tables: seq<DefinitionTable>, definition: nat, i: nat)
    requires |tables| == |ranges| + 1 && i < |ranges|
  {
    && ranges[i].definition.Window().end <= definition
    && forall id: nat | ranges[i].definition.Window().Holds(id) :: Lookup(tables[|ranges|], id) == Lookup(tables[i + 1], id)
  }

  ghost predicate Keeps(ranges: seq<Rebases>, tables: seq<DefinitionTable>, definition: nat)
    requires |tables| == |ranges| + 1
  {
    forall i: nat | i < |ranges| :: KeepsOne(ranges, tables, definition, i)
  }

  lemma KeepsMore(f: Fragment, prj: string, clash: Clash, b: Rebases, ranges: seq<Rebases>, tables: seq<DefinitionTable>, after: DefinitionTable,
                  r: Result<seq<Entry>>, definition: nat)
    requires |tables| == |ranges| + 1 && DefinesOnly(f) && RestoredOne(f, prj, clash, b, tables[|ranges|], after, r)
    requires Keeps(ranges, tables, b.definition.base) && b.definition.base + b.definition.count == definition
    ensures Keeps(ranges + [b], tables + [after], definition)
  {
    RestoredElsewhere(f, prj, clash, b, tables[|ranges|], after, r);
    forall i: nat | i < |ranges| + 1 ensures KeepsOne(ranges + [b], tables + [after], definition, i) {
      if i < |ranges| {
        assert KeepsOne(ranges, tables, b.definition.base, i);
        assert (ranges + [b])[i] == ranges[i] && (tables + [after])[i + 1] == tables[i + 1];
      }
    }
  }

  lemma ReservesMore(fs: seq<Fragment>, n: nat, mark: Watermark, ranges: seq<Rebases>, b: Rebases)
    requires n < |fs| && |ranges| == n && Reserves(fs[..n], mark, ranges)
    requires forall k :: b.Of(k) == IdRebase(MarkOf(Advanced(mark, fs[..n]), k), CountOf(fs[n], k))
    ensures Reserves(fs[..n + 1], mark, ranges + [b])
  {
    forall i, k | 0 <= i < n + 1
      ensures (ranges + [b])[i].Of(k) == IdRebase(MarkOf(Advanced(mark, fs[..n + 1][..i]), k), CountOf(fs[..n + 1][i], k))
    {
      assert fs[..n + 1][..i] == fs[..i] && (i < n ==> fs[..n][..i] == fs[..i]);
    }
  }

  lemma LogGrows(log: RestoreLog, fs: seq<Fragment>, n: nat, prj: string, clashes: nat -> Clash, start: Watermark, table: DefinitionTable,
                 rs: seq<Result<seq<Entry>>>, b: Rebases, after: DefinitionTable, r: Result<seq<Entry>>)
    requires n < |fs| && log.Valid(fs[..n], prj, clashes, start, table, rs) && DefinesOnly(fs[n])
    requires RestoredOne(fs[n], prj, clashes(n), b, log.Now(), after, r)
    requires forall k :: b.Of(k) == IdRebase(MarkOf(log.mark, k), CountOf(fs[n], k))
    ensures log.Grown(fs[n], b, after).Valid(fs[..n + 1], prj, clashes, start, table, rs + [r])
  {
    assert fs[..n + 1] == fs[..n] + [fs[n]] && fs[..n + 1][..n] == fs[..n];
    RestoredMore(fs[..n], fs[n], prj, clashes, log.ranges, log.tables, rs, b, after, r);
    assert b.Of(Definition) == b.definition;
    KeepsMore(fs[n], prj, clashes(n), b, log.ranges, log.tables, after, r, AfterOne(log.mark, fs[n]).definition);
    ReservesMore(fs, n, start, log.ranges, b);
  }

  // ---- Windows of successive restores ----

  lemma {:induction false} CounterGrows(mark: Watermark, fs: seq<Fragment>, n: nat, k: Kind)
    requires n <= |fs|
    ensures MarkOf(Advanced(mark, fs[..n]), k) <= MarkOf(Advanced(mark, fs), k)
  {
    if n == |fs| {
      assert fs[..n] == fs;
    } else {
      assert fs[..|fs| - 1][..n] == fs[..n];
      CounterGrows(mark, fs[..|fs| - 1], n, k);
    }
  }

  /** Successive restores get windows above all earlier ids of each kind, and apart from one another. */
  lemma ReservationsAreDisjoint(fs: seq<Fragment>, mark: Watermark, ranges: seq<Rebases>, i: nat, j: nat, k: Kind, id: nat)
    requires |ranges| <= |fs| && Reserves(fs, mark, ranges) && i < j < |ranges|
    requires ranges[i].Of(k).Window().Holds(id)
    ensures MarkOf(mark, k) < id && !ranges[j].Of(k).Window().Holds(id)
  {
    CounterGrows(mark, fs[..i], 0, k);
    CounterGrows(mark, fs[..j], i + 1, k);
    assert fs[..i][..0] == [];
    assert fs[..j][..i + 1] == fs[..i + 1];
    assert fs[..i + 1][..i] == fs[..i];
  }
}
