/**
 What holds of every scan: records tile the text exactly, and a closed quoted cell
 holds what its dialect lets stand inside quotes.
 */
module CsvTheorems {
  import opened Wrappers
  import opened CsvScanner

  // ---------------------------------------------------------------------------
  // Tiling

  predicate IsDelimiterAt(text: string, d: Dialect, i: nat) {
    i < |text| && text[i] == d.delimiter.AsChar()
  }

  /** A cell inside [start, cursor) whose value lies inside it; bare cells hold no syntax. */
  predicate CellOk(text: string, d: Dialect, cell: Cell) {
    && cell.start <= cell.valueStart <= cell.valueEnd <= cell.end <= |text|
    && (!cell.quoted ==> Bare(text, d, cell.start, cell.end) && cell.valueStart == cell.start && cell.valueEnd == cell.end)
    && (cell.quoted ==> cell.start < cell.end && AsciiOnly(d.quote) == Some(text[cell.start]))
    && (cell.quoteClosed ==> cell.quoted && cell.valueEnd < cell.end && text[cell.valueEnd] == text[cell.start])
  }

  /** No delimiter and no newline between two offsets. */
  predicate Bare(text: string, d: Dialect, start: nat, end: nat) {
    start <= end <= |text|
    && forall i :: start <= i < end ==> text[i] != d.delimiter.AsChar() && !IsNewline(text[i])
  }

  /** Cells that follow one another from `start`, one delimiter apart, up to `end`. */
  predicate CellsTile(text: string, d: Dialect, start: nat, cells: seq<Cell>, end: nat) {
    if cells == [] then end == start
    else
      var last := cells[|cells| - 1];
      && CellOk(text, d, last)
      && IsDelimiterAt(text, d, last.end)
      && end == last.end + 1
      && CellsTile(text, d, start, cells[..|cells| - 1], last.start)
  }

  /** What holds whenever the loop starts a round. */
  predicate Coherent(text: string, d: Dialect, start: nat, s: ScanState) {
    && s.cellStart <= s.cursor <= |text|
    && CellsTile(text, d, start, s.cells, s.cellStart)
    && (s.inQuotes ==> s.quoted && !s.quoteClosed)
    && (!s.quoted ==> Bare(text, d, s.cellStart, s.cursor) && s.quotedValueEnd == None && !s.quoteClosed)
    && (s.quoted ==> s.cellStart < s.cursor && AsciiOnly(d.quote) == Some(text[s.cellStart]))
    && (s.quoteClosed <==> s.quotedValueEnd.Some?)
    && (s.quoteClosed ==> s.cellStart < s.quotedValueEnd.value < s.cursor
                          && text[s.quotedValueEnd.value] == text[s.cellStart])
  }

  lemma {:induction false} AdvanceCoherent(text: string, d: Dialect, start: nat, s: ScanState)
    requires Coherent(text, d, start, s) && !EndsHere(text, d, s)
    ensures Coherent(text, d, start, Advance(text, d, s)) && s.cursor < Advance(text, d, s).cursor
  {
    if s.inQuotes {
      QuotedCoherent(text, d, start, s);
    } else if text[s.cursor] == d.delimiter.AsChar() {
      DelimiterCoherent(text, d, start, s);
    } else {
      OtherCoherent(text, d, start, s);
    }
  }

  lemma {:induction false} QuotedCoherent(text: string, d: Dialect, start: nat, s: ScanState)
    requires Coherent(text, d, start, s) && s.inQuotes && s.cursor < |text|
    ensures Coherent(text, d, start, AdvanceQuoted(text, d, s)) && s.cursor < AdvanceQuoted(text, d, s).cursor
  {
  }

  lemma {:induction false} DelimiterCoherent(text: string, d: Dialect, start: nat, s: ScanState)
    requires Coherent(text, d, start, s) && IsDelimiterAt(text, d, s.cursor) && !s.inQuotes
    ensures Coherent(text, d, start, AtCell(s.cursor + 1, s.cells + [CloseCell(s)], s.issues))
  {
    var cells := s.cells + [CloseCell(s)];
    assert cells[..|cells| - 1] == s.cells;
    assert CellOk(text, d, CloseCell(s));
  }

  lemma {:induction false} OtherCoherent(text: string, d: Dialect, start: nat, s: ScanState)
    requires Coherent(text, d, start, s) && !EndsHere(text, d, s)
    requires !s.inQuotes && text[s.cursor] != d.delimiter.AsChar()
    ensures Coherent(text, d, start, Advance(text, d, s)) && s.cursor < Advance(text, d, s).cursor
  {
    var next := Advance(text, d, s);
    assert next.cells == s.cells && next.cellStart == s.cellStart && next.cursor == s.cursor + 1;
  }

  /** A record whose cells tile it and whose terminator is what follows it. */
  predicate RecordTiles(text: string, d: Dialect, start: nat, scanned: Scanned) {
    var record := scanned.record;
    && record.start == start <= record.end <= |text|
    && record.cells != []
    && var last := record.cells[|record.cells| - 1];
       && CellOk(text, d, last) && last.end == record.end
       && CellsTile(text, d, start, record.cells[..|record.cells| - 1], last.start)
       && scanned.next == record.end + record.terminator.Length()
       && scanned.next <= |text|
       && match record.terminator
          case EndOfInput => record.end == |text|
          case Lf => text[record.end] == '\n'
          case Cr => text[record.end] == '\r' && (scanned.next < |text| ==> text[scanned.next] != '\n')
          case CrLf => text[record.end] == '\r' && text[record.end + 1] == '\n'
  }

  lemma {:induction false} ScanTiles(text: string, d: Dialect, start: nat, s: ScanState)
    requires start <= s.cellStart && Coherent(text, d, start, s)
    ensures RecordTiles(text, d, start, Scan(text, d, start, s))
    decreases |text| - s.cursor
  {
    if EndsHere(text, d, s) {
      assert (s.cells + [CloseCell(s)])[..|s.cells|] == s.cells;
    } else {
      AdvanceCoherent(text, d, start, s);
      ScanTiles(text, d, start, Advance(text, d, s));
    }
  }

  /** Records that follow one another from `offset` to the end of the text. */
  predicate RecordsTile(text: string, d: Dialect, offset: nat, records: seq<Record>)
    decreases |records|
  {
    if records == [] then offset == |text|
    else
      var next := records[0].end + records[0].terminator.Length();
      && offset < next
      && RecordTiles(text, d, offset, Scanned(records[0], next))
      && RecordsTile(text, d, next, records[1..])
  }

  /** For every text and dialect, the scanned records and their terminators tile the text. */
  lemma {:induction false} ScanAllTiles(text: string, d: Dialect, offset: nat)
    requires offset <= |text|
    ensures RecordsTile(text, d, offset, ScanAll(text, d, offset))
    decreases |text| - offset
  {
    if offset < |text| {
      var scanned := ScanFrom(text, d, offset);
      ScanTiles(text, d, offset, AtCell(offset, [], []));
      ScanAllTiles(text, d, scanned.next);
      assert ScanAll(text, d, offset)[1..] == ScanAll(text, d, scanned.next);
    }
  }

  // ---------------------------------------------------------------------------
  // What stands inside quotes

  /**
   Text that can stand between an opening and a closing quote: an escape takes
   the next character with it, and a quote is doubled where the dialect says so.
   */
  predicate Inside(d: Dialect, raw: string)
    decreases |raw|
  {
    if raw == [] then true
    else if AsciiOnly(d.escape) == Some(raw[0]) then |raw| >= 2 && Inside(d, raw[2..])
    else if AsciiOnly(d.quote) == Some(raw[0]) then
      d.doubleQuote && |raw| >= 2 && raw[1] == raw[0] && Inside(d, raw[2..])
    else Inside(d, raw[1..])
  }

  lemma {:induction false} InsideJoins(d: Dialect, a: string, b: string)
    requires Inside(d, a) && Inside(d, b)
    ensures Inside(d, a + b)
    decreases |a|
  {
    if a == [] {
      assert a + b == b;
    } else if AsciiOnly(d.escape) == Some(a[0]) || AsciiOnly(d.quote) == Some(a[0]) {
      assert (a + b)[2..] == a[2..] + b;
      InsideJoins(d, a[2..], b);
    } else {
      assert (a + b)[1..] == a[1..] + b;
      InsideJoins(d, a[1..], b);
    }
  }

  /** What a loop round passes over inside quotes, if it neither closes the cell nor hits the end. */
  lemma {:induction false} InsideStep(text: string, d: Dialect, from: nat, i: nat, next: nat)
    requires from <= i < next <= |text| && Inside(d, text[from..i])
    requires if AsciiOnly(d.escape) == Some(text[i]) then next == i + 2
             else if AsciiOnly(d.quote) == Some(text[i]) then d.doubleQuote && next == i + 2 && text[i + 1] == text[i]
             else next == i + 1
    ensures Inside(d, text[from..next])
  {
    var unit := text[i..next];
    assert |unit| == 2 ==> unit[2..] == [];
    assert |unit| == 1 ==> unit[1..] == [];
    InsideJoins(d, text[from..i], unit);
    assert text[from..i] + unit == text[from..next];
  }

  /** A closed cell holds exactly text that can stand inside quotes. */
  predicate ClosedInside(text: string, d: Dialect, cell: Cell) {
    cell.quoteClosed ==> cell.valueStart <= cell.valueEnd <= |text| && Inside(d, text[cell.valueStart..cell.valueEnd])
  }

  /** The same for a cell being scanned, and for all those before it. */
  predicate InsideSoFar(text: string, d: Dialect, s: ScanState) {
    && s.cellStart <= s.cursor <= |text|
    && (forall i :: 0 <= i < |s.cells| ==> ClosedInside(text, d, s.cells[i]))
    && (s.quoteClosed <==> s.quotedValueEnd.Some?)
    && (s.inQuotes ==> s.quoted && s.cellStart < s.cursor && !s.quoteClosed)
    && (s.inQuotes && s.cursor < |text| ==> Inside(d, text[s.cellStart + 1..s.cursor]))
    && (s.quoteClosed ==> s.quoted && s.cellStart < s.quotedValueEnd.value < s.cursor
                          && Inside(d, text[s.cellStart + 1..s.quotedValueEnd.value]))
  }

  lemma {:induction false} QuotedStaysInside(text: string, d: Dialect, s: ScanState)
    requires InsideSoFar(text, d, s) && s.inQuotes && s.cursor < |text|
    ensures InsideSoFar(text, d, AdvanceQuoted(text, d, s))
  {
    var next := AdvanceQuoted(text, d, s);
    if next.inQuotes && next.cursor < |text| {
      InsideStep(text, d, s.cellStart + 1, s.cursor, next.cursor);
    }
  }

  lemma {:induction false} AdvanceStaysInside(text: string, d: Dialect, s: ScanState)
    requires InsideSoFar(text, d, s) && !EndsHere(text, d, s)
    ensures InsideSoFar(text, d, Advance(text, d, s))
  {
    if s.inQuotes {
      QuotedStaysInside(text, d, s);
    } else if text[s.cursor] != d.delimiter.AsChar() {
      var next := Advance(text, d, s);
      assert next.inQuotes ==> text[next.cellStart + 1..next.cursor] == [];
    }
  }

  lemma {:induction false} ScanStaysInside(text: string, d: Dialect, start: nat, s: ScanState, i: nat)
    requires InsideSoFar(text, d, s) && i < |Scan(text, d, start, s).record.cells|
    ensures ClosedInside(text, d, Scan(text, d, start, s).record.cells[i])
    decreases |text| - s.cursor
  {
    if !EndsHere(text, d, s) {
      AdvanceStaysInside(text, d, s);
      ScanStaysInside(text, d, start, Advance(text, d, s), i);
    }
  }

  /** In every text, under every dialect, closed cells hold what can stand inside quotes. */
  lemma {:induction false} ClosedCellsAreInside(text: string, d: Dialect, offset: nat, r: nat, i: nat)
    requires offset <= |text| && r < |ScanAll(text, d, offset)| && i < |ScanAll(text, d, offset)[r].cells|
    ensures ClosedInside(text, d, ScanAll(text, d, offset)[r].cells[i])
    decreases |text| - offset
  {
    if r == 0 {
      ScanStaysInside(text, d, offset, AtCell(offset, [], []), i);
    } else {
      ClosedCellsAreInside(text, d, ScanFrom(text, d, offset).next, r - 1, i);
    }
  }
}
