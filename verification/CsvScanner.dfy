/** The scanner for delimited text: one logical record per call, cells as ranges. */
module CsvScanner {
  import opened Wrappers
  import opened Text

  datatype Delimiter = Auto | Comma | Tab | Semicolon | Pipe
  {
    function AsChar(): char {
      match this
      case Auto => ','
      case Comma => ','
      case Tab => '\t'
      case Semicolon => ';'
      case Pipe => '|'
    }
  }

  datatype Dialect = Dialect(delimiter: Delimiter, quote: Option<char>, escape: Option<char>, doubleQuote: bool)

  datatype Terminator = Lf | CrLf | Cr | EndOfInput
  {
    function Length(): nat {
      match this
      case Lf => 1
      case Cr => 1
      case CrLf => 2
      case EndOfInput => 0
    }
  }

  datatype Cell = Cell(start: nat, end: nat, valueStart: nat, valueEnd: nat, quoted: bool, quoteClosed: bool)

  datatype IssueKind = UnterminatedQuote | UnexpectedQuote | TrailingAfterQuote

  datatype Issue = Issue(kind: IssueKind, start: nat, end: nat)

  datatype Record = Record(start: nat, end: nat, terminator: Terminator, cells: seq<Cell>, issues: seq<Issue>)

  /** A scanned record and the offset at which the next one starts. */
  datatype Scanned = Scanned(record: Record, next: nat)

  /** The variables of the scanning loop. */
  datatype ScanState = ScanState(
    cursor: nat,
    cellStart: nat,
    quoted: bool,
    quoteClosed: bool,
    quotedValueEnd: Option<nat>,
    inQuotes: bool,
    afterQuote: bool,
    cells: seq<Cell>,
    issues: seq<Issue>)

  function AsciiOnly(c: Option<char>): Option<char> {
    if c.Some? && !IsAscii(c.value) then None else c
  }

  function Min(a: nat, b: nat): nat {
    if a < b then a else b
  }

  function ScannedCell(start: nat, end: nat, quoted: bool, quoteClosed: bool, quotedValueEnd: Option<nat>): Cell {
    var valueStart := if quoted then Min(start + 1, end) else start;
    var valueEnd := if quotedValueEnd.Some? then quotedValueEnd.value else end;
    Cell(start, end, valueStart, if valueEnd < valueStart then valueStart else valueEnd, quoted, quoteClosed)
  }

  function CloseCell(s: ScanState): Cell {
    ScannedCell(s.cellStart, s.cursor, s.quoted, s.quoteClosed, s.quotedValueEnd)
  }

  /** The state at the start of a cell. */
  function AtCell(cursor: nat, cells: seq<Cell>, issues: seq<Issue>): ScanState {
    ScanState(cursor, cursor, false, false, None, false, false, cells, issues)
  }

  predicate IsNewline(c: char) {
    c == '\r' || c == '\n'
  }

  /** A record ends at the end of the text, or at a newline outside quotes. */
  predicate EndsHere(text: string, d: Dialect, s: ScanState) {
    || s.cursor >= |text|
    || (!s.inQuotes && text[s.cursor] != d.delimiter.AsChar() && IsNewline(text[s.cursor]))
  }

  /** One round of the loop inside quotes. */
  function AdvanceQuoted(text: string, d: Dialect, s: ScanState): ScanState
    requires s.cursor < |text|
  {
    var c := text[s.cursor];
    if AsciiOnly(d.escape) == Some(c) && s.cursor + 1 < |text| then s.(cursor := s.cursor + 2)
    else if AsciiOnly(d.quote) == Some(c) then
      if d.doubleQuote && s.cursor + 1 < |text| && text[s.cursor + 1] == c then s.(cursor := s.cursor + 2)
      else
        s.(inQuotes := false, quoteClosed := true, quotedValueEnd := Some(s.cursor), afterQuote := true,
           cursor := s.cursor + 1)
    else s.(cursor := s.cursor + 1)
  }

  /** One round of the loop that does not end the record. */
  function Advance(text: string, d: Dialect, s: ScanState): ScanState
    requires !EndsHere(text, d, s)
  {
    var c := text[s.cursor];
    if s.inQuotes then AdvanceQuoted(text, d, s)
    else if c == d.delimiter.AsChar() then AtCell(s.cursor + 1, s.cells + [CloseCell(s)], s.issues)
    else if AsciiOnly(d.quote) == Some(c) then
      if s.cursor == s.cellStart then s.(quoted := true, inQuotes := true, cursor := s.cursor + 1)
      else s.(issues := s.issues + [Issue(UnexpectedQuote, s.cursor, s.cursor + 1)], cursor := s.cursor + 1)
    else if s.afterQuote && !IsAsciiWhitespace(c) then
      s.(issues := s.issues + [Issue(TrailingAfterQuote, s.cursor, s.cursor + 1)], afterQuote := false,
         cursor := s.cursor + 1)
    else s.(cursor := s.cursor + 1)
  }

  function TerminatorAt(text: string, cursor: nat): Terminator {
    if cursor >= |text| then EndOfInput
    else if text[cursor] == '\r' then
      if cursor + 1 < |text| && text[cursor + 1] == '\n' then CrLf else Cr
    else Lf
  }

  function Finish(text: string, start: nat, s: ScanState): Scanned {
    var open := s.cursor >= |text| && s.inQuotes;
    var issues := if open then s.issues + [Issue(UnterminatedQuote, s.cellStart, s.cursor)] else s.issues;
    var terminator := TerminatorAt(text, s.cursor);
    Scanned(Record(start, s.cursor, terminator, s.cells + [CloseCell(s)], issues), s.cursor + terminator.Length())
  }

  /** The record that the loop goes on to produce from a state. */
  function Scan(text: string, d: Dialect, start: nat, s: ScanState): (r: Scanned)
    requires s.cursor <= |text|
    ensures s.cursor <= r.next <= |text| && (r.next == s.cursor ==> s.cursor == |text|)
    decreases |text| - s.cursor
  {
    if EndsHere(text, d, s) then Finish(text, start, s)
    else Scan(text, d, start, Advance(text, d, s))
  }

  function ScanFrom(text: string, d: Dialect, offset: nat): Scanned
    requires offset <= |text|
  {
    Scan(text, d, offset, AtCell(offset, [], []))
  }

  /** All records from an offset on. */
  function ScanAll(text: string, d: Dialect, offset: nat): seq<Record>
    requires offset <= |text|
    decreases |text| - offset
  {
    if offset == |text| then []
    else
      var scanned := ScanFrom(text, d, offset);
      [scanned.record] + ScanAll(text, d, scanned.next)
  }

  function DecodeCell(raw: string, quoted: bool, d: Dialect): string {
    if !quoted then raw
    else
      var quote := if d.quote.Some? then d.quote.value else '"';
      var undoubled := if d.doubleQuote then Replace(raw, [quote, quote], [quote]) else raw;
      if d.escape.Some? then Replace(undoubled, [d.escape.value, quote], [quote]) else undoubled
  }

  function CellText(text: string, d: Dialect, cell: Cell): string
    requires cell.valueStart <= cell.valueEnd <= |text|
  {
    DecodeCell(text[cell.valueStart..cell.valueEnd], cell.quoted, d)
  }

  class Scanner {
    const text: string
    const dialect: Dialect
    var offset: nat

    ghost predicate Valid()
      reads this
    {
      offset <= |text|
    }

    constructor (text: string, dialect: Dialect)
      ensures Valid() && this.text == text && this.dialect == dialect && offset == 0
    {
      this.text, this.dialect, this.offset := text, dialect, 0;
    }

    /** Scans the next record, or returns None at the end of the text. */
    method Next() returns (record: Option<Record>)
      requires Valid()
      modifies this
      ensures Valid()
      ensures old(offset) == |text| ==> record == None && offset == old(offset)
      ensures old(offset) < |text| ==>
                var scanned := ScanFrom(text, dialect, old(offset));
                record == Some(scanned.record) && offset == scanned.next
    {
      if offset >= |text| {
        return None;
      }
      var delimiter := dialect.delimiter.AsChar();
      var quote := AsciiOnly(dialect.quote);
      var escape := AsciiOnly(dialect.escape);
      var recordStart := offset;
      var cursor: nat, cellStart: nat := offset, offset;
      var quoted, quoteClosed, inQuotes, afterQuote := false, false, false, false;
      var quotedValueEnd: Option<nat> := None;
      var cells: seq<Cell> := [];
      var issues: seq<Issue> := [];
      var terminator := EndOfInput;
      ghost var s := AtCell(offset, [], []);
      while true
        invariant cursor <= |text|
        invariant s == ScanState(cursor, cellStart, quoted, quoteClosed, quotedValueEnd, inQuotes, afterQuote,
                                 cells, issues)
        invariant Scan(text, dialect, recordStart, s) == ScanFrom(text, dialect, recordStart)
        invariant terminator == EndOfInput
        decreases |text| - cursor
      {
        if cursor >= |text| {
          if inQuotes {
            issues := issues + [Issue(UnterminatedQuote, cellStart, cursor)];
          }
          cells := cells + [ScannedCell(cellStart, cursor, quoted, quoteClosed, quotedValueEnd)];
          break;
        }
        var c := text[cursor];
        if !inQuotes && c != delimiter && IsNewline(c) {
          cells := cells + [ScannedCell(cellStart, cursor, quoted, quoteClosed, quotedValueEnd)];
          terminator := if c == '\r' && cursor + 1 < |text| && text[cursor + 1] == '\n' then CrLf
                        else if c == '\r' then Cr
                        else Lf;
          break;
        }
        s := Advance(text, dialect, s);
        if inQuotes {
          if escape == Some(c) && cursor + 1 < |text| {
            cursor := cursor + 2;
          } else if quote == Some(c) {
            if dialect.doubleQuote && cursor + 1 < |text| && text[cursor + 1] == c {
              cursor := cursor + 2;
            } else {
              inQuotes, quoteClosed, afterQuote := false, true, true;
              quotedValueEnd := Some(cursor);
              cursor := cursor + 1;
            }
          } else {
            cursor := cursor + 1;
          }
        } else if c == delimiter {
          cells := cells + [ScannedCell(cellStart, cursor, quoted, quoteClosed, quotedValueEnd)];
          cursor := cursor + 1;
          cellStart := cursor;
          quoted, quoteClosed, afterQuote := false, false, false;
          quotedValueEnd := None;
        } else if quote == Some(c) && cursor == cellStart {
          quoted, inQuotes := true, true;
          cursor := cursor + 1;
        } else {
          if quote == Some(c) {
            issues := issues + [Issue(UnexpectedQuote, cursor, cursor + 1)];
          } else if afterQuote && !IsAsciiWhitespace(c) {
            issues := issues + [Issue(TrailingAfterQuote, cursor, cursor + 1)];
            afterQuote := false;
          }
          cursor := cursor + 1;
        }
      }
      offset := cursor + terminator.Length();
      record := Some(Record(recordStart, cursor, terminator, cells, issues));
    }

    /** Scans the rest of the text. */
    method Rest() returns (records: seq<Record>)
      requires Valid()
      modifies this
      ensures Valid() && offset == |text|
      ensures records == ScanAll(text, dialect, old(offset))
    {
      records := [];
      while true
        invariant Valid()
        invariant records + ScanAll(text, dialect, offset) == ScanAll(text, dialect, old(offset))
        decreases |text| - offset
      {
        ghost var before := offset;
        var record := Next();
        if record.None? {
          return;
        }
        assert ScanAll(text, dialect, before) == [record.value] + ScanAll(text, dialect, offset);
        records := records + [record.value];
      }
    }
  }

  // ---------------------------------------------------------------------------
  // Newlines seen over a document

  class NewlineFidelity {
    var lfCount: nat
    var crlfCount: nat
    var crCount: nat
    var finalRecordTerminated: bool
    var mixed: bool

    constructor ()
      ensures lfCount == crlfCount == crCount == 0 && !finalRecordTerminated && !mixed
    {
      lfCount, crlfCount, crCount, finalRecordTerminated, mixed := 0, 0, 0, false, false;
    }

    method Observe(terminator: Terminator)
      modifies this
      ensures lfCount == old(lfCount) + (if terminator == Lf then 1 else 0)
      ensures crlfCount == old(crlfCount) + (if terminator == CrLf then 1 else 0)
      ensures crCount == old(crCount) + (if terminator == Cr then 1 else 0)
      ensures finalRecordTerminated <==> terminator != EndOfInput
      ensures mixed <==> (lfCount > 0 && crlfCount > 0) || (lfCount > 0 && crCount > 0) || (crlfCount > 0 && crCount > 0)
    {
      match terminator {
        case Lf => lfCount := lfCount + 1;
        case CrLf => crlfCount := crlfCount + 1;
        case Cr => crCount := crCount + 1;
        case EndOfInput =>
      }
      finalRecordTerminated := terminator != EndOfInput;
      var kinds := (if lfCount != 0 then 1 else 0) + (if crlfCount != 0 then 1 else 0) + if crCount != 0 then 1 else 0;
      mixed := kinds > 1;
    }

    /** Over a whole document: exact counts, and mixed iff two different newlines occur. */
    method ObserveAll(records: seq<Record>)
      requires lfCount == crlfCount == crCount == 0 && !finalRecordTerminated && !mixed
      modifies this
      ensures lfCount == Count(records, Lf) && crlfCount == Count(records, CrLf) && crCount == Count(records, Cr)
      ensures finalRecordTerminated <==> records != [] && records[|records| - 1].terminator != EndOfInput
      ensures mixed <==> exists i, j :: 0 <= i < |records| && 0 <= j < |records|
                           && records[i].terminator != records[j].terminator
                           && records[i].terminator != EndOfInput && records[j].terminator != EndOfInput
    {
      for n := 0 to |records|
        invariant lfCount == Count(records[..n], Lf) && crlfCount == Count(records[..n], CrLf)
        invariant crCount == Count(records[..n], Cr)
        invariant finalRecordTerminated <==> n > 0 && records[n - 1].terminator != EndOfInput
        invariant mixed <==> (lfCount > 0 && crlfCount > 0) || (lfCount > 0 && crCount > 0)
                             || (crlfCount > 0 && crCount > 0)
      {
        assert records[..n + 1][..n] == records[..n];
        Observe(records[n].terminator);
      }
      assert records[..|records|] == records;
      CountPositive(records, Lf);
      CountPositive(records, CrLf);
      CountPositive(records, Cr);
    }
  }

  function Count(records: seq<Record>, terminator: Terminator): nat {
    if records == [] then 0
    else
      var last := records[|records| - 1];
      Count(records[..|records| - 1], terminator) + if last.terminator == terminator then 1 else 0
  }

  lemma {:induction false} CountPositive(records: seq<Record>, terminator: Terminator)
    ensures Count(records, terminator) > 0 <==>
            exists i :: 0 <= i < |records| && records[i].terminator == terminator
  {
    if records != [] {
      var front := records[..|records| - 1];
      CountPositive(front, terminator);
      assert forall i :: 0 <= i < |front| ==> front[i] == records[i];
      assert records[|records| - 1] in records;
    }
  }
}
