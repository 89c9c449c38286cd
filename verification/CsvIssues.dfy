/** Which issues a scanned record has, from its cells and the text alone. */
module CsvIssues {
  import opened Wrappers
  import opened Text
  import opened CsvScanner

  // ---------------------------------------------------------------------------
  // What should be reported

  /** Inside a cell and outside quotes. */
  predicate Outside(cell: Cell, p: nat) {
    p < cell.end && if cell.quoted then cell.quoteClosed && cell.valueEnd < p else cell.start <= p
  }

  /** The quote character outside quotes, but not at the start of its cell. */
  predicate StrayQuote(text: string, d: Dialect, cell: Cell, p: nat) {
    Outside(cell, p) && p < |text| && AsciiOnly(d.quote) == Some(text[p]) && p != cell.start
  }

  /** Neither white space nor the quote character. */
  predicate IsContent(d: Dialect, c: char) {
    !IsAsciiWhitespace(c) && AsciiOnly(d.quote) != Some(c)
  }

  /** No content between a closing quote and `p`. */
  predicate NoneBetween(text: string, d: Dialect, quote: nat, p: nat) {
    p <= |text| && forall q :: quote < q < p ==> !IsContent(d, text[q])
  }

  /** The first content after a closing quote. */
  predicate FirstTrailing(text: string, d: Dialect, cell: Cell, p: nat) {
    && cell.quoteClosed && Outside(cell, p) && p < |text| && IsContent(d, text[p])
    && NoneBetween(text, d, cell.valueEnd, p)
  }

  /** What is reported of a cell at one of its characters. */
  predicate Marks(text: string, d: Dialect, cell: Cell, issue: Issue) {
    issue.end == issue.start + 1 &&
    match issue.kind
    case UnexpectedQuote => StrayQuote(text, d, cell, issue.start)
    case TrailingAfterQuote => FirstTrailing(text, d, cell, issue.start)
    case UnterminatedQuote => false
  }

  ghost predicate Marked(text: string, d: Dialect, cells: seq<Cell>, issue: Issue) {
    exists k :: 0 <= k < |cells| && Marks(text, d, cells[k], issue)
  }

  /** What is reported of a last cell whose quote is not closed. */
  predicate LeftOpen(cells: seq<Cell>, issue: Issue) {
    && cells != []
    && var last := cells[|cells| - 1];
       last.quoted && !last.quoteClosed && issue == Issue(UnterminatedQuote, last.start, last.end)
  }

  predicate InOrder(issues: seq<Issue>) {
    forall i, j :: 0 <= i < j < |issues| ==> issues[i].start < issues[j].start
  }

  // ---------------------------------------------------------------------------
  // While a record is scanned

  /** The cells so far, with the one being scanned up to the cursor. */
  function CellsSoFar(s: ScanState): seq<Cell> {
    s.cells + [CloseCell(s)]
  }

  predicate IsState(text: string, d: Dialect, s: ScanState) {
    && s.cellStart <= s.cursor <= |text|
    && (forall k :: 0 <= k < |s.cells| ==> s.cells[k].end <= s.cellStart)
    && (s.inQuotes ==> s.quoted && !s.quoteClosed)
    && (s.quoted && !s.inQuotes ==> s.quoteClosed)
    && (s.quoteClosed <==> s.quotedValueEnd.Some?)
    && (s.quoteClosed ==> s.quoted && s.cellStart < s.quotedValueEnd.value < s.cursor)
    && (s.quoted ==> s.cellStart < s.cursor)
    && (s.afterQuote <==> s.quoteClosed && NoneBetween(text, d, s.quotedValueEnd.value, s.cursor))
  }

  ghost predicate Reported(text: string, d: Dialect, s: ScanState) {
    && InOrder(s.issues)
    && (forall i :: 0 <= i < |s.issues| ==> s.issues[i].start < s.cursor)
    && (forall issue :: issue in s.issues <==> Marked(text, d, CellsSoFar(s), issue))
  }

  lemma {:induction false} MarkedBefore(text: string, d: Dialect, cells: seq<Cell>, cell: Cell, issue: Issue)
    ensures Marked(text, d, cells + [cell], issue) <==> Marked(text, d, cells, issue) || Marks(text, d, cell, issue)
  {
    var all := cells + [cell];
    if Marked(text, d, cells, issue) {
      var k :| 0 <= k < |cells| && Marks(text, d, cells[k], issue);
      assert all[k] == cells[k];
    }
    if Marks(text, d, cell, issue) {
      assert all[|cells|] == cell;
    }
  }

  /** A step inside quotes, or to a new cell: nothing more is marked, and nothing is reported. */
  lemma {:induction false} QuotedReported(text: string, d: Dialect, s: ScanState)
    requires IsState(text, d, s) && Reported(text, d, s) && s.inQuotes && s.cursor < |text|
    ensures IsState(text, d, AdvanceQuoted(text, d, s)) && Reported(text, d, AdvanceQuoted(text, d, s))
  {
    var next := AdvanceQuoted(text, d, s);
    forall issue ensures Marked(text, d, CellsSoFar(next), issue) <==> Marked(text, d, CellsSoFar(s), issue) {
      MarkedBefore(text, d, s.cells, CloseCell(s), issue);
      MarkedBefore(text, d, s.cells, CloseCell(next), issue);
    }
  }

  lemma {:induction false} DelimiterReported(text: string, d: Dialect, s: ScanState)
    requires IsState(text, d, s) && Reported(text, d, s) && s.cursor < |text|
    ensures var next := AtCell(s.cursor + 1, s.cells + [CloseCell(s)], s.issues);
            IsState(text, d, next) && Reported(text, d, next)
  {
    var next := AtCell(s.cursor + 1, s.cells + [CloseCell(s)], s.issues);
    forall issue ensures Marked(text, d, CellsSoFar(next), issue) <==> Marked(text, d, CellsSoFar(s), issue) {
      MarkedBefore(text, d, next.cells, CloseCell(next), issue);
    }
  }

  /** The cell being scanned, with one more character. */
  lemma {:induction false} MarksExtended(text: string, d: Dialect, s: ScanState, next: ScanState, issue: Issue)
    requires IsState(text, d, s) && !s.inQuotes && s.cursor < |text|
    requires next.cursor == s.cursor + 1 && next.cellStart == s.cellStart && next.quoted == s.quoted
    requires next.quoteClosed == s.quoteClosed && next.quotedValueEnd == s.quotedValueEnd
    ensures Marks(text, d, CloseCell(next), issue) <==>
            || Marks(text, d, CloseCell(s), issue)
            || (issue.start == s.cursor && Marks(text, d, CloseCell(next), issue))
  {
    var p := issue.start;
    assert p != s.cursor ==> (Outside(CloseCell(next), p) <==> Outside(CloseCell(s), p));
    assert s.quoteClosed ==> CloseCell(next).valueEnd == CloseCell(s).valueEnd == s.quotedValueEnd.value;
  }

  /** The issue of one more character, if it has one. */
  function IssuesAt(text: string, d: Dialect, s: ScanState): seq<Issue>
    requires s.cursor < |text|
  {
    var c := text[s.cursor];
    if AsciiOnly(d.quote) == Some(c) then
      if s.cursor == s.cellStart then [] else [Issue(UnexpectedQuote, s.cursor, s.cursor + 1)]
    else if s.afterQuote && !IsAsciiWhitespace(c) then [Issue(TrailingAfterQuote, s.cursor, s.cursor + 1)]
    else []
  }

  lemma {:induction false} MarksAtCursor(text: string, d: Dialect, s: ScanState, next: ScanState, issue: Issue)
    requires IsState(text, d, s) && !s.inQuotes && s.cursor < |text|
    requires next.cursor == s.cursor + 1 && next.cellStart == s.cellStart && next.quoted == s.quoted
    requires next.quoteClosed == s.quoteClosed && next.quotedValueEnd == s.quotedValueEnd
    ensures issue.start == s.cursor && Marks(text, d, CloseCell(next), issue) <==> issue in IssuesAt(text, d, s)
  {
    assert Outside(CloseCell(next), s.cursor);
    assert s.quoteClosed ==> CloseCell(next).valueEnd == s.quotedValueEnd.value;
  }

  /** One more character outside quotes. */
  lemma {:induction false} CharacterReported(text: string, d: Dialect, s: ScanState, next: ScanState)
    requires IsState(text, d, s) && Reported(text, d, s) && !s.inQuotes && s.cursor < |text|
    requires next.cursor == s.cursor + 1 && next.cellStart == s.cellStart && next.quoted == s.quoted
    requires next.quoteClosed == s.quoteClosed && next.quotedValueEnd == s.quotedValueEnd
    requires next.cells == s.cells && next.issues == s.issues + IssuesAt(text, d, s)
    ensures Reported(text, d, next)
  {
    forall issue ensures issue in next.issues <==> Marked(text, d, CellsSoFar(next), issue) {
      MarkedBefore(text, d, s.cells, CloseCell(s), issue);
      MarkedBefore(text, d, s.cells, CloseCell(next), issue);
      MarksExtended(text, d, s, next, issue);
      MarksAtCursor(text, d, s, next, issue);
    }
  }

  lemma {:induction false} OpeningReported(text: string, d: Dialect, s: ScanState)
    requires IsState(text, d, s) && Reported(text, d, s) && !s.inQuotes && s.cursor == s.cellStart < |text|
    ensures var next := s.(quoted := true, inQuotes := true, cursor := s.cursor + 1);
            IsState(text, d, next) && Reported(text, d, next)
  {
    var next := s.(quoted := true, inQuotes := true, cursor := s.cursor + 1);
    forall issue ensures Marked(text, d, CellsSoFar(next), issue) <==> Marked(text, d, CellsSoFar(s), issue) {
      MarkedBefore(text, d, s.cells, CloseCell(s), issue);
      MarkedBefore(text, d, s.cells, CloseCell(next), issue);
    }
  }

  lemma {:induction false} NoneBetweenStep(text: string, d: Dialect, quote: nat, p: nat, next: nat)
    requires quote < p < |text| && next == p + 1
    ensures NoneBetween(text, d, quote, next) <==> NoneBetween(text, d, quote, p) && !IsContent(d, text[p])
  {
  }

  lemma {:induction false} AdvanceReported(text: string, d: Dialect, s: ScanState)
    requires IsState(text, d, s) && Reported(text, d, s) && !EndsHere(text, d, s)
    ensures IsState(text, d, Advance(text, d, s)) && Reported(text, d, Advance(text, d, s))
  {
    var c, next := text[s.cursor], Advance(text, d, s);
    if s.inQuotes {
      QuotedReported(text, d, s);
    } else if c == d.delimiter.AsChar() {
      DelimiterReported(text, d, s);
    } else if AsciiOnly(d.quote) == Some(c) && s.cursor == s.cellStart {
      OpeningReported(text, d, s);
    } else {
      assert s.issues + [] == s.issues;
      CharacterReported(text, d, s, next);
      if s.quoteClosed {
        NoneBetweenStep(text, d, s.quotedValueEnd.value, s.cursor, s.cursor + 1);
      }
    }
  }

  // ---------------------------------------------------------------------------
  // A whole record

  /** The issues are exactly those of the cells, each once and in the order of the text. */
  ghost predicate IssuesFit(text: string, d: Dialect, record: Record) {
    && InOrder(record.issues)
    && forall issue :: issue in record.issues <==>
         Marked(text, d, record.cells, issue) || (record.end == |text| && LeftOpen(record.cells, issue))
  }

  lemma {:induction false} FinishFits(text: string, d: Dialect, start: nat, s: ScanState)
    requires IsState(text, d, s) && Reported(text, d, s) && EndsHere(text, d, s)
    ensures IssuesFit(text, d, Finish(text, start, s).record)
  {
    if s.inQuotes {
      forall i | 0 <= i < |s.issues| ensures s.issues[i].start < s.cellStart {
        var issue := s.issues[i];
        assert issue in s.issues;
        MarkedBefore(text, d, s.cells, CloseCell(s), issue);
        var k :| 0 <= k < |s.cells| && Marks(text, d, s.cells[k], issue);
      }
    }
  }

  lemma {:induction false} ScanFits(text: string, d: Dialect, start: nat, s: ScanState)
    requires IsState(text, d, s) && Reported(text, d, s)
    ensures IssuesFit(text, d, Scan(text, d, start, s).record)
    decreases |text| - s.cursor
  {
    if EndsHere(text, d, s) {
      FinishFits(text, d, start, s);
    } else {
      AdvanceReported(text, d, s);
      ScanFits(text, d, start, Advance(text, d, s));
    }
  }

  /**
   For every text and dialect, a record has exactly these issues, in order: each
   quote character outside quotes that does not start its cell, the first content
   after each closing quote, and the last cell if its quote is open at the end.
   */
  lemma {:induction false} ScannedIssues(text: string, d: Dialect, offset: nat)
    requires offset <= |text|
    ensures IssuesFit(text, d, ScanFrom(text, d, offset).record)
  {
    var s := AtCell(offset, [], []);
    assert forall issue :: !Marked(text, d, CellsSoFar(s), issue) by {
      forall issue ensures !Marked(text, d, CellsSoFar(s), issue) {
        MarkedBefore(text, d, [], CloseCell(s), issue);
      }
    }
    ScanFits(text, d, offset, s);
  }

  /** So do all records of a text. */
  lemma {:induction false} AllIssues(text: string, d: Dialect, offset: nat, r: nat)
    requires offset <= |text| && r < |ScanAll(text, d, offset)|
    ensures IssuesFit(text, d, ScanAll(text, d, offset)[r])
    decreases |text| - offset
  {
    if r == 0 {
      ScannedIssues(text, d, offset);
    } else {
      AllIssues(text, d, ScanFrom(text, d, offset).next, r - 1);
    }
  }
}
