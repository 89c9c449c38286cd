/**
 The lazy event stream over a delimited text, and the collector that turns an
 event stream into a batch. Cancellation and budgets are outcomes handed to
 each call.
 */
module CsvStream {
  import opened Wrappers
  import opened CsvScanner
  import opened CsvTheorems

  datatype ControlError = Cancellation | BudgetExceeded

  /** How the checks of one call turn out. */
  datatype Control = Control(checkpoint: Option<ControlError>, recordsCharged: bool, cellsCharged: bool)
  {
    predicate Charged() {
      recordsCharged && cellsCharged
    }
  }

  datatype OperationStatus = Complete | Partial | Failed | Cancelled

  function StatusOf(error: ControlError, emitted: nat): OperationStatus {
    match error
    case Cancellation => Cancelled
    case BudgetExceeded => if emitted == 0 then Failed else Partial
  }

  datatype Role = Header | Data

  datatype RowIssue = FromScanner(issue: Issue) | RaggedRecord(start: nat, end: nat)

  datatype RowCell = RowCell(header: Option<string>, text: string, cell: Cell)

  datatype Row = Row(
    index: nat,
    sourceRecordIndex: nat,
    role: Role,
    record: Record,
    cells: seq<RowCell>,
    malformed: bool,
    issues: seq<RowIssue>)

  datatype Diagnostic = RowDiagnostic(issue: RowIssue, isPartial: bool) | ControlDiagnostic(error: ControlError, isPartial: bool)

  datatype Event =
    | Item(sequence: nat, row: Row)
    | Terminal(status: OperationStatus, emittedItems: nat, diagnostics: seq<Diagnostic>)

  datatype Config = Config(text: string, dialect: Dialect, hasHeaders: bool)

  /** The fields of the stream. */
  datatype StreamState = StreamState(
    offset: nat,
    sourceRecordIndex: nat,
    dataIndex: nat,
    expectedWidth: Option<nat>,
    headers: seq<string>,
    sequence: nat,
    diagnostics: seq<Diagnostic>,
    finished: bool)

  const INITIAL: StreamState := StreamState(0, 0, 0, None, [], 0, [], false)

  // ---------------------------------------------------------------------------
  // Rows

  lemma {:induction false} CellsInside(text: string, d: Dialect, start: nat, cells: seq<Cell>, end: nat)
    requires CellsTile(text, d, start, cells, end)
    ensures forall i :: 0 <= i < |cells| ==> CellOk(text, d, cells[i])
  {
    if cells != [] {
      var front := cells[..|cells| - 1];
      CellsInside(text, d, start, front, cells[|cells| - 1].start);
      assert forall i :: 0 <= i < |front| ==> cells[i] == front[i];
    }
  }

  lemma {:induction false} ScannedCellsInside(text: string, d: Dialect, offset: nat)
    requires offset <= |text|
    ensures var cells := ScanFrom(text, d, offset).record.cells;
            forall i :: 0 <= i < |cells| ==> CellOk(text, d, cells[i])
  {
    ScanTiles(text, d, offset, AtCell(offset, [], []));
    var cells := ScanFrom(text, d, offset).record.cells;
    var front := cells[..|cells| - 1];
    CellsInside(text, d, offset, front, cells[|cells| - 1].start);
    assert forall i :: 0 <= i < |front| ==> cells[i] == front[i];
  }

  function HeaderFor(headers: seq<string>, column: nat): Option<string> {
    if column < |headers| && headers[column] != [] then Some(headers[column]) else None
  }

  function MaterializeRow(config: Config, record: Record, role: Role, dataIndex: nat, sourceRecordIndex: nat,
                          headers: seq<string>): Row
    requires forall i :: 0 <= i < |record.cells| ==> CellOk(config.text, config.dialect, record.cells[i])
  {
    var cells := seq(|record.cells|, i requires 0 <= i < |record.cells| =>
      assert CellOk(config.text, config.dialect, record.cells[i]);
      RowCell(HeaderFor(headers, i), CellText(config.text, config.dialect, record.cells[i]), record.cells[i]));
    var issues := seq(|record.issues|, i requires 0 <= i < |record.issues| => FromScanner(record.issues[i]));
    Row(dataIndex, sourceRecordIndex, role, record, cells, record.issues != [], issues)
  }

  function RowDiagnostics(issues: seq<RowIssue>): seq<Diagnostic> {
    seq(|issues|, i requires 0 <= i < |issues| => RowDiagnostic(issues[i], true))
  }

  function CellTexts(row: Row): seq<string> {
    seq(|row.cells|, i requires 0 <= i < |row.cells| => row.cells[i].text)
  }

  // ---------------------------------------------------------------------------
  // One call of the stream

  function Stopped(s: StreamState, error: ControlError): Event {
    Terminal(StatusOf(error, s.sequence), s.sequence, [ControlDiagnostic(error, true)])
  }

  /** A row of the stream, marked ragged when its width is not the expected one. */
  function CheckWidth(row: Row, width: nat): Row {
    if |row.cells| == width then row
    else row.(malformed := true, issues := row.issues + [RaggedRecord(row.record.start, row.record.end)])
  }

  /** What a scanned record does to the state, and the row it gives. */
  function RowStep(config: Config, s: StreamState, record: Record): (StreamState, Row)
    requires forall i :: 0 <= i < |record.cells| ==> CellOk(config.text, config.dialect, record.cells[i])
  {
    var role := if config.hasHeaders && s.sourceRecordIndex == 0 then Header else Data;
    var raw := MaterializeRow(config, record, role, s.dataIndex, s.sourceRecordIndex + 1, s.headers);
    var width := if role == Header || s.expectedWidth.None? then |raw.cells| else s.expectedWidth.value;
    var row := CheckWidth(raw, width);
    var added := if row.malformed then RowDiagnostics(row.issues) else [];
    (s.(sourceRecordIndex := s.sourceRecordIndex + 1,
        dataIndex := if role == Header then s.dataIndex else s.dataIndex + 1,
        expectedWidth := Some(width),
        headers := if role == Header then CellTexts(row) else s.headers,
        diagnostics := s.diagnostics + added),
     row)
  }

  /** The state after the next record, and the row it gives. */
  function Emit(config: Config, s: StreamState): (StreamState, Row)
    requires s.offset < |config.text|
  {
    ScannedCellsInside(config.text, config.dialect, s.offset);
    var scanned := ScanFrom(config.text, config.dialect, s.offset);
    var (after, row) := RowStep(config, s.(offset := scanned.next), scanned.record);
    (after.(sequence := s.sequence + 1, finished := false), row)
  }

  function FinalStatus(diagnostics: seq<Diagnostic>): OperationStatus {
    if exists i :: 0 <= i < |diagnostics| && diagnostics[i].isPartial then Partial else Complete
  }

  function Step(config: Config, s: StreamState, control: Control): (StreamState, Option<Event>)
    requires s.offset <= |config.text|
  {
    if s.finished then (s, None)
    else if control.checkpoint.Some? then (s.(finished := true), Some(Stopped(s, control.checkpoint.value)))
    else if s.offset == |config.text| then
      (s.(finished := true, diagnostics := []), Some(Terminal(FinalStatus(s.diagnostics), s.sequence, s.diagnostics)))
    else if !control.Charged() then
      (s.(finished := true, offset := ScanFrom(config.text, config.dialect, s.offset).next),
       Some(Stopped(s, BudgetExceeded)))
    else
      var (next, row) := Emit(config, s);
      (next, Some(Item(s.sequence, row)))
  }

  class Stream {
    const config: Config
    const scanner: Scanner
    var sourceRecordIndex: nat
    var dataIndex: nat
    var expectedWidth: Option<nat>
    var headers: seq<string>
    var sequence: nat
    var diagnostics: seq<Diagnostic>
    var finished: bool

    ghost predicate Valid()
      reads this, scanner
    {
      scanner.Valid() && scanner.text == config.text && scanner.dialect == config.dialect
    }

    ghost function State(): StreamState
      reads this, scanner
    {
      StreamState(scanner.offset, sourceRecordIndex, dataIndex, expectedWidth, headers, sequence, diagnostics, finished)
    }

    constructor (config: Config)
      ensures Valid() && fresh(scanner) && this.config == config && State() == INITIAL
    {
      this.config := config;
      scanner := new Scanner(config.text, config.dialect);
      sourceRecordIndex, dataIndex, sequence := 0, 0, 0;
      expectedWidth, headers, diagnostics, finished := None, [], [], false;
    }

    /** The next event of the stream, or None once it has ended. */
    method Next(control: Control) returns (event: Option<Event>)
      requires Valid()
      modifies this, scanner
      ensures Valid()
      ensures (State(), event) == Step(config, old(State()), control)
    {
      if finished {
        return None;
      }
      if control.checkpoint.Some? {
        finished := true;
        return Some(Terminal(StatusOf(control.checkpoint.value, sequence), sequence,
                             [ControlDiagnostic(control.checkpoint.value, true)]));
      }
      ghost var before := State();
      var raw := scanner.Next();
      if raw.None? {
        finished := true;
        event := Some(Terminal(FinalStatus(diagnostics), sequence, diagnostics));
        diagnostics := [];
        return;
      }
      if !control.recordsCharged || !control.cellsCharged {
        finished := true;
        return Some(Terminal(StatusOf(BudgetExceeded, sequence), sequence, [ControlDiagnostic(BudgetExceeded, true)]));
      }
      ScannedCellsInside(config.text, config.dialect, before.offset);
      var row := EmitRow(raw.value);
      event := Some(Item(sequence, row));
      sequence := sequence + 1;
      assert (State(), row) == Emit(config, before);
    }

    /** Numbers and checks one scanned record. */
    method EmitRow(record: Record) returns (row: Row)
      requires forall i :: 0 <= i < |record.cells| ==> CellOk(config.text, config.dialect, record.cells[i])
      modifies this`sourceRecordIndex, this`dataIndex, this`expectedWidth, this`headers, this`diagnostics
      ensures (State(), row) == RowStep(config, old(State()), record)
    {
      sourceRecordIndex := sourceRecordIndex + 1;
      var role := if config.hasHeaders && sourceRecordIndex == 1 then Header else Data;
      row := MaterializeRow(config, record, role, dataIndex, sourceRecordIndex, headers);
      if role == Header {
        headers := CellTexts(row);
        expectedWidth := Some(|row.cells|);
      } else {
        if expectedWidth.None? {
          expectedWidth := Some(|row.cells|);
        }
        if expectedWidth != Some(|row.cells|) {
          row := row.(malformed := true, issues := row.issues + [RaggedRecord(row.record.start, row.record.end)]);
        }
        dataIndex := dataIndex + 1;
      }
      if row.malformed {
        diagnostics := diagnostics + RowDiagnostics(row.issues);
      } else {
        assert diagnostics + [] == diagnostics;
      }
    }
  }

  // ---------------------------------------------------------------------------
  // Collecting

  datatype ProtocolError =
    | MissingTerminal
    | EventAfterTerminal
    | NonContiguousSequence(expected: nat, actual: nat)
    | EmittedCountMismatch(declared: nat, observed: nat)
    | CompleteWithPartialDiagnostic

  datatype Batch = Batch(items: seq<Event>, status: OperationStatus, diagnostics: seq<Diagnostic>)

  ghost predicate Numbered(events: seq<Event>) {
    forall i :: 0 <= i < |events| ==> events[i].Item? && events[i].sequence == i
  }

  /** Items numbered from 0, then one terminal event that counts them, and nothing else. */
  ghost predicate FollowsProtocol(events: seq<Event>) {
    && events != []
    && Numbered(events[..|events| - 1])
    && var last := events[|events| - 1];
       && last.Terminal?
       && last.emittedItems == |events| - 1
       && (last.status == Complete ==>
             forall i :: 0 <= i < |last.diagnostics| ==> !last.diagnostics[i].isPartial)
  }

  /** Collects a batch exactly when the events follow the protocol. */
  method CollectBatch(events: seq<Event>) returns (r: Result<Batch, ProtocolError>)
    ensures r.Ok? <==> FollowsProtocol(events)
    ensures r.Ok? ==> var last := events[|events| - 1];
                      r.value == Batch(events[..|events| - 1], last.status, last.diagnostics)
    ensures r == Err(MissingTerminal) <==> Numbered(events)
    ensures r == Err(EventAfterTerminal) ==>
              exists i :: 0 <= i < |events| - 1 && events[i].Terminal? && Numbered(events[..i])
    ensures r.Err? && r.error.NonContiguousSequence? ==>
              exists i :: 0 <= i < |events| && events[i].Item? && Numbered(events[..i])
                          && r.error == NonContiguousSequence(i, events[i].sequence)
    ensures r.Err? && r.error.EmittedCountMismatch? ==>
              var last := events[|events| - 1];
              last.Terminal? && r.error == EmittedCountMismatch(last.emittedItems, |events| - 1)
  {
    var items: seq<Event> := [];
    var terminal: Option<Event> := None;
    for n := 0 to |events|
      invariant terminal.None? ==> items == events[..n] && Numbered(items)
      invariant terminal.Some? ==>
                  n > 0 && terminal.value == events[n - 1] && events[n - 1].Terminal?
                  && items == events[..n - 1] && Numbered(items)
    {
      if terminal.Some? {
        return Err(EventAfterTerminal);
      }
      match events[n] {
        case Item(sequence, _) =>
          if sequence != |items| {
            return Err(NonContiguousSequence(|items|, sequence));
          }
          items := items + [events[n]];
        case Terminal(_, _, _) =>
          terminal := Some(events[n]);
      }
    }
    if terminal.None? {
      assert events[..|events|] == events;
      return Err(MissingTerminal);
    }
    if terminal.value.emittedItems != |items| {
      return Err(EmittedCountMismatch(terminal.value.emittedItems, |items|));
    }
    if terminal.value.status == Complete
       && exists i :: 0 <= i < |terminal.value.diagnostics| && terminal.value.diagnostics[i].isPartial
    {
      return Err(CompleteWithPartialDiagnostic);
    }
    r := Ok(Batch(items, terminal.value.status, terminal.value.diagnostics));
  }
}
