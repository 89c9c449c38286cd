/** What the rows of a run hold: the cells of their records, decoded and under their headers. */
module CsvRows {
  import opened Wrappers
  import opened CsvScanner
  import opened CsvStream
  import opened CsvStreamTheorems

  /** The text of a cell that lies in the text. */
  function TextOf(config: Config, cell: Cell): string {
    if cell.valueStart <= cell.valueEnd <= |config.text| then CellText(config.text, config.dialect, cell) else []
  }

  /** The first record gives the headers of all later ones; an empty one is no header. */
  function HeaderAt(config: Config, all: seq<Record>, k: nat, column: nat): Option<string> {
    if config.hasHeaders && 0 < k && all != [] && column < |all[0].cells| && TextOf(config, all[0].cells[column]) != []
    then Some(TextOf(config, all[0].cells[column])) else None
  }

  /** The row of the k-th record. */
  ghost predicate RowFits(config: Config, all: seq<Record>, k: nat, row: Row) {
    && k < |all| && row.record == all[k] && row.sourceRecordIndex == k + 1
    && row.role == (if config.hasHeaders && k == 0 then Header else Data)
    && row.index == (if config.hasHeaders && k > 0 then k - 1 else k)
    && |row.cells| == |all[k].cells|
    && (forall i :: 0 <= i < |row.cells| ==>
          row.cells[i] == RowCell(HeaderAt(config, all, k, i), TextOf(config, all[k].cells[i]), all[k].cells[i]))
    && var ragged := |all[k].cells| != |all[0].cells|;
       && (row.malformed <==> ragged || all[k].issues != [])
       && |row.issues| == |all[k].issues| + (if ragged then 1 else 0)
       && (forall i :: 0 <= i < |all[k].issues| ==> row.issues[i] == FromScanner(all[k].issues[i]))
       && (ragged ==> row.issues[|all[k].issues|] == RaggedRecord(all[k].start, all[k].end))
  }

  /** The state of the stream before the k-th record. */
  ghost predicate Before(config: Config, all: seq<Record>, s: StreamState) {
    && !s.finished && s.offset <= |config.text| && s.sequence <= |all|
    && ScanAll(config.text, config.dialect, s.offset) == all[s.sequence..]
    && s.sourceRecordIndex == s.sequence
    && s.dataIndex == (if config.hasHeaders && s.sequence > 0 then s.sequence - 1 else s.sequence)
    && s.expectedWidth == (if s.sequence == 0 then None else Some(|all[0].cells|))
    && (forall column: nat :: HeaderFor(s.headers, column) == HeaderAt(config, all, s.sequence, column))
  }

  lemma {:induction false} RawFits(config: Config, all: seq<Record>, s: StreamState)
    requires Before(config, all, s) && s.offset < |config.text|
    ensures s.sequence < |all| && RowFits(config, all, s.sequence, Emit(config, s).1)
  {
    ScannedCellsInside(config.text, config.dialect, s.offset);
    var scanned := ScanFrom(config.text, config.dialect, s.offset);
    assert ScanAll(config.text, config.dialect, s.offset)[0] == scanned.record;
    assert all[s.sequence..][0] == all[s.sequence];
  }

  lemma {:induction false} NextBefore(config: Config, all: seq<Record>, s: StreamState)
    requires Before(config, all, s) && s.offset < |config.text|
    ensures Before(config, all, Emit(config, s).0)
  {
    var (next, row) := Emit(config, s);
    RawFits(config, all, s);
    ScannedCellsInside(config.text, config.dialect, s.offset);
    var scanned := ScanFrom(config.text, config.dialect, s.offset);
    assert ScanAll(config.text, config.dialect, s.offset)[1..] == ScanAll(config.text, config.dialect, scanned.next);
    assert all[s.sequence..][1..] == all[s.sequence + 1..];
    forall column: nat ensures HeaderFor(next.headers, column) == HeaderAt(config, all, next.sequence, column) {
      if config.hasHeaders && s.sequence == 0 && column < |row.cells| {
        assert next.headers[column] == row.cells[column].text;
      }
    }
  }

  /** One call gives a row, or it ends the stream. */
  lemma {:induction false} StepGives(config: Config, s: StreamState, control: Control)
    requires s.offset <= |config.text| && !s.finished
    ensures var (next, event) := Step(config, s, control);
            && event.Some?
            && if s.offset < |config.text| && control.checkpoint.None? && control.Charged()
               then next == Emit(config, s).0 && event.value == Item(s.sequence, Emit(config, s).1)
               else next.finished && event.value.Terminal?
  {
  }

  lemma {:induction false} EmitAdvances(config: Config, s: StreamState)
    requires s.offset < |config.text|
    ensures var next := Emit(config, s).0;
            s.offset < next.offset <= |config.text| && next.sequence == s.sequence + 1
  {
  }

  lemma {:induction false} EventRows(
    config: Config, all: seq<Record>, s: StreamState, controls: seq<Control>, k: nat, i: nat, at: nat)
    requires Before(config, all, s) && k == s.sequence && i < |Events(config, s, controls, k)| && at == k + i
    requires Events(config, s, controls, k)[i].Item?
    ensures at < |all| && RowFits(config, all, at, Events(config, s, controls, k)[i].row)
    decreases |config.text| - s.offset
  {
    var later := k + 1;
    var control := ControlAt(controls, k);
    var (next, event) := Step(config, s, control);
    StepGives(config, s, control);
    EventsUnroll(config, s, controls, k, later, next, event.value);
    var rest := Events(config, next, controls, later);
    if event.value.Item? {
      RawFits(config, all, s);
      NextBefore(config, all, s);
      EmitAdvances(config, s);
      if i > 0 {
        assert ([event.value] + rest)[i] == rest[i - 1];
        EventRows(config, all, next, controls, later, i - 1, at);
      }
    }
  }

  /**
   Every item of a run carries the row of its record: decoded cells in order, each
   under the header of its column, with the right role and numbers, and marked
   malformed exactly if the record has issues or not the width of the first.
   */
  lemma {:induction false} RunRows(config: Config, controls: seq<Control>, i: nat)
    requires i < |Run(config, controls)| && Run(config, controls)[i].Item?
    ensures RowFits(config, ScanAll(config.text, config.dialect, 0), i, Run(config, controls)[i].row)
  {
    var all := ScanAll(config.text, config.dialect, 0);
    assert all[0..] == all;
    EventRows(config, all, INITIAL, controls, 0, i, i);
  }
}
