/** Whole runs of the CSV event stream, under any sequence of control outcomes. */
module CsvStreamTheorems {
  import opened Wrappers
  import opened CsvScanner
  import opened CsvStream

  /** How the checks of the k-th call turn out; the given outcomes may stop short of the run. */
  function ControlAt(controls: seq<Control>, k: nat): Control {
    if k < |controls| then controls[k] else Control(None, true, true)
  }

  /** All events from a state on, where the call to come is the k-th. */
  ghost function Events(config: Config, s: StreamState, controls: seq<Control>, k: nat): seq<Event>
    requires s.offset <= |config.text|
    decreases if s.finished then 0 else 1, |config.text| - s.offset
  {
    if s.finished then []
    else
      var (next, event) := Step(config, s, ControlAt(controls, k));
      [event.value] + Events(config, next, controls, k + 1)
  }

  ghost function Run(config: Config, controls: seq<Control>): seq<Event> {
    Events(config, INITIAL, controls, 0)
  }

  /** The k-th call is not stopped: its checkpoint passes, and so do its charges if it has a record. */
  ghost predicate PassesAt(controls: seq<Control>, k: nat, atEnd: bool) {
    var control := ControlAt(controls, k);
    control.checkpoint.None? && (atEnd || (control.recordsCharged && control.cellsCharged))
  }

  function ErrorAt(control: Control): ControlError {
    if control.checkpoint.Some? then control.checkpoint.value else BudgetExceeded
  }

  /** Items numbered from `k`, each carrying the matching record. */
  ghost predicate Carries(items: seq<Event>, k: nat, records: seq<Record>) {
    && |items| <= |records|
    && forall i :: 0 <= i < |items| ==> items[i].Item? && items[i].sequence == k + i && items[i].row.record == records[i]
  }

  /** No scanner issue, and the width that the stream expects. */
  predicate IsClean(record: Record, width: nat) {
    record.issues == [] && |record.cells| == width
  }

  ghost predicate AllClean(records: seq<Record>, width: nat) {
    forall i :: 0 <= i < |records| ==> IsClean(records[i], width)
  }

  function ExpectedWidth(s: StreamState, records: seq<Record>): nat {
    if s.expectedWidth.Some? then s.expectedWidth.value
    else if records == [] then 0
    else |records[0].cells|
  }

  /** The terminal event of a run: stopped by control, or the end of the text. */
  ghost predicate Ends(
    terminal: Event, k: nat, n: nat, total: nat, controls: seq<Control>, clean: bool)
  {
    && terminal.Terminal?
    && terminal.emittedItems == n
    && (forall j :: k <= j < n ==> PassesAt(controls, j, false))
    && if PassesAt(controls, n, n == total) then
         && n == total
         && terminal.status == (if clean then Complete else Partial)
         && (clean <==> terminal.diagnostics == [])
       else
         var error := ErrorAt(ControlAt(controls, n));
         && terminal.diagnostics == [ControlDiagnostic(error, true)]
         && terminal.status == match error
                               case Cancellation => Cancelled
                               case BudgetExceeded => if n > 0 then Partial else Failed
  }

  ghost predicate DiagnosticsArePartial(s: StreamState) {
    forall i :: 0 <= i < |s.diagnostics| ==> s.diagnostics[i].isPartial
  }

  /** The state between two records: numbering agrees, and a width is known once a record was seen. */
  ghost predicate Running(s: StreamState) {
    && !s.finished
    && s.sequence == s.sourceRecordIndex
    && (s.expectedWidth.None? <==> s.sourceRecordIndex == 0)
    && DiagnosticsArePartial(s)
  }

  /** One emitted record: what it leaves behind, and when it is reported. */
  lemma {:induction false} EmitFacts(config: Config, s: StreamState)
    requires s.offset < |config.text| && Running(s)
    ensures var (next, row) := Emit(config, s);
            var scanned := ScanFrom(config.text, config.dialect, s.offset);
            var width := if s.expectedWidth.None? then |scanned.record.cells| else s.expectedWidth.value;
            && Running(next)
            && row.record == scanned.record
            && next.offset == scanned.next && next.sequence == s.sequence + 1
            && next.expectedWidth == Some(width)
            && (IsClean(scanned.record, width) <==> !row.malformed)
            && (next.diagnostics == [] <==> s.diagnostics == [] && IsClean(scanned.record, width))
  {
    ScannedCellsInside(config.text, config.dialect, s.offset);
    var (next, row) := Emit(config, s);
    assert |row.cells| == |row.record.cells|;
    if row.malformed {
      assert |next.diagnostics| == |s.diagnostics| + |row.issues|;
    }
  }

  lemma {:induction false} EventsUnroll(
    config: Config, s: StreamState, controls: seq<Control>, k: nat, k': nat, next: StreamState, event: Event)
    requires s.offset <= |config.text| && !s.finished && k' == k + 1
    requires Step(config, s, ControlAt(controls, k)) == (next, Some(event))
    ensures Events(config, s, controls, k) == [event] + Events(config, next, controls, k')
  {
  }

  /** The event of a call that ends the run. */
  lemma {:induction false} EndsAtOnce(config: Config, s: StreamState, controls: seq<Control>)
    requires s.offset <= |config.text| && Running(s)
    requires s.offset == |config.text| || ControlAt(controls, s.sequence).checkpoint.Some? || !ControlAt(controls, s.sequence).Charged()
    ensures var records := ScanAll(config.text, config.dialect, s.offset);
            var (next, event) := Step(config, s, ControlAt(controls, s.sequence));
            && next.finished && event.Some?
            && Ends(event.value, s.sequence, s.sequence, s.sequence + |records|, controls,
                    s.diagnostics == [] && AllClean(records, ExpectedWidth(s, records)))
  {
    if s.diagnostics != [] {
      assert s.diagnostics[0].isPartial;
    }
  }

  /** Events that carry the given records from number `k` on and then end as they should. */
  ghost predicate Shape(events: seq<Event>, records: seq<Record>, k: nat, controls: seq<Control>, clean: bool) {
    && events != []
    && var n := |events| - 1;
       && Carries(events[..n], k, records)
       && Ends(events[n], k, k + n, k + |records|, controls, clean)
  }

  lemma {:induction false} ShapePrepend(first: Event, rest: seq<Event>, record: Record, tail: seq<Record>, k: nat, next: nat,
                     controls: seq<Control>, clean: bool)
    requires first.Item? && first.sequence == k && first.row.record == record && next == k + 1
    requires PassesAt(controls, k, false) && Shape(rest, tail, next, controls, clean)
    ensures Shape([first] + rest, [record] + tail, k, controls, clean)
  {
    var n := |rest| - 1;
    var events, records := [first] + rest, [record] + tail;
    assert events[n + 1] == rest[n];
    forall i | 0 <= i < n + 1
      ensures events[i].Item? && events[i].sequence == k + i && events[i].row.record == records[i]
    {
      if i > 0 {
        assert events[i] == rest[..n][i - 1] && records[i] == tail[i - 1];
      }
    }
    assert k + (n + 1) == next + n && k + |records| == next + |tail|;
  }

  /**
   From any running state: items carry the records still to come, in order and
   numbered on, until control stops the run or the text ends; the run ends
   Complete exactly when nothing was reported and every record left is clean.
   */
  lemma {:induction false} EventsShape(config: Config, s: StreamState, controls: seq<Control>)
    requires s.offset <= |config.text| && Running(s)
    ensures var records := ScanAll(config.text, config.dialect, s.offset);
            Shape(Events(config, s, controls, s.sequence), records, s.sequence, controls,
                  s.diagnostics == [] && AllClean(records, ExpectedWidth(s, records)))
    decreases |config.text| - s.offset
  {
    var k := s.sequence;
    var control := ControlAt(controls, k);
    var records := ScanAll(config.text, config.dialect, s.offset);
    var (next, event) := Step(config, s, control);
    if s.offset == |config.text| || control.checkpoint.Some? || !control.Charged() {
      EndsAtOnce(config, s, controls);
      EventsUnroll(config, s, controls, k, k + 1, next, event.value);
    } else {
      EmitFacts(config, s);
      EventsShape(config, next, controls);
      var tail := ScanAll(config.text, config.dialect, next.offset);
      var clean := next.diagnostics == [] && AllClean(tail, ExpectedWidth(next, tail));
      assert records == [records[0]] + tail;
      CleanRecords(records, tail, ExpectedWidth(s, records), ExpectedWidth(next, tail));
      ShapePrepend(event.value, Events(config, next, controls, next.sequence), records[0], tail, k, next.sequence,
                   controls, clean);
      EventsUnroll(config, s, controls, k, next.sequence, next, event.value);
    }
  }

  lemma {:induction false} CleanRecords(records: seq<Record>, tail: seq<Record>, width: nat, tailWidth: nat)
    requires records != [] && tail == records[1..] && (tail != [] ==> width == tailWidth)
    ensures AllClean(records, width) <==> IsClean(records[0], width) && AllClean(tail, tailWidth)
  {
    if IsClean(records[0], width) && AllClean(tail, tailWidth) {
      forall i | 0 <= i < |records| ensures IsClean(records[i], width) {
        assert i > 0 ==> records[i] == tail[i - 1];
      }
    }
    if AllClean(records, width) {
      forall i | 0 <= i < |tail| ensures IsClean(tail[i], tailWidth) {
        assert tail[i] == records[i + 1];
      }
    }
  }

  /**
   Every run gives items 0 to n-1 carrying the first n records of the text, then
   one terminal event counting them. A run that control or budget stops reports
   that; any other run reaches the end of the text, and is Complete iff no record
   has a scanner issue and all have the width of the first.
   */
  lemma {:induction false} RunShape(config: Config, controls: seq<Control>)
    ensures var records := ScanAll(config.text, config.dialect, 0);
            Shape(Run(config, controls), records, 0, controls,
                  records == [] || AllClean(records, |records[0].cells|))
  {
    EventsShape(config, INITIAL, controls);
    var records := ScanAll(config.text, config.dialect, 0);
    if records != [] {
      assert ExpectedWidth(INITIAL, records) == |records[0].cells|;
    }
  }

  /** A finished stream stays finished and gives no further event. */
  lemma {:induction false} FinishedStaysFinished(config: Config, s: StreamState, control: Control)
    requires s.offset <= |config.text|
    ensures var (next, event) := Step(config, s, control);
            && (s.finished ==> next == s && event == None)
            && (!s.finished ==> event.Some? && (next.finished <==> event.value.Terminal?))
  {
  }

  /** Collecting a run into a batch never fails: every run follows the protocol. */
  lemma {:induction false} RunFollowsProtocol(config: Config, controls: seq<Control>)
    ensures FollowsProtocol(Run(config, controls))
  {
    RunShape(config, controls);
    var events := Run(config, controls);
    var last := events[|events| - 1];
    assert Numbered(events[..|events| - 1]);
    var n, total := |events| - 1, |ScanAll(config.text, config.dialect, 0)|;
    if PassesAt(controls, n, n == total) {
      assert last.status == Complete ==> last.diagnostics == [];
    } else {
      assert last.status != Complete;
    }
  }

  /** An event ends the stream, or takes it further in the text. */
  lemma {:induction false} StepAdvances(config: Config, s: StreamState, control: Control)
    requires s.offset <= |config.text| && !s.finished
    ensures var next := Step(config, s, control).0;
            next.offset <= |config.text| && (next.finished || s.offset < next.offset)
  {
  }

  lemma {:induction false} EventsJoin(events: seq<Event>, event: Event, more: seq<Event>)
    ensures events + ([event] + more) == events + [event] + more
  {
  }

  /** Reads a new stream to its end. */
  method ReadStream(config: Config, controls: seq<Control>) returns (events: seq<Event>)
    ensures events == Run(config, controls)
  {
    var stream := new Stream(config);
    events := [];
    var k := 0;
    ghost var rest := Run(config, controls);
    while true
      invariant stream.Valid() && fresh(stream) && fresh(stream.scanner) && stream.config == config
      invariant rest == Events(config, stream.State(), controls, k)
      invariant events + rest == Run(config, controls)
      decreases if stream.finished then 0 else 1, |config.text| - stream.scanner.offset
    {
      ghost var before := stream.State();
      var event := stream.Next(ControlAt(controls, k));
      if event.None? {
        return;
      }
      ghost var after, more := stream.State(), Events(config, stream.State(), controls, k + 1);
      EventsUnroll(config, before, controls, k, k + 1, after, event.value);
      StepAdvances(config, before, ControlAt(controls, k));
      EventsJoin(events, event.value, more);
      events, rest := events + [event.value], more;
      k := k + 1;
    }
  }

  /** Reads a stream and collects it: the batch always exists. */
  method CollectStream(config: Config, controls: seq<Control>) returns (batch: Batch)
    ensures FollowsProtocol(Run(config, controls))
    ensures var events := Run(config, controls);
            var last := events[|events| - 1];
            batch == Batch(events[..|events| - 1], last.status, last.diagnostics)
  {
    RunFollowsProtocol(config, controls);
    var events := ReadStream(config, controls);
    var collected := CollectBatch(events);
    batch := collected.value;
  }
}
