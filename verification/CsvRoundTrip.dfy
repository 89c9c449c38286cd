/**
 Writing and reading back: a table whose fields are spelled as a dialect allows
 scans back to its spellings, and text written as section 2 of RFC 4180 describes
 to its fields.
 */
module CsvRoundTrip {
  import opened Wrappers
  import opened Text
  import opened CsvScanner
  import opened CsvTheorems

  // ---------------------------------------------------------------------------
  // Writing

  /** A field as it is spelled, and whether it is enclosed in quotes. */
  datatype Spelled = Spelled(raw: string, quoted: bool)

  function Quote(d: Dialect): char {
    if AsciiOnly(d.quote).Some? then d.quote.value else '"'
  }

  /** Quotes can open a cell. */
  predicate Opens(d: Dialect) {
    AsciiOnly(d.quote).Some? && Quote(d) != d.delimiter.AsChar() && !IsNewline(Quote(d))
  }

  /** Quotes can open and close a cell. */
  predicate Quotes(d: Dialect) {
    Opens(d) && AsciiOnly(d.escape) != AsciiOnly(d.quote)
  }

  /** A character that means nothing outside quotes. */
  predicate Inert(d: Dialect, c: char) {
    c != d.delimiter.AsChar() && !IsNewline(c) && AsciiOnly(d.quote) != Some(c)
  }

  /** Bare fields hold no delimiter, quote or newline; quoted ones what can stand inside quotes. */
  predicate Spellable(d: Dialect, field: Spelled) {
    if field.quoted then Quotes(d) && Inside(d, field.raw)
    else forall i :: 0 <= i < |field.raw| ==> Inert(d, field.raw[i])
  }

  function WriteField(d: Dialect, field: Spelled): string {
    if field.quoted then [Quote(d)] + field.raw + [Quote(d)] else field.raw
  }

  function WriteFields(d: Dialect, fields: seq<Spelled>): string
    requires fields != []
  {
    if |fields| == 1 then WriteField(d, fields[0])
    else WriteField(d, fields[0]) + [d.delimiter.AsChar()] + WriteFields(d, fields[1..])
  }

  const CRLF: string := ['\r', '\n']

  function WriteTable(d: Dialect, table: seq<seq<Spelled>>): string
    requires forall r :: 0 <= r < |table| ==> table[r] != []
  {
    if table == [] then [] else WriteFields(d, table[0]) + CRLF + WriteTable(d, table[1..])
  }

  // ---------------------------------------------------------------------------
  // Reading back

  /** Going on from `s` gives whatever going on from `t` gives. */
  ghost predicate Leads(text: string, d: Dialect, s: ScanState, t: ScanState) {
    && s.cursor <= |text| && t.cursor <= |text|
    && forall start {:trigger Scan(text, d, start, s)} :: Scan(text, d, start, s) == Scan(text, d, start, t)
  }

  lemma {:induction false} LeadsStep(text: string, d: Dialect, s: ScanState, t: ScanState)
    requires s.cursor <= |text| && !EndsHere(text, d, s) && t == Advance(text, d, s)
    ensures Leads(text, d, s, t)
  {
  }

  lemma {:induction false} LeadsTransitive(text: string, d: Dialect, s: ScanState, t: ScanState, u: ScanState)
    requires Leads(text, d, s, t) && Leads(text, d, t, u)
    ensures Leads(text, d, s, u)
  {
  }

  /** Scanning passes over a bare field without noticing it. */
  lemma {:induction false} ScanBare(text: string, d: Dialect, s: ScanState, end: nat)
    requires s.cursor <= end <= |text| && !s.inQuotes && !s.afterQuote
    requires forall i :: s.cursor <= i < end ==> Inert(d, text[i])
    ensures Leads(text, d, s, s.(cursor := end))
    decreases end - s.cursor
  {
    if s.cursor < end {
      var next := s.(cursor := s.cursor + 1);
      LeadsStep(text, d, s, next);
      ScanBare(text, d, next, end);
      LeadsTransitive(text, d, s, next, s.(cursor := end));
    }
  }

  /** Inside quotes, scanning passes over what can stand there. */
  lemma {:induction false} ScanInside(text: string, d: Dialect, s: ScanState, raw: string, end: nat)
    requires s.inQuotes && Inside(d, raw)
    requires MatchesAt(text, s.cursor, raw) && end == s.cursor + |raw|
    ensures Leads(text, d, s, s.(cursor := end))
    decreases |raw|
  {
    if raw != [] {
      var n := if AsciiOnly(d.escape) == Some(raw[0]) || AsciiOnly(d.quote) == Some(raw[0]) then 2 else 1;
      var head, rest := raw[..n], raw[n..];
      assert raw == head + rest;
      MatchesSplit(text, s.cursor, head, rest);
      MatchesChar(text, s.cursor, head, 0);
      MatchesChar(text, s.cursor, head, n - 1);
      var next := s.(cursor := s.cursor + n);
      LeadsStep(text, d, s, next);
      ScanInside(text, d, next, rest, end);
      LeadsTransitive(text, d, s, next, s.(cursor := end));
    }
  }

  /** A cell that is read exactly as the field is spelled. */
  predicate Reads(text: string, cell: Cell, field: Spelled) {
    && cell.valueStart <= cell.valueEnd <= |text|
    && cell.quoted == cell.quoteClosed == field.quoted
    && text[cell.valueStart..cell.valueEnd] == field.raw
  }

  /** The character after a written field ends it. */
  predicate EndsField(text: string, d: Dialect, i: nat) {
    i < |text| && (text[i] == d.delimiter.AsChar() || IsNewline(text[i]))
  }

  /** The state at the end of a field read from the start of its cell. */
  predicate AtFieldEnd(text: string, d: Dialect, c: nat, cells: seq<Cell>, field: Spelled, s: ScanState) {
    && s.cursor == c + |WriteField(d, field)| && s.cellStart == c && !s.inQuotes
    && s.cells == cells && s.issues == []
    && Reads(text, CloseCell(s), field)
  }

  lemma {:induction false} ScanQuotedField(text: string, d: Dialect, c: nat, cells: seq<Cell>, field: Spelled)
    returns (s: ScanState)
    requires field.quoted && Spellable(d, field)
    requires MatchesAt(text, c, WriteField(d, field)) && EndsField(text, d, c + |WriteField(d, field)|)
    ensures AtFieldEnd(text, d, c, cells, field, s) && Leads(text, d, AtCell(c, cells, []), s)
  {
    var quote, end := [Quote(d)], c + 1 + |field.raw|;
    assert WriteField(d, field) == quote + (field.raw + quote);
    MatchesSplit(text, c, quote, field.raw + quote);
    MatchesSplit(text, c + 1, field.raw, quote);
    MatchesChar(text, c, quote, 0);
    MatchesChar(text, end, quote, 0);
    var initial := AtCell(c, cells, []);
    var open := initial.(quoted := true, inQuotes := true, cursor := c + 1);
    LeadsStep(text, d, initial, open);
    ScanInside(text, d, open, field.raw, end);
    var close := open.(cursor := end);
    LeadsTransitive(text, d, initial, open, close);
    s := close.(inQuotes := false, quoteClosed := true, quotedValueEnd := Some(end), afterQuote := true,
                cursor := end + 1);
    LeadsStep(text, d, close, s);
    LeadsTransitive(text, d, initial, close, s);
  }

  lemma {:induction false} ScanBareField(text: string, d: Dialect, c: nat, cells: seq<Cell>, field: Spelled)
    returns (s: ScanState)
    requires !field.quoted && Spellable(d, field)
    requires MatchesAt(text, c, field.raw)
    ensures AtFieldEnd(text, d, c, cells, field, s) && Leads(text, d, AtCell(c, cells, []), s)
  {
    var end := c + |field.raw|;
    forall i | c <= i < end ensures text[i] == field.raw[i - c] {
      MatchesChar(text, c, field.raw, i - c);
    }
    ScanBare(text, d, AtCell(c, cells, []), end);
    s := AtCell(c, cells, []).(cursor := end);
  }

  /** From the start of a cell, scanning reaches the end of the field written there. */
  lemma {:induction false} ScanField(text: string, d: Dialect, c: nat, cells: seq<Cell>, field: Spelled)
    returns (s: ScanState)
    requires Spellable(d, field)
    requires MatchesAt(text, c, WriteField(d, field)) && EndsField(text, d, c + |WriteField(d, field)|)
    ensures AtFieldEnd(text, d, c, cells, field, s) && Leads(text, d, AtCell(c, cells, []), s)
  {
    if field.quoted {
      s := ScanQuotedField(text, d, c, cells, field);
    } else {
      s := ScanBareField(text, d, c, cells, field);
    }
  }

  /** The record of a scan that goes on from a cell start, whose new cells read back as fields. */
  predicate ScannedReads(text: string, cells: seq<Cell>, end: nat, scanned: Scanned, fields: seq<Spelled>) {
    && scanned.next == end + 2
    && scanned.record.end == end
    && scanned.record.terminator == CrLf
    && scanned.record.issues == []
    && |scanned.record.cells| == |cells| + |fields|
    && cells <= scanned.record.cells
    && forall i :: 0 <= i < |fields| ==> Reads(text, scanned.record.cells[|cells| + i], fields[i])
  }

  /** A read cell in front of read fields. */
  lemma {:induction false} ScannedReadsFront(
    text: string, cells: seq<Cell>, more: seq<Cell>, end: nat, scanned: Scanned,
    fields: seq<Spelled>, rest: seq<Spelled>)
    requires fields != [] && rest == fields[1..] && |more| == |cells| + 1 && cells <= more
    requires Reads(text, more[|cells|], fields[0])
    requires ScannedReads(text, more, end, scanned, rest)
    ensures ScannedReads(text, cells, end, scanned, fields)
  {
    forall i | 0 <= i < |fields|
      ensures Reads(text, scanned.record.cells[|cells| + i], fields[i])
    {
      if i == 0 {
        assert scanned.record.cells[|cells|] == more[|cells|];
      } else {
        assert fields[i] == rest[i - 1];
        assert Reads(text, scanned.record.cells[|more| + (i - 1)], rest[i - 1]);
      }
    }
  }

  /** Written fields followed by CRLF scan to one record that reads back as the fields. */
  lemma {:induction false} ScanFields(
    text: string, d: Dialect, start: nat, s: ScanState, fields: seq<Spelled>, end: nat)
    requires fields != [] && s == AtCell(s.cursor, s.cells, [])
    requires forall i :: 0 <= i < |fields| ==> Spellable(d, fields[i])
    requires MatchesAt(text, s.cursor, WriteFields(d, fields) + CRLF) && end == s.cursor + |WriteFields(d, fields)|
    ensures ScannedReads(text, s.cells, end, Scan(text, d, start, s), fields)
    decreases |fields|
  {
    var first := WriteField(d, fields[0]);
    if |fields| == 1 {
      MatchesSplit(text, s.cursor, first, CRLF);
      MatchesChar(text, s.cursor + |first|, CRLF, 0);
      MatchesChar(text, s.cursor + |first|, CRLF, 1);
      var last := ScanField(text, d, s.cursor, s.cells, fields[0]);
      LastFieldReads(text, d, start, s.cells, fields, last);
    } else {
      var next := ScanFirstField(text, d, s, fields);
      ScanFields(text, d, start, next, fields[1..], end);
      ScannedReadsFront(text, s.cells, next.cells, end, Scan(text, d, start, next), fields, fields[1..]);
    }
  }

  /** The first of several fields reads back, and scanning goes on after its delimiter. */
  lemma {:induction false} ScanFirstField(text: string, d: Dialect, s: ScanState, fields: seq<Spelled>) returns (next: ScanState)
    requires |fields| > 1 && Spellable(d, fields[0]) && s == AtCell(s.cursor, s.cells, [])
    requires MatchesAt(text, s.cursor, WriteFields(d, fields) + CRLF)
    ensures next == AtCell(s.cursor + |WriteField(d, fields[0])| + 1, next.cells, [])
    ensures MatchesAt(text, next.cursor, WriteFields(d, fields[1..]) + CRLF)
    ensures Leads(text, d, s, next)
    ensures |next.cells| == |s.cells| + 1 && s.cells <= next.cells
    ensures Reads(text, next.cells[|s.cells|], fields[0])
  {
    var first := WriteField(d, fields[0]);
    var delimiter := [d.delimiter.AsChar()];
    var rest := WriteFields(d, fields[1..]) + CRLF;
    assert WriteFields(d, fields) + CRLF == first + (delimiter + rest);
    MatchesSplit(text, s.cursor, first, delimiter + rest);
    MatchesSplit(text, s.cursor + |first|, delimiter, rest);
    MatchesChar(text, s.cursor + |first|, delimiter, 0);
    var last := ScanField(text, d, s.cursor, s.cells, fields[0]);
    next := AtCell(last.cursor + 1, s.cells + [CloseCell(last)], []);
    LeadsStep(text, d, last, next);
    LeadsTransitive(text, d, s, last, next);
  }

  lemma {:induction false} LastFieldReads(text: string, d: Dialect, start: nat, cells: seq<Cell>, fields: seq<Spelled>, s: ScanState)
    requires |fields| == 1 && AtFieldEnd(text, d, s.cellStart, cells, fields[0], s)
    requires s.cursor + 1 < |text| && text[s.cursor] == '\r' && text[s.cursor + 1] == '\n'
    ensures ScannedReads(text, cells, s.cursor, Scan(text, d, start, s), fields)
  {
    assert (s.cells + [CloseCell(s)])[|cells|] == CloseCell(s);
  }

  /** A record that reads back as the given fields, without issues. */
  predicate RecordReads(text: string, record: Record, fields: seq<Spelled>) {
    && record.issues == []
    && record.terminator == CrLf
    && |record.cells| == |fields|
    && forall i :: 0 <= i < |fields| ==> Reads(text, record.cells[i], fields[i])
  }

  lemma {:induction false} ScanWrittenFrom(text: string, d: Dialect, offset: nat, table: seq<seq<Spelled>>)
    requires forall r :: 0 <= r < |table| ==> table[r] != []
    requires forall r, i :: 0 <= r < |table| && 0 <= i < |table[r]| ==> Spellable(d, table[r][i])
    requires MatchesAt(text, offset, WriteTable(d, table)) && offset + |WriteTable(d, table)| == |text|
    ensures var records := ScanAll(text, d, offset);
            |records| == |table| && forall r :: 0 <= r < |table| ==> RecordReads(text, records[r], table[r])
    decreases |table|
  {
    if table != [] {
      var first := WriteFields(d, table[0]) + CRLF;
      var rest := WriteTable(d, table[1..]);
      assert WriteTable(d, table) == first + rest;
      MatchesSplit(text, offset, first, rest);
      ScanFields(text, d, offset, AtCell(offset, [], []), table[0], offset + |first| - 2);
      var scanned := ScanFrom(text, d, offset);
      assert RecordReads(text, scanned.record, table[0]);
      ScanWrittenFrom(text, d, scanned.next, table[1..]);
    }
  }

  /** A table with at least one field per record, spelled as the dialect allows, scans back to its spellings. */
  lemma {:induction false} ScanWritten(d: Dialect, table: seq<seq<Spelled>>)
    requires forall r :: 0 <= r < |table| ==> table[r] != []
    requires forall r, i :: 0 <= r < |table| && 0 <= i < |table[r]| ==> Spellable(d, table[r][i])
    ensures var text := WriteTable(d, table);
            var records := ScanAll(text, d, 0);
            |records| == |table| && forall r :: 0 <= r < |table| ==> RecordReads(text, records[r], table[r])
  {
    ScanWrittenFrom(WriteTable(d, table), d, 0, table);
  }

  // ---------------------------------------------------------------------------
  // The format of RFC 4180

  /** A field to be written, and whether to enclose it in quotes. */
  datatype Field = Field(value: string, quoted: bool)

  /** The default quoting with one of the delimiters. */
  predicate IsDefaultQuoting(d: Dialect) {
    d.quote == Some('"') && d.escape == None && d.doubleQuote
  }

  /** Every quote twice. */
  function Doubled(q: char, value: string): string {
    if value == [] then []
    else (if value[0] == q then [q, q] else [value[0]]) + Doubled(q, value[1..])
  }

  /** Quotes are doubled inside quotes; anything else stands as it is. */
  function RfcSpelling(field: Field): Spelled {
    Spelled(if field.quoted then Doubled('"', field.value) else field.value, field.quoted)
  }

  function RfcRecord(fields: seq<Field>): (spelled: seq<Spelled>)
    ensures |spelled| == |fields| && forall i :: 0 <= i < |fields| ==> spelled[i] == RfcSpelling(fields[i])
  {
    seq(|fields|, i requires 0 <= i < |fields| => RfcSpelling(fields[i]))
  }

  function RfcTable(table: seq<seq<Field>>): (spelled: seq<seq<Spelled>>)
    ensures |spelled| == |table| && forall r :: 0 <= r < |table| ==> spelled[r] == RfcRecord(table[r])
  {
    seq(|table|, r requires 0 <= r < |table| => RfcRecord(table[r]))
  }

  /** A field may stand bare only when it holds no delimiter, quote or newline. */
  predicate Writable(d: Dialect, field: Field) {
    field.quoted || forall i :: 0 <= i < |field.value| ==>
      field.value[i] != d.delimiter.AsChar() && field.value[i] != '"' && !IsNewline(field.value[i])
  }

  lemma {:induction false} UndoubleDoubled(q: char, value: string)
    ensures Replace(Doubled(q, value), [q, q], [q]) == value
  {
    if value != [] {
      UndoubleDoubled(q, value[1..]);
      var rest := Doubled(q, value[1..]);
      if value[0] == q {
        assert Doubled(q, value) == [q, q] + rest;
        assert Doubled(q, value)[2..] == rest;
      } else {
        assert Doubled(q, value) == [value[0]] + rest;
        assert Doubled(q, value)[0] == value[0];
        assert Doubled(q, value)[1..] == rest;
      }
      assert value == [value[0]] + value[1..];
    }
  }

  /** Two quotes stand for one: by doubling, or because the quote escapes itself. */
  predicate Pairs(d: Dialect) {
    && AsciiOnly(d.quote).Some?
    && (AsciiOnly(d.escape) == AsciiOnly(d.quote) || (AsciiOnly(d.escape) == None && d.doubleQuote))
  }

  lemma {:induction false} DoubledInside(d: Dialect, value: string)
    requires Pairs(d)
    ensures Inside(d, Doubled(Quote(d), value))
  {
    if value != [] {
      DoubledInside(d, value[1..]);
      var q, rest := Quote(d), Doubled(Quote(d), value[1..]);
      if value[0] == q {
        assert Doubled(q, value) == [q, q] + rest;
        assert Doubled(q, value)[2..] == rest;
      } else {
        assert Doubled(q, value) == [value[0]] + rest;
        assert Doubled(q, value)[1..] == rest;
      }
    }
  }

  lemma {:induction false} RfcSpells(d: Dialect, field: Field)
    requires IsDefaultQuoting(d) && Writable(d, field)
    ensures Spellable(d, RfcSpelling(field))
    ensures DecodeCell(RfcSpelling(field).raw, field.quoted, d) == field.value
  {
    if field.quoted {
      assert Quotes(d);
      DoubledInside(d, field.value);
      UndoubleDoubled('"', field.value);
    }
  }

  /** The cell reads back as the field. */
  predicate ReadsBack(text: string, d: Dialect, cell: Cell, field: Field) {
    && cell.valueStart <= cell.valueEnd <= |text|
    && cell.quoted == cell.quoteClosed == field.quoted
    && CellText(text, d, cell) == field.value
  }

  /**
   Any table with at least one field per record, written with any admissible
   choice of quoting, scans and decodes back to exactly its fields.
   */
  lemma {:induction false} RoundTrip(d: Dialect, table: seq<seq<Field>>)
    requires IsDefaultQuoting(d)
    requires forall r :: 0 <= r < |table| ==> table[r] != []
    requires forall r, i :: 0 <= r < |table| && 0 <= i < |table[r]| ==> Writable(d, table[r][i])
    ensures var text := WriteTable(d, RfcTable(table));
            var records := ScanAll(text, d, 0);
            && |records| == |table|
            && forall r :: 0 <= r < |table| ==>
                 && records[r].issues == [] && records[r].terminator == CrLf && |records[r].cells| == |table[r]|
                 && forall i :: 0 <= i < |table[r]| ==> ReadsBack(text, d, records[r].cells[i], table[r][i])
  {
    var spelled := RfcTable(table);
    forall r, i | 0 <= r < |table| && 0 <= i < |table[r]|
      ensures Spellable(d, spelled[r][i]) && DecodeCell(spelled[r][i].raw, table[r][i].quoted, d) == table[r][i].value
    {
      RfcSpells(d, table[r][i]);
    }
    ScanWritten(d, spelled);
    var text := WriteTable(d, spelled);
    var records := ScanAll(text, d, 0);
    forall r | 0 <= r < |table|
      ensures && records[r].issues == [] && records[r].terminator == CrLf && |records[r].cells| == |table[r]|
              && forall i :: 0 <= i < |table[r]| ==> ReadsBack(text, d, records[r].cells[i], table[r][i])
    {
      assert RecordReads(text, records[r], spelled[r]);
      forall i | 0 <= i < |table[r]| ensures ReadsBack(text, d, records[r].cells[i], table[r][i]) {
        assert Reads(text, records[r].cells[i], spelled[r][i]);
      }
    }
  }
}
