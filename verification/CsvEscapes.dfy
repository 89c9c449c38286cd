/**
 Which values can be quoted so that they come back, over all dialects. Decoding
 undoes an escaped quote but not an escaped escape, so not all of them can.
 */
module CsvEscapes {
  import opened Wrappers
  import opened Text
  import opened CsvScanner
  import opened CsvTheorems
  import opened CsvRoundTrip

  /** Quotes work, and another character escapes them. */
  predicate Escapes(d: Dialect) {
    Quotes(d) && AsciiOnly(d.escape).Some?
  }

  function Escape(d: Dialect): char {
    if AsciiOnly(d.escape).Some? then d.escape.value else '\\'
  }

  /** How many escape characters a text ends with. */
  function TrailingEscapes(e: char, s: string): (n: nat)
    ensures n <= |s|
  {
    if s == [] || s[|s| - 1] != e then 0 else 1 + TrailingEscapes(e, s[..|s| - 1])
  }

  /**
   An even number of escapes stands at the end of the value and, unless quotes may
   also be doubled, before every quote in it.
   */
  predicate Survives(d: Dialect, value: string) {
    && TrailingEscapes(Escape(d), value) % 2 == 0
    && (!d.doubleQuote ==>
          forall i :: 0 <= i < |value| && value[i] == Quote(d) ==> TrailingEscapes(Escape(d), value[..i]) % 2 == 0)
  }

  // ---------------------------------------------------------------------------
  // Runs of escapes

  lemma {:induction false} TrailingFront(e: char, c: char, s: string)
    ensures TrailingEscapes(e, [c] + s) ==
            if TrailingEscapes(e, s) == |s| && c == e then |s| + 1 else TrailingEscapes(e, s)
  {
    if s == [] {
      assert [c] + s == [c] && [c][..0] == [];
      assert TrailingEscapes(e, [c]) == if c == e then 1 else 0;
    } else {
      var last := |s| - 1;
      assert ([c] + s)[..last + 1] == [c] + s[..last];
      if s[last] == e {
        TrailingFront(e, c, s[..last]);
      }
    }
  }

  /** A pair that starts with an escape leaves the parity of what follows. */
  lemma {:induction false} TrailingPair(e: char, c: char, s: string)
    ensures TrailingEscapes(e, [e, c] + s) % 2 == TrailingEscapes(e, s) % 2
  {
    assert [e, c] + s == [e] + ([c] + s);
    TrailingFront(e, c, s);
    TrailingFront(e, e, [c] + s);
  }

  /** Units that leave the parity of the run after them: an escaped character, or one that is no escape. */
  predicate IsUnit(d: Dialect, p: string) {
    (|p| == 2 && p[0] == Escape(d)) || (|p| == 1 && p[0] != Escape(d))
  }

  lemma {:induction false} UnitKeepsParity(d: Dialect, p: string, s: string)
    requires IsUnit(d, p)
    ensures TrailingEscapes(Escape(d), p + s) % 2 == TrailingEscapes(Escape(d), s) % 2
  {
    if |p| == 2 {
      assert p == [Escape(d), p[1]];
      TrailingPair(Escape(d), p[1], s);
    } else {
      assert p == [p[0]];
      TrailingFront(Escape(d), p[0], s);
    }
  }

  /** A value survives with such a unit in front exactly if it survives without, and an escaped quote may be doubled. */
  lemma {:induction false} SurvivesAfterUnit(d: Dialect, p: string, rest: string)
    requires Escapes(d) && IsUnit(d, p)
    ensures Survives(d, p + rest) <==>
            Survives(d, rest) && (|p| == 2 && p[1] == Quote(d) ==> d.doubleQuote)
  {
    var e, value := Escape(d), p + rest;
    UnitKeepsParity(d, p, rest);
    forall i: nat | i <= |rest| ensures TrailingEscapes(e, value[..|p| + i]) % 2 == TrailingEscapes(e, rest[..i]) % 2 {
      assert value[..|p| + i] == p + rest[..i];
      UnitKeepsParity(d, p, rest[..i]);
    }
    forall i | 0 <= i < |p| ensures value[..i] == p[..i] && value[i] == p[i] {
    }
    assert p[..0] == [] && TrailingEscapes(e, []) == 0;
    if |p| == 2 {
      assert p[..1] == [e] && [e][..0] == [];
      assert TrailingEscapes(e, [e]) == 1;
    }
    SurvivesShifted(d, p, rest);
  }

  /** Quotes after the unit are those of the rest. */
  lemma {:induction false} SurvivesShifted(d: Dialect, p: string, rest: string)
    requires Escapes(d) && IsUnit(d, p)
    ensures (forall i :: |p| <= i < |p + rest| && (p + rest)[i] == Quote(d) ==>
               TrailingEscapes(Escape(d), (p + rest)[..i]) % 2 == 0) <==>
            (forall i :: 0 <= i < |rest| && rest[i] == Quote(d) ==> TrailingEscapes(Escape(d), rest[..i]) % 2 == 0)
  {
    var e, value := Escape(d), p + rest;
    forall i: nat | i <= |rest| ensures TrailingEscapes(e, value[..|p| + i]) % 2 == TrailingEscapes(e, rest[..i]) % 2 {
      assert value[..|p| + i] == p + rest[..i];
      UnitKeepsParity(d, p, rest[..i]);
    }
    if forall i :: |p| <= i < |value| && value[i] == Quote(d) ==> TrailingEscapes(e, value[..i]) % 2 == 0 {
      forall i | 0 <= i < |rest| && rest[i] == Quote(d) ensures TrailingEscapes(e, rest[..i]) % 2 == 0 {
        assert value[|p| + i] == rest[i];
      }
    }
    if forall i :: 0 <= i < |rest| && rest[i] == Quote(d) ==> TrailingEscapes(e, rest[..i]) % 2 == 0 {
      forall i | |p| <= i < |value| && value[i] == Quote(d) ensures TrailingEscapes(e, value[..i]) % 2 == 0 {
        var k := i - |p|;
        assert value[i] == rest[k] && |p| + k == i;
      }
    }
  }

  /** Reading a value from its front, with an escape pending or not. */
  predicate Fits(d: Dialect, value: string, pending: bool) {
    if value == [] then !pending
    else if value[0] == Escape(d) then Fits(d, value[1..], !pending)
    else if value[0] == Quote(d) then (pending ==> d.doubleQuote) && Fits(d, value[1..], false)
    else Fits(d, value[1..], false)
  }

  function Pending(d: Dialect, pending: bool): string {
    if pending then [Escape(d)] else []
  }

  lemma {:induction false} FitsIffSurvives(d: Dialect, value: string, pending: bool)
    requires Escapes(d)
    ensures Fits(d, value, pending) <==> Survives(d, Pending(d, pending) + value)
  {
    var e := Escape(d);
    if value == [] {
      assert [e][..0] == [];
      assert Pending(d, pending) + value == Pending(d, pending);
    } else {
      var c, rest := value[0], value[1..];
      var unit := Pending(d, pending) + [c];
      assert Pending(d, pending) + value == unit + rest;
      FitsIffSurvives(d, rest, c == e && !pending);
      if c == e && !pending {
        assert Pending(d, true) + rest == unit + rest;
      } else {
        assert Pending(d, false) + rest == rest;
        SurvivesAfterUnit(d, unit, rest);
      }
    }
  }

  // ---------------------------------------------------------------------------
  // Spelling a value that survives

  /** Each quote is escaped; after a pending escape, that one is escaped too and the quote doubled. */
  function Spell(d: Dialect, value: string, pending: bool): string {
    if value == [] then []
    else if value[0] == Escape(d) then [Escape(d)] + Spell(d, value[1..], !pending)
    else if value[0] == Quote(d) then
      [Escape(d), Quote(d)] + (if pending then [Quote(d)] else []) + Spell(d, value[1..], false)
    else [value[0]] + Spell(d, value[1..], false)
  }

  /** What is spelled for a character once no escape is left pending after it. */
  function SpelledUnit(d: Dialect, c: char, pending: bool): string {
    Pending(d, pending) + if c != Quote(d) then [c]
                          else if pending then [Escape(d), Quote(d), Quote(d)] else [Escape(d), Quote(d)]
  }

  lemma {:induction false} SpellSplits(d: Dialect, value: string, pending: bool)
    requires Escapes(d) && value != [] && (value[0] == Escape(d) ==> pending)
    ensures Pending(d, pending) + Spell(d, value, pending)
            == SpelledUnit(d, value[0], pending) + Spell(d, value[1..], false)
  {
    var e, q, after := Escape(d), Quote(d), Spell(d, value[1..], false);
    if value[0] == q && pending {
      assert [e, q] + [q] + after == [e, q, q] + after;
    } else if value[0] == q {
      assert [e, q] + [] + after == [e, q] + after;
    }
  }

  lemma {:induction false} SpellStandsInside(d: Dialect, value: string, pending: bool)
    requires Escapes(d) && Fits(d, value, pending)
    ensures Inside(d, Pending(d, pending) + Spell(d, value, pending))
  {
    if value != [] {
      var c, rest := value[0], value[1..];
      if c == Escape(d) && !pending {
        SpellStandsInside(d, rest, true);
        assert Pending(d, false) + Spell(d, value, false) == Pending(d, true) + Spell(d, rest, true);
      } else {
        SpellStandsInside(d, rest, false);
        assert Pending(d, false) + Spell(d, rest, false) == Spell(d, rest, false);
        SpellSplits(d, value, pending);
        UnitInside(d, SpelledUnit(d, c, pending), c, pending);
        InsideJoins(d, SpelledUnit(d, c, pending), Spell(d, rest, false));
      }
    }
  }

  lemma {:induction false} UnitInside(d: Dialect, unit: string, c: char, pending: bool)
    requires Escapes(d) && (c == Escape(d) ==> pending) && (c == Quote(d) && pending ==> d.doubleQuote)
    requires unit == SpelledUnit(d, c, pending)
    ensures Inside(d, unit)
  {
    if |unit| >= 2 {
      assert |unit| == 2 ==> unit[2..] == [];
      assert |unit| == 4 ==> unit[2..] == [Quote(d), Quote(d)] && unit[2..][2..] == [];
    } else {
      assert unit[1..] == [];
    }
  }

  /** Every quote with one escape. */
  function Escaped(e: char, q: char, value: string): string {
    if value == [] then []
    else (if value[0] == q then [e, q] else [value[0]]) + Escaped(e, q, value[1..])
  }

  /** One quote or a doubled one after an escape: one quote is left. */
  lemma {:induction false} QuoteUndoubled(e: char, q: char, after: string, doubled: bool)
    requires e != q && (after == [] || after[0] != q)
    ensures Replace([e] + ((if doubled then [q, q] else [q]) + after), [q, q], [q]) ==
            [e] + ([q] + Replace(after, [q, q], [q]))
  {
    var tail := (if doubled then [q, q] else [q]) + after;
    ReplaceKeeps([q, q], [q], e, tail);
    if doubled {
      ReplaceDrops([q, q], [q], after);
    } else {
      ReplaceKeeps([q, q], [q], q, after);
    }
  }

  /** Undoubling a spelling leaves every quote with one escape. */
  lemma {:induction false} SpellUndoubled(d: Dialect, value: string, pending: bool)
    requires Escapes(d)
    ensures Replace(Spell(d, value, pending), [Quote(d), Quote(d)], [Quote(d)]) == Escaped(Escape(d), Quote(d), value)
  {
    var e, q := Escape(d), Quote(d);
    if value != [] {
      var c, rest := value[0], value[1..];
      var after := Spell(d, rest, c == e && !pending);
      SpellUndoubled(d, rest, c == e && !pending);
      if c == q {
        assert Spell(d, value, pending) == [e] + ((if pending then [q, q] else [q]) + after);
        assert after == [] || after[0] != q;
        QuoteUndoubled(e, q, after, pending);
        assert [e] + ([q] + Escaped(e, q, rest)) == [e, q] + Escaped(e, q, rest);
      } else {
        assert Spell(d, value, pending) == [c] + after;
        ReplaceKeeps([q, q], [q], c, after);
      }
    }
  }

  /** A character that starts no match stays. */
  lemma {:induction false} ReplaceKeeps(needle: string, replacement: string, c: char, s: string)
    requires |needle| == 2 && (c == needle[0] ==> s == [] || s[0] != needle[1])
    ensures Replace([c] + s, needle, replacement) == [c] + Replace(s, needle, replacement)
  {
    assert ([c] + s)[1..] == s;
  }

  lemma {:induction false} ReplaceDrops(needle: string, replacement: string, s: string)
    requires |needle| == 2
    ensures Replace(needle + s, needle, replacement) == replacement + Replace(s, needle, replacement)
  {
    assert (needle + s)[2..] == s;
  }

  lemma {:induction false} UnescapeEscaped(e: char, q: char, value: string)
    requires e != q
    ensures Replace(Escaped(e, q, value), [e, q], [q]) == value
  {
    if value != [] {
      var c, rest := value[0], value[1..];
      UnescapeEscaped(e, q, rest);
      assert value == [c] + rest;
      if c == q {
        ReplaceDrops([e, q], [q], Escaped(e, q, rest));
      } else {
        ReplaceKeeps([e, q], [q], c, Escaped(e, q, rest));
      }
    }
  }

  /**
   Without doubling, no quote of a value that fits follows a pending escape, so the
   spelling has one escape per quote.
   */
  lemma {:induction false} SpellIsEscaped(d: Dialect, value: string, pending: bool)
    requires Escapes(d) && !d.doubleQuote && Fits(d, value, pending)
    ensures Spell(d, value, pending) == Escaped(Escape(d), Quote(d), value)
  {
    if value != [] {
      SpellIsEscaped(d, value[1..], value[0] == Escape(d) && !pending);
    }
  }

  lemma {:induction false} SpellDecodes(d: Dialect, value: string)
    requires Escapes(d) && Fits(d, value, false)
    ensures Inside(d, Spell(d, value, false)) && DecodeCell(Spell(d, value, false), true, d) == value
  {
    SpellStandsInside(d, value, false);
    assert Pending(d, false) + Spell(d, value, false) == Spell(d, value, false);
    UnescapeEscaped(Escape(d), Quote(d), value);
    if d.doubleQuote {
      SpellUndoubled(d, value, false);
    } else {
      SpellIsEscaped(d, value, false);
    }
  }

  // ---------------------------------------------------------------------------
  // What comes out survives

  /** Text inside quotes ends with an even number of escapes. */
  lemma {:induction false} InsideTrailing(d: Dialect, raw: string)
    requires Escapes(d) && Inside(d, raw)
    ensures TrailingEscapes(Escape(d), raw) % 2 == 0
    decreases |raw|
  {
    if raw != [] {
      if raw[0] == Escape(d) {
        InsideTrailing(d, raw[2..]);
        assert raw == raw[..2] + raw[2..];
        UnitKeepsParity(d, raw[..2], raw[2..]);
      } else if raw[0] == Quote(d) {
        InsideTrailing(d, raw[2..]);
        assert raw == [raw[0]] + ([raw[1]] + raw[2..]);
        UnitKeepsParity(d, [raw[1]], raw[2..]);
        UnitKeepsParity(d, [raw[0]], [raw[1]] + raw[2..]);
      } else {
        InsideTrailing(d, raw[1..]);
        assert raw == [raw[0]] + raw[1..];
        UnitKeepsParity(d, [raw[0]], raw[1..]);
      }
    }
  }

  /** Putting a quote for two characters that end with one keeps the escapes at the end. */
  lemma {:induction false} ReplaceKeepsTrailing(e: char, needle: string, q: char, s: string)
    requires |needle| == 2 && needle[1] == q != e
    ensures TrailingEscapes(e, Replace(s, needle, [q])) == TrailingEscapes(e, s)
    ensures TrailingEscapes(e, s) == |s| <==> TrailingEscapes(e, s) == |Replace(s, needle, [q])|
    decreases |s|
  {
    if s != [] {
      if needle <= s {
        var rest := s[2..];
        assert s == [s[0]] + ([q] + rest);
        ReplaceKeepsTrailing(e, needle, q, rest);
        TrailingFront(e, q, rest);
        TrailingFront(e, s[0], [q] + rest);
        TrailingFront(e, q, Replace(rest, needle, [q]));
      } else {
        var rest := s[1..];
        assert s == [s[0]] + rest;
        ReplaceKeepsTrailing(e, needle, q, rest);
        TrailingFront(e, s[0], rest);
        TrailingFront(e, s[0], Replace(rest, needle, [q]));
      }
    }
  }

  /** Without doubling, what is decoded from text inside quotes fits. */
  lemma {:induction false} UnescapedFits(d: Dialect, raw: string)
    requires Escapes(d) && !d.doubleQuote && Inside(d, raw)
    ensures Fits(d, Replace(raw, [Escape(d), Quote(d)], [Quote(d)]), false)
    decreases |raw|
  {
    var e, q := Escape(d), Quote(d);
    if raw != [] {
      if raw[0] == e {
        var x, rest := raw[1], raw[2..];
        UnescapedFits(d, rest);
        var out := Replace(rest, [e, q], [q]);
        if x == q {
          assert raw == [e, q] + rest;
          ReplaceDrops([e, q], [q], rest);
          assert ([q] + out)[1..] == out;
        } else {
          assert raw == [e] + ([x] + rest);
          ReplaceKeeps([e, q], [q], x, rest);
          ReplaceKeeps([e, q], [q], e, [x] + rest);
          PairFits(d, x, out);
        }
      } else {
        UnescapedFits(d, raw[1..]);
        assert raw == [raw[0]] + raw[1..];
        ReplaceKeeps([e, q], [q], raw[0], raw[1..]);
      }
    }
  }

  lemma {:induction false} PairFits(d: Dialect, x: char, out: string)
    requires Escapes(d) && x != Quote(d) && Fits(d, out, false)
    ensures Fits(d, [Escape(d)] + ([x] + out), false)
  {
    var value := [Escape(d)] + ([x] + out);
    assert value[1..] == [x] + out && ([x] + out)[1..] == out;
  }

  lemma {:induction false} DecodedSurvives(d: Dialect, raw: string)
    requires Escapes(d) && Inside(d, raw)
    ensures Survives(d, DecodeCell(raw, true, d))
  {
    var e, q := Escape(d), Quote(d);
    var value := DecodeCell(raw, true, d);
    if d.doubleQuote {
      InsideTrailing(d, raw);
      ReplaceKeepsTrailing(e, [q, q], q, raw);
      ReplaceKeepsTrailing(e, [e, q], q, Replace(raw, [q, q], [q]));
    } else {
      UnescapedFits(d, raw);
      FitsIffSurvives(d, value, false);
      assert Pending(d, false) + value == value;
    }
  }

  // ---------------------------------------------------------------------------
  // The exact condition

  /** Some text has a closed quoted cell that decodes to the value. */
  ghost predicate ComesBack(d: Dialect, value: string) {
    exists text, r: nat, i: nat :: DecodesAt(text, d, r, i, value)
  }

  predicate DecodesAt(text: string, d: Dialect, r: nat, i: nat, value: string) {
    var records := ScanAll(text, d, 0);
    && r < |records| && i < |records[r].cells|
    && var cell := records[r].cells[i];
       && cell.quoted && cell.quoteClosed && cell.valueStart <= cell.valueEnd <= |text|
       && CellText(text, d, cell) == value
  }

  /**
   With an escape character, a value can be quoted so that it comes back exactly
   when it ends with an even number of escapes and, unless quotes may be doubled
   too, every quote in it follows an even number.
   */
  lemma {:induction false} ComesBackIffSurvives(d: Dialect, value: string)
    requires Escapes(d)
    ensures ComesBack(d, value) <==> Survives(d, value)
  {
    if ComesBack(d, value) {
      var text, r: nat, i: nat :| DecodesAt(text, d, r, i, value);
      ClosedCellsAreInside(text, d, 0, r, i);
      var cell := ScanAll(text, d, 0)[r].cells[i];
      DecodedSurvives(d, text[cell.valueStart..cell.valueEnd]);
    }
    if Survives(d, value) {
      FitsIffSurvives(d, value, false);
      assert Pending(d, false) + value == value;
      SpellDecodes(d, value);
      SpelledComesBack(d, Spelled(Spell(d, value, false), true), value);
    }
  }

  lemma {:induction false} SpelledComesBack(d: Dialect, field: Spelled, value: string)
    requires field.quoted && Spellable(d, field) && DecodeCell(field.raw, true, d) == value
    ensures ComesBack(d, value)
  {
    var table := [[field]];
    ScanWritten(d, table);
    var text := WriteTable(d, table);
    var record := ScanAll(text, d, 0)[0];
    assert RecordReads(text, record, table[0]);
    assert Reads(text, record.cells[0], table[0][0]);
    assert DecodesAt(text, d, 0, 0, value);
  }

  /** An input that does not survive: a value that is a single escape. */
  lemma {:induction false} LoneEscapeIsLost(d: Dialect)
    requires Escapes(d)
    ensures !ComesBack(d, [Escape(d)])
  {
    ComesBackIffSurvives(d, [Escape(d)]);
    assert [Escape(d)][..0] == [];
  }

  // ---------------------------------------------------------------------------
  // No escape, or one the scanner does not see

  lemma {:induction false} ReplaceAbsent(e: char, q: char, s: string)
    requires q !in s
    ensures Replace(s, [e, q], [q]) == s
  {
    if s != [] {
      var rest := s[1..];
      assert s == [s[0]] + rest;
      ReplaceAbsent(e, q, rest);
      ReplaceKeeps([e, q], [q], s[0], rest);
    }
  }

  /** Then, without doubling, exactly the values without a quote come back. */
  lemma {:induction false} PlainQuotesIff(d: Dialect, value: string)
    requires Opens(d) && AsciiOnly(d.escape) == None && !d.doubleQuote
    ensures ComesBack(d, value) <==> Quote(d) !in value
  {
    if ComesBack(d, value) {
      var text, r: nat, i: nat :| DecodesAt(text, d, r, i, value);
      ClosedCellsAreInside(text, d, 0, r, i);
      var cell := ScanAll(text, d, 0)[r].cells[i];
      PlainDecodes(d, text[cell.valueStart..cell.valueEnd]);
    }
    if Quote(d) !in value {
      PlainDecodes(d, value);
      SpelledComesBack(d, Spelled(value, true), value);
    }
  }

  lemma {:induction false} PlainDecodes(d: Dialect, raw: string)
    requires Opens(d) && AsciiOnly(d.escape) == None && !d.doubleQuote
    ensures Inside(d, raw) <==> Quote(d) !in raw
    ensures Inside(d, raw) ==> DecodeCell(raw, true, d) == raw
  {
    InsideHasNoQuote(d, raw);
    if Quote(d) !in raw && d.escape.Some? {
      ReplaceAbsent(d.escape.value, Quote(d), raw);
    }
  }

  lemma {:induction false} InsideHasNoQuote(d: Dialect, raw: string)
    requires Opens(d) && AsciiOnly(d.escape) == None && !d.doubleQuote
    ensures Inside(d, raw) <==> Quote(d) !in raw
    decreases |raw|
  {
    if raw != [] {
      InsideHasNoQuote(d, raw[1..]);
      assert raw == [raw[0]] + raw[1..];
    }
  }

  /** With doubling, every value comes back: decoding undoes the doubling, and an escape before each quote. */
  lemma {:induction false} DoubledComesBack(d: Dialect, value: string)
    requires Opens(d) && AsciiOnly(d.escape) == None && d.doubleQuote
    ensures ComesBack(d, value)
  {
    var q := Quote(d);
    var escaped := if d.escape.Some? then Escaped(d.escape.value, q, value) else value;
    if d.escape.Some? {
      UnescapeEscaped(d.escape.value, q, value);
    }
    UndoubleDoubled(q, escaped);
    DoubledInside(d, escaped);
    SpelledComesBack(d, Spelled(Doubled(q, escaped), true), value);
  }

  // ---------------------------------------------------------------------------
  // Quotes that never open

  predicate NoneQuoted(s: ScanState) {
    && !s.quoted && !s.inQuotes && !s.quoteClosed
    && forall i :: 0 <= i < |s.cells| ==> !s.cells[i].quoted
  }

  lemma {:induction false} ScanQuotesNone(text: string, d: Dialect, start: nat, s: ScanState, i: nat)
    requires !Opens(d) && s.cursor <= |text| && NoneQuoted(s)
    requires i < |Scan(text, d, start, s).record.cells|
    ensures !Scan(text, d, start, s).record.cells[i].quoted
    decreases |text| - s.cursor
  {
    if !EndsHere(text, d, s) {
      ScanQuotesNone(text, d, start, Advance(text, d, s), i);
    }
  }

  /** Without a quote that can open a cell, no cell is quoted. */
  lemma {:induction false} NothingIsQuoted(text: string, d: Dialect, offset: nat, r: nat, i: nat)
    requires !Opens(d)
    requires offset <= |text| && r < |ScanAll(text, d, offset)| && i < |ScanAll(text, d, offset)[r].cells|
    ensures !ScanAll(text, d, offset)[r].cells[i].quoted
    decreases |text| - offset
  {
    if r == 0 {
      ScanQuotesNone(text, d, offset, AtCell(offset, [], []), i);
    } else {
      NothingIsQuoted(text, d, ScanFrom(text, d, offset).next, r - 1, i);
    }
  }

  // ---------------------------------------------------------------------------
  // One character for both

  /** The quote is its own escape. */
  predicate EscapesItself(d: Dialect) {
    AsciiOnly(d.quote).Some? && AsciiOnly(d.escape) == AsciiOnly(d.quote)
  }

  /** A closed cell goes up to the end of the text. */
  predicate ClosedAtEnd(text: string, cell: Cell) {
    cell.quoteClosed ==> cell.valueEnd + 1 == cell.end == |text|
  }

  /** The same for a cell being scanned, and for all those before it. */
  predicate AtEndSoFar(text: string, s: ScanState) {
    && s.cellStart <= s.cursor <= |text|
    && (forall i :: 0 <= i < |s.cells| ==> ClosedAtEnd(text, s.cells[i]))
    && (s.inQuotes ==> s.quoted && s.cellStart < s.cursor && !s.quoteClosed)
    && (s.quoteClosed ==> s.quoted && s.quotedValueEnd.Some?
                          && s.cellStart < s.quotedValueEnd.value && s.quotedValueEnd.value + 1 == s.cursor == |text|)
  }

  lemma {:induction false} AdvanceClosesAtEnd(text: string, d: Dialect, s: ScanState)
    requires EscapesItself(d) && AtEndSoFar(text, s) && !EndsHere(text, d, s)
    ensures AtEndSoFar(text, Advance(text, d, s))
  {
    if !s.inQuotes && text[s.cursor] == d.delimiter.AsChar() {
      assert ClosedAtEnd(text, CloseCell(s));
    }
  }

  lemma {:induction false} ScanClosesAtEnd(text: string, d: Dialect, start: nat, s: ScanState, i: nat)
    requires EscapesItself(d) && AtEndSoFar(text, s)
    requires i < |Scan(text, d, start, s).record.cells|
    ensures ClosedAtEnd(text, Scan(text, d, start, s).record.cells[i])
    decreases |text| - s.cursor
  {
    if EndsHere(text, d, s) {
      assert ClosedAtEnd(text, CloseCell(s));
    } else {
      AdvanceClosesAtEnd(text, d, s);
      ScanClosesAtEnd(text, d, start, Advance(text, d, s), i);
    }
  }

  /** With a quote that is its own escape, a cell closes nowhere but at the end of the text. */
  lemma {:induction false} ClosesOnlyAtEnd(text: string, d: Dialect, offset: nat, r: nat, i: nat)
    requires EscapesItself(d)
    requires offset <= |text| && r < |ScanAll(text, d, offset)| && i < |ScanAll(text, d, offset)[r].cells|
    ensures ClosedAtEnd(text, ScanAll(text, d, offset)[r].cells[i])
    decreases |text| - offset
  {
    if r == 0 {
      ScanClosesAtEnd(text, d, offset, AtCell(offset, [], []), i);
    } else {
      ClosesOnlyAtEnd(text, d, ScanFrom(text, d, offset).next, r - 1, i);
    }
  }

  /** A quoted field at the end of the text reads back, whatever its quote escapes. */
  lemma {:induction false} LastFieldComesBack(d: Dialect, text: string, raw: string)
    requires EscapesItself(d) && Opens(d)
    requires Inside(d, raw) && text == [Quote(d)] + raw + [Quote(d)]
    ensures DecodesAt(text, d, 0, 0, DecodeCell(raw, true, d))
  {
    var initial, last := AtCell(0, [], []), |text| - 1;
    var open := initial.(quoted := true, inQuotes := true, cursor := 1);
    LeadsStep(text, d, initial, open);
    assert text[1..last] == raw;
    ScanInside(text, d, open, raw, last);
    var close := open.(cursor := last);
    var s := close.(inQuotes := false, quoteClosed := true, quotedValueEnd := Some(last), afterQuote := true,
                    cursor := |text|);
    LeadsStep(text, d, close, s);
    assert ScanFrom(text, d, 0) == Scan(text, d, 0, open) == Scan(text, d, 0, close) == Scan(text, d, 0, s);
    assert ScanAll(text, d, 0)[0] == ScanFrom(text, d, 0).record;
  }

  /** Yet there every value comes back: decoding undoes one doubling, and another where quotes are doubled too. */
  lemma {:induction false} SelfEscapedComesBack(d: Dialect, value: string)
    requires EscapesItself(d) && Opens(d)
    ensures ComesBack(d, value)
  {
    var q := Quote(d);
    var once := if d.doubleQuote then Doubled(q, value) else value;
    var raw := Doubled(q, once);
    UndoubleDoubled(q, value);
    UndoubleDoubled(q, once);
    DoubledInside(d, once);
    LastFieldComesBack(d, [q] + raw + [q], raw);
  }

  /** What can be quoted so that it comes back, by the characters of the dialect. */
  predicate CanComeBack(d: Dialect, value: string) {
    && Opens(d)
    && if AsciiOnly(d.escape) == None then d.doubleQuote || Quote(d) !in value
       else AsciiOnly(d.escape) == AsciiOnly(d.quote) || Survives(d, value)
  }

  /** Over all dialects: exactly which values can be quoted so that they come back. */
  lemma {:induction false} ComesBackIff(d: Dialect, value: string)
    ensures ComesBack(d, value) <==> CanComeBack(d, value)
  {
    if !Opens(d) {
      if ComesBack(d, value) {
        var text, r: nat, i: nat :| DecodesAt(text, d, r, i, value);
        NothingIsQuoted(text, d, 0, r, i);
      }
    } else if AsciiOnly(d.escape) == None {
      if d.doubleQuote {
        DoubledComesBack(d, value);
      } else {
        PlainQuotesIff(d, value);
      }
    } else if AsciiOnly(d.escape) == AsciiOnly(d.quote) {
      SelfEscapedComesBack(d, value);
    } else {
      ComesBackIffSurvives(d, value);
    }
  }

  /** What that costs: a quoted field before another one takes the rest of the text. */
  lemma {:induction false} SelfEscapedSwallows(d: Dialect, text: string)
    requires d.quote == d.escape == Some('"') && d.delimiter.AsChar() == ',' && text == "\"a\",b"
    ensures ScanAll(text, d, 0) ==
            [Record(0, 5, EndOfInput, [Cell(0, 5, 1, 5, true, false)], [Issue(UnterminatedQuote, 0, 5)])]
  {
    var s0 := AtCell(0, [], []);
    var s1 := s0.(quoted := true, inQuotes := true, cursor := 1);
    var s2, s4, s5 := s1.(cursor := 2), s1.(cursor := 4), s1.(cursor := 5);
    LeadsStep(text, d, s0, s1);
    LeadsStep(text, d, s1, s2);
    LeadsStep(text, d, s2, s4);
    LeadsStep(text, d, s4, s5);
    assert ScanFrom(text, d, 0) == Scan(text, d, 0, s1) == Scan(text, d, 0, s2);
    assert Scan(text, d, 0, s2) == Scan(text, d, 0, s4) == Scan(text, d, 0, s5);
    var scanned := Finish(text, 0, s5);
    assert s5.cells + [CloseCell(s5)] == [Cell(0, 5, 1, 5, true, false)];
    assert [] + [Issue(UnterminatedQuote, 0, 5)] == [Issue(UnterminatedQuote, 0, 5)];
    assert EndsHere(text, d, s5) && ScanFrom(text, d, 0) == scanned;
    assert ScanAll(text, d, scanned.next) == [];
  }
}
