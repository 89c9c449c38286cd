/**
 Reading a command undoes writing it: a command is read at a backslash exactly
 if its name, its groups and the end of its arguments are spelled there.
 */
module LatexSpelling {
  import opened Wrappers
  import opened Text
  import opened Lists
  import opened LatexCommands

  // ---------------------------------------------------------------------------
  // Balanced groups, wherever they stand

  /** A text whose brackets, with one pair around it, first balance at its end. */
  predicate Balanced(inner: string, open: char, close: char) {
    ClosesAt([open] + inner + [close], 0, |inner| + 2, open, close)
  }

  lemma {:induction false} NestingMoves(
    s: string, text: string, at: nat, i: nat, end: nat, open: char, close: char)
    requires MatchesAt(text, at, s) && i <= |s| && end == at + i
    ensures NestingBefore(text, at, end, open, close) == NestingBefore(s, 0, i, open, close)
    decreases i
  {
    if i > 0 {
      var j, before := i - 1, end - 1;
      NestingMoves(s, text, at, j, before, open, close);
      MatchesChar(text, at, s, j);
    }
  }

  /** Whether a group closes depends on its own text only. */
  lemma {:induction false} ClosesMoves(s: string, text: string, at: nat, end: nat, open: char, close: char)
    requires MatchesAt(text, at, s) && end == at + |s|
    ensures ClosesAt(text, at, end, open, close) <==> ClosesAt(s, 0, |s|, open, close)
  {
    forall i: nat, j: nat | i <= |s| && j == at + i
      ensures NestingBefore(text, at, j, open, close) == NestingBefore(s, 0, i, open, close)
    {
      NestingMoves(s, text, at, i, j, open, close);
    }
    if ClosesAt(text, at, end, open, close) {
      forall i | 0 < i < |s| ensures NestingBefore(s, 0, i, open, close).depth > 0 {
        var j := at + i;
        assert NestingBefore(text, at, j, open, close).depth > 0;
      }
    }
    if ClosesAt(s, 0, |s|, open, close) {
      forall j | at < j < end ensures NestingBefore(text, at, j, open, close).depth > 0 {
        var i := j - at;
        assert NestingBefore(s, 0, i, open, close).depth > 0;
      }
    }
  }

  /** A group ends after what is balanced inside it, and nowhere else. */
  lemma {:induction false} GroupEndsIff(
    text: string, at: nat, inner: string, end: nat, open: char, close: char)
    requires open != close && open != '\\' && close != '\\'
    requires MatchesAt(text, at, [open] + inner + [close]) && end == at + |inner| + 2
    ensures BalancedEnd(text, at, open, close) == Some(end) <==> Balanced(inner, open, close)
  {
    var s := [open] + inner + [close];
    MatchesChar(text, at, s, 0);
    BalancedEndCloses(text, at, open, close);
    ClosesMoves(s, text, at, end, open, close);
  }

  // ---------------------------------------------------------------------------
  // Spellings

  /** What may stand after a name: white space, a bracket group that is passed over, or an argument. */
  datatype Unit = Space(c: char) | Bracket(inner: string) | Brace(inner: string)
  {
    function Spelling(): string {
      match this
      case Space(c) => [c]
      case Bracket(inner) => ['['] + inner + [']']
      case Brace(inner) => ['{'] + inner + ['}']
    }

    predicate Fits() {
      match this
      case Space(c) => IsAsciiWhitespace(c)
      case Bracket(inner) => Balanced(inner, '[', ']')
      case Brace(inner) => Balanced(inner, '{', '}')
    }
  }

  function Spell(units: seq<Unit>): string {
    if units == [] then [] else units[0].Spelling() + Spell(units[1..])
  }

  predicate AllFit(units: seq<Unit>) {
    forall i :: 0 <= i < |units| ==> units[i].Fits()
  }

  function Own(unit: Unit): seq<string> {
    if unit.Brace? then [unit.inner] else []
  }

  function ArgumentsOf(units: seq<Unit>): seq<string> {
    if units == [] then [] else Own(units[0]) + ArgumentsOf(units[1..])
  }

  /** Neither white space nor a group goes on at an offset. */
  predicate Ends(text: string, end: nat) {
    end <= |text| && (end < |text| ==> !IsAsciiWhitespace(text[end]) && text[end] != '[' && text[end] != '{')
  }

  predicate IsLetters(s: string) {
    forall i :: 0 <= i < |s| ==> IsAsciiAlphabetic(s[i])
  }

  /** A name is all the letters there, or one other character; at the end of the text there may be none. */
  predicate NameStands(text: string, at: nat, name: string) {
    && MatchesAt(text, at, name)
    && var end := at + |name|;
       if IsLetters(name)
       then (end < |text| ==> !IsAsciiAlphabetic(text[end])) && (name == [] ==> end == |text|)
       else |name| == 1
  }

  /** The name, the units after it and nothing more of the kind. */
  predicate Spells(text: string, start: nat, command: Command, units: seq<Unit>) {
    && IsAt(text, start, '\\') && NameStands(text, start + 1, command.name)
    && AllFit(units) && MatchesAt(text, start + 1 + |command.name|, Spell(units))
    && command.end == start + 1 + |command.name| + |Spell(units)|
    && Ends(text, command.end) && command.arguments == ArgumentsOf(units)
  }

  // ---------------------------------------------------------------------------
  // The arguments

  lemma {:induction false} SpacesSkipped(text: string, i: nat)
    requires i <= |text|
    ensures var j := SkipSpaces(text, i);
            && (forall k :: i <= k < j ==> IsAsciiWhitespace(text[k]))
            && (j < |text| ==> !IsAsciiWhitespace(text[j]))
    decreases |text| - i
  {
    if i < |text| && IsAsciiWhitespace(text[i]) {
      SpacesSkipped(text, i + 1);
    }
  }

  lemma {:induction false} SpaceRead(text: string, name: string, cursor: nat, c: char, arguments: seq<string>)
    requires IsAt(text, cursor, c) && IsAsciiWhitespace(c)
    ensures Arguments(text, name, cursor, arguments) == Arguments(text, name, cursor + 1, arguments)
  {
    var end := cursor + 1;
    assert SkipSpaces(text, cursor) == SkipSpaces(text, end);
  }

  lemma {:induction false} BracketRead(
    text: string, name: string, cursor: nat, inner: string, end: nat, arguments: seq<string>)
    requires Balanced(inner, '[', ']') && MatchesAt(text, cursor, ['['] + inner + [']']) && end == cursor + |inner| + 2
    ensures Arguments(text, name, cursor, arguments) == Arguments(text, name, end, arguments)
  {
    MatchesChar(text, cursor, ['['] + inner + [']'], 0);
    GroupEndsIff(text, cursor, inner, end, '[', ']');
    assert SkipSpaces(text, cursor) == cursor;
  }

  lemma {:induction false} InnerStands(text: string, at: nat, inner: string, end: nat, open: char, close: char)
    requires MatchesAt(text, at, [open] + inner + [close]) && end == at + |inner| + 2
    ensures text[at + 1..end - 1] == inner
  {
    MatchesSplit(text, at, [open] + inner, [close]);
    MatchesSplit(text, at, [open], inner);
  }

  lemma {:induction false} GroupRead(text: string, brace: nat, body: string, end: nat)
    requires MatchesAt(text, brace, ['{'] + body + ['}']) && end == brace + |body| + 2 && Balanced(body, '{', '}')
    ensures IsAt(text, brace, '{') && Group(text, brace) == Some((body, end))
  {
    MatchesChar(text, brace, ['{'] + body + ['}'], 0);
    GroupEndsIff(text, brace, body, end, '{', '}');
    InnerStands(text, brace, body, end, '{', '}');
  }

  lemma {:induction false} BraceRead(
    text: string, name: string, cursor: nat, inner: string, end: nat, arguments: seq<string>)
    requires Balanced(inner, '{', '}') && MatchesAt(text, cursor, ['{'] + inner + ['}']) && end == cursor + |inner| + 2
    ensures Arguments(text, name, cursor, arguments) == Arguments(text, name, end, arguments + [inner])
  {
    GroupRead(text, cursor, inner, end);
    assert SkipSpaces(text, cursor) == cursor;
  }

  lemma {:induction false} UnitRead(text: string, name: string, cursor: nat, unit: Unit, end: nat, arguments: seq<string>)
    requires unit.Fits() && MatchesAt(text, cursor, unit.Spelling()) && end == cursor + |unit.Spelling()|
    ensures Arguments(text, name, cursor, arguments) == Arguments(text, name, end, arguments + Own(unit))
  {
    assert arguments + [] == arguments;
    match unit
    case Space(c) =>
      MatchesChar(text, cursor, [c], 0);
      SpaceRead(text, name, cursor, c, arguments);
    case Bracket(inner) => BracketRead(text, name, cursor, inner, end, arguments);
    case Brace(inner) => BraceRead(text, name, cursor, inner, end, arguments);
  }

  /** The end of the arguments is read as it is. */
  lemma {:induction false} NoneRead(text: string, name: string, end: nat, arguments: seq<string>)
    requires Ends(text, end)
    ensures Arguments(text, name, end, arguments) == Some(Command(name, end, arguments))
  {
    assert SkipSpaces(text, end) == end;
  }

  lemma {:induction false} FirstSpelled(text: string, cursor: nat, units: seq<Unit>, first: string, next: nat)
    requires units != [] && first == units[0].Spelling() && MatchesAt(text, cursor, Spell(units))
    requires next == cursor + |first|
    ensures MatchesAt(text, cursor, first) && MatchesAt(text, next, Spell(units[1..]))
    ensures |Spell(units)| == |first| + |Spell(units[1..])|
  {
    var rest := Spell(units[1..]);
    assert Spell(units) == first + rest;
    MatchesSplit(text, cursor, first, rest);
  }

  /** Arguments are read as they are spelled. */
  lemma {:induction false} ArgumentsRead(
    text: string, name: string, cursor: nat, units: seq<Unit>, end: nat, arguments: seq<string>)
    requires AllFit(units) && MatchesAt(text, cursor, Spell(units)) && end == cursor + |Spell(units)| && Ends(text, end)
    ensures Arguments(text, name, cursor, arguments) == Some(Command(name, end, arguments + ArgumentsOf(units)))
    decreases |units|
  {
    if units == [] {
      NoneRead(text, name, cursor, arguments);
      assert arguments + [] == arguments;
    } else {
      var unit, rest := units[0], units[1..];
      var next := cursor + |unit.Spelling()|;
      FirstSpelled(text, cursor, units, unit.Spelling(), next);
      UnitRead(text, name, cursor, unit, next, arguments);
      ArgumentsRead(text, name, next, rest, end, arguments + Own(unit));
      Regroup(arguments, Own(unit), ArgumentsOf(rest));
    }
  }

  /** Spelled between two offsets, with these arguments. */
  predicate Stretch(text: string, cursor: nat, end: nat, units: seq<Unit>, arguments: seq<string>) {
    cursor <= end <= |text| && AllFit(units) && text[cursor..end] == Spell(units) && ArgumentsOf(units) == arguments
  }

  lemma {:induction false} SpacesSpelled(text: string, i: nat, j: nat) returns (units: seq<Unit>)
    requires i <= j <= |text| && forall k :: i <= k < j ==> IsAsciiWhitespace(text[k])
    ensures Stretch(text, i, j, units, [])
    decreases j - i
  {
    units := [];
    if i < j {
      var rest := SpacesSpelled(text, i + 1, j);
      units := [Space(text[i])] + rest;
      assert units[1..] == rest && text[i..j] == [text[i]] + text[i + 1..j];
    }
  }

  lemma {:induction false} SpellingsJoin(a: seq<Unit>, b: seq<Unit>)
    ensures Spell(a + b) == Spell(a) + Spell(b)
  {
    if a == [] {
      assert a + b == b;
    } else {
      assert (a + b)[1..] == a[1..] + b;
      SpellingsJoin(a[1..], b);
      Regroup(a[0].Spelling(), Spell(a[1..]), Spell(b));
    }
  }

  lemma {:induction false} ArgumentsJoin(a: seq<Unit>, b: seq<Unit>)
    ensures ArgumentsOf(a + b) == ArgumentsOf(a) + ArgumentsOf(b)
  {
    if a == [] {
      assert a + b == b;
    } else {
      assert (a + b)[1..] == a[1..] + b;
      ArgumentsJoin(a[1..], b);
      Regroup(Own(a[0]), ArgumentsOf(a[1..]), ArgumentsOf(b));
    }
  }

  lemma {:induction false} FitsJoin(a: seq<Unit>, unit: Unit, b: seq<Unit>)
    requires AllFit(a) && unit.Fits() && AllFit(b)
    ensures AllFit(a + ([unit] + b))
  {
  }

  /** A group that ends is spelled there. */
  lemma {:induction false} GroupSpelled(text: string, i: nat, end: nat, open: char, close: char) returns (inner: string)
    requires open != close && open != '\\' && close != '\\'
    requires IsAt(text, i, open) && BalancedEnd(text, i, open, close) == Some(end)
    ensures i + 2 <= end <= |text| && inner == text[i + 1..end - 1]
    ensures Balanced(inner, open, close) && text[i..end] == [open] + inner + [close]
  {
    GroupIsNotEmpty(text, i, open, close);
    inner := text[i + 1..end - 1];
    assert text[i..end] == [open] + inner + [close];
    GroupEndsIff(text, i, inner, end, open, close);
  }

  lemma {:induction false} SlicesJoin(text: string, a: nat, b: nat, c: nat, d: nat)
    requires a <= b <= c <= d <= |text|
    ensures text[a..d] == text[a..b] + (text[b..c] + text[c..d])
  {
  }

  lemma {:induction false} SpellOne(unit: Unit, rest: seq<Unit>)
    ensures Spell([unit] + rest) == unit.Spelling() + Spell(rest)
    ensures ArgumentsOf([unit] + rest) == Own(unit) + ArgumentsOf(rest)
  {
    assert ([unit] + rest)[1..] == rest && ([unit] + rest)[0] == unit;
  }

  lemma {:induction false} StretchesJoin(
    text: string, cursor: nat, i: nat, middle: nat, end: nat, spaces: seq<Unit>, unit: Unit, rest: seq<Unit>)
    returns (units: seq<Unit>)
    requires Stretch(text, cursor, i, spaces, []) && Stretch(text, middle, end, rest, ArgumentsOf(rest))
    requires i <= middle && unit.Fits() && unit.Spelling() == text[i..middle]
    ensures Stretch(text, cursor, end, units, Own(unit) + ArgumentsOf(rest))
  {
    units := spaces + ([unit] + rest);
    FitsJoin(spaces, unit, rest);
    SpellOne(unit, rest);
    SpellingsJoin(spaces, [unit] + rest);
    ArgumentsJoin(spaces, [unit] + rest);
    SlicesJoin(text, cursor, i, middle, end);
    assert [] + (Own(unit) + ArgumentsOf(rest)) == Own(unit) + ArgumentsOf(rest);
  }

  /** White space, a group and what comes after it. */
  lemma {:induction false} GroupAndRest(
    text: string, cursor: nat, i: nat, middle: nat, end: nat, open: char, close: char, spaces: seq<Unit>, rest: seq<Unit>)
    returns (units: seq<Unit>)
    requires Stretch(text, cursor, i, spaces, []) && Stretch(text, middle, end, rest, ArgumentsOf(rest))
    requires (open == '[' && close == ']') || (open == '{' && close == '}')
    requires IsAt(text, i, open) && BalancedEnd(text, i, open, close) == Some(middle)
    ensures i + 2 <= middle
    ensures Stretch(text, cursor, end, units,
                    (if open == '{' then [text[i + 1..middle - 1]] else []) + ArgumentsOf(rest))
  {
    var inner := GroupSpelled(text, i, middle, open, close);
    units := StretchesJoin(text, cursor, i, middle, end, spaces, if open == '{' then Brace(inner) else Bracket(inner), rest);
  }

  lemma {:induction false} NextGroup(text: string, name: string, cursor: nat, i: nat, arguments: seq<string>)
    returns (middle: nat, more: seq<string>)
    requires cursor <= |text| && i == SkipSpaces(text, cursor) && Arguments(text, name, cursor, arguments).Some?
    requires IsAt(text, i, '[') || IsAt(text, i, '{')
    ensures i + 2 <= middle <= |text| && BalancedEnd(text, i, text[i], if text[i] == '{' then '}' else ']') == Some(middle)
    ensures more == arguments + if text[i] == '{' then [text[i + 1..middle - 1]] else []
    ensures Arguments(text, name, cursor, arguments) == Arguments(text, name, middle, more)
  {
    var close := if text[i] == '{' then '}' else ']';
    GroupIsNotEmpty(text, i, text[i], close);
    middle := BalancedEnd(text, i, text[i], close).value;
    more := arguments + if text[i] == '{' then [text[i + 1..middle - 1]] else [];
    assert arguments + [] == arguments;
  }

  lemma {:induction false} LastSpaces(text: string, name: string, cursor: nat, i: nat, arguments: seq<string>)
    requires cursor <= |text| && i == SkipSpaces(text, cursor) && !IsAt(text, i, '[') && !IsAt(text, i, '{')
    ensures Arguments(text, name, cursor, arguments) == Some(Command(name, i, arguments)) && Ends(text, i)
  {
    SpacesSkipped(text, cursor);
  }

  /** What is read was spelled. */
  lemma {:induction false} ArgumentsSpelled(text: string, name: string, cursor: nat, arguments: seq<string>, end: nat)
    returns (units: seq<Unit>)
    requires cursor <= |text| && Arguments(text, name, cursor, arguments).Some?
    requires Arguments(text, name, cursor, arguments).value.end == end
    ensures Ends(text, end) && Stretch(text, cursor, end, units, ArgumentsOf(units))
    ensures Arguments(text, name, cursor, arguments) == Some(Command(name, end, arguments + ArgumentsOf(units)))
    decreases |text| - cursor
  {
    var i := SkipSpaces(text, cursor);
    SpacesSkipped(text, cursor);
    var spaces := SpacesSpelled(text, cursor, i);
    if IsAt(text, i, '[') || IsAt(text, i, '{') {
      var middle, more := NextGroup(text, name, cursor, i, arguments);
      var rest := ArgumentsSpelled(text, name, middle, more, end);
      units := GroupAndRest(text, cursor, i, middle, end, text[i], if text[i] == '{' then '}' else ']', spaces, rest);
      var own := if text[i] == '{' then [text[i + 1..middle - 1]] else [];
      Regroup(arguments, own, ArgumentsOf(rest));
    } else {
      LastSpaces(text, name, cursor, i, arguments);
      units := spaces;
      assert arguments + [] == arguments;
    }
  }

  // ---------------------------------------------------------------------------
  // The name

  lemma {:induction false} LettersSkipped(text: string, i: nat)
    requires i <= |text|
    ensures var j := SkipLetters(text, i);
            && (forall k :: i <= k < j ==> IsAsciiAlphabetic(text[k]))
            && (j < |text| ==> !IsAsciiAlphabetic(text[j]))
    decreases |text| - i
  {
    if i < |text| && IsAsciiAlphabetic(text[i]) {
      LettersSkipped(text, i + 1);
    }
  }

  /** Letters that stop where they stop are all that is skipped. */
  lemma {:induction false} LettersStand(text: string, i: nat, j: nat)
    requires i <= j <= |text| && (forall k :: i <= k < j ==> IsAsciiAlphabetic(text[k]))
    requires j < |text| ==> !IsAsciiAlphabetic(text[j])
    ensures SkipLetters(text, i) == j
    decreases j - i
  {
    if i < j {
      LettersStand(text, i + 1, j);
    }
  }

  lemma {:induction false} NameStandsIff(text: string, start: nat, name: string, end: nat)
    requires start < |text| && end == start + 1 + |name|
    ensures NameStands(text, start + 1, name) <==> NameEnd(text, start) == end && text[start + 1..end] == name
  {
    var first := start + 1;
    LettersSkipped(text, first);
    if NameStands(text, first, name) {
      assert text[first..end] == name;
      forall k | first <= k < end ensures text[k] == name[k - first] {
        MatchesChar(text, first, name, k - first);
      }
      if IsLetters(name) {
        LettersStand(text, first, end);
      }
    }
    if NameEnd(text, start) == end && text[first..end] == name {
      forall k | 0 <= k < |name| ensures name[k] == text[first + k] {
      }
    }
  }

  // ---------------------------------------------------------------------------
  // Commands

  /** The name that stands after a backslash. */
  function CommandName(text: string, start: nat): string
    requires start < |text|
  {
    text[start + 1..NameEnd(text, start)]
  }

  lemma {:induction false} PlainCommand(text: string, start: nat)
    requires IsAt(text, start, '\\') && CommandName(text, start) != DEF
    ensures CommandAt(text, start) == Arguments(text, CommandName(text, start), NameEnd(text, start), [])
  {
  }

  lemma {:induction false} StretchMatches(text: string, cursor: nat, end: nat, units: seq<Unit>)
    requires Stretch(text, cursor, end, units, ArgumentsOf(units))
    ensures MatchesAt(text, cursor, Spell(units)) && end == cursor + |Spell(units)|
  {
    var spelled := Spell(units);
    assert |spelled| == end - cursor;
  }

  lemma {:induction false} ReadIsSpelled(text: string, start: nat, command: Command) returns (units: seq<Unit>)
    requires CommandAt(text, start) == Some(command) && CommandName(text, start) != DEF
    ensures Spells(text, start, command, units)
  {
    var name, nameEnd := CommandName(text, start), NameEnd(text, start);
    PlainCommand(text, start);
    units := ArgumentsSpelled(text, name, nameEnd, [], command.end);
    StretchMatches(text, nameEnd, command.end, units);
    assert [] + ArgumentsOf(units) == ArgumentsOf(units);
    NameStandsIff(text, start, name, nameEnd);
  }

  lemma {:induction false} SpelledIsRead(text: string, start: nat, command: Command, units: seq<Unit>)
    requires command.name != DEF && Spells(text, start, command, units)
    ensures CommandAt(text, start) == Some(command)
  {
    var nameEnd := start + 1 + |command.name|;
    NameStandsIff(text, start, command.name, nameEnd);
    ArgumentsRead(text, command.name, nameEnd, units, command.end, []);
    assert [] + ArgumentsOf(units) == ArgumentsOf(units);
  }

  lemma {:induction false} NameIsRead(text: string, start: nat)
    requires CommandAt(text, start).Some?
    ensures CommandAt(text, start).value.name == CommandName(text, start)
  {
    var name, nameEnd := CommandName(text, start), NameEnd(text, start);
    if name != DEF {
      var units := ArgumentsSpelled(text, name, nameEnd, [], CommandAt(text, start).value.end);
    }
  }

  /** A command other than `\def` is read at an offset exactly if it is spelled there. */
  lemma {:induction false} CommandReadIff(text: string, start: nat, command: Command, def: string)
    requires def == "def" && command.name != def
    ensures CommandAt(text, start) == Some(command) <==> exists units :: Spells(text, start, command, units)
  {
    if CommandAt(text, start) == Some(command) {
      NameIsRead(text, start);
      var units := ReadIsSpelled(text, start, command);
    }
    if exists units :: Spells(text, start, command, units) {
      var units :| Spells(text, start, command, units);
      SpelledIsRead(text, start, command, units);
    }
  }

  /** For instance, letters and arguments one after the other are read as that name and those arguments, in order. */
  lemma {:induction false} ArgumentsInOrder(text: string, name: string, arguments: seq<string>, def: string)
    requires def == "def" && name != [] && IsLetters(name) && name != def
    requires forall i :: 0 <= i < |arguments| ==> Balanced(arguments[i], '{', '}')
    requires text == ['\\'] + name + Spell(Braces(arguments))
    ensures CommandAt(text, 0) == Some(Command(name, |text|, arguments))
  {
    var units, end := Braces(arguments), 1 + |name|;
    BracesHold(arguments);
    BracesFit(arguments);
    assert text[1..end] == name && text[end..|text|] == Spell(units);
    assert Spells(text, 0, Command(name, |text|, arguments), units);
    SpelledIsRead(text, 0, Command(name, |text|, arguments), units);
  }

  lemma {:induction false} BracesFit(arguments: seq<string>)
    requires forall i :: 0 <= i < |arguments| ==> Balanced(arguments[i], '{', '}')
    ensures AllFit(Braces(arguments)) && (arguments != [] ==> |Spell(Braces(arguments))| > 0)
    ensures arguments != [] ==> Spell(Braces(arguments))[0] == '{'
  {
  }

  function Braces(arguments: seq<string>): (units: seq<Unit>)
    ensures |units| == |arguments| && forall i :: 0 <= i < |units| ==> units[i] == Brace(arguments[i])
  {
    seq(|arguments|, i requires 0 <= i < |arguments| => Brace(arguments[i]))
  }

  lemma {:induction false} BracesHold(arguments: seq<string>)
    ensures ArgumentsOf(Braces(arguments)) == arguments
  {
    if arguments != [] {
      BracesHold(arguments[1..]);
      assert Braces(arguments)[1..] == Braces(arguments[1..]);
    }
  }

  // ---------------------------------------------------------------------------
  // Definitions

  /** White space, a backslash and letters, anything up to a brace, and the group there. */
  datatype Definition = Definition(spaces: string, letters: string, between: string, body: string)
  {
    function Spelling(): string {
      spaces + (['\\'] + letters) + (between + (['{'] + body + ['}']))
    }

    predicate Fits() {
      && (forall i :: 0 <= i < |spaces| ==> IsAsciiWhitespace(spaces[i]))
      && IsLetters(letters) && '{' !in between && (between != [] ==> !IsAsciiAlphabetic(between[0]))
      && Balanced(body, '{', '}')
    }
  }

  /** A `\def` spelled at an offset: its arguments are the macro with its backslash, and the body. */
  predicate Defines(text: string, start: nat, command: Command, d: Definition, def: string) {
    && IsAt(text, start, '\\') && MatchesAt(text, start + 1, def) && MatchesAt(text, start + 4, d.Spelling()) && d.Fits()
    && command == Command(def, start + 4 + |d.Spelling()|, [['\\'] + d.letters, d.body])
  }

  lemma {:induction false} SpacesStand(text: string, i: nat, j: nat)
    requires i <= j <= |text| && (forall k :: i <= k < j ==> IsAsciiWhitespace(text[k]))
    requires j < |text| ==> !IsAsciiWhitespace(text[j])
    ensures SkipSpaces(text, i) == j
    decreases j - i
  {
    if i < j {
      SpacesStand(text, i + 1, j);
    }
  }

  lemma {:induction false} BraceStands(text: string, i: nat, j: nat)
    requires i <= j && IsAt(text, j, '{') && forall k :: i <= k < j ==> text[k] != '{'
    ensures NextBrace(text, i) == Some(j)
    decreases j - i
  {
    if i < j {
      BraceStands(text, i + 1, j);
    }
  }

  lemma {:induction false} BraceFound(text: string, i: nat)
    requires i <= |text| && NextBrace(text, i).Some?
    ensures forall k :: i <= k < NextBrace(text, i).value ==> text[k] != '{'
    decreases |text| - i
  {
    if !IsAt(text, i, '{') {
      BraceFound(text, i + 1);
    }
  }

  /** Where the parts of a definition stand. */
  lemma {:induction false} DefinitionParts(text: string, at: nat, d: Definition, i: nat, j: nat, brace: nat)
    requires MatchesAt(text, at, d.Spelling())
    requires i == at + |d.spaces| && j == i + 1 + |d.letters| && brace == j + |d.between|
    ensures MatchesAt(text, at, d.spaces) && MatchesAt(text, i, ['\\'] + d.letters)
    ensures MatchesAt(text, j, d.between) && MatchesAt(text, brace, ['{'] + d.body + ['}'])
  {
    var group := ['{'] + d.body + ['}'];
    assert d.Spelling() == d.spaces + ((['\\'] + d.letters) + (d.between + group));
    MatchesSplit(text, at, d.spaces, (['\\'] + d.letters) + (d.between + group));
    MatchesSplit(text, i, ['\\'] + d.letters, d.between + group);
    MatchesSplit(text, j, d.between, group);
  }

  lemma {:induction false} SpacesRead(text: string, at: nat, spaces: string, i: nat)
    requires MatchesAt(text, at, spaces) && i == at + |spaces| && IsAt(text, i, '\\')
    requires forall k :: 0 <= k < |spaces| ==> IsAsciiWhitespace(spaces[k])
    ensures SkipSpaces(text, at) == i
  {
    forall k | at <= k < i ensures IsAsciiWhitespace(text[k]) {
      MatchesChar(text, at, spaces, k - at);
    }
    SpacesStand(text, at, i);
  }

  lemma {:induction false} LettersRead(text: string, at: nat, letters: string, j: nat)
    requires MatchesAt(text, at, letters) && j == at + |letters| && IsLetters(letters)
    requires j < |text| ==> !IsAsciiAlphabetic(text[j])
    ensures SkipLetters(text, at) == j
  {
    forall k | at <= k < j ensures IsAsciiAlphabetic(text[k]) {
      MatchesChar(text, at, letters, k - at);
    }
    LettersStand(text, at, j);
  }

  lemma {:induction false} BraceIsNext(text: string, at: nat, between: string, brace: nat)
    requires MatchesAt(text, at, between) && brace == at + |between| && '{' !in between && IsAt(text, brace, '{')
    ensures NextBrace(text, at) == Some(brace)
  {
    forall k | at <= k < brace ensures text[k] != '{' {
      MatchesChar(text, at, between, k - at);
      assert between[k - at] in between;
    }
    BraceStands(text, at, brace);
  }

  lemma {:induction false} DefCommandIs(
    text: string, name: string, at: nat, i: nat, first: nat, j: nat, brace: nat, body: string, end: nat)
    requires at <= i < |text| && first == i + 1 <= j && SkipSpaces(text, at) == i && IsAt(text, i, '\\')
    requires SkipLetters(text, first) == j && NextBrace(text, j) == Some(brace)
    requires Group(text, brace) == Some((body, end))
    ensures DefCommand(text, name, at) == Some(Command(name, end, [text[i..j], body]))
  {
  }

  lemma {:induction false} DefinitionRead(text: string, name: string, at: nat, d: Definition, end: nat)
    requires d.Fits() && MatchesAt(text, at, d.Spelling()) && end == at + |d.Spelling()|
    ensures DefCommand(text, name, at) == Some(Command(name, end, [['\\'] + d.letters, d.body]))
  {
    var i := at + |d.spaces|;
    var first := i + 1;
    var j := first + |d.letters|;
    var brace := j + |d.between|;
    DefinitionParts(text, at, d, i, j, brace);
    GroupRead(text, brace, d.body, end);
    NameAndBrace(text, i, d.letters, j, d.between, brace);
    SpacesRead(text, at, d.spaces, i);
    BraceIsNext(text, j, d.between, brace);
    DefCommandIs(text, name, at, i, first, j, brace, d.body, end);
  }

  lemma {:induction false} NameAndBrace(text: string, i: nat, letters: string, j: nat, between: string, brace: nat)
    requires MatchesAt(text, i, ['\\'] + letters) && j == i + 1 + |letters| && IsLetters(letters)
    requires MatchesAt(text, j, between) && (between != [] ==> !IsAsciiAlphabetic(between[0]))
    requires brace == j + |between| && IsAt(text, brace, '{')
    ensures IsAt(text, i, '\\') && SkipLetters(text, i + 1) == j && text[i..j] == ['\\'] + letters
  {
    MatchesSplit(text, i, ['\\'], letters);
    MatchesChar(text, i, ['\\'] + letters, 0);
    if between != [] {
      MatchesChar(text, j, between, 0);
    }
    LettersRead(text, i + 1, letters, j);
  }

  /** What stands before the group of a definition that is read. */
  lemma {:induction false} DefinitionSkips(text: string, at: nat, i: nat, first: nat, j: nat, brace: nat)
    requires at <= |text| && i == SkipSpaces(text, at) && IsAt(text, i, '\\') && first == i + 1
    requires j == SkipLetters(text, first) && NextBrace(text, j) == Some(brace)
    ensures forall k :: 0 <= k < |text[at..i]| ==> IsAsciiWhitespace(text[at..i][k])
    ensures IsLetters(text[first..j]) && '{' !in text[j..brace]
    ensures text[j..brace] != [] ==> !IsAsciiAlphabetic(text[j..brace][0])
    ensures text[i..j] == ['\\'] + text[first..j]
  {
    SpacesSkipped(text, at);
    LettersSkipped(text, first);
    BraceFound(text, j);
    HeadSlice(text, i, j);
  }

  lemma {:induction false} DefinitionSpelled(text: string, name: string, at: nat, end: nat) returns (d: Definition)
    requires at <= |text| && DefCommand(text, name, at).Some? && DefCommand(text, name, at).value.end == end
    ensures d.Fits() && text[at..end] == d.Spelling()
    ensures DefCommand(text, name, at) == Some(Command(name, end, [['\\'] + d.letters, d.body]))
  {
    var i := SkipSpaces(text, at);
    var first := i + 1;
    var j := SkipLetters(text, first);
    var brace := NextBrace(text, j).value;
    DefinitionSkips(text, at, i, first, j, brace);
    var body := GroupSpelled(text, brace, end, '{', '}');
    d := Definition(text[at..i], text[first..j], text[j..brace], body);
    FourSlices(text, at, i, j, brace, end);
    SpellingOf(d, text[at..i], text[i..j], text[j..brace], text[brace..end]);
  }

  lemma {:induction false} FourSlices(text: string, at: nat, i: nat, j: nat, brace: nat, end: nat)
    requires at <= i <= j <= brace <= end <= |text|
    ensures text[at..end] == text[at..i] + text[i..j] + (text[j..brace] + text[brace..end])
  {
    SlicesJoin(text, at, i, j, end);
    assert text[j..end] == text[j..brace] + text[brace..end];
    Regroup(text[at..i], text[i..j], text[j..end]);
  }

  lemma {:induction false} HeadSlice(text: string, i: nat, j: nat)
    requires i < j <= |text|
    ensures text[i..j] == [text[i]] + text[i + 1..j]
  {
  }

  lemma {:induction false} SpellingOf(d: Definition, spaces: string, macro: string, between: string, group: string)
    requires spaces == d.spaces && macro == ['\\'] + d.letters && between == d.between
    requires group == ['{'] + d.body + ['}']
    ensures d.Spelling() == spaces + macro + (between + group)
  {
  }

  /** Where a `\def` is spelled, its name is what is read there: no letter follows it. */
  lemma {:induction false} DefNameRead(text: string, start: nat, d: Definition, def: string, end: nat)
    requires def == "def" && d.Fits() && end == start + 4
    requires IsAt(text, start, '\\') && MatchesAt(text, start + 1, def) && MatchesAt(text, end, d.Spelling())
    ensures CommandName(text, start) == def && NameEnd(text, start) == end
  {
    MatchesChar(text, end, d.Spelling(), 0);
    assert d.Spelling()[0] == if d.spaces != [] then d.spaces[0] else '\\';
    NameStandsIff(text, start, def, end);
  }

  lemma {:induction false} DefinitionIsRead(text: string, start: nat, command: Command, d: Definition, def: string)
    requires def == "def" && Defines(text, start, command, d, def)
    ensures CommandAt(text, start) == Some(command)
  {
    DefNameRead(text, start, d, def, start + 4);
    DefinitionRead(text, def, start + 4, d, command.end);
  }

  lemma {:induction false} ReadIsDefined(text: string, start: nat, command: Command, def: string) returns (d: Definition)
    requires def == "def" && command.name == def && CommandAt(text, start) == Some(command)
    ensures Defines(text, start, command, d, def)
  {
    NameIsRead(text, start);
    d := DefinitionSpelled(text, def, NameEnd(text, start), command.end);
  }

  /** A `\def` is read at an offset exactly if one is spelled there. */
  lemma {:induction false} DefinitionReadIff(text: string, start: nat, command: Command, def: string)
    requires def == "def" && command.name == def
    ensures CommandAt(text, start) == Some(command) <==> exists d :: Defines(text, start, command, d, def)
  {
    if CommandAt(text, start) == Some(command) {
      var d := ReadIsDefined(text, start, command, def);
    }
    if exists d :: Defines(text, start, command, d, def) {
      var d :| Defines(text, start, command, d, def);
      DefinitionIsRead(text, start, command, d, def);
    }
  }
}
