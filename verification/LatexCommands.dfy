/** Recognising one LaTeX command, its balanced groups and its arguments. */
module LatexCommands {
  import opened Wrappers
  import opened Text

  /** A command that starts somewhere, runs up to `end` and carries brace arguments. */
  datatype Command = Command(name: string, end: nat, arguments: seq<string>)

  // ---------------------------------------------------------------------------
  // Balanced groups

  /** How far the bracket counter is from zero before `i`, and whether `i` is escaped. */
  datatype Nesting = Nesting(depth: int, escaped: bool)

  function NestingStep(n: Nesting, c: char, open: char, close: char): Nesting {
    if n.escaped then Nesting(n.depth, false)
    else if c == '\\' then Nesting(n.depth, true)
    else Nesting(n.depth + (if c == open then 1 else 0) - (if c == close then 1 else 0), false)
  }

  /** Unescaped opening minus closing brackets in text[start..i]. */
  function NestingBefore(text: string, start: nat, i: nat, open: char, close: char): Nesting
    requires start <= i <= |text|
  {
    if i == start then Nesting(0, false)
    else NestingStep(NestingBefore(text, start, i - 1, open, close), text[i - 1], open, close)
  }

  function BalancedFrom(text: string, i: nat, depth: nat, escaped: bool, open: char, close: char): (end: Option<nat>)
    requires i <= |text|
    ensures end.Some? ==> i < end.value <= |text| && text[end.value - 1] == close
    decreases |text| - i
  {
    if i == |text| then None
    else if escaped then BalancedFrom(text, i + 1, depth, false, open, close)
    else if text[i] == '\\' then BalancedFrom(text, i + 1, depth, true, open, close)
    else
      var inside := if text[i] == open then depth + 1 else depth;
      if text[i] == close then
        var closed := if inside == 0 then 0 else inside - 1;
        if closed == 0 then Some(i + 1) else BalancedFrom(text, i + 1, closed, false, open, close)
      else BalancedFrom(text, i + 1, inside, false, open, close)
  }

  /** The offset after the bracket that closes the group inside at `start`. */
  function BalancedEnd(text: string, start: nat, open: char, close: char): Option<nat>
    requires start <= |text|
  {
    BalancedFrom(text, start, 0, false, open, close)
  }

  method FindBalancedEnd(text: string, start: nat, open: char, close: char) returns (end: Option<nat>)
    requires start <= |text|
    ensures end == BalancedEnd(text, start, open, close)
  {
    var depth: nat, escaped := 0, false;
    for i := start to |text|
      invariant BalancedFrom(text, i, depth, escaped, open, close) == BalancedEnd(text, start, open, close)
    {
      if escaped {
        escaped := false;
        continue;
      }
      if text[i] == '\\' {
        escaped := true;
        continue;
      }
      if text[i] == open {
        depth := depth + 1;
      }
      if text[i] == close {
        depth := if depth == 0 then 0 else depth - 1;
        if depth == 0 {
          return Some(i + 1);
        }
      }
    }
    end := None;
  }

  /** `end` is where the bracket counter first comes back to zero. */
  predicate ClosesAt(text: string, start: nat, end: nat, open: char, close: char)
    requires start <= |text|
  {
    && start < end <= |text|
    && NestingBefore(text, start, end, open, close).depth == 0
    && forall j :: start < j < end ==> NestingBefore(text, start, j, open, close).depth > 0
  }

  lemma {:induction false} BalancedFromCloses(text: string, start: nat, i: nat, open: char, close: char)
    requires start < i <= |text| && open != close && open != '\\' && close != '\\'
    requires forall j :: start < j <= i ==> NestingBefore(text, start, j, open, close).depth > 0
    ensures var n := NestingBefore(text, start, i, open, close);
            match BalancedFrom(text, i, n.depth, n.escaped, open, close)
            case Some(end) => ClosesAt(text, start, end, open, close)
            case None => forall end :: !ClosesAt(text, start, end, open, close)
    decreases |text| - i
  {
    if i < |text| {
      var n := NestingBefore(text, start, i, open, close);
      var next := NestingBefore(text, start, i + 1, open, close);
      if next.depth > 0 {
        BalancedFromCloses(text, start, i + 1, open, close);
      }
    }
  }

  /** A group ends exactly where its unescaped brackets first balance, and nowhere if they never do. */
  lemma {:induction false} BalancedEndCloses(text: string, start: nat, open: char, close: char)
    requires IsAt(text, start, open) && open != close && open != '\\' && close != '\\'
    ensures match BalancedEnd(text, start, open, close)
            case Some(end) => ClosesAt(text, start, end, open, close)
            case None => forall end :: !ClosesAt(text, start, end, open, close)
  {
    assert NestingBefore(text, start, start + 1, open, close) == Nesting(1, false);
    BalancedFromCloses(text, start, start + 1, open, close);
  }

  // ---------------------------------------------------------------------------
  // Commands

  function SkipLetters(text: string, i: nat): (j: nat)
    requires i <= |text|
    ensures i <= j <= |text|
    decreases |text| - i
  {
    if i < |text| && IsAsciiAlphabetic(text[i]) then SkipLetters(text, i + 1) else i
  }

  function SkipSpaces(text: string, i: nat): (j: nat)
    requires i <= |text|
    ensures i <= j <= |text|
    decreases |text| - i
  {
    if i < |text| && IsAsciiWhitespace(text[i]) then SkipSpaces(text, i + 1) else i
  }

  /** The end of a command name: its letters, or one other character. */
  function NameEnd(text: string, start: nat): (end: nat)
    requires start < |text|
    ensures start < end <= |text|
  {
    var end := SkipLetters(text, start + 1);
    if end == start + 1 && end < |text| then end + 1 else end
  }

  /** The next opening brace; None as soon as the end of the text is reached. */
  function NextBrace(text: string, i: nat): (j: Option<nat>)
    requires i <= |text|
    ensures j.Some? ==> i <= j.value && IsAt(text, j.value, '{')
    decreases |text| - i
  {
    if IsAt(text, i, '{') then Some(i)
    else if i + 1 >= |text| then None
    else NextBrace(text, i + 1)
  }

  lemma {:induction false} GroupIsNotEmpty(text: string, start: nat, open: char, close: char)
    requires IsAt(text, start, open) && open != close && open != '\\'
    ensures var end := BalancedEnd(text, start, open, close);
            end.Some? ==> start + 2 <= end.value
  {
  }

  /** The inside of the brace group at `start`, and the offset after it. */
  function Group(text: string, start: nat): (g: Option<(string, nat)>)
    requires IsAt(text, start, '{')
    ensures g.Some? ==> start + 2 <= g.value.1 <= |text|
  {
    GroupIsNotEmpty(text, start, '{', '}');
    match BalancedEnd(text, start, '{', '}')
    case None => None
    case Some(end) => Some((text[start + 1..end - 1], end))
  }

  /** Brace arguments after a command name; bracket groups are passed over. */
  function Arguments(text: string, name: string, cursor: nat, arguments: seq<string>): (c: Option<Command>)
    requires cursor <= |text|
    ensures c.Some? ==> cursor <= c.value.end <= |text|
    decreases |text| - cursor
  {
    var i := SkipSpaces(text, cursor);
    if IsAt(text, i, '[') then
      match BalancedEnd(text, i, '[', ']')
      case None => None
      case Some(end) => Arguments(text, name, end, arguments)
    else if !IsAt(text, i, '{') then Some(Command(name, i, arguments))
    else
      match Group(text, i)
      case None => None
      case Some((argument, end)) => Arguments(text, name, end, arguments + [argument])
  }

  /** The command a `\def` introduces: the defined name and the body. */
  function DefCommand(text: string, name: string, nameEnd: nat): (c: Option<Command>)
    requires nameEnd <= |text|
    ensures c.Some? ==> nameEnd <= c.value.end <= |text|
  {
    var i := SkipSpaces(text, nameEnd);
    if !IsAt(text, i, '\\') then None
    else
      var j := SkipLetters(text, i + 1);
      match NextBrace(text, j)
      case None => None
      case Some(brace) =>
        match Group(text, brace)
        case None => None
        case Some((body, end)) => Some(Command(name, end, [text[i..j], body]))
  }

  const DEF: string := "def"

  /** The command at an offset, if a well-formed one stands there. */
  function CommandAt(text: string, start: nat): (c: Option<Command>)
    ensures c.Some? ==> start < c.value.end <= |text|
  {
    if !IsAt(text, start, '\\') then None
    else
      var end := NameEnd(text, start);
      var name := text[start + 1..end];
      if name == DEF then DefCommand(text, name, end) else Arguments(text, name, end, [])
  }

  method SkipWhitespace(text: string, start: nat) returns (cursor: nat)
    requires start <= |text|
    ensures cursor == SkipSpaces(text, start)
  {
    cursor := start;
    while cursor < |text| && IsAsciiWhitespace(text[cursor])
      invariant cursor <= |text| && SkipSpaces(text, cursor) == SkipSpaces(text, start)
    {
      cursor := cursor + 1;
    }
  }

  method SkipName(text: string, start: nat) returns (cursor: nat)
    requires start <= |text|
    ensures cursor == SkipLetters(text, start)
  {
    cursor := start;
    while cursor < |text| && IsAsciiAlphabetic(text[cursor])
      invariant cursor <= |text| && SkipLetters(text, cursor) == SkipLetters(text, start)
    {
      cursor := cursor + 1;
    }
  }

  method ReadDefinition(text: string, name: string, nameEnd: nat) returns (command: Option<Command>)
    requires nameEnd <= |text|
    ensures command == DefCommand(text, name, nameEnd)
  {
    var macroStart := SkipWhitespace(text, nameEnd);
    if !IsAt(text, macroStart, '\\') {
      return None;
    }
    var macroEnd := SkipName(text, macroStart + 1);
    var brace := macroEnd;
    while !IsAt(text, brace, '{')
      invariant macroEnd <= brace <= |text| && NextBrace(text, brace) == NextBrace(text, macroEnd)
      decreases |text| - brace
    {
      if brace + 1 >= |text| {
        return None;
      }
      brace := brace + 1;
    }
    var close := FindBalancedEnd(text, brace, '{', '}');
    if close.None? {
      return None;
    }
    GroupIsNotEmpty(text, brace, '{', '}');
    command := Some(Command(name, close.value, [text[macroStart..macroEnd], text[brace + 1..close.value - 1]]));
  }

  method ReadArguments(text: string, name: string, nameEnd: nat) returns (command: Option<Command>)
    requires nameEnd <= |text|
    ensures command == Arguments(text, name, nameEnd, [])
  {
    var cursor := nameEnd;
    var arguments: seq<string> := [];
    while true
      invariant cursor <= |text|
      invariant Arguments(text, name, cursor, arguments) == Arguments(text, name, nameEnd, [])
      decreases |text| - cursor
    {
      var i := SkipWhitespace(text, cursor);
      if IsAt(text, i, '[') {
        var close := FindBalancedEnd(text, i, '[', ']');
        if close.None? {
          return None;
        }
        cursor := close.value;
        continue;
      }
      if !IsAt(text, i, '{') {
        return Some(Command(name, i, arguments));
      }
      var close := FindBalancedEnd(text, i, '{', '}');
      if close.None? {
        return None;
      }
      GroupIsNotEmpty(text, i, '{', '}');
      arguments := arguments + [text[i + 1..close.value - 1]];
      cursor := close.value;
    }
  }

  method ReadCommand(text: string, start: nat) returns (command: Option<Command>)
    ensures command == CommandAt(text, start)
  {
    if !IsAt(text, start, '\\') {
      return None;
    }
    var end := SkipName(text, start + 1);
    if end == start + 1 {
      end := if end + 1 <= |text| then end + 1 else |text|;
    }
    var name := text[start + 1..end];
    if name == DEF {
      command := ReadDefinition(text, name, end);
    } else {
      command := ReadArguments(text, name, end);
    }
  }
}
