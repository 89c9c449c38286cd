/**
 Bounded macro expansion: the recursive rewriting with its name stack and
 counters, and the same rewriting as a function of what it is given.
 */
module LatexMacros {
  import opened Wrappers
  import opened Text
  import opened LatexCommands

  datatype Definition = Definition(argumentCount: nat, body: string)

  type Macros = map<string, Definition>

  datatype Limits = Limits(maxDepth: nat, maxExpansions: nat, maxCharacters: nat)

  datatype Status = Expanded | ArityMismatch | Cycle | DepthExceeded | ExpansionLimit | OutputLimit

  const U32_MAX: nat := 0xFFFF_FFFF

  function SaturatingAdd(a: nat, b: nat): (sum: nat)
    ensures sum <= U32_MAX && sum <= a + b && (sum == U32_MAX || sum == a + b)
  {
    if a + b > U32_MAX then U32_MAX else a + b
  }

  /** Puts arguments i, i+1, ... in place of `#i+1`, `#i+2`, ..., one after the other. */
  function SubstituteFrom(body: string, arguments: seq<string>, i: nat): string
    requires i <= |arguments|
    decreases |arguments| - i
  {
    if i == |arguments| then body
    else SubstituteFrom(Replace(body, ['#'] + Decimal(i + 1), arguments[i]), arguments, i + 1)
  }

  function Substitute(body: string, arguments: seq<string>): string {
    SubstituteFrom(body, arguments, 0)
  }

  method SubstituteArguments(body: string, arguments: seq<string>) returns (result: string)
    ensures result == Substitute(body, arguments)
  {
    result := body;
    for i := 0 to |arguments|
      invariant SubstituteFrom(result, arguments, i) == Substitute(body, arguments)
    {
      result := Replace(result, ['#'] + Decimal(i + 1), arguments[i]);
    }
  }

  // ---------------------------------------------------------------------------
  // The pieces of a text

  /** Text that is copied as it stands, or a call of a defined macro. */
  datatype Piece = Verbatim(text: string) | Call(name: string, arguments: seq<string>)

  /** What the next backslash at or after `cursor` gives, and where to go on. */
  datatype Cut = Cut(pieces: seq<Piece>, next: nat)

  function CutAt(macros: Macros, text: string, cursor: nat, start: nat): (cut: Cut)
    requires cursor <= start && IsAt(text, start, '\\')
    ensures start < cut.next <= |text|
  {
    var command := CommandAt(text, start);
    if command.None? then Cut([Verbatim(text[cursor..start] + ['\\'])], start + 1)
    else if command.value.name !in macros then Cut([Verbatim(text[cursor..command.value.end])], command.value.end)
    else
      Cut([Verbatim(text[cursor..start]), Call(command.value.name, command.value.arguments)], command.value.end)
  }

  function NextBackslash(text: string, cursor: nat): (start: Option<nat>)
    requires cursor <= |text|
    ensures start.Some? ==> cursor <= start.value && IsAt(text, start.value, '\\')
    ensures start.Some? ==> forall i :: cursor <= i < start.value ==> text[i] != '\\'
    ensures start.None? ==> forall i :: cursor <= i < |text| ==> text[i] != '\\'
    decreases |text| - cursor
  {
    if cursor == |text| then None
    else if text[cursor] == '\\' then Some(cursor)
    else NextBackslash(text, cursor + 1)
  }

  function Pieces(macros: Macros, text: string, cursor: nat): seq<Piece>
    requires cursor <= |text|
    decreases |text| - cursor
  {
    var start := NextBackslash(text, cursor);
    if start.None? then [Verbatim(text[cursor..])]
    else
      var cut := CutAt(macros, text, cursor, start.value);
      cut.pieces + Pieces(macros, text, cut.next)
  }

  // ---------------------------------------------------------------------------
  // The rewriting, as a function

  datatype Outcome = Outcome(result: Result<string, Status>, count: nat)

  ghost function NamesLeft(macros: Macros, stack: seq<string>): set<string> {
    macros.Keys - set name | name in stack
  }

  lemma {:induction false} NamesLeftShrinks(macros: Macros, stack: seq<string>, name: string)
    requires name in macros && name !in stack
    ensures NamesLeft(macros, stack + [name]) < NamesLeft(macros, stack)
  {
    assert name in NamesLeft(macros, stack) && name !in NamesLeft(macros, stack + [name]);
  }

  ghost function Expand(
    macros: Macros, limits: Limits, text: string, depth: nat, stack: seq<string>, count: nat): Outcome
    decreases NamesLeft(macros, stack), 2
  {
    if depth > limits.maxDepth then Outcome(Err(DepthExceeded), count)
    else
      var outcome := ExpandPieces(macros, limits, Pieces(macros, text, 0), depth, stack, count);
      if outcome.result.Ok? && |outcome.result.value| > limits.maxCharacters then
        Outcome(Err(OutputLimit), outcome.count)
      else outcome
  }

  ghost function ExpandPieces(
    macros: Macros, limits: Limits, pieces: seq<Piece>, depth: nat, stack: seq<string>, count: nat): Outcome
    decreases NamesLeft(macros, stack), 1, |pieces|
  {
    if pieces == [] then Outcome(Ok(""), count)
    else
      var front := ExpandPieces(macros, limits, pieces[..|pieces| - 1], depth, stack, count);
      match front.result
      case Err(_) => front
      case Ok(output) =>
        match pieces[|pieces| - 1]
        case Verbatim(text) => Outcome(Ok(output + text), front.count)
        case Call(name, arguments) =>
          Finish(limits, output, ExpandCall(macros, limits, name, arguments, depth, stack, front.count))
  }

  /** Appends what a call gave, and checks the output limit. */
  function Finish(limits: Limits, output: string, call: Outcome): Outcome {
    match call.result
    case Err(_) => call
    case Ok(text) =>
      if |output + text| > limits.maxCharacters then Outcome(Err(OutputLimit), call.count)
      else Outcome(Ok(output + text), call.count)
  }

  ghost function ExpandCall(
    macros: Macros, limits: Limits, name: string, arguments: seq<string>, depth: nat, stack: seq<string>, count: nat)
    : Outcome
    decreases NamesLeft(macros, stack), 0
  {
    if name !in macros || name in stack then Outcome(Err(Cycle), count)
    else if |arguments| != macros[name].argumentCount then Outcome(Err(ArityMismatch), count)
    else
      var entered := SaturatingAdd(count, 1);
      if entered > limits.maxExpansions then Outcome(Err(ExpansionLimit), entered)
      else
        NamesLeftShrinks(macros, stack, name);
        Expand(macros, limits, Substitute(macros[name].body, arguments), depth + 1, stack + [name], entered)
  }

  // ---------------------------------------------------------------------------
  // The rewriting, as it runs

  /** What the pieces before a cursor gave, and that they and the rest make up the text. */
  ghost predicate Progress(macros: Macros, limits: Limits, text: string, cursor: nat, depth: nat, stack: seq<string>,
                           count: nat, done: seq<Piece>, outcome: Outcome)
    requires cursor <= |text|
  {
    && done + Pieces(macros, text, cursor) == Pieces(macros, text, 0)
    && outcome == ExpandPieces(macros, limits, done, depth, stack, count)
  }

  /** A failure among the first pieces is the failure of all of them. */
  lemma {:induction false} FailureStands(
    macros: Macros, limits: Limits, done: seq<Piece>, rest: seq<Piece>, depth: nat, stack: seq<string>, count: nat)
    requires ExpandPieces(macros, limits, done, depth, stack, count).result.Err?
    ensures ExpandPieces(macros, limits, done + rest, depth, stack, count)
            == ExpandPieces(macros, limits, done, depth, stack, count)
    decreases |rest|
  {
    if rest == [] {
      assert done + rest == done;
    } else {
      var front := rest[..|rest| - 1];
      assert (done + rest)[..|done + rest| - 1] == done + front;
      FailureStands(macros, limits, done, front, depth, stack, count);
    }
  }

  lemma {:induction false} VerbatimStep(macros: Macros, limits: Limits, done: seq<Piece>, text: string, depth: nat, stack: seq<string>,
                     count: nat, output: string, now: nat)
    requires ExpandPieces(macros, limits, done, depth, stack, count) == Outcome(Ok(output), now)
    ensures ExpandPieces(macros, limits, done + [Verbatim(text)], depth, stack, count) == Outcome(Ok(output + text), now)
  {
    assert (done + [Verbatim(text)])[..|done|] == done;
  }

  lemma {:induction false} CallStep(macros: Macros, limits: Limits, done: seq<Piece>, name: string, arguments: seq<string>, depth: nat,
                 stack: seq<string>, count: nat, output: string, now: nat)
    requires ExpandPieces(macros, limits, done, depth, stack, count) == Outcome(Ok(output), now)
    ensures ExpandPieces(macros, limits, done + [Call(name, arguments)], depth, stack, count)
            == Finish(limits, output, ExpandCall(macros, limits, name, arguments, depth, stack, now))
  {
    assert (done + [Call(name, arguments)])[..|done|] == done;
  }

  /** The next cut of a text in progress. */
  ghost predicate Cuts(macros: Macros, text: string, cursor: nat, pieces: seq<Piece>, next: nat)
    requires cursor <= |text|
  {
    var start := NextBackslash(text, cursor);
    start.Some? && CutAt(macros, text, cursor, start.value) == Cut(pieces, next)
  }

  lemma {:induction false} PiecesMove(macros: Macros, text: string, cursor: nat, pieces: seq<Piece>, next: nat, done: seq<Piece>)
    requires cursor <= |text| && Cuts(macros, text, cursor, pieces, next)
    requires done + Pieces(macros, text, cursor) == Pieces(macros, text, 0)
    ensures next <= |text| && (done + pieces) + Pieces(macros, text, next) == Pieces(macros, text, 0)
  {
    assert done + (pieces + Pieces(macros, text, next)) == (done + pieces) + Pieces(macros, text, next);
  }

  lemma {:induction false} ProgressCopy(macros: Macros, limits: Limits, text: string, cursor: nat, depth: nat, stack: seq<string>,
                     count: nat, done: seq<Piece>, output: string, now: nat, copied: string, next: nat)
    requires cursor <= |text| && Cuts(macros, text, cursor, [Verbatim(copied)], next)
    requires Progress(macros, limits, text, cursor, depth, stack, count, done, Outcome(Ok(output), now))
    ensures next <= |text|
    ensures Progress(macros, limits, text, next, depth, stack, count, done + [Verbatim(copied)],
                     Outcome(Ok(output + copied), now))
  {
    PiecesMove(macros, text, cursor, [Verbatim(copied)], next, done);
    VerbatimStep(macros, limits, done, copied, depth, stack, count, output, now);
  }

  lemma {:induction false} ProgressCall(macros: Macros, limits: Limits, text: string, cursor: nat, depth: nat, stack: seq<string>,
                     count: nat, done: seq<Piece>, output: string, now: nat, copied: string, call: Piece, next: nat)
    requires cursor <= |text| && call.Call? && Cuts(macros, text, cursor, [Verbatim(copied), call], next)
    requires Progress(macros, limits, text, cursor, depth, stack, count, done, Outcome(Ok(output), now))
    ensures next <= |text|
    ensures Progress(macros, limits, text, next, depth, stack, count, done + [Verbatim(copied), call],
                     Finish(limits, output + copied,
                            ExpandCall(macros, limits, call.name, call.arguments, depth, stack, now)))
  {
    PiecesMove(macros, text, cursor, [Verbatim(copied), call], next, done);
    VerbatimStep(macros, limits, done, copied, depth, stack, count, output, now);
    CallStep(macros, limits, done + [Verbatim(copied)], call.name, call.arguments, depth, stack, count,
             output + copied, now);
    assert done + [Verbatim(copied)] + [call] == done + [Verbatim(copied), call];
  }

  /** A failure part-way is the failure of the whole text. */
  lemma {:induction false} ProgressFails(macros: Macros, limits: Limits, text: string, cursor: nat, depth: nat, stack: seq<string>,
                      count: nat, done: seq<Piece>, outcome: Outcome)
    requires cursor <= |text| && outcome.result.Err? && depth <= limits.maxDepth
    requires Progress(macros, limits, text, cursor, depth, stack, count, done, outcome)
    ensures Expand(macros, limits, text, depth, stack, count) == outcome
  {
    FailureStands(macros, limits, done, Pieces(macros, text, cursor), depth, stack, count);
  }

  lemma {:induction false} ProgressEnds(macros: Macros, limits: Limits, text: string, cursor: nat, depth: nat, stack: seq<string>,
                     count: nat, done: seq<Piece>, output: string, now: nat)
    requires cursor <= |text| && NextBackslash(text, cursor).None? && depth <= limits.maxDepth
    requires Progress(macros, limits, text, cursor, depth, stack, count, done, Outcome(Ok(output), now))
    ensures var result := output + text[cursor..];
            Expand(macros, limits, text, depth, stack, count)
            == Outcome(if |result| > limits.maxCharacters then Err(OutputLimit) else Ok(result), now)
  {
    VerbatimStep(macros, limits, done, text[cursor..], depth, stack, count, output, now);
  }

  class ParseState {
    const macros: Macros
    const limits: Limits
    var expansionCount: nat
    var stack: seq<string>
    var limited: nat

    constructor (macros: Macros, limits: Limits)
      ensures this.macros == macros && this.limits == limits
      ensures expansionCount == 0 && stack == [] && limited == 0
    {
      this.macros, this.limits := macros, limits;
      expansionCount, stack, limited := 0, [], 0;
    }

    /** Finds the next backslash by scanning. */
    static method FindBackslash(text: string, cursor: nat) returns (start: Option<nat>)
      requires cursor <= |text|
      ensures start == NextBackslash(text, cursor)
    {
      var i := cursor;
      while i < |text|
        invariant cursor <= i <= |text| && NextBackslash(text, i) == NextBackslash(text, cursor)
      {
        if text[i] == '\\' {
          return Some(i);
        }
        i := i + 1;
      }
      start := None;
    }

    method ExpandText(text: string, depth: nat) returns (result: Result<string, Status>)
      modifies this`expansionCount, this`stack
      ensures result.Ok? ==> stack == old(stack)
      ensures old(stack) <= stack
      ensures Outcome(result, expansionCount) == Expand(macros, limits, text, depth, old(stack), old(expansionCount))
      decreases NamesLeft(macros, stack), 2
    {
      if depth > limits.maxDepth {
        return Err(DepthExceeded);
      }
      var output: string := "";
      var cursor := 0;
      ghost var done: seq<Piece> := [];
      while true
        invariant cursor <= |text| && stack == old(stack)
        invariant Progress(macros, limits, text, cursor, depth, stack, old(expansionCount), done,
                           Outcome(Ok(output), expansionCount))
        decreases |text| - cursor
      {
        var found := FindBackslash(text, cursor);
        if found.None? {
          break;
        }
        var start := found.value;
        var command := ReadCommand(text, start);
        if command.None? || command.value.name !in macros {
          var next := if command.None? then start + 1 else command.value.end;
          var copied := if command.None? then text[cursor..start] + ['\\'] else text[cursor..next];
          ProgressCopy(macros, limits, text, cursor, depth, stack, old(expansionCount), done,
                       output, expansionCount, copied, next);
          done := done + [Verbatim(copied)];
          output, cursor := output + copied, next;
          continue;
        }
        var copied, call := text[cursor..start], Call(command.value.name, command.value.arguments);
        ProgressCall(macros, limits, text, cursor, depth, stack, old(expansionCount), done,
                     output, expansionCount, copied, call, command.value.end);
        done := done + [Verbatim(copied), call];
        var extended := AppendMacro(output + copied, call.name, call.arguments, depth);
        cursor := command.value.end;
        if extended.Err? {
          ProgressFails(macros, limits, text, cursor, depth, old(stack), old(expansionCount), done,
                        Outcome(extended, expansionCount));
          return extended;
        }
        output := extended.value;
      }
      ProgressEnds(macros, limits, text, cursor, depth, stack, old(expansionCount), done, output, expansionCount);
      output := output + text[cursor..];
      result := if |output| > limits.maxCharacters then Err(OutputLimit) else Ok(output);
    }

    /** Appends the expansion of a call to the output, within the output limit. */
    method AppendMacro(output: string, name: string, arguments: seq<string>, depth: nat)
      returns (result: Result<string, Status>)
      requires name in macros
      modifies this`expansionCount, this`stack
      ensures result.Ok? ==> stack == old(stack)
      ensures old(stack) <= stack
      ensures Outcome(result, expansionCount)
              == Finish(limits, output, ExpandCall(macros, limits, name, arguments, depth, old(stack), old(expansionCount)))
      decreases NamesLeft(macros, stack), 1
    {
      result := ExpandMacro(name, arguments, depth);
      if result.Ok? {
        var extended := output + result.value;
        result := if |extended| > limits.maxCharacters then Err(OutputLimit) else Ok(extended);
      }
    }

    /** Checks a call and expands the body of its macro with the name on the stack. */
    method ExpandMacro(name: string, arguments: seq<string>, depth: nat) returns (result: Result<string, Status>)
      requires name in macros
      modifies this`expansionCount, this`stack
      ensures result.Ok? ==> stack == old(stack)
      ensures old(stack) <= stack
      ensures Outcome(result, expansionCount)
              == ExpandCall(macros, limits, name, arguments, depth, old(stack), old(expansionCount))
      decreases NamesLeft(macros, stack), 0
    {
      var definition := macros[name];
      if name in stack {
        return Err(Cycle);
      }
      if |arguments| != definition.argumentCount {
        return Err(ArityMismatch);
      }
      var entered := SaturatingAdd(expansionCount, 1);
      expansionCount := entered;
      if expansionCount > limits.maxExpansions {
        return Err(ExpansionLimit);
      }
      var body := SubstituteArguments(definition.body, arguments);
      NamesLeftShrinks(macros, stack, name);
      var pushed := stack + [name];
      stack := pushed;
      result := ExpandText(body, depth + 1);
      if result.Ok? {
        stack := pushed[..|pushed| - 1];
      }
    }

    /** Expands one macro use: its status, and its text when it has one. */
    method ApplyMacroExpansion(command: Command) returns (use: Option<(Status, Option<string>)>)
      modifies this
      ensures use == UseOf(macros, limits, command, old(expansionCount)).0
      ensures expansionCount == UseOf(macros, limits, command, old(expansionCount)).1
      ensures limited == old(limited) + if use.Some? && use.value.1.None? then 1 else 0
    {
      if command.name !in macros {
        return None;
      }
      var definition := macros[command.name];
      if |command.arguments| != definition.argumentCount {
        limited := limited + 1;
        return Some((ArityMismatch, None));
      }
      var value := SubstituteArguments(definition.body, command.arguments);
      stack := [command.name];
      var result := ExpandText(value, 1);
      match result {
        case Ok(expanded) => use := Some((Expanded, Some(expanded)));
        case Err(status) =>
          limited := limited + 1;
          use := Some((status, None));
      }
    }
  }

  /** The outcome of a macro use, and the expansion count after it. */
  ghost function UseOf(macros: Macros, limits: Limits, command: Command, count: nat)
    : (Option<(Status, Option<string>)>, nat)
  {
    if command.name !in macros then (None, count)
    else if |command.arguments| != macros[command.name].argumentCount then (Some((ArityMismatch, None)), count)
    else
      var text := Substitute(macros[command.name].body, command.arguments);
      var outcome := Expand(macros, limits, text, 1, [command.name], count);
      match outcome.result
      case Ok(expanded) => (Some((Expanded, Some(expanded))), outcome.count)
      case Err(status) => (Some((status, None)), outcome.count)
  }
}
