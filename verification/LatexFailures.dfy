/**
 What a refused macro expansion reports: every failure is backed by a walk of
 calls, each made by the body of the one before, that shows it.
 */
module LatexFailures {
  import opened Wrappers
  import opened LatexCommands
  import opened LatexMacros
  import opened LatexMeaning

  /** Where an expansion starts: its limits, pieces, depth and name stack. */
  datatype Start = Start(macros: Macros, limits: Limits, root: seq<Piece>, depth: nat, stack: seq<string>)

  /** The call is of a defined macro, with as many arguments as it takes. */
  predicate Fitting(macros: Macros, call: Piece) {
    call.Call? && call.name in macros && |call.arguments| == macros[call.name].argumentCount
  }

  /** The pieces of a call's body with its arguments put in. */
  function BodyPieces(macros: Macros, call: Piece): seq<Piece>
    requires Fitting(macros, call)
  {
    Pieces(macros, Substitute(macros[call.name].body, call.arguments), 0)
  }

  function Last(walk: seq<Piece>): Piece
    requires walk != []
  {
    walk[|walk| - 1]
  }

  /** Calls, the first among the pieces and each other in the body of the one before it. */
  ghost predicate IsCallWalk(macros: Macros, pieces: seq<Piece>, walk: seq<Piece>)
    decreases |walk|
  {
    walk != [] ==>
      && walk[0].Call? && walk[0] in pieces
      && (|walk| > 1 ==> Fitting(macros, walk[0]) && IsCallWalk(macros, BodyPieces(macros, walk[0]), walk[1..]))
  }

  /** The pieces a walk has reached: those of its last call's body, or those it starts from. */
  ghost predicate Reaches(macros: Macros, root: seq<Piece>, walk: seq<Piece>, pieces: seq<Piece>) {
    && IsCallWalk(macros, root, walk)
    && if walk == [] then pieces == root else Fitting(macros, Last(walk)) && pieces == BodyPieces(macros, Last(walk))
  }

  function NamesOf(walk: seq<Piece>): (names: seq<string>)
    ensures |names| == |walk|
  {
    seq(|walk|, i requires 0 <= i < |walk| => if walk[i].Call? then walk[i].name else "")
  }

  /** The name stack once the calls of a walk are entered. */
  function StackAfter(s: Start, walk: seq<Piece>): seq<string> {
    s.stack + NamesOf(walk)
  }

  /** What the pieces stand for at a depth is longer than a text may be. */
  ghost predicate TooLong(s: Start, pieces: seq<Piece>, depth: nat) {
    depth <= s.limits.maxDepth &&
    var plain := PlainPieces(s.macros, pieces, s.limits.maxDepth - depth);
    plain.Some? && |plain.value.text| > s.limits.maxCharacters
  }

  /** The walk has reached pieces of which the first ones alone are too long. */
  ghost predicate ReachesLongText(s: Start, walk: seq<Piece>) {
    exists pieces, n: nat ::
      Reaches(s.macros, s.root, walk, pieces) && n <= |pieces| && TooLong(s, pieces[..n], s.depth + |walk|)
  }

  /** The last call of a walk is of a macro that is being expanded already. */
  predicate EndsInside(s: Start, walk: seq<Piece>) {
    walk != [] && Last(walk).Call? && Last(walk).name in StackAfter(s, walk[..|walk| - 1])
  }

  /** A walk that shows why an expansion failed with a status, with so many calls counted. */
  ghost predicate Explains(s: Start, status: Status, count: nat, walk: seq<Piece>) {
    && IsCallWalk(s.macros, s.root, walk)
    && match status
       case Cycle => EndsInside(s, walk)
       case ArityMismatch =>
         && walk != [] && Last(walk).Call? && Last(walk).name in s.macros && !Fitting(s.macros, Last(walk))
         && !EndsInside(s, walk)
       case DepthExceeded => if walk == [] then s.depth > s.limits.maxDepth else s.depth + |walk| == s.limits.maxDepth + 1
       case ExpansionLimit =>
         && walk != [] && Fitting(s.macros, Last(walk)) && !EndsInside(s, walk)
         && s.depth + |walk| <= s.limits.maxDepth + 1 && count > s.limits.maxExpansions
       case OutputLimit => ReachesLongText(s, walk)
       case Expanded => false
  }

  // ---------------------------------------------------------------------------
  // Calls are of defined macros

  ghost predicate AllDefined(macros: Macros, pieces: seq<Piece>) {
    forall i :: 0 <= i < |pieces| && pieces[i].Call? ==> pieces[i].name in macros
  }

  lemma {:induction false} PiecesDefined(macros: Macros, text: string, cursor: nat)
    requires cursor <= |text|
    ensures AllDefined(macros, Pieces(macros, text, cursor))
    decreases |text| - cursor
  {
    var start := NextBackslash(text, cursor);
    if start.Some? {
      PiecesDefined(macros, text, CutAt(macros, text, cursor, start.value).next);
    }
  }

  // ---------------------------------------------------------------------------
  // Walks

  /** A walk goes on with any call among the pieces it has reached. */
  lemma {:induction false} WalkGoesOn(
    macros: Macros, root: seq<Piece>, walk: seq<Piece>, pieces: seq<Piece>, call: Piece)
    requires Reaches(macros, root, walk, pieces) && call.Call? && call in pieces
    ensures IsCallWalk(macros, root, walk + [call])
    decreases |walk|
  {
    if walk != [] {
      assert (walk + [call])[1..] == walk[1..] + [call];
      if |walk| > 1 {
        assert Last(walk[1..]) == Last(walk);
        WalkGoesOn(macros, BodyPieces(macros, walk[0]), walk[1..], pieces, call);
      } else {
        assert walk[1..] == [];
        assert IsCallWalk(macros, BodyPieces(macros, walk[0]), [call]);
      }
    }
  }

  lemma {:induction false} StackGrows(s: Start, walk: seq<Piece>, call: Piece)
    requires call.Call?
    ensures StackAfter(s, walk + [call]) == StackAfter(s, walk) + [call.name]
    ensures (walk + [call])[..|walk|] == walk && Last(walk + [call]) == call
  {
  }

  // ---------------------------------------------------------------------------
  // From a failure to its walk

  lemma {:induction false} PiecesFailure(
    s: Start, walk: seq<Piece>, pieces: seq<Piece>, n: nat, depth: nat, stack: seq<string>, count: nat)
    returns (found: seq<Piece>)
    requires count <= U32_MAX && Reaches(s.macros, s.root, walk, pieces) && n <= |pieces|
    requires AllDefined(s.macros, pieces)
    requires depth == s.depth + |walk| <= s.limits.maxDepth && stack == StackAfter(s, walk)
    requires ExpandPieces(s.macros, s.limits, pieces[..n], depth, stack, count).result.Err?
    ensures var Outcome(result, now) := ExpandPieces(s.macros, s.limits, pieces[..n], depth, stack, count);
            Explains(s, result.error, now, found)
    decreases NamesLeft(s.macros, stack), 3, n
  {
    assert pieces[..n] != [];
    var front := ExpandPieces(s.macros, s.limits, pieces[..n - 1], depth, stack, count);
    assert pieces[..n] == pieces[..n - 1] + [pieces[n - 1]];
    if front.result.Err? {
      FailureStands(s.macros, s.limits, pieces[..n - 1], [pieces[n - 1]], depth, stack, count);
      found := PiecesFailure(s, walk, pieces, n - 1, depth, stack, count);
    } else {
      var output, now := front.result.value, front.count;
      match pieces[n - 1]
      case Verbatim(_) => assert false;
      case Call(name, arguments) =>
        CallStep(s.macros, s.limits, pieces[..n - 1], name, arguments, depth, stack, count, output, now);
        found := StepFailure(s, walk, pieces, n, depth, stack, count, output, now);
    }
  }

  /** The first piece that fails is a call: it fails itself, or its text makes the text too long. */
  lemma {:induction false} StepFailure(
    s: Start, walk: seq<Piece>, pieces: seq<Piece>, n: nat, depth: nat, stack: seq<string>, count: nat,
    output: string, now: nat)
    returns (found: seq<Piece>)
    requires count <= U32_MAX && Reaches(s.macros, s.root, walk, pieces) && 0 < n <= |pieces|
    requires AllDefined(s.macros, pieces) && pieces[n - 1].Call?
    requires depth == s.depth + |walk| <= s.limits.maxDepth && stack == StackAfter(s, walk)
    requires ExpandPieces(s.macros, s.limits, pieces[..n - 1], depth, stack, count) == Outcome(Ok(output), now)
    requires var call := ExpandCall(s.macros, s.limits, pieces[n - 1].name, pieces[n - 1].arguments, depth, stack, now);
             Finish(s.limits, output, call).result.Err?
    ensures var call := ExpandCall(s.macros, s.limits, pieces[n - 1].name, pieces[n - 1].arguments, depth, stack, now);
            var outcome := Finish(s.limits, output, call);
            Explains(s, outcome.result.error, outcome.count, found)
    decreases NamesLeft(s.macros, stack), 2
  {
    ExpandedIsPlain(s.macros, s.limits, pieces[..n - 1], depth, stack, count, s.limits.maxDepth - depth);
    var call := pieces[n - 1];
    var inner := ExpandCall(s.macros, s.limits, call.name, call.arguments, depth, stack, now);
    if inner.result.Err? {
      WalkGoesOn(s.macros, s.root, walk, pieces, call);
      found := CallFailure(s, walk, call, depth, stack, now);
    } else {
      found := walk;
      GrownTextIsTooLong(s, pieces, n, depth, stack, count, output, now);
      LongTextExplained(s, walk, pieces, n, Finish(s.limits, output, inner).count);
    }
  }

  lemma {:induction false} LongTextExplained(s: Start, walk: seq<Piece>, pieces: seq<Piece>, n: nat, count: nat)
    requires Reaches(s.macros, s.root, walk, pieces) && n <= |pieces|
    requires TooLong(s, pieces[..n], s.depth + |walk|)
    ensures Explains(s, OutputLimit, count, walk)
  {
  }

  lemma {:induction false} GrownTextIsTooLong(
    s: Start, pieces: seq<Piece>, n: nat, depth: nat, stack: seq<string>, count: nat, output: string, now: nat)
    requires count <= U32_MAX && 0 < n <= |pieces| && pieces[n - 1].Call? && depth <= s.limits.maxDepth
    requires ExpandPieces(s.macros, s.limits, pieces[..n - 1], depth, stack, count) == Outcome(Ok(output), now)
    requires var call := pieces[n - 1];
             var inner := ExpandCall(s.macros, s.limits, call.name, call.arguments, depth, stack, now);
             inner.result.Ok? && |output + inner.result.value| > s.limits.maxCharacters
    ensures TooLong(s, pieces[..n], depth)
  {
    var fuel := s.limits.maxDepth - depth;
    var call := pieces[n - 1];
    ExpandedIsPlain(s.macros, s.limits, pieces[..n - 1], depth, stack, count, fuel);
    ExpandedCallIsPlain(s.macros, s.limits, call.name, call.arguments, depth, stack, now, fuel);
    assert pieces[..n] == pieces[..n - 1] + [call];
    PlainAppend(s.macros, pieces[..n - 1], call, fuel);
  }

  /** A call that is not entered is refused for a reason that the walk to it shows. */
  lemma {:induction false} RefusedCallExplained(
    s: Start, walk: seq<Piece>, call: Piece, status: Status, stack: seq<string>, count: nat)
    requires call.Call? && call.name in s.macros && IsCallWalk(s.macros, s.root, walk + [call])
    requires s.depth + |walk| <= s.limits.maxDepth && stack == StackAfter(s, walk)
    requires if call.name in stack then status == Cycle
             else if !Fitting(s.macros, call) then status == ArityMismatch
             else status == ExpansionLimit && count > s.limits.maxExpansions
    ensures Explains(s, status, count, walk + [call])
  {
    StackGrows(s, walk, call);
  }

  lemma {:induction false} CallFailure(
    s: Start, walk: seq<Piece>, call: Piece, depth: nat, stack: seq<string>, count: nat)
    returns (found: seq<Piece>)
    requires count <= U32_MAX && call.Call? && call.name in s.macros && IsCallWalk(s.macros, s.root, walk + [call])
    requires depth == s.depth + |walk| <= s.limits.maxDepth && stack == StackAfter(s, walk)
    requires ExpandCall(s.macros, s.limits, call.name, call.arguments, depth, stack, count).result.Err?
    ensures var Outcome(result, now) := ExpandCall(s.macros, s.limits, call.name, call.arguments, depth, stack, count);
            Explains(s, result.error, now, found)
    decreases NamesLeft(s.macros, stack), 1
  {
    found := walk + [call];
    if call.name in stack {
      RefusedCallExplained(s, walk, call, Cycle, stack, count);
    } else if !Fitting(s.macros, call) {
      RefusedCallExplained(s, walk, call, ArityMismatch, stack, count);
    } else if SaturatingAdd(count, 1) > s.limits.maxExpansions {
      RefusedCallExplained(s, walk, call, ExpansionLimit, stack, SaturatingAdd(count, 1));
    } else {
      found := EnteredFailure(s, walk, call, depth, stack, SaturatingAdd(count, 1));
    }
  }

  lemma {:induction false} EnteredFailure(
    s: Start, walk: seq<Piece>, call: Piece, depth: nat, stack: seq<string>, entered: nat)
    returns (found: seq<Piece>)
    requires entered <= U32_MAX && Fitting(s.macros, call) && IsCallWalk(s.macros, s.root, walk + [call])
    requires depth == s.depth + |walk| <= s.limits.maxDepth && stack == StackAfter(s, walk) && call.name !in stack
    requires var text := Substitute(s.macros[call.name].body, call.arguments);
             Expand(s.macros, s.limits, text, depth + 1, stack + [call.name], entered).result.Err?
    ensures var text := Substitute(s.macros[call.name].body, call.arguments);
            var Outcome(result, now) := Expand(s.macros, s.limits, text, depth + 1, stack + [call.name], entered);
            Explains(s, result.error, now, found)
    decreases NamesLeft(s.macros, stack), 0
  {
    StackGrows(s, walk, call);
    NamesLeftShrinks(s.macros, stack, call.name);
    var text := Substitute(s.macros[call.name].body, call.arguments);
    found := BodyFailure(s, walk + [call], text, depth + 1, stack + [call.name], entered);
  }

  lemma {:induction false} BodyFailure(
    s: Start, walk: seq<Piece>, text: string, depth: nat, stack: seq<string>, count: nat)
    returns (found: seq<Piece>)
    requires count <= U32_MAX && walk != [] && IsCallWalk(s.macros, s.root, walk) && Fitting(s.macros, Last(walk))
    requires text == Substitute(s.macros[Last(walk).name].body, Last(walk).arguments)
    requires depth == s.depth + |walk| <= s.limits.maxDepth + 1 && stack == StackAfter(s, walk)
    requires Expand(s.macros, s.limits, text, depth, stack, count).result.Err?
    ensures var Outcome(result, now) := Expand(s.macros, s.limits, text, depth, stack, count);
            Explains(s, result.error, now, found)
    decreases NamesLeft(s.macros, stack), 5
  {
    found := walk;
    if depth <= s.limits.maxDepth {
      PiecesDefined(s.macros, text, 0);
      found := WholeFailure(s, walk, text, depth, stack, count);
    }
  }

  /** The failure of a text within its depth: of one of its pieces, or of its length. */
  lemma {:induction false} WholeFailure(
    s: Start, walk: seq<Piece>, text: string, depth: nat, stack: seq<string>, count: nat)
    returns (found: seq<Piece>)
    requires count <= U32_MAX && Reaches(s.macros, s.root, walk, Pieces(s.macros, text, 0))
    requires AllDefined(s.macros, Pieces(s.macros, text, 0))
    requires depth == s.depth + |walk| <= s.limits.maxDepth && stack == StackAfter(s, walk)
    requires Expand(s.macros, s.limits, text, depth, stack, count).result.Err?
    ensures var Outcome(result, now) := Expand(s.macros, s.limits, text, depth, stack, count);
            Explains(s, result.error, now, found)
    decreases NamesLeft(s.macros, stack), 4
  {
    var pieces := Pieces(s.macros, text, 0);
    assert pieces[..|pieces|] == pieces;
    if ExpandPieces(s.macros, s.limits, pieces, depth, stack, count).result.Err? {
      found := PiecesFailure(s, walk, pieces, |pieces|, depth, stack, count);
    } else {
      found := walk;
      ExpandedIsPlain(s.macros, s.limits, pieces, depth, stack, count, s.limits.maxDepth - depth);
      LongTextExplained(s, walk, pieces, |pieces|, Expand(s.macros, s.limits, text, depth, stack, count).count);
    }
  }

  /**
   Every refusal of a text is backed by a walk of calls that shows it: a macro
   called inside itself or below one on the stack, a call with the wrong number
   of arguments, one call more than the depth allows, a call still to be entered
   when the counter has passed its limit, or a text that alone is too long.
   */
  lemma {:induction false} RefusalIsReal(
    macros: Macros, limits: Limits, text: string, depth: nat, stack: seq<string>, count: nat)
    requires count <= U32_MAX && Expand(macros, limits, text, depth, stack, count).result.Err?
    ensures var Outcome(result, now) := Expand(macros, limits, text, depth, stack, count);
            exists walk :: Explains(Start(macros, limits, Pieces(macros, text, 0), depth, stack), result.error, now, walk)
  {
    var s := Start(macros, limits, Pieces(macros, text, 0), depth, stack);
    var Outcome(result, now) := Expand(macros, limits, text, depth, stack, count);
    if depth > limits.maxDepth {
      assert Explains(s, result.error, now, []);
    } else {
      PiecesDefined(macros, text, 0);
      assert StackAfter(s, []) == stack;
      var walk := WholeFailure(s, [], text, depth, stack, count);
      assert Explains(s, result.error, now, walk);
    }
  }

  /** The same for a use of a macro: the wrong number of arguments, or a walk from its body. */
  lemma {:induction false} RefusedUseIsReal(macros: Macros, limits: Limits, command: Command, count: nat)
    requires count <= U32_MAX && command.name in macros
    requires UseOf(macros, limits, command, count).0.value.0 != Expanded
    ensures var (use, now) := UseOf(macros, limits, command, count);
            var call := Call(command.name, command.arguments);
            if Fitting(macros, call) then
              exists walk ::
                Explains(Start(macros, limits, BodyPieces(macros, call), 1, [command.name]), use.value.0, now, walk)
            else use == Some((ArityMismatch, None))
  {
    var call := Call(command.name, command.arguments);
    if Fitting(macros, call) {
      var text := Substitute(macros[command.name].body, command.arguments);
      var Outcome(result, now) := Expand(macros, limits, text, 1, [command.name], count);
      RefusalIsReal(macros, limits, text, 1, [command.name], count);
      var s := Start(macros, limits, Pieces(macros, text, 0), 1, [command.name]);
      var walk :| Explains(s, result.error, now, walk);
      assert BodyPieces(macros, call) == Pieces(macros, text, 0);
    }
  }
}
