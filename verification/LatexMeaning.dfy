/**
 What macro expansion computes: plain substitution without limits or stack.
 The limits and the name stack only cut off; they never change a result.
 */
module LatexMeaning {
  import opened Wrappers
  import opened Text
  import opened Lists
  import opened LatexCommands
  import opened LatexMacros

  /**
   A plain substitution: its text, how deep calls nested and how many there were,
   the macros called, and whether some macro was called again inside itself.
   */
  datatype Plain = Plain(text: string, height: nat, cost: nat, names: set<string>, reentrant: bool)

  function Join(a: Plain, b: Plain): Plain {
    Plain(a.text + b.text, Max(a.height, b.height), a.cost + b.cost, a.names + b.names, a.reentrant || b.reentrant)
  }

  const NOTHING: Plain := Plain("", 0, 0, {}, false)

  /** Plain substitution of a call, nested at most `fuel` deep; None when that is not enough. */
  function PlainCall(macros: Macros, name: string, arguments: seq<string>, fuel: nat): Option<Plain>
    decreases fuel, 0
  {
    if name !in macros || |arguments| != macros[name].argumentCount || fuel == 0 then None
    else
      match PlainPieces(macros, Pieces(macros, Substitute(macros[name].body, arguments), 0), fuel - 1)
      case None => None
      case Some(m) => Some(Plain(m.text, m.height + 1, m.cost + 1, m.names + {name}, m.reentrant || name in m.names))
  }

  function PlainPiece(macros: Macros, piece: Piece, fuel: nat): Option<Plain>
    decreases fuel, 1
  {
    match piece
    case Verbatim(text) => Some(Plain(text, 0, 0, {}, false))
    case Call(name, arguments) => PlainCall(macros, name, arguments, fuel)
  }

  function PlainPieces(macros: Macros, pieces: seq<Piece>, fuel: nat): Option<Plain>
    decreases fuel, 2, |pieces|
  {
    if pieces == [] then Some(NOTHING)
    else
      var front := PlainPieces(macros, pieces[..|pieces| - 1], fuel);
      var last := PlainPiece(macros, pieces[|pieces| - 1], fuel);
      if front.None? || last.None? then None else Some(Join(front.value, last.value))
  }

  function PlainText(macros: Macros, text: string, fuel: nat): Option<Plain> {
    PlainPieces(macros, Pieces(macros, text, 0), fuel)
  }

  /** A substitution, once defined, is the same for every fuel that reaches its height. */
  lemma {:induction false} PlainStable(macros: Macros, pieces: seq<Piece>, f: nat, g: nat)
    requires PlainPieces(macros, pieces, f).Some?
    ensures PlainPieces(macros, pieces, f).value.height <= f
    ensures PlainPieces(macros, pieces, f).value.height <= g ==>
              PlainPieces(macros, pieces, g) == PlainPieces(macros, pieces, f)
    decreases f, 2, |pieces|
  {
    if pieces != [] {
      PlainStable(macros, pieces[..|pieces| - 1], f, g);
      PlainPieceStable(macros, pieces[|pieces| - 1], f, g);
    }
  }

  lemma {:induction false} PlainPieceStable(macros: Macros, piece: Piece, f: nat, g: nat)
    requires PlainPiece(macros, piece, f).Some?
    ensures PlainPiece(macros, piece, f).value.height <= f
    ensures PlainPiece(macros, piece, f).value.height <= g ==>
              PlainPiece(macros, piece, g) == PlainPiece(macros, piece, f)
    decreases f, 1
  {
    match piece {
      case Verbatim(_) =>
      case Call(name, arguments) =>
        PlainCallStable(macros, name, arguments, f, g);
    }
  }

  lemma {:induction false} PlainCallStable(macros: Macros, name: string, arguments: seq<string>, f: nat, g: nat)
    requires PlainCall(macros, name, arguments, f).Some?
    ensures PlainCall(macros, name, arguments, f).value.height <= f
    ensures PlainCall(macros, name, arguments, f).value.height <= g ==>
              PlainCall(macros, name, arguments, g) == PlainCall(macros, name, arguments, f)
    decreases f, 0
  {
    var inner := Pieces(macros, Substitute(macros[name].body, arguments), 0);
    var f', g' := f - 1, if g == 0 then 0 else g - 1;
    assert PlainPieces(macros, inner, f').Some?;
    PlainStable(macros, inner, f', g');
  }

  // ---------------------------------------------------------------------------
  // When the bounded expansion succeeds

  ghost predicate Disjoint(names: set<string>, stack: seq<string>) {
    forall name :: name in names ==> name !in stack
  }

  /** The counter stays within its limit; it cannot pass the largest one. */
  predicate CountFits(limits: Limits, count: nat, cost: nat) {
    cost > 0 && limits.maxExpansions < U32_MAX ==> count + cost <= limits.maxExpansions
  }

  /** The substitution fits the depth, the counter and the stack it runs under. */
  ghost predicate Follows(limits: Limits, m: Plain, depth: nat, stack: seq<string>, count: nat) {
    && depth + m.height <= limits.maxDepth
    && CountFits(limits, count, m.cost)
    && !m.reentrant
    && Disjoint(m.names, stack)
  }

  /** It also fits the limit on its length. */
  ghost predicate Admits(limits: Limits, m: Plain, depth: nat, stack: seq<string>, count: nat) {
    Follows(limits, m, depth, stack, count) && |m.text| <= limits.maxCharacters
  }

  /** The result of an admitted substitution. */
  ghost predicate Gives(m: Plain, count: nat, outcome: Outcome) {
    outcome == Outcome(Ok(m.text), SaturatingAdd(count, m.cost))
  }

  lemma {:induction false} CountSplits(limits: Limits, count: nat, a: nat, b: nat)
    requires count <= U32_MAX
    ensures SaturatingAdd(SaturatingAdd(count, a), b) == SaturatingAdd(count, a + b) <= U32_MAX
    ensures CountFits(limits, count, a + b) ==> CountFits(limits, count, a)
    ensures CountFits(limits, count, a + b) ==> CountFits(limits, SaturatingAdd(count, a), b)
    ensures CountFits(limits, count, a) && CountFits(limits, SaturatingAdd(count, a), b) ==>
              CountFits(limits, count, a + b)
  {
  }

  lemma {:induction false} AdmittedExpands(
    macros: Macros, limits: Limits, pieces: seq<Piece>, depth: nat, stack: seq<string>, count: nat, fuel: nat)
    requires count <= U32_MAX && PlainPieces(macros, pieces, fuel).Some?
    requires Admits(limits, PlainPieces(macros, pieces, fuel).value, depth, stack, count)
    ensures Gives(PlainPieces(macros, pieces, fuel).value, count,
                  ExpandPieces(macros, limits, pieces, depth, stack, count))
    decreases fuel, 1, |pieces|
  {
    if pieces != [] {
      var front, last := pieces[..|pieces| - 1], pieces[|pieces| - 1];
      var m1, m2 := PlainPieces(macros, front, fuel).value, PlainPiece(macros, last, fuel).value;
      assert PlainPieces(macros, pieces, fuel).value == Join(m1, m2);
      CountSplits(limits, count, m1.cost, m2.cost);
      AdmittedExpands(macros, limits, front, depth, stack, count, fuel);
      if last.Call? {
        var now := ExpandPieces(macros, limits, front, depth, stack, count).count;
        AdmittedCallExpands(macros, limits, last.name, last.arguments, depth, stack, now, fuel);
      }
    }
  }

  lemma {:induction false} AdmittedCallExpands(
    macros: Macros, limits: Limits, name: string, arguments: seq<string>, depth: nat, stack: seq<string>,
    count: nat, fuel: nat)
    requires count <= U32_MAX && PlainCall(macros, name, arguments, fuel).Some?
    requires Admits(limits, PlainCall(macros, name, arguments, fuel).value, depth, stack, count)
    ensures Gives(PlainCall(macros, name, arguments, fuel).value, count,
                  ExpandCall(macros, limits, name, arguments, depth, stack, count))
    decreases fuel, 0
  {
    var inner := Pieces(macros, Substitute(macros[name].body, arguments), 0);
    var m := PlainPieces(macros, inner, fuel - 1).value;
    CountSplits(limits, count, 1, m.cost);
    assert name !in stack by {
      assert name in PlainCall(macros, name, arguments, fuel).value.names;
    }
    AdmittedExpands(macros, limits, inner, depth + 1, stack + [name], SaturatingAdd(count, 1), fuel - 1);
  }

  lemma {:induction false} ExpandedIsPlain(
    macros: Macros, limits: Limits, pieces: seq<Piece>, depth: nat, stack: seq<string>, count: nat, fuel: nat)
    requires count <= U32_MAX && depth + fuel == limits.maxDepth
    requires ExpandPieces(macros, limits, pieces, depth, stack, count).result.Ok?
    ensures PlainPieces(macros, pieces, fuel).Some?
    ensures Follows(limits, PlainPieces(macros, pieces, fuel).value, depth, stack, count)
    ensures Gives(PlainPieces(macros, pieces, fuel).value, count,
                  ExpandPieces(macros, limits, pieces, depth, stack, count))
    decreases fuel, 1, |pieces|
  {
    if pieces != [] {
      var front, last := pieces[..|pieces| - 1], pieces[|pieces| - 1];
      var outcome := ExpandPieces(macros, limits, front, depth, stack, count);
      ExpandedIsPlain(macros, limits, front, depth, stack, count, fuel);
      var m1 := PlainPieces(macros, front, fuel).value;
      if last.Call? {
        ExpandedCallIsPlain(macros, limits, last.name, last.arguments, depth, stack, outcome.count, fuel);
      }
      CountSplits(limits, count, m1.cost, PlainPiece(macros, last, fuel).value.cost);
    }
  }

  lemma {:induction false} ExpandedCallIsPlain(
    macros: Macros, limits: Limits, name: string, arguments: seq<string>, depth: nat, stack: seq<string>,
    count: nat, fuel: nat)
    requires count <= U32_MAX && depth + fuel == limits.maxDepth
    requires ExpandCall(macros, limits, name, arguments, depth, stack, count).result.Ok?
    ensures PlainCall(macros, name, arguments, fuel).Some?
    ensures Follows(limits, PlainCall(macros, name, arguments, fuel).value, depth, stack, count)
    ensures Gives(PlainCall(macros, name, arguments, fuel).value, count,
                  ExpandCall(macros, limits, name, arguments, depth, stack, count))
    decreases fuel, 0
  {
    var inner := Pieces(macros, Substitute(macros[name].body, arguments), 0);
    var entered := SaturatingAdd(count, 1);
    ExpandedIsPlain(macros, limits, inner, depth + 1, stack + [name], entered, fuel - 1);
    var m := PlainPieces(macros, inner, fuel - 1).value;
    CountSplits(limits, count, 1, m.cost);
    assert forall n :: n in m.names ==> n !in stack + [name];
  }

  /**
   Expansion is Ok exactly when plain substitution ends, calls no macro inside
   itself or below a macro on the stack, and fits the three limits; the result is
   then the plain substitution, and every call was counted once.
   */
  lemma {:induction false} OkIffAdmitted(
    macros: Macros, limits: Limits, text: string, depth: nat, stack: seq<string>, count: nat)
    requires count <= U32_MAX
    ensures var outcome := Expand(macros, limits, text, depth, stack, count);
            outcome.result.Ok? <==>
              && depth <= limits.maxDepth
              && var plain := PlainText(macros, text, limits.maxDepth - depth);
                 plain.Some? && Admits(limits, plain.value, depth, stack, count)
    ensures var outcome := Expand(macros, limits, text, depth, stack, count);
            outcome.result.Ok? ==>
              && |outcome.result.value| <= limits.maxCharacters
              && Gives(PlainText(macros, text, limits.maxDepth - depth).value, count, outcome)
  {
    if depth <= limits.maxDepth {
      var pieces := Pieces(macros, text, 0);
      var fuel := limits.maxDepth - depth;
      if Expand(macros, limits, text, depth, stack, count).result.Ok? {
        ExpandedIsPlain(macros, limits, pieces, depth, stack, count, fuel);
      }
      if PlainPieces(macros, pieces, fuel).Some?
         && Admits(limits, PlainPieces(macros, pieces, fuel).value, depth, stack, count)
      {
        AdmittedExpands(macros, limits, pieces, depth, stack, count, fuel);
      }
    }
  }

  /** At least as much room as `limits`, in every respect. */
  predicate AtLeast(larger: Limits, limits: Limits) {
    && limits.maxDepth <= larger.maxDepth
    && limits.maxExpansions <= larger.maxExpansions
    && limits.maxCharacters <= larger.maxCharacters
  }

  /** An Ok result is unchanged by raising limits, shrinking the stack or starting earlier. */
  lemma {:induction false} LimitsOnlyCutOff(
    macros: Macros, limits: Limits, larger: Limits, text: string, depth: nat, depth': nat,
    stack: seq<string>, stack': seq<string>, count: nat, count': nat)
    requires count' <= count <= U32_MAX && depth' <= depth && AtLeast(larger, limits)
    requires forall name :: name in stack' ==> name in stack
    requires Expand(macros, limits, text, depth, stack, count).result.Ok?
    ensures Expand(macros, larger, text, depth', stack', count').result
            == Expand(macros, limits, text, depth, stack, count).result
  {
    OkIffAdmitted(macros, limits, text, depth, stack, count);
    var pieces := Pieces(macros, text, 0);
    PlainStable(macros, pieces, limits.maxDepth - depth, larger.maxDepth - depth');
    OkIffAdmitted(macros, larger, text, depth', stack', count');
  }

  lemma {:induction false} NeverErrExpanded(
    macros: Macros, limits: Limits, text: string, depth: nat, stack: seq<string>, count: nat)
    ensures Expand(macros, limits, text, depth, stack, count).result != Err(Expanded)
    decreases NamesLeft(macros, stack), 1
  {
    PiecesNeverErrExpanded(macros, limits, Pieces(macros, text, 0), depth, stack, count);
  }

  lemma {:induction false} PiecesNeverErrExpanded(
    macros: Macros, limits: Limits, pieces: seq<Piece>, depth: nat, stack: seq<string>, count: nat)
    ensures ExpandPieces(macros, limits, pieces, depth, stack, count).result != Err(Expanded)
    decreases NamesLeft(macros, stack), 0, |pieces|
  {
    if pieces != [] {
      var front, last := pieces[..|pieces| - 1], pieces[|pieces| - 1];
      PiecesNeverErrExpanded(macros, limits, front, depth, stack, count);
      if last.Call? && last.name in macros && last.name !in stack {
        NamesLeftShrinks(macros, stack, last.name);
        var entered := SaturatingAdd(ExpandPieces(macros, limits, front, depth, stack, count).count, 1);
        NeverErrExpanded(macros, limits, Substitute(macros[last.name].body, last.arguments), depth + 1,
                         stack + [last.name], entered);
      }
    }
  }

  /**
   The same for a use of a macro, which starts at depth one with the macro's name
   on the stack: it is Expanded exactly when the plain substitution of the call
   ends, calls no macro inside itself, and fits the limits.
   */
  lemma {:induction false} UseExpandedIff(macros: Macros, limits: Limits, command: Command, count: nat)
    requires count <= U32_MAX && command.name in macros
    ensures var use := UseOf(macros, limits, command, count).0;
            var plain := PlainCall(macros, command.name, command.arguments, limits.maxDepth);
            && use.Some?
            && (use.value.0 == Expanded <==>
                  && plain.Some? && !plain.value.reentrant
                  && CountFits(limits, count, plain.value.cost - 1) && |plain.value.text| <= limits.maxCharacters)
            && (use.value.0 == Expanded ==> use.value.1 == Some(plain.value.text))
            && (use.value.0 != Expanded ==> use.value.1 == None)
  {
    if |command.arguments| == macros[command.name].argumentCount {
      var text := Substitute(macros[command.name].body, command.arguments);
      OkIffAdmitted(macros, limits, text, 1, [command.name], count);
      NeverErrExpanded(macros, limits, text, 1, [command.name], count);
      if limits.maxDepth >= 1 && PlainText(macros, text, limits.maxDepth - 1).Some? {
        var m := PlainText(macros, text, limits.maxDepth - 1).value;
        assert Disjoint(m.names, [command.name]) <==> command.name !in m.names;
        PlainStable(macros, Pieces(macros, text, 0), limits.maxDepth - 1, 0);
      }
    }
  }

  /** A text whose substitution ends, but calls some macro inside itself, is always refused. */
  lemma {:induction false} ReentrantIsRefused(
    macros: Macros, limits: Limits, text: string, depth: nat, stack: seq<string>, count: nat, fuel: nat)
    requires count <= U32_MAX
    requires PlainText(macros, text, fuel).Some? && PlainText(macros, text, fuel).value.reentrant
    ensures Expand(macros, limits, text, depth, stack, count).result.Err?
  {
    OkIffAdmitted(macros, limits, text, depth, stack, count);
    if depth <= limits.maxDepth && PlainText(macros, text, limits.maxDepth - depth).Some? {
      PlainStable(macros, Pieces(macros, text, 0), limits.maxDepth - depth, fuel);
      PlainStable(macros, Pieces(macros, text, 0), fuel, limits.maxDepth - depth);
    }
  }

  // ---------------------------------------------------------------------------
  // What is copied

  function SourceOf(pieces: seq<Piece>): string {
    if pieces == [] then []
    else
      SourceOf(pieces[..|pieces| - 1]) +
      match pieces[|pieces| - 1]
      case Verbatim(text) => text
      case Call(_, _) => []
  }

  ghost predicate NoCalls(pieces: seq<Piece>) {
    forall i :: 0 <= i < |pieces| ==> pieces[i].Verbatim?
  }

  lemma {:induction false} SourceOfAppend(a: seq<Piece>, b: seq<Piece>)
    ensures SourceOf(a + b) == SourceOf(a) + SourceOf(b)
  {
    if b == [] {
      assert a + b == a;
    } else {
      assert (a + b)[..|a + b| - 1] == a + b[..|b| - 1];
      SourceOfAppend(a, b[..|b| - 1]);
    }
  }

  lemma {:induction false} UncalledSource(macros: Macros, text: string, cursor: nat)
    requires cursor <= |text| && NoCalls(Pieces(macros, text, cursor))
    ensures SourceOf(Pieces(macros, text, cursor)) == text[cursor..]
    decreases |text| - cursor
  {
    var start := NextBackslash(text, cursor);
    if start.Some? {
      var cut := CutAt(macros, text, cursor, start.value);
      var rest := Pieces(macros, text, cut.next);
      UncalledCutIsCopied(macros, text, cursor, start.value, rest);
      UncalledSource(macros, text, cut.next);
      SourceOfAppend(cut.pieces, rest);
    }
  }

  lemma {:induction false} UncalledCutIsCopied(macros: Macros, text: string, cursor: nat, start: nat, rest: seq<Piece>)
    requires cursor <= start && IsAt(text, start, '\\')
    requires NoCalls(CutAt(macros, text, cursor, start).pieces + rest)
    ensures NoCalls(rest)
    ensures var cut := CutAt(macros, text, cursor, start);
            SourceOf(cut.pieces) + text[cut.next..] == text[cursor..]
  {
    var cut := CutAt(macros, text, cursor, start);
    NoCallsSplit(cut.pieces, rest);
    if CommandAt(text, start).None? {
      SliceSplit(text, cursor, start, start + 1);
    }
    assert cut.pieces[|cut.pieces| - 1].Verbatim?;
    assert cut.pieces == [Verbatim(text[cursor..cut.next])];
    SourceOfVerbatim(text[cursor..cut.next]);
    SliceSplit(text, cursor, cut.next, |text|);
  }

  lemma {:induction false} NoCallsSplit(front: seq<Piece>, rest: seq<Piece>)
    requires NoCalls(front + rest)
    ensures NoCalls(front) && NoCalls(rest)
  {
    assert forall i :: 0 <= i < |front| ==> front[i] == (front + rest)[i];
    assert forall i :: 0 <= i < |rest| ==> rest[i] == (front + rest)[|front| + i];
  }

  lemma {:induction false} SliceSplit(text: string, a: nat, b: nat, c: nat)
    requires a <= b <= c <= |text|
    ensures text[a..b] + text[b..c] == text[a..c]
    ensures c == |text| ==> text[a..b] + text[b..] == text[a..]
    ensures c == b + 1 ==> text[a..b] + [text[b]] == text[a..c]
  {
  }

  lemma {:induction false} SourceOfVerbatim(text: string)
    ensures SourceOf([Verbatim(text)]) == text
  {
    assert [Verbatim(text)][..0] == [];
  }

  lemma {:induction false} UncalledPieces(
    macros: Macros, limits: Limits, pieces: seq<Piece>, depth: nat, stack: seq<string>, count: nat)
    requires NoCalls(pieces)
    ensures ExpandPieces(macros, limits, pieces, depth, stack, count) == Outcome(Ok(SourceOf(pieces)), count)
    decreases |pieces|
  {
    if pieces != [] {
      UncalledPieces(macros, limits, pieces[..|pieces| - 1], depth, stack, count);
      assert pieces[|pieces| - 1].Verbatim?;
    }
  }

  /** Where no defined macro is called, the text comes out as it stands, commands and arguments included. */
  lemma {:induction false} UncalledTextIsCopied(
    macros: Macros, limits: Limits, text: string, depth: nat, stack: seq<string>, count: nat)
    requires NoCalls(Pieces(macros, text, 0))
    ensures Expand(macros, limits, text, depth, stack, count) ==
            Outcome(if depth > limits.maxDepth then Err(DepthExceeded)
                    else if |text| > limits.maxCharacters then Err(OutputLimit)
                    else Ok(text), count)
  {
    UncalledPieces(macros, limits, Pieces(macros, text, 0), depth, stack, count);
    UncalledSource(macros, text, 0);
    assert text[0..] == text;
  }

  // ---------------------------------------------------------------------------
  // A finite substitution that is refused as a cycle

  const IDENTITY: Definition := Definition(1, "#1")

  lemma {:induction false} OneCall(macros: Macros, text: string, argument: string)
    requires "f" in macros && CommandAt(text, 0) == Some(Command("f", |text|, [argument]))
    ensures Pieces(macros, text, 0) == [Verbatim("")] + [Call("f", [argument])] + [Verbatim("")]
  {
    assert NextBackslash(text, 0) == Some(0);
    assert text[0..0] == "" && text[|text|..] == "";
    assert Pieces(macros, text, |text|) == [Verbatim("")];
  }

  lemma {:induction false} IdentityBody(argument: string)
    ensures Substitute("#1", [argument]) == argument
  {
    var needle := ['#'] + Decimal(1);
    assert needle == "#1";
    assert "#1"[2..] == "";
    assert Replace("#1", needle, argument) == argument + Replace("", needle, argument);
    assert argument + "" == argument;
    assert SubstituteFrom("#1", [argument], 0) == SubstituteFrom(argument, [argument], 1);
  }

  lemma {:induction false} PlainAppend(macros: Macros, front: seq<Piece>, last: Piece, fuel: nat)
    requires PlainPieces(macros, front, fuel).Some? && PlainPiece(macros, last, fuel).Some?
    ensures PlainPieces(macros, front + [last], fuel)
            == Some(Join(PlainPieces(macros, front, fuel).value, PlainPiece(macros, last, fuel).value))
  {
    assert (front + [last])[..|front|] == front;
  }

  lemma {:induction false} PlainVerbatim(macros: Macros, text: string, fuel: nat)
    ensures PlainPieces(macros, [Verbatim(text)], fuel) == Some(Plain(text, 0, 0, {}, false))
  {
    PlainAppend(macros, [], Verbatim(text), fuel);
    assert [] + [Verbatim(text)] == [Verbatim(text)];
    JoinNothing(Plain(text, 0, 0, {}, false));
  }

  lemma {:induction false} JoinNothing(m: Plain)
    ensures Join(NOTHING, m) == m && Join(m, NOTHING) == m
  {
    assert NOTHING.text + m.text == m.text && m.text + NOTHING.text == m.text;
    assert NOTHING.names + m.names == m.names && m.names + NOTHING.names == m.names;
  }

  /** A single call of the identity macro reads as the substitution of its argument. */
  lemma {:induction false} OneCallPlain(macros: Macros, text: string, argument: string, fuel: nat, next: nat)
    requires "f" in macros && macros["f"] == IDENTITY && next == fuel + 1
    requires CommandAt(text, 0) == Some(Command("f", |text|, [argument]))
    requires PlainText(macros, argument, fuel).Some?
    ensures PlainText(macros, text, next).Some?
    ensures var inner, outer := PlainText(macros, argument, fuel).value, PlainText(macros, text, next).value;
            && outer.text == inner.text
            && outer.names == inner.names + {"f"}
            && (outer.reentrant <==> inner.reentrant || "f" in inner.names)
  {
    OneCall(macros, text, argument);
    IdentityBody(argument);
    SurroundedPlain(macros, Call("f", [argument]), next);
  }

  lemma {:induction false} SurroundedPlain(macros: Macros, call: Piece, fuel: nat)
    requires PlainPiece(macros, call, fuel).Some?
    ensures PlainPieces(macros, [Verbatim("")] + [call] + [Verbatim("")], fuel) == PlainPiece(macros, call, fuel)
  {
    PlainVerbatim(macros, "", fuel);
    PlainAppend(macros, [Verbatim("")], call, fuel);
    PlainAppend(macros, [Verbatim("")] + [call], Verbatim(""), fuel);
    JoinNothing(PlainPiece(macros, call, fuel).value);
  }

  lemma {:induction false} InnerCommand()
    ensures CommandAt("\\f{x}", 0) == Some(Command("f", 5, ["x"]))
  {
    var t := "\\f{x}";
    assert BalancedFrom(t, 4, 1, false, '{', '}') == Some(5);
    assert BalancedFrom(t, 3, 1, false, '{', '}') == Some(5);
    assert BalancedEnd(t, 2, '{', '}') == Some(5);
    assert SkipLetters(t, 2) == 2 && SkipLetters(t, 1) == 2 && NameEnd(t, 0) == 2;
    assert SkipSpaces(t, 2) == 2 && SkipSpaces(t, 5) == 5;
    assert t[1..2] == "f" && t[3..4] == "x";
    assert "f" != DEF by { assert |DEF| == 3; }
    assert Arguments(t, "f", 5, ["x"]) == Some(Command("f", 5, ["x"]));
    assert Group(t, 2) == Some(("x", 5));
    assert [] + ["x"] == ["x"];
    assert Arguments(t, "f", 2, []) == Arguments(t, "f", 5, ["x"]);
  }

  lemma {:induction false} OuterCommand()
    ensures CommandAt("\\f{\\f{x}}", 0) == Some(Command("f", 9, ["\\f{x}"]))
  {
    var t, inner := "\\f{\\f{x}}", "\\f{x}";
    assert BalancedFrom(t, 8, 1, false, '{', '}') == Some(9);
    assert BalancedFrom(t, 7, 2, false, '{', '}') == Some(9);
    assert BalancedFrom(t, 6, 2, false, '{', '}') == Some(9);
    assert BalancedFrom(t, 5, 1, false, '{', '}') == Some(9);
    assert BalancedFrom(t, 4, 1, true, '{', '}') == Some(9);
    assert BalancedFrom(t, 3, 1, false, '{', '}') == Some(9);
    assert BalancedEnd(t, 2, '{', '}') == Some(9);
    assert SkipLetters(t, 2) == 2 && SkipLetters(t, 1) == 2 && NameEnd(t, 0) == 2;
    assert SkipSpaces(t, 2) == 2 && SkipSpaces(t, 9) == 9;
    assert t[1..2] == "f" && t[3..8] == inner;
    assert "f" != DEF by { assert |DEF| == 3; }
    assert Arguments(t, "f", 9, [inner]) == Some(Command("f", 9, [inner]));
    assert Group(t, 2) == Some((inner, 9));
    assert [] + [inner] == [inner];
    assert Arguments(t, "f", 2, []) == Arguments(t, "f", 9, [inner]);
  }

  /** A call met below itself is a cycle, whatever the limits. */
  lemma {:induction false} CallBelowItself(macros: Macros, limits: Limits, text: string, argument: string, count: nat)
    requires "f" in macros && CommandAt(text, 0) == Some(Command("f", |text|, [argument]))
    ensures Expand(macros, limits, text, 1, ["f"], count).result
            == Err(if limits.maxDepth >= 1 then Cycle else DepthExceeded)
  {
    OneCall(macros, text, argument);
    VerbatimStep(macros, limits, [], "", 1, ["f"], count, "", count);
    var front := [] + [Verbatim("")];
    CallStep(macros, limits, front, "f", [argument], 1, ["f"], count, "" + "", count);
    assert [Verbatim("")] == front;
    FailureStands(macros, limits, front + [Call("f", [argument])], [Verbatim("")], 1, ["f"], count);
  }

  /**
   With `\f` defined as its own argument, the text `\f{\f{x}}` is a use of `\f`
   that substitutes to `x`; it is refused, and as a cycle as soon as any
   expansion is allowed at all.
   */
  lemma {:induction false} NestedArgumentIsRefused(macros: Macros, limits: Limits, count: nat)
    requires "f" in macros && macros["f"] == IDENTITY
    ensures CommandAt("\\f{\\f{x}}", 0) == Some(Command("f", 9, ["\\f{x}"]))
    ensures PlainCall(macros, "f", ["\\f{x}"], 2).Some? && PlainCall(macros, "f", ["\\f{x}"], 2).value.text == "x"
    ensures UseOf(macros, limits, Command("f", 9, ["\\f{x}"]), count).0
            == Some((if limits.maxDepth >= 1 then Cycle else DepthExceeded, None))
  {
    assert NextBackslash("x", 0) == None && "x"[0..] == "x";
    PlainVerbatim(macros, "x", 0);
    assert PlainText(macros, "x", 0) == Some(Plain("x", 0, 0, {}, false));
    InnerCommand();
    OneCallPlain(macros, "\\f{x}", "x", 0, 1);
    OuterCommand();
    IdentityBody("\\f{x}");
    CallBelowItself(macros, limits, "\\f{x}", "x", count);
  }
}
