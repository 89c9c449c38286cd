/**
 What expanding a value means: unlimited substitution of definitions, without
 stack or counters. The bounded evaluator gives exactly this meaning wherever
 it resolves a value, and resolves every value whose meaning fits its limits.
 */
module StringMeaning {
  import opened Wrappers
  import opened Text
  import opened Lists
  import opened StringExpansion

  /** A substituted text, how deep definitions nested in it, and how many were replaced. */
  datatype Meaning = Meaning(text: string, height: nat, cost: nat)

  function IdentifierMeaning(names: Names, identifier: string, fuel: nat): Option<Meaning>
    decreases fuel, 0
  {
    var name := Lower(identifier);
    if BuiltIn(names, name).Some? then Some(Meaning(BuiltIn(names, name).value, 0, 0))
    else if |Lookup(names, name)| != 1 || fuel == 0 then None
    else
      match PartsMeaning(names, DefinitionParts(names, name), fuel - 1)
      case None => None
      case Some(m) => Some(Meaning(m.text, m.height + 1, m.cost + 1))
  }

  function PartMeaning(names: Names, part: Part, fuel: nat): Option<Meaning>
    decreases fuel, 1
  {
    match part.kind
    case StringIdentifier => IdentifierMeaning(names, part.text, fuel)
    case Broken => None
    case _ => Some(Meaning(part.text, 0, 0))
  }

  /** Substitution nested at most `fuel` definitions deep; None when that is not enough. */
  function PartsMeaning(names: Names, parts: seq<Part>, fuel: nat): Option<Meaning>
    decreases fuel, 2, |parts|
  {
    if parts == [] then Some(Meaning("", 0, 0))
    else
      var front := PartsMeaning(names, parts[..|parts| - 1], fuel);
      var last := PartMeaning(names, parts[|parts| - 1], fuel);
      if front.None? || last.None? then None
      else Some(Meaning(front.value.text + last.value.text,
                        Max(front.value.height, last.value.height),
                        front.value.cost + last.value.cost))
  }

  /** A meaning, once defined, is the same for every fuel that reaches its height. */
  lemma {:induction false} MeaningStable(names: Names, parts: seq<Part>, f: nat, g: nat)
    requires PartsMeaning(names, parts, f).Some?
    ensures PartsMeaning(names, parts, f).value.height <= f
    ensures PartsMeaning(names, parts, f).value.height <= g ==>
              PartsMeaning(names, parts, g) == PartsMeaning(names, parts, f)
    decreases f, |parts|
  {
    if parts != [] {
      MeaningStable(names, parts[..|parts| - 1], f, g);
      PartMeaningStable(names, parts[|parts| - 1], f, g);
    }
  }

  lemma {:induction false} PartMeaningStable(names: Names, part: Part, f: nat, g: nat)
    requires PartMeaning(names, part, f).Some?
    ensures PartMeaning(names, part, f).value.height <= f
    ensures PartMeaning(names, part, f).value.height <= g ==>
              PartMeaning(names, part, g) == PartMeaning(names, part, f)
    decreases f, 0
  {
    if part.kind == StringIdentifier {
      var name := Lower(part.text);
      if BuiltIn(names, name).None? {
        MeaningStable(names, DefinitionParts(names, name), f - 1, if g == 0 then 0 else g - 1);
      }
    }
  }

  // ---------------------------------------------------------------------------
  // The evaluator computes the meaning

  /** What a resolved expansion has to be, given the meaning of its parts. */
  ghost predicate Computes(scope: Scope, meaning: Option<Meaning>, depth: nat, expansions: nat,
                           result: Expansion, count: nat)
  {
    && meaning.Some?
    && result.text == meaning.value.text
    && depth + meaning.value.height <= scope.limits.maxDepth
    && count == expansions + meaning.value.cost
    && (meaning.value.cost > 0 ==> count <= scope.limits.maxExpansions)
  }

  lemma {:induction false} PartsResolvedSound(
    scope: Scope, parts: seq<Part>, depth: nat, stack: seq<string>, expansions: nat)
    requires depth <= scope.limits.maxDepth
    requires PartsExpansion(scope, parts, depth, stack, expansions).result.status.IsResolved()
    ensures var Outcome(result, count) := PartsExpansion(scope, parts, depth, stack, expansions);
            && result.status == Literal
            && Computes(scope, PartsMeaning(scope.names, parts, scope.limits.maxDepth - depth),
                        depth, expansions, result, count)
            && |result.text| <= scope.limits.maxCharacters
    decreases NamesLeft(scope.names, stack), 2, |parts|
  {
    if parts != [] {
      var front := parts[..|parts| - 1];
      PartsResolvedSound(scope, front, depth, stack, expansions);
      var Outcome(_, count) := PartsExpansion(scope, front, depth, stack, expansions);
      PartResolvedSound(scope, parts[|parts| - 1], depth, stack, count);
    }
  }

  lemma {:induction false} PartResolvedSound(
    scope: Scope, part: Part, depth: nat, stack: seq<string>, expansions: nat)
    requires depth <= scope.limits.maxDepth
    requires PartExpansion(scope, part, depth, stack, expansions).result.status.IsResolved()
    ensures var Outcome(result, count) := PartExpansion(scope, part, depth, stack, expansions);
            Computes(scope, PartMeaning(scope.names, part, scope.limits.maxDepth - depth),
                     depth, expansions, result, count)
    decreases NamesLeft(scope.names, stack), 1
  {
    if part.kind == StringIdentifier {
      var name := Lower(part.text);
      assert PartExpansion(scope, part, depth, stack, expansions)
             == IdentifierExpansion(scope, part.text, depth, stack, expansions);
      if BuiltIn(scope.names, name).None? {
        NamesLeftShrinks(scope.names, stack, name);
        PartsResolvedSound(scope, DefinitionParts(scope.names, name), depth + 1, stack + [name], expansions + 1);
      }
    }
  }

  /** Every name being expanded has a meaning at least `height` high. */
  ghost predicate StackAbove(names: Names, stack: seq<string>, height: nat, fuel: nat) {
    forall name :: name in stack ==>
      && |Lookup(names, name)| == 1
      && PartsMeaning(names, DefinitionParts(names, name), fuel).Some?
      && PartsMeaning(names, DefinitionParts(names, name), fuel).value.height >= height
  }

  ghost predicate Fits(scope: Scope, meaning: Meaning, depth: nat, expansions: nat) {
    && depth + meaning.height <= scope.limits.maxDepth
    && (meaning.cost > 0 ==> expansions + meaning.cost <= scope.limits.maxExpansions)
    && |meaning.text| <= scope.limits.maxCharacters
  }

  lemma {:induction false} PartsFittingResolve(
    scope: Scope, parts: seq<Part>, depth: nat, stack: seq<string>, expansions: nat, fuel: nat)
    requires PartsMeaning(scope.names, parts, fuel).Some?
    requires var m := PartsMeaning(scope.names, parts, fuel).value;
             Fits(scope, m, depth, expansions) && StackAbove(scope.names, stack, m.height, fuel)
    ensures PartsExpansion(scope, parts, depth, stack, expansions).result.status == Literal
    ensures Gives(PartsMeaning(scope.names, parts, fuel).value, expansions,
                  PartsExpansion(scope, parts, depth, stack, expansions))
    decreases NamesLeft(scope.names, stack), 2, |parts|
  {
    if parts != [] {
      var front, last := parts[..|parts| - 1], parts[|parts| - 1];
      var m1, m2 := PartsMeaning(scope.names, front, fuel).value, PartMeaning(scope.names, last, fuel).value;
      assert PartsMeaning(scope.names, parts, fuel).value
             == Meaning(m1.text + m2.text, Max(m1.height, m2.height), m1.cost + m2.cost);
      PartsFittingResolve(scope, front, depth, stack, expansions, fuel);
      var count := PartsExpansion(scope, front, depth, stack, expansions).count;
      PartFittingResolves(scope, last, depth, stack, count, fuel);
      PartsExpansionStep(scope, parts, depth, stack, expansions);
    }
  }

  /** An expansion that reads as the meaning and counts every substitution. */
  ghost predicate Gives(m: Meaning, expansions: nat, outcome: Outcome) {
    outcome.result.text == m.text && outcome.count == expansions + m.cost
  }

  lemma {:induction false} PartFittingResolves(
    scope: Scope, part: Part, depth: nat, stack: seq<string>, expansions: nat, fuel: nat)
    requires PartMeaning(scope.names, part, fuel).Some?
    requires var m := PartMeaning(scope.names, part, fuel).value;
             Fits(scope, m, depth, expansions) && StackAbove(scope.names, stack, m.height, fuel)
    ensures PartExpansion(scope, part, depth, stack, expansions).result.status.IsResolved()
    ensures Gives(PartMeaning(scope.names, part, fuel).value, expansions,
                  PartExpansion(scope, part, depth, stack, expansions))
    decreases NamesLeft(scope.names, stack), 1
  {
    if part.kind == StringIdentifier {
      var name := Lower(part.text);
      if BuiltIn(scope.names, name).None? {
        var parts := DefinitionParts(scope.names, name);
        MeaningStable(scope.names, parts, fuel - 1, fuel);
        assert name !in stack;
        NamesLeftShrinks(scope.names, stack, name);
        PartsFittingResolve(scope, parts, depth + 1, stack + [name], expansions + 1, fuel);
      }
    }
  }

  /**
   A value that parsed is resolved exactly when unlimited substitution gives it a
   text within the limits; then that text is its value, each substitution is
   counted once, and it is Expanded iff one of its parts is an identifier.
   */
  lemma {:induction false} ValueResolvedIffFits(scope: Scope, value: Value, usage: Usage)
    requires value.status != Malformed
    ensures var (expanded, after) := ValueExpansion(scope, value, usage);
            var meaning := PartsMeaning(scope.names, value.parts, scope.limits.maxDepth);
            && (expanded.status.IsResolved() <==>
                  && meaning.Some?
                  && (meaning.value.cost > 0 ==>
                        usage.expansions + meaning.value.cost <= scope.limits.maxExpansions)
                  && |meaning.value.text| <= scope.limits.maxCharacters
                  && (scope.limits.maxCharacters < U64_MAX ==>
                        usage.characters + |meaning.value.text| <= scope.limits.maxCharacters))
            && (expanded.status.IsResolved() ==>
                  && expanded.resolved == Some(meaning.value.text)
                  && after == Usage(usage.expansions + meaning.value.cost,
                                    usage.characters + |meaning.value.text|)
                  && (expanded.status == Expanded <==>
                        exists i :: 0 <= i < |value.parts| && value.parts[i].kind == StringIdentifier))
            && (!expanded.status.IsResolved() ==> expanded.resolved == None && after.characters == usage.characters)
  {
    var meaning := PartsMeaning(scope.names, value.parts, scope.limits.maxDepth);
    var Outcome(result, count) := PartsExpansion(scope, value.parts, 0, [], usage.expansions);
    if result.status.IsResolved() {
      PartsResolvedSound(scope, value.parts, 0, [], usage.expansions);
      UsedIffIdentifier(scope, value.parts, 0, [], usage.expansions);
    }
    if meaning.Some? && Fits(scope, meaning.value, 0, usage.expansions) {
      PartsFittingResolve(scope, value.parts, 0, [], usage.expansions, scope.limits.maxDepth);
    }
    if meaning.Some? {
      MeaningStable(scope.names, value.parts, scope.limits.maxDepth, 0);
    }
  }

  lemma {:induction false} UsedIffIdentifier(
    scope: Scope, parts: seq<Part>, depth: nat, stack: seq<string>, expansions: nat)
    requires PartsExpansion(scope, parts, depth, stack, expansions).result.status == Literal
    ensures PartsExpansion(scope, parts, depth, stack, expansions).result.usedIdentifier <==>
            exists i :: 0 <= i < |parts| && parts[i].kind == StringIdentifier
    decreases |parts|
  {
    if parts != [] {
      var front := parts[..|parts| - 1];
      UsedIffIdentifier(scope, front, depth, stack, expansions);
      assert forall i :: 0 <= i < |front| ==> front[i] == parts[i];
    }
  }

  // ---------------------------------------------------------------------------
  // Which values have a meaning

  /** Some part refers to the user-defined name. */
  ghost predicate Mentions(names: Names, parts: seq<Part>, name: string) {
    exists i :: 0 <= i < |parts| && MentionedAt(names, parts, i, name)
  }

  predicate MentionedAt(names: Names, parts: seq<Part>, i: nat, name: string) {
    i < |parts| && parts[i].kind == StringIdentifier && Lower(parts[i].text) == name && BuiltIn(names, name).None?
  }

  predicate NoneBroken(parts: seq<Part>) {
    forall i :: 0 <= i < |parts| ==> parts[i].kind != Broken
  }

  /** Names that refer to each other in turn, the first one mentioned by `parts`. */
  ghost predicate IsWalk(names: Names, parts: seq<Part>, walk: seq<string>)
    decreases |walk|
  {
    walk != [] ==>
      && Mentions(names, parts, walk[0])
      && (|walk| > 1 ==>
            && |Lookup(names, walk[0])| == 1
            && IsWalk(names, DefinitionParts(names, walk[0]), walk[1..]))
  }

  /** Nothing broken, undefined, ambiguous or circular can be reached from the parts. */
  ghost predicate WellFounded(names: Names, parts: seq<Part>) {
    && NoneBroken(parts)
    && forall walk {:trigger IsWalk(names, parts, walk)} :: walk != [] && IsWalk(names, parts, walk) ==>
         var last := walk[|walk| - 1];
         && Distinct(walk)
         && |Lookup(names, last)| == 1
         && NoneBroken(DefinitionParts(names, last))
  }

  /** A walk can be continued by a name that its last definition mentions. */
  lemma {:induction false} WalkExtend(names: Names, parts: seq<Part>, walk: seq<string>, name: string)
    requires IsWalk(names, parts, walk)
    requires walk == [] ==> Mentions(names, parts, name)
    requires walk != [] ==> |Lookup(names, walk[|walk| - 1])| == 1
                            && Mentions(names, DefinitionParts(names, walk[|walk| - 1]), name)
    ensures IsWalk(names, parts, walk + [name])
    decreases |walk|
  {
    if walk != [] {
      assert (walk + [name])[1..] == walk[1..] + [name];
      if |walk| > 1 {
        assert walk[1..][|walk[1..]| - 1] == walk[|walk| - 1];
        WalkExtend(names, DefinitionParts(names, walk[0]), walk[1..], name);
      }
    }
  }

  /** The parts a walk has reached: those of its last name, or the value's own. */
  ghost predicate Reached(names: Names, root: seq<Part>, walk: seq<string>, parts: seq<Part>) {
    && IsWalk(names, root, walk)
    && if walk == [] then parts == root
       else |Lookup(names, walk[|walk| - 1])| == 1 && parts == DefinitionParts(names, walk[|walk| - 1])
  }

  /** In a well-founded value a walk only ever goes on to a new, well-defined name. */
  lemma {:induction false} WellFoundedStep(
    names: Names, root: seq<Part>, walk: seq<string>, source: seq<Part>, i: nat, name: string)
    requires WellFounded(names, root) && Reached(names, root, walk, source) && MentionedAt(names, source, i, name)
    ensures name !in walk && |Lookup(names, name)| == 1
    ensures Reached(names, root, walk + [name], DefinitionParts(names, name))
    ensures NoneBroken(DefinitionParts(names, name))
    ensures |NamesLeft(names, walk + [name])| == |NamesLeft(names, walk)| - 1
    ensures NamesLeft(names, walk + [name]) < NamesLeft(names, walk)
  {
    WalkExtend(names, root, walk, name);
    var longer := walk + [name];
    assert Distinct(longer) && longer[|longer| - 1] == name;
    forall k | 0 <= k < |walk| ensures walk[k] != name {
      assert longer[k] != longer[|walk|];
    }
    NamesLeftShrinks(names, walk, name);
  }

  /** Without anything broken or circular below `walk`, enough fuel gives a meaning. */
  lemma {:induction false} WellFoundedHasMeaning(
    names: Names, root: seq<Part>, walk: seq<string>, source: seq<Part>, n: nat, fuel: nat)
    requires WellFounded(names, root) && Reached(names, root, walk, source)
    requires NoneBroken(source) && n <= |source| && fuel == |NamesLeft(names, walk)|
    ensures PartsMeaning(names, source[..n], fuel).Some?
    decreases fuel, 1, n
  {
    if n > 0 {
      WellFoundedHasMeaning(names, root, walk, source, n - 1, fuel);
      WellFoundedPart(names, root, walk, source, n - 1, fuel);
      assert source[..n][..n - 1] == source[..n - 1];
    }
  }

  lemma {:induction false} WellFoundedPart(
    names: Names, root: seq<Part>, walk: seq<string>, source: seq<Part>, i: nat, fuel: nat)
    requires WellFounded(names, root) && Reached(names, root, walk, source)
    requires NoneBroken(source) && i < |source| && fuel == |NamesLeft(names, walk)|
    ensures PartMeaning(names, source[i], fuel).Some?
    decreases fuel, 0
  {
    var name := Lower(source[i].text);
    if source[i].kind == StringIdentifier && BuiltIn(names, name).None? {
      WellFoundedStep(names, root, walk, source, i, name);
      var parts := DefinitionParts(names, name);
      WellFoundedHasMeaning(names, root, walk + [name], parts, |parts|, fuel - 1);
      assert parts[..|parts|] == parts;
    }
    assert source[i].kind == StringIdentifier ==> IdentifierMeaning(names, source[i].text, fuel).Some?;
  }

  /** Along a walk, heights drop by at least one per name. */
  lemma {:induction false} HeightsDrop(
    names: Names, parts: seq<Part>, walk: seq<string>, fuel: nat)
    requires PartsMeaning(names, parts, fuel).Some? && walk != [] && IsWalk(names, parts, walk)
    ensures var last := walk[|walk| - 1];
            && |Lookup(names, last)| == 1
            && PartsMeaning(names, DefinitionParts(names, last), fuel).Some?
            && PartsMeaning(names, DefinitionParts(names, last), fuel).value.height + |walk|
               <= PartsMeaning(names, parts, fuel).value.height
    decreases |walk|
  {
    var i :| 0 <= i < |parts| && MentionedAt(names, parts, i, walk[0]);
    MentionedMeaning(names, parts, i, fuel);
    var inner := DefinitionParts(names, walk[0]);
    MeaningStable(names, inner, fuel - 1, fuel);
    if |walk| > 1 {
      HeightsDrop(names, inner, walk[1..], fuel);
      assert walk[1..][|walk[1..]| - 1] == walk[|walk| - 1];
    }
  }

  lemma {:induction false} MentionedMeaning(names: Names, parts: seq<Part>, i: nat, fuel: nat)
    requires PartsMeaning(names, parts, fuel).Some? && i < |parts|
    ensures PartMeaning(names, parts[i], fuel).Some?
    ensures PartMeaning(names, parts[i], fuel).value.height <= PartsMeaning(names, parts, fuel).value.height
    decreases |parts|
  {
    if i < |parts| - 1 {
      assert parts[..|parts| - 1][i] == parts[i];
      MentionedMeaning(names, parts[..|parts| - 1], i, fuel);
    }
  }

  lemma {:induction false} MeaningIsUnbroken(names: Names, parts: seq<Part>, fuel: nat)
    requires PartsMeaning(names, parts, fuel).Some?
    ensures NoneBroken(parts)
  {
    forall i | 0 <= i < |parts| ensures parts[i].kind != Broken {
      MentionedMeaning(names, parts, i, fuel);
    }
  }

  /** The part of a walk after its `i`-th name is a walk from that name's definition. */
  lemma {:induction false} WalkSuffix(names: Names, parts: seq<Part>, walk: seq<string>, i: nat)
    requires IsWalk(names, parts, walk) && i + 1 < |walk|
    ensures |Lookup(names, walk[i])| == 1
    ensures IsWalk(names, DefinitionParts(names, walk[i]), walk[i + 1..])
    decreases |walk|
  {
    if i > 0 {
      WalkSuffix(names, DefinitionParts(names, walk[0]), walk[1..], i - 1);
      assert walk[1..][i..] == walk[i + 1..];
    }
  }

  lemma {:induction false} WalkPrefix(names: Names, parts: seq<Part>, walk: seq<string>, n: nat)
    requires IsWalk(names, parts, walk) && n <= |walk|
    ensures IsWalk(names, parts, walk[..n])
    decreases |walk|
  {
    if n > 1 {
      WalkPrefix(names, DefinitionParts(names, walk[0]), walk[1..], n - 1);
      assert walk[..n][1..] == walk[1..][..n - 1];
    }
  }

  lemma {:induction false} MeaningForbidsRepeats(names: Names, parts: seq<Part>, walk: seq<string>, fuel: nat)
    requires PartsMeaning(names, parts, fuel).Some? && IsWalk(names, parts, walk)
    ensures Distinct(walk)
  {
    forall i, j | 0 <= i < j < |walk| ensures walk[i] != walk[j] {
      WalkPrefix(names, parts, walk, i + 1);
      HeightsDrop(names, parts, walk[..i + 1], fuel);
      WalkPrefix(names, parts, walk, j + 1);
      WalkSuffix(names, parts, walk[..j + 1], i);
      var loop := walk[..j + 1][i + 1..];
      HeightsDrop(names, DefinitionParts(names, walk[i]), loop, fuel);
      assert loop[|loop| - 1] == walk[j];
    }
  }

  /** Unlimited substitution ends exactly for values that reach nothing broken or circular. */
  lemma {:induction false} MeaningIffWellFounded(names: Names, parts: seq<Part>)
    ensures (exists fuel :: PartsMeaning(names, parts, fuel).Some?) <==> WellFounded(names, parts)
  {
    if WellFounded(names, parts) {
      assert IsWalk(names, parts, []);
      WellFoundedHasMeaning(names, parts, [], parts, |parts|, |NamesLeft(names, [])|);
      assert parts[..|parts|] == parts;
    }
    if exists fuel :: PartsMeaning(names, parts, fuel).Some? {
      var fuel :| PartsMeaning(names, parts, fuel).Some?;
      MeaningIsUnbroken(names, parts, fuel);
      forall walk | walk != [] && IsWalk(names, parts, walk)
        ensures var last := walk[|walk| - 1];
                Distinct(walk) && |Lookup(names, last)| == 1 && NoneBroken(DefinitionParts(names, last))
      {
        MeaningForbidsRepeats(names, parts, walk, fuel);
        HeightsDrop(names, parts, walk, fuel);
        MeaningIsUnbroken(names, DefinitionParts(names, walk[|walk| - 1]), fuel);
      }
    }
  }

  // ---------------------------------------------------------------------------
  // What a failure reports

  /** The parts that a walk reached have a prefix whose text alone is too long. */
  ghost predicate ReachesLongText(scope: Scope, root: seq<Part>, walk: seq<string>) {
    exists source, n: nat ::
      Reached(scope.names, root, walk, source) && n <= |source| && TooLong(scope, source[..n], |walk|)
  }

  /** What the parts stand for, nested below `depth` definitions, is longer than a text may be. */
  ghost predicate TooLong(scope: Scope, parts: seq<Part>, depth: nat) {
    depth <= scope.limits.maxDepth &&
    var meaning := PartsMeaning(scope.names, parts, scope.limits.maxDepth - depth);
    meaning.Some? && |meaning.value.text| > scope.limits.maxCharacters
  }

  /** A definition that the walk ends at could be entered: it is unique, new, and not too deep. */
  ghost predicate EndsAtEnterable(scope: Scope, walk: seq<string>) {
    && walk != [] && |walk| <= scope.limits.maxDepth
    && |Lookup(scope.names, walk[|walk| - 1])| == 1 && walk[|walk| - 1] !in walk[..|walk| - 1]
  }

  /** A walk from the value that shows why its expansion ended with a status, after so many expansions. */
  ghost predicate Explains(scope: Scope, root: seq<Part>, status: Status, count: nat, walk: seq<string>) {
    && IsWalk(scope.names, root, walk)
    && match status
       case Cycle => |walk| > 1 && walk[|walk| - 1] in walk[..|walk| - 1]
       case UnresolvedIdentifier => walk != [] && |Lookup(scope.names, walk[|walk| - 1])| == 0
       case AmbiguousIdentifier => walk != [] && |Lookup(scope.names, walk[|walk| - 1])| > 1
       case DepthExceeded => |walk| == scope.limits.maxDepth + 1
       case ExpansionLimit => count >= scope.limits.maxExpansions && EndsAtEnterable(scope, walk)
       case OutputLimit => ReachesLongText(scope, root, walk)
       case Malformed => exists source :: Reached(scope.names, root, walk, source) && !NoneBroken(source)
       case Literal => true
       case Expanded => true
  }

  lemma {:induction false} PrefixExpansionStep(
    scope: Scope, source: seq<Part>, n: nat, depth: nat, stack: seq<string>, expansions: nat)
    requires 0 < n <= |source|
    ensures PartsExpansion(scope, source[..n], depth, stack, expansions) ==
            var front := PartsExpansion(scope, source[..n - 1], depth, stack, expansions);
            if front.result.status != Literal then front
            else
              var last := PartExpansion(scope, source[n - 1], depth, stack, front.count);
              Outcome(Append(scope.limits.maxCharacters, front.result, source[n - 1], last.result), last.count)
  {
    assert source[..n][..n - 1] == source[..n - 1];
    PartsExpansionStep(scope, source[..n], depth, stack, expansions);
  }

  lemma {:induction false} FailureHasWalk(
    scope: Scope, root: seq<Part>, source: seq<Part>, n: nat, depth: nat, stack: seq<string>, expansions: nat)
    returns (walk: seq<string>)
    requires Reached(scope.names, root, stack, source) && n <= |source|
    requires depth == |stack| <= scope.limits.maxDepth
    ensures var Outcome(result, count) := PartsExpansion(scope, source[..n], depth, stack, expansions);
            Explains(scope, root, result.status, count, walk)
    decreases NamesLeft(scope.names, stack), 2, n
  {
    walk := stack;
    if n > 0 {
      PrefixExpansionStep(scope, source, n, depth, stack, expansions);
      if PartsExpansion(scope, source[..n - 1], depth, stack, expansions).result.status == Literal {
        walk := StepFailureHasWalk(scope, root, source, n - 1, depth, stack, expansions);
      } else {
        walk := FailureHasWalk(scope, root, source, n - 1, depth, stack, expansions);
      }
    }
  }

  /** The failure of the first part that fails, or of the text that grew too long with it. */
  lemma {:induction false} StepFailureHasWalk(
    scope: Scope, root: seq<Part>, source: seq<Part>, i: nat, depth: nat, stack: seq<string>, expansions: nat)
    returns (walk: seq<string>)
    requires Reached(scope.names, root, stack, source) && i < |source|
    requires depth == |stack| <= scope.limits.maxDepth
    requires PartsExpansion(scope, source[..i], depth, stack, expansions).result.status == Literal
    ensures var front := PartsExpansion(scope, source[..i], depth, stack, expansions);
            var last := PartExpansion(scope, source[i], depth, stack, front.count);
            var status := Append(scope.limits.maxCharacters, front.result, source[i], last.result).status;
            Explains(scope, root, status, last.count, walk)
    decreases NamesLeft(scope.names, stack), 1
  {
    var front := PartsExpansion(scope, source[..i], depth, stack, expansions);
    var last := PartExpansion(scope, source[i], depth, stack, front.count);
    if last.result.status.IsResolved() {
      walk := stack;
      if |front.result.text + last.result.text| > scope.limits.maxCharacters {
        GrownTextIsTooLong(scope, source, i, depth, stack, expansions);
      }
    } else {
      walk := PartFailureHasWalk(scope, root, source, i, depth, stack, front.count);
    }
  }

  lemma {:induction false} GrownTextIsTooLong(
    scope: Scope, source: seq<Part>, i: nat, depth: nat, stack: seq<string>, expansions: nat)
    requires i < |source| && depth <= scope.limits.maxDepth
    requires var front := PartsExpansion(scope, source[..i], depth, stack, expansions);
             var last := PartExpansion(scope, source[i], depth, stack, front.count);
             && front.result.status == Literal && last.result.status.IsResolved()
             && |front.result.text + last.result.text| > scope.limits.maxCharacters
    ensures TooLong(scope, source[..i + 1], depth)
  {
    var count := PartsExpansion(scope, source[..i], depth, stack, expansions).count;
    PartsResolvedSound(scope, source[..i], depth, stack, expansions);
    PartResolvedSound(scope, source[i], depth, stack, count);
    assert source[..i + 1][..i] == source[..i];
  }

  lemma {:induction false} PartFailureHasWalk(
    scope: Scope, root: seq<Part>, source: seq<Part>, i: nat, depth: nat, stack: seq<string>, expansions: nat)
    returns (walk: seq<string>)
    requires Reached(scope.names, root, stack, source) && i < |source|
    requires depth == |stack| <= scope.limits.maxDepth
    ensures var Outcome(result, count) := PartExpansion(scope, source[i], depth, stack, expansions);
            Explains(scope, root, result.status, count, walk)
    decreases NamesLeft(scope.names, stack), 0, 2
  {
    walk := stack;
    if source[i].kind == StringIdentifier {
      assert PartExpansion(scope, source[i], depth, stack, expansions)
             == IdentifierExpansion(scope, source[i].text, depth, stack, expansions);
      var name := Lower(source[i].text);
      if BuiltIn(scope.names, name).None? {
        assert MentionedAt(scope.names, source, i, name);
        WalkExtend(scope.names, root, stack, name);
        walk := NameFailureHasWalk(scope, root, source[i].text, depth, stack, expansions);
      }
    }
  }

  /** A name that is not entered fails for a reason its own walk shows. */
  lemma {:induction false} RefusedNameExplained(
    scope: Scope, root: seq<Part>, name: string, status: Status, stack: seq<string>, count: nat)
    requires IsWalk(scope.names, root, stack + [name]) && |stack| <= scope.limits.maxDepth
    requires if |Lookup(scope.names, name)| == 0 then status == UnresolvedIdentifier
             else if |Lookup(scope.names, name)| != 1 then status == AmbiguousIdentifier
             else if name in stack then status == Cycle
             else if |stack| == scope.limits.maxDepth then status == DepthExceeded
             else status == ExpansionLimit && count >= scope.limits.maxExpansions
    ensures Explains(scope, root, status, count, stack + [name])
  {
    var walk := stack + [name];
    assert walk[..|walk| - 1] == stack && walk[|walk| - 1] == name;
  }

  lemma {:induction false} NameFailureHasWalk(
    scope: Scope, root: seq<Part>, identifier: string, depth: nat, stack: seq<string>, expansions: nat)
    returns (walk: seq<string>)
    requires BuiltIn(scope.names, Lower(identifier)).None?
    requires IsWalk(scope.names, root, stack + [Lower(identifier)]) && depth == |stack| <= scope.limits.maxDepth
    ensures var Outcome(result, count) := IdentifierExpansion(scope, identifier, depth, stack, expansions);
            Explains(scope, root, result.status, count, walk)
    decreases NamesLeft(scope.names, stack), 0, 1
  {
    var name := Lower(identifier);
    walk := stack + [name];
    if |Lookup(scope.names, name)| == 1 && name !in stack && depth < scope.limits.maxDepth
       && expansions < scope.limits.maxExpansions
    {
      walk := EnteredFailureHasWalk(scope, root, name, depth, stack, expansions);
    } else {
      var result := IdentifierExpansion(scope, identifier, depth, stack, expansions).result;
      RefusedNameExplained(scope, root, name, result.status, stack, expansions);
    }
  }

  lemma {:induction false} EnteredFailureHasWalk(
    scope: Scope, root: seq<Part>, name: string, depth: nat, stack: seq<string>, expansions: nat)
    returns (walk: seq<string>)
    requires |Lookup(scope.names, name)| == 1 && name !in stack
    requires IsWalk(scope.names, root, stack + [name]) && depth == |stack| < scope.limits.maxDepth
    ensures var parts := DefinitionParts(scope.names, name);
            var Outcome(result, count) := PartsExpansion(scope, parts, depth + 1, stack + [name], expansions + 1);
            Explains(scope, root, result.status, count, walk)
    decreases NamesLeft(scope.names, stack), 0, 0
  {
    var parts, entered := DefinitionParts(scope.names, name), stack + [name];
    assert entered[|entered| - 1] == name;
    NamesLeftShrinks(scope.names, stack, name);
    walk := FailureHasWalk(scope, root, parts, |parts|, depth + 1, entered, expansions + 1);
    assert parts[..|parts|] == parts;
  }

  /** The walk and what it shows, for the status a value ends with. */
  ghost predicate ValueExplained(scope: Scope, value: Value, usage: Usage, walk: seq<string>) {
    var (expanded, after) := ValueExpansion(scope, value, usage);
    var meaning := PartsMeaning(scope.names, value.parts, scope.limits.maxDepth);
    || Explains(scope, value.parts, expanded.status, after.expansions, walk)
    || (expanded.status == OutputLimit && meaning.Some?
        && usage.characters + |meaning.value.text| > scope.limits.maxCharacters)
  }

  /**
   Every reported failure is backed by a walk that shows it: a name that reaches
   itself, a missing or ambiguous one, a walk one longer than the depth, a
   definition still to be entered when all expansions are used up, or parts
   whose text is too long; the last also for the whole value with what was
   resolved before it.
   */
  lemma {:induction false} ReportedFailureIsReal(scope: Scope, value: Value, usage: Usage)
    requires value.status != Malformed
    ensures exists walk :: ValueExplained(scope, value, usage, walk)
    ensures usage.expansions <= scope.limits.maxExpansions && ValueExpansion(scope, value, usage).0.status == ExpansionLimit ==>
              ValueExpansion(scope, value, usage).1.expansions == scope.limits.maxExpansions
  {
    var parts := value.parts;
    assert Reached(scope.names, parts, [], parts) && parts[..|parts|] == parts;
    var walk := FailureHasWalk(scope, parts, parts, |parts|, 0, [], usage.expansions);
    var Outcome(result, count) := PartsExpansion(scope, parts, 0, [], usage.expansions);
    if result.status.IsResolved() {
      PartsResolvedSound(scope, parts, 0, [], usage.expansions);
    }
    assert ValueExplained(scope, value, usage, walk);
    if usage.expansions <= scope.limits.maxExpansions {
      ExpansionsBounded(scope, parts, 0, [], usage.expansions);
    }
  }

  /** A value that can run into a circle is never resolved. */
  lemma {:induction false} CircularNeverResolves(scope: Scope, value: Value, usage: Usage, walk: seq<string>)
    requires value.status != Malformed && IsWalk(scope.names, value.parts, walk) && !Distinct(walk)
    ensures !ValueExpansion(scope, value, usage).0.status.IsResolved()
  {
    ValueResolvedIffFits(scope, value, usage);
    if PartsMeaning(scope.names, value.parts, scope.limits.maxDepth).Some? {
      MeaningForbidsRepeats(scope.names, value.parts, walk, scope.limits.maxDepth);
    }
  }

  // ---------------------------------------------------------------------------
  // A whole pass

  function ResolvedLength(before: seq<Value>, after: seq<Value>): nat
    requires |before| == |after|
  {
    if before == [] then 0
    else
      var last := |before| - 1;
      ResolvedLength(before[..last], after[..last])
      + if before[last].status != Malformed && after[last].resolved.Some? then |after[last].resolved.value| else 0
  }

  /**
   The character counter of a pass is exactly the length of what it resolved, and
   neither counter passes its limit. A limit of the largest value of its type
   refuses nothing, as the saturating sum cannot pass it: then nothing is said.
   */
  lemma {:induction false} PassUsage(scope: Scope, values: seq<Value>, usage: Usage)
    requires usage.expansions <= scope.limits.maxExpansions && usage.characters <= scope.limits.maxCharacters
    ensures var (expanded, after) := ValuesExpansion(scope, values, usage);
            && |expanded| == |values|
            && after.characters == usage.characters + ResolvedLength(values, expanded)
            && (scope.limits.maxCharacters < U64_MAX ==> after.characters <= scope.limits.maxCharacters)
            && usage.expansions <= after.expansions <= scope.limits.maxExpansions
  {
    if values != [] {
      var front, last := values[..|values| - 1], values[|values| - 1];
      PassUsage(scope, front, usage);
      var (expanded, after) := ValuesExpansion(scope, values, usage);
      var (_, between) := ValuesExpansion(scope, front, usage);
      assert expanded[..|values| - 1] == ValuesExpansion(scope, front, usage).0;
      if last.status != Malformed {
        ValueResolvedIffFits(scope, last, between);
        ExpansionsBounded(scope, last.parts, 0, [], between.expansions);
      }
    }
  }

  lemma {:induction false} ExpansionsBounded(
    scope: Scope, parts: seq<Part>, depth: nat, stack: seq<string>, expansions: nat)
    requires expansions <= scope.limits.maxExpansions
    ensures expansions <= PartsExpansion(scope, parts, depth, stack, expansions).count <= scope.limits.maxExpansions
    decreases NamesLeft(scope.names, stack), 1, |parts|
  {
    if parts != [] {
      var front := parts[..|parts| - 1];
      ExpansionsBounded(scope, front, depth, stack, expansions);
      PartExpansionsBounded(scope, parts[|parts| - 1], depth, stack,
                            PartsExpansion(scope, front, depth, stack, expansions).count);
    }
  }

  lemma {:induction false} PartExpansionsBounded(
    scope: Scope, part: Part, depth: nat, stack: seq<string>, expansions: nat)
    requires expansions <= scope.limits.maxExpansions
    ensures expansions <= PartExpansion(scope, part, depth, stack, expansions).count <= scope.limits.maxExpansions
    decreases NamesLeft(scope.names, stack), 0
  {
    var name := Lower(part.text);
    if part.kind == StringIdentifier && |Lookup(scope.names, name)| == 1 && name !in stack
       && expansions < scope.limits.maxExpansions
    {
      NamesLeftShrinks(scope.names, stack, name);
      ExpansionsBounded(scope, DefinitionParts(scope.names, name), depth + 1, stack + [name], expansions + 1);
    }
  }
}
