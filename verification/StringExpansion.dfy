/**
 Expansion of `@string` identifiers: the bounded evaluator with its call stack
 and counters, and the same evaluation as a function of what it is given.
 */
module StringExpansion {
  import opened Wrappers
  import opened Text
  import opened Lists

  datatype PartKind = Braced | Quoted | Number | StringIdentifier | Broken

  datatype Part = Part(kind: PartKind, text: string)

  datatype Status =
    | Literal
    | Expanded
    | UnresolvedIdentifier
    | AmbiguousIdentifier
    | Cycle
    | DepthExceeded
    | ExpansionLimit
    | OutputLimit
    | Malformed
  {
    predicate IsResolved() {
      this == Literal || this == Expanded
    }
  }

  datatype Provenance =
    | FromLiteral(part: Part)
    | FromBuiltIn(name: string)
    | FromDefinition(name: string, index: nat)

  datatype Value = Value(parts: seq<Part>, resolved: Option<string>, status: Status, provenance: seq<Provenance>)

  datatype Definition = Definition(index: nat, name: string, value: Value)

  /** An expansion, and the expansion count after it. */
  datatype Outcome = Outcome(result: Expansion, count: nat)

  datatype Limits = Limits(maxDepth: nat, maxExpansions: nat, maxCharacters: nat)

  /** The definitions in force, and the built-in names that take precedence over them. */
  datatype Names = Names(definitions: seq<Definition>, builtIns: map<string, string>)

  datatype Scope = Scope(names: Names, limits: Limits)

  datatype Expansion = Expansion(text: string, status: Status, provenance: seq<Provenance>, usedIdentifier: bool)

  const U64_MAX: nat := 0xFFFF_FFFF_FFFF_FFFF

  function SaturatingAdd(a: nat, b: nat): (sum: nat)
    ensures sum <= U64_MAX && sum <= a + b && (sum == U64_MAX || sum == a + b)
  {
    if a + b > U64_MAX then U64_MAX else a + b
  }

  function BuiltIn(names: Names, name: string): Option<string> {
    if name in names.builtIns then Some(names.builtIns[name]) else None
  }

  /** The positions of the definitions of a lower-cased name, in order. */
  function Positions(definitions: seq<Definition>, name: string): (found: seq<nat>)
    ensures forall i :: 0 <= i < |found| ==>
              found[i] < |definitions| && Lower(definitions[found[i]].name) == name
  {
    if definitions == [] then []
    else
      var last := |definitions| - 1;
      Positions(definitions[..last], name) + if Lower(definitions[last].name) == name then [last] else []
  }

  lemma {:induction false} PositionsStep(definitions: seq<Definition>, name: string, last: nat)
    requires last == |definitions| - 1
    ensures Positions(definitions, name) ==
            Positions(definitions[..last], name) + if Lower(definitions[last].name) == name then [last] else []
  {
  }

  /** All definitions of a name, ignoring its case, once each and in order. */
  ghost predicate AreAll(definitions: seq<Definition>, name: string, found: seq<nat>) {
    && Rising(found)
    && (forall k :: 0 <= k < |found| ==> found[k] < |definitions|)
    && forall i :: 0 <= i < |definitions| ==> (i in found <==> Lower(definitions[i].name) == name)
  }

  lemma {:induction false} OneMoreDefinition(definitions: seq<Definition>, name: string, last: nat, found: seq<nat>)
    requires last == |definitions| - 1 && AreAll(definitions[..last], name, found)
    ensures AreAll(definitions, name, found + if Lower(definitions[last].name) == name then [last] else [])
  {
    assert forall i :: 0 <= i < last ==> definitions[..last][i] == definitions[i];
    assert last !in found;
    if Lower(definitions[last].name) == name {
      assert (found + [last])[|found|] == last;
    }
  }

  lemma {:induction false} PositionsAreAll(definitions: seq<Definition>, name: string)
    ensures AreAll(definitions, name, Positions(definitions, name))
  {
    if definitions != [] {
      var last := |definitions| - 1;
      PositionsAreAll(definitions[..last], name);
      OneMoreDefinition(definitions, name, last, Positions(definitions[..last], name));
      PositionsStep(definitions, name, last);
    }
  }

  function Lookup(names: Names, name: string): seq<nat> {
    Positions(names.definitions, name)
  }

  predicate IsDefined(names: Names, name: string) {
    Lookup(names, name) != []
  }

  /** The parts that the unique definition of a name stands for. */
  function DefinitionParts(names: Names, name: string): seq<Part>
    requires |Lookup(names, name)| == 1
  {
    names.definitions[Lookup(names, name)[0]].value.parts
  }

  // ---------------------------------------------------------------------------
  // The evaluation, as a function

  ghost function DefinedNames(names: Names): set<string> {
    set i | 0 <= i < |names.definitions| :: Lower(names.definitions[i].name)
  }

  ghost function NamesLeft(names: Names, stack: seq<string>): set<string> {
    DefinedNames(names) - set name | name in stack
  }

  lemma {:induction false} NamesLeftShrinks(names: Names, stack: seq<string>, name: string)
    requires IsDefined(names, name) && name !in stack
    ensures NamesLeft(names, stack + [name]) == NamesLeft(names, stack) - {name}
    ensures name in NamesLeft(names, stack)
    ensures NamesLeft(names, stack + [name]) < NamesLeft(names, stack)
  {
    var i := Lookup(names, name)[0];
    assert Lower(names.definitions[i].name) in DefinedNames(names);
  }

  function Failed(status: Status): Expansion {
    Expansion("", status, [], true)
  }

  /** Adds one part's result to what the parts before it gave. */
  function Append(maxCharacters: nat, front: Expansion, part: Part, result: Expansion): Expansion {
    var provenance := front.provenance + result.provenance;
    var used := front.usedIdentifier || part.kind == StringIdentifier || result.usedIdentifier;
    if !result.status.IsResolved() then Expansion("", result.status, provenance, used)
    else if |front.text + result.text| > maxCharacters then Expansion("", OutputLimit, provenance, used)
    else Expansion(front.text + result.text, Literal, provenance, used)
  }

  ghost function PartExpansion(scope: Scope, part: Part, depth: nat, stack: seq<string>, expansions: nat): Outcome
    decreases NamesLeft(scope.names, stack), 1
  {
    match part.kind
    case StringIdentifier => IdentifierExpansion(scope, part.text, depth, stack, expansions)
    case Broken => Outcome(Expansion("", Malformed, [], false), expansions)
    case _ => Outcome(Expansion(part.text, Literal, [FromLiteral(part)], false), expansions)
  }

  ghost function PartsExpansion(
    scope: Scope, parts: seq<Part>, depth: nat, stack: seq<string>, expansions: nat): Outcome
    decreases NamesLeft(scope.names, stack), 2, |parts|
  {
    if parts == [] then Outcome(Expansion("", Literal, [], false), expansions)
    else
      var front := PartsExpansion(scope, parts[..|parts| - 1], depth, stack, expansions);
      if front.result.status != Literal then front
      else
        var last := PartExpansion(scope, parts[|parts| - 1], depth, stack, front.count);
        Outcome(Append(scope.limits.maxCharacters, front.result, parts[|parts| - 1], last.result), last.count)
  }

  ghost function IdentifierExpansion(
    scope: Scope, identifier: string, depth: nat, stack: seq<string>, expansions: nat): Outcome
    decreases NamesLeft(scope.names, stack), 0
  {
    var name := Lower(identifier);
    var found := Lookup(scope.names, name);
    if BuiltIn(scope.names, name).Some? then
      Outcome(Expansion(BuiltIn(scope.names, name).value, Expanded, [FromBuiltIn(identifier)], true), expansions)
    else if |found| == 0 then Outcome(Failed(UnresolvedIdentifier), expansions)
    else if |found| != 1 then Outcome(Failed(AmbiguousIdentifier), expansions)
    else if name in stack then Outcome(Failed(Cycle), expansions)
    else if depth >= scope.limits.maxDepth then Outcome(Failed(DepthExceeded), expansions)
    else if expansions >= scope.limits.maxExpansions then Outcome(Failed(ExpansionLimit), expansions)
    else
      NamesLeftShrinks(scope.names, stack, name);
      var definition := scope.names.definitions[found[0]];
      var inner := PartsExpansion(scope, definition.value.parts, depth + 1, stack + [name], expansions + 1);
      Outcome(Named(definition, inner.result), inner.count)
  }

  /** The expansion of a definition entered by name: its parts, one level deeper. */
  ghost function DefinitionExpansion(
    scope: Scope, definition: Definition, name: string, depth: nat, stack: seq<string>, expansions: nat): Outcome
    requires IsDefined(scope.names, name) && name !in stack
  {
    var inner := PartsExpansion(scope, definition.value.parts, depth + 1, stack + [name], expansions + 1);
    Outcome(Named(definition, inner.result), inner.count)
  }

  /** The expansion of a definition's parts, as the expansion of its name. */
  function Named(definition: Definition, inner: Expansion): Expansion {
    inner.(provenance := [FromDefinition(definition.name, definition.index)] + inner.provenance,
           usedIdentifier := true)
  }

  /** Counters of one evaluator: expansions made, and characters of resolved values. */
  datatype Usage = Usage(expansions: nat, characters: nat)

  ghost function ValueExpansion(scope: Scope, value: Value, usage: Usage): (Value, Usage) {
    if value.status == Malformed then (value, usage)
    else
      var Outcome(result, count) := PartsExpansion(scope, value.parts, 0, [], usage.expansions);
      var tooLong := result.status.IsResolved()
                     && SaturatingAdd(usage.characters, |result.text|) > scope.limits.maxCharacters;
      var status := if tooLong then OutputLimit
                    else if result.status.IsResolved() && result.usedIdentifier then Expanded
                    else result.status;
      var resolved := if status.IsResolved() then Some(result.text) else None;
      (Value(value.parts, resolved, status, result.provenance),
       Usage(count, usage.characters + if status.IsResolved() then |result.text| else 0))
  }

  ghost function ValuesExpansion(scope: Scope, values: seq<Value>, usage: Usage): (seq<Value>, Usage) {
    if values == [] then ([], usage)
    else
      var (front, between) := ValuesExpansion(scope, values[..|values| - 1], usage);
      var (last, after) := ValueExpansion(scope, values[|values| - 1], between);
      (front + [last], after)
  }

  lemma {:induction false} ValuesExpansionLength(scope: Scope, values: seq<Value>, usage: Usage)
    ensures |ValuesExpansion(scope, values, usage).0| == |values|
  {
    if values != [] {
      ValuesExpansionLength(scope, values[..|values| - 1], usage);
    }
  }

  lemma {:induction false} ValuesExpansionStep(scope: Scope, values: seq<Value>, i: nat, usage: Usage)
    requires i < |values|
    ensures var (front, between) := ValuesExpansion(scope, values[..i], usage);
            var (last, after) := ValueExpansion(scope, values[i], between);
            ValuesExpansion(scope, values[..i + 1], usage) == (front + [last], after)
  {
    assert values[..i + 1][..i] == values[..i];
  }

  /** The last part adds its own result to an unfailed expansion of the parts before it. */
  lemma {:induction false} PartsExpansionStep(
    scope: Scope, parts: seq<Part>, depth: nat, stack: seq<string>, expansions: nat)
    requires parts != []
    ensures PartsExpansion(scope, parts, depth, stack, expansions) ==
            var front := PartsExpansion(scope, parts[..|parts| - 1], depth, stack, expansions);
            if front.result.status != Literal then front
            else
              var last := PartExpansion(scope, parts[|parts| - 1], depth, stack, front.count);
              Outcome(Append(scope.limits.maxCharacters, front.result, parts[|parts| - 1], last.result), last.count)
  {
  }

  /** Once some part has failed, the parts after it change nothing. */
  lemma {:induction false} FailureStands(
    scope: Scope, parts: seq<Part>, i: nat, depth: nat, stack: seq<string>, expansions: nat)
    requires i <= |parts|
    requires PartsExpansion(scope, parts[..i], depth, stack, expansions).result.status != Literal
    ensures PartsExpansion(scope, parts, depth, stack, expansions) ==
            PartsExpansion(scope, parts[..i], depth, stack, expansions)
    decreases |parts|
  {
    if i < |parts| {
      assert parts[..|parts| - 1][..i] == parts[..i];
      FailureStands(scope, parts[..|parts| - 1], i, depth, stack, expansions);
    } else {
      assert parts[..i] == parts;
    }
  }

  // ---------------------------------------------------------------------------
  // What is reported

  /** Where a value stands in a document. */
  datatype Place = InDefinition | InPreamble | InField

  datatype PassDiagnostic =
    | DuplicateDefinition(name: string, second: nat)
    | ExpansionFailed(place: Place, index: nat, status: Status)

  function FailureReport(place: Place, index: nat, expanded: Value): seq<PassDiagnostic> {
    if expanded.status.IsResolved() || expanded.status == Malformed then []
    else [ExpansionFailed(place, index, expanded.status)]
  }

  /** One report for every value that is neither resolved nor malformed, in order. */
  function FailureReports(place: Place, values: seq<Value>): seq<PassDiagnostic> {
    if values == [] then []
    else
      var last := |values| - 1;
      FailureReports(place, values[..last]) + FailureReport(place, last, values[last])
  }

  predicate Ambiguous(definitions: seq<Definition>, name: string) {
    |Positions(definitions, name)| > 1
  }

  lemma {:induction false} FailureReportsStep(place: Place, values: seq<Value>, next: Value)
    ensures FailureReports(place, values + [next]) ==
            FailureReports(place, values) + FailureReport(place, |values|, next)
  {
    assert (values + [next])[..|values|] == values;
  }

  /** Neither resolved nor malformed. */
  predicate IsFailure(value: Value) {
    value.status != Literal && value.status != Expanded && value.status != Malformed
  }

  /** The failures among some values, in order, each with its place and status. */
  ghost predicate ReportsFailures(place: Place, values: seq<Value>, reports: seq<PassDiagnostic>, places: seq<nat>) {
    && |places| == |reports| && Rising(places)
    && (forall k :: 0 <= k < |places| ==>
          places[k] < |values| && reports[k] == ExpansionFailed(place, places[k], values[places[k]].status))
    && forall i :: 0 <= i < |values| ==> (i in places <==> IsFailure(values[i]))
  }

  lemma {:induction false} OneMoreFailure(
    place: Place, values: seq<Value>, last: nat, reports: seq<PassDiagnostic>, places: seq<nat>)
    requires last == |values| - 1 && ReportsFailures(place, values[..last], reports, places)
    ensures if IsFailure(values[last])
            then ReportsFailures(place, values, reports + [ExpansionFailed(place, last, values[last].status)], places + [last])
            else ReportsFailures(place, values, reports, places)
  {
    assert forall i :: 0 <= i < last ==> values[..last][i] == values[i];
    assert (places + [last])[|places|] == last;
    assert last !in places;
  }

  /** Exactly the values that are neither resolved nor malformed are reported. */
  lemma {:induction false} FailuresAreReported(place: Place, values: seq<Value>) returns (places: seq<nat>)
    ensures ReportsFailures(place, values, FailureReports(place, values), places)
  {
    places := [];
    if values != [] {
      var last := |values| - 1;
      var reports := FailureReports(place, values[..last]);
      places := FailuresAreReported(place, values[..last]);
      OneMoreFailure(place, values, last, reports, places);
      if IsFailure(values[last]) {
        places := places + [last];
      } else {
        assert reports + [] == reports;
      }
    }
  }

  /** Exactly the names with several definitions, in order, each at its second one. */
  ghost predicate ReportsDuplicates(definitions: seq<Definition>, reports: seq<PassDiagnostic>) {
    && (forall i :: 0 <= i < |reports| ==>
          && reports[i].DuplicateDefinition? && Ambiguous(definitions, reports[i].name)
          && reports[i].second == Positions(definitions, reports[i].name)[1])
    && (forall i, j :: 0 <= i < j < |reports| ==> LexLess(reports[i].name, reports[j].name))
    && (forall name :: Ambiguous(definitions, name) ==>
          exists i :: 0 <= i < |reports| && reports[i].name == name)
  }

  // ---------------------------------------------------------------------------
  // The evaluator, as it runs

  type NameIndex = map<string, seq<nat>>

  ghost predicate Indexes(index: NameIndex, definitions: seq<Definition>) {
    forall name {:trigger name in index} {:trigger Positions(definitions, name)} ::
      && Positions(definitions, name) == (if name in index then index[name] else [])
      && (name in index ==> index[name] != [])
  }

  method IndexNames(definitions: seq<Definition>) returns (index: NameIndex)
    requires forall i :: 0 <= i < |definitions| ==> definitions[i].index == i
    ensures Indexes(index, definitions)
  {
    index := map[];
    for n := 0 to |definitions|
      invariant Indexes(index, definitions[..n])
    {
      var name := Lower(definitions[n].name);
      assert definitions[..n + 1][..n] == definitions[..n];
      var before := if name in index then index[name] else [];
      index := index[name := before + [definitions[n].index]];
    }
    assert definitions[..|definitions|] == definitions;
  }

  ghost predicate DefinedBefore(definitions: seq<Definition>, n: nat, name: string)
    requires n <= |definitions|
  {
    exists k :: 0 <= k < n && Lower(definitions[k].name) == name
  }

  lemma {:induction false} DefinedBeforeStep(definitions: seq<Definition>, n: nat, name: string)
    requires n < |definitions|
    ensures DefinedBefore(definitions, n + 1, name) <==>
            DefinedBefore(definitions, n, name) || name == Lower(definitions[n].name)
  {
  }

  /** The ambiguous names among the first definitions, sorted. */
  ghost predicate Collected(definitions: seq<Definition>, names: seq<string>, n: nat)
    requires n <= |definitions|
  {
    Increasing(names) && forall x :: x in names <==> Ambiguous(definitions, x) && DefinedBefore(definitions, n, x)
  }

  lemma {:induction false} CollectedStep(definitions: seq<Definition>, names: seq<string>, n: nat)
    requires n < |definitions| && Collected(definitions, names, n)
    ensures var name := Lower(definitions[n].name);
            Collected(definitions, if Ambiguous(definitions, name) then InsertName(names, name) else names, n + 1)
  {
    var name := Lower(definitions[n].name);
    InsertIncreasing(names, name);
    var after := if Ambiguous(definitions, name) then InsertName(names, name) else names;
    forall x ensures x in after <==> Ambiguous(definitions, x) && DefinedBefore(definitions, n + 1, x) {
      InsertMember(names, name, x);
      DefinedBeforeStep(definitions, n, x);
    }
  }

  lemma {:induction false} CollectedAll(definitions: seq<Definition>, names: seq<string>)
    requires Collected(definitions, names, |definitions|)
    ensures Increasing(names) && forall name :: name in names <==> Ambiguous(definitions, name)
  {
    forall x | Ambiguous(definitions, x) ensures DefinedBefore(definitions, |definitions|, x) {
      assert Lower(definitions[Positions(definitions, x)[0]].name) == x;
    }
  }

  /** The names with several definitions, sorted. */
  method DuplicateNames(definitions: seq<Definition>, index: NameIndex) returns (names: seq<string>)
    requires Indexes(index, definitions)
    ensures Increasing(names) && forall name :: name in names <==> Ambiguous(definitions, name)
  {
    names := [];
    for n := 0 to |definitions|
      invariant Collected(definitions, names, n)
    {
      var name := Lower(definitions[n].name);
      CollectedStep(definitions, names, n);
      assert |Positions(definitions, name)| == if name in index then |index[name]| else 0;
      if name in index && |index[name]| > 1 {
        names := InsertName(names, name);
      }
    }
    CollectedAll(definitions, names);
  }

  /** The report of a duplicate name. */
  ghost predicate ReportsName(definitions: seq<Definition>, report: PassDiagnostic, name: string) {
    && report.DuplicateDefinition? && report.name == name && Ambiguous(definitions, name)
    && report.second == Positions(definitions, name)[1]
  }

  lemma {:induction false} ReportsAll(definitions: seq<Definition>, names: seq<string>, reports: seq<PassDiagnostic>)
    requires Increasing(names) && forall name :: name in names <==> Ambiguous(definitions, name)
    requires |reports| == |names| && forall k :: 0 <= k < |names| ==> ReportsName(definitions, reports[k], names[k])
    ensures ReportsDuplicates(definitions, reports)
  {
    forall i | 0 <= i < |reports|
      ensures && reports[i].DuplicateDefinition? && reports[i].name == names[i] && Ambiguous(definitions, names[i])
              && reports[i].second == Positions(definitions, names[i])[1]
    {
      assert ReportsName(definitions, reports[i], names[i]);
    }
    forall name | Ambiguous(definitions, name) ensures exists i :: 0 <= i < |reports| && reports[i].name == name {
      var i :| 0 <= i < |names| && names[i] == name;
      assert reports[i].name == name;
    }
  }

  /** One report for each name, at the second position the index has for it. */
  method ReportNames(index: NameIndex, names: seq<string>) returns (reports: seq<PassDiagnostic>)
    requires forall i :: 0 <= i < |names| ==> names[i] in index && |index[names[i]]| > 1
    ensures |reports| == |names|
    ensures forall i :: 0 <= i < |names| ==> reports[i] == DuplicateDefinition(names[i], index[names[i]][1])
  {
    reports := [];
    for i := 0 to |names|
      invariant |reports| == i
      invariant forall k :: 0 <= k < i ==> reports[k] == DuplicateDefinition(names[k], index[names[k]][1])
    {
      reports := reports + [DuplicateDefinition(names[i], index[names[i]][1])];
    }
  }

  lemma {:induction false} AmbiguousIndexed(definitions: seq<Definition>, index: NameIndex, name: string)
    requires Indexes(index, definitions) && Ambiguous(definitions, name)
    ensures name in index && |index[name]| > 1 && Positions(definitions, name) == index[name]
  {
  }

  method ReportDuplicates(definitions: seq<Definition>, index: NameIndex) returns (reports: seq<PassDiagnostic>)
    requires Indexes(index, definitions)
    ensures ReportsDuplicates(definitions, reports)
  {
    var names := DuplicateNames(definitions, index);
    forall i | 0 <= i < |names|
      ensures && names[i] in index && |index[names[i]]| > 1 && Ambiguous(definitions, names[i])
              && Positions(definitions, names[i]) == index[names[i]]
    {
      assert names[i] in names;
      AmbiguousIndexed(definitions, index, names[i]);
    }
    reports := ReportNames(index, names);
    ReportsAll(definitions, names, reports);
  }

  /** The first values are replaced, and the rest are as before. */
  ghost predicate Replaced(before: seq<Value>, done: seq<Value>, now: seq<Value>, i: nat) {
    |done| == i <= |before| && now == done + before[i..]
  }

  lemma {:induction false} ReplacedStep(before: seq<Value>, done: seq<Value>, now: seq<Value>, i: nat, next: Value)
    requires Replaced(before, done, now, i) && i < |before|
    ensures now[i] == before[i] && Replaced(before, done + [next], now[i := next], i + 1)
  {
  }

  class StringEvaluator {
    const scope: Scope
    const index: NameIndex
    var expansions: nat
    var expandedCharacters: nat
    var stack: seq<string>

    ghost predicate Valid()
      reads this
    {
      Indexes(index, scope.names.definitions)
    }

    ghost function Counters(): Usage
      reads this
    {
      Usage(expansions, expandedCharacters)
    }

    constructor (names: Names, index: NameIndex, limits: Limits)
      requires Indexes(index, names.definitions)
      ensures Valid() && scope == Scope(names, limits) && stack == [] && Counters() == Usage(0, 0)
    {
      this.scope := Scope(names, limits);
      this.index := index;
      expansions, expandedCharacters, stack := 0, 0, [];
    }

    method ExpandValue(value: Value) returns (expanded: Value)
      requires Valid() && stack == []
      modifies this
      ensures Valid() && stack == []
      ensures (expanded, Counters()) == ValueExpansion(scope, value, old(Counters()))
    {
      if value.status == Malformed {
        return value;
      }
      var result := ExpandParts(value.parts, 0);
      var status, text := result.status, result.text;
      if status.IsResolved() {
        if SaturatingAdd(expandedCharacters, |text|) > scope.limits.maxCharacters {
          status, text := OutputLimit, "";
        } else {
          expandedCharacters := expandedCharacters + |text|;
        }
      }
      if status.IsResolved() && result.usedIdentifier {
        status := Expanded;
      }
      expanded := Value(value.parts, if status.IsResolved() then Some(text) else None, status, result.provenance);
    }

    method ExpandParts(parts: seq<Part>, depth: nat) returns (result: Expansion)
      requires Valid()
      modifies this
      ensures Valid() && stack == old(stack) && expandedCharacters == old(expandedCharacters)
      ensures Outcome(result, expansions) == PartsExpansion(scope, parts, depth, stack, old(expansions))
      decreases NamesLeft(scope.names, stack), 3
    {
      var output: string := "";
      var provenance: seq<Provenance> := [];
      var used := false;
      for i := 0 to |parts|
        invariant Valid() && stack == old(stack) && expandedCharacters == old(expandedCharacters)
        invariant Outcome(Expansion(output, Literal, provenance, used), expansions)
                  == PartsExpansion(scope, parts[..i], depth, stack, old(expansions))
      {
        assert parts[..i + 1][..i] == parts[..i];
        var part := parts[i];
        var piece := ExpandPart(part, depth);
        provenance := provenance + piece.provenance;
        used := used || part.kind == StringIdentifier || piece.usedIdentifier;
        if !piece.status.IsResolved() {
          result := Expansion("", piece.status, provenance, used);
          FailureStands(scope, parts, i + 1, depth, stack, old(expansions));
          return;
        }
        output := output + piece.text;
        if |output| > scope.limits.maxCharacters {
          result := Expansion("", OutputLimit, provenance, used);
          FailureStands(scope, parts, i + 1, depth, stack, old(expansions));
          return;
        }
      }
      assert parts[..|parts|] == parts;
      result := Expansion(output, Literal, provenance, used);
    }

    method ExpandPart(part: Part, depth: nat) returns (result: Expansion)
      requires Valid()
      modifies this
      ensures Valid() && stack == old(stack) && expandedCharacters == old(expandedCharacters)
      ensures Outcome(result, expansions) == PartExpansion(scope, part, depth, stack, old(expansions))
      decreases NamesLeft(scope.names, stack), 2
    {
      match part.kind
      case StringIdentifier => result := ExpandIdentifier(part.text, depth);
      case Broken => result := Expansion("", Malformed, [], false);
      case _ => result := Expansion(part.text, Literal, [FromLiteral(part)], false);
    }

    method ExpandIdentifier(identifier: string, depth: nat) returns (result: Expansion)
      requires Valid()
      modifies this
      ensures Valid() && stack == old(stack) && expandedCharacters == old(expandedCharacters)
      ensures Outcome(result, expansions) == IdentifierExpansion(scope, identifier, depth, stack, old(expansions))
      decreases NamesLeft(scope.names, stack), 1
    {
      var name := Lower(identifier);
      var builtIn := BuiltIn(scope.names, name);
      if builtIn.Some? {
        return Expansion(builtIn.value, Expanded, [FromBuiltIn(identifier)], true);
      }
      assert name in index || Lookup(scope.names, name) == [];
      if name !in index {
        return Failed(UnresolvedIdentifier);
      }
      if |index[name]| != 1 {
        return Failed(AmbiguousIdentifier);
      }
      if name in stack {
        return Failed(Cycle);
      }
      if depth >= scope.limits.maxDepth {
        return Failed(DepthExceeded);
      }
      if expansions >= scope.limits.maxExpansions {
        return Failed(ExpansionLimit);
      }
      result := ExpandDefinition(name, scope.names.definitions[index[name][0]], depth);
    }

    /** Enters a definition: counts it, and expands its parts with its name on the stack. */
    method ExpandDefinition(name: string, definition: Definition, depth: nat) returns (result: Expansion)
      requires Valid() && IsDefined(scope.names, name) && name !in stack
      modifies this
      ensures Valid() && stack == old(stack) && expandedCharacters == old(expandedCharacters)
      ensures Outcome(result, expansions) ==
              DefinitionExpansion(scope, definition, name, depth, old(stack), old(expansions))
      decreases NamesLeft(scope.names, stack), 0
    {
      NamesLeftShrinks(scope.names, stack, name);
      ghost var expected := DefinitionExpansion(scope, definition, name, depth, stack, expansions);
      ghost var before := stack;
      expansions, stack := expansions + 1, stack + [name];
      var inner := ExpandParts(definition.value.parts, depth + 1);
      result := Named(definition, inner);
      assert Outcome(result, expansions) == expected;
      stack := stack[..|stack| - 1];
      assert stack == before;
    }

    method ExpandAt(values: array<Value>, i: nat) returns (expanded: Value)
      requires Valid() && stack == [] && i < values.Length
      modifies this, values
      ensures Valid() && stack == []
      ensures values[..] == old(values[..])[i := expanded]
      ensures (expanded, Counters()) == ValueExpansion(scope, old(values[i]), old(Counters()))
    {
      expanded := ExpandValue(values[i]);
      values[i] := expanded;
    }

    /** Expands an array of values in place, in order, against the same counters, and reports what failed. */
    method ExpandEach(values: array<Value>, place: Place) returns (reports: seq<PassDiagnostic>)
      requires Valid() && stack == []
      modifies this, values
      ensures Valid() && stack == []
      ensures (values[..], Counters()) == ValuesExpansion(scope, old(values[..]), old(Counters()))
      ensures reports == FailureReports(place, values[..])
    {
      reports := [];
      ghost var before, done := values[..], [];
      for i := 0 to values.Length
        invariant Valid() && stack == []
        invariant Replaced(before, done, values[..], i)
        invariant (done, Counters()) == ValuesExpansion(scope, before[..i], old(Counters()))
        invariant reports == FailureReports(place, done)
      {
        ghost var now := values[..];
        var expanded := ExpandAt(values, i);
        ReplacedStep(before, done, now, i, expanded);
        ValuesExpansionStep(scope, before, i, old(Counters()));
        FailureReportsStep(place, done, expanded);
        reports, done := reports + FailureReport(place, i, expanded), done + [expanded];
      }
      assert before[..values.Length] == before && values[..] == done;
    }
  }
}

/** The pass over a whole document, with the month names every document may use. */
module StringPass {
  import opened StringExpansion

  /** The predefined month names, which no definition can change. */
  const MONTHS: map<string, string> := map[
    "jan" := "January", "feb" := "February", "mar" := "March", "apr" := "April",
    "may" := "May", "jun" := "June", "jul" := "July", "aug" := "August",
    "sep" := "September", "oct" := "October", "nov" := "November", "dec" := "December"]

  /** The whole pass: definitions first, then preambles, then entry fields; what is reported in that order. */
  method ExpandAllValues(definitions: seq<Definition>, limits: Limits,
                         definitionValues: array<Value>, preambles: array<Value>, fieldValues: array<Value>)
    returns (evaluator: StringEvaluator, diagnostics: seq<PassDiagnostic>)
    requires forall i :: 0 <= i < |definitions| ==> definitions[i].index == i
    requires definitionValues != preambles && preambles != fieldValues && definitionValues != fieldValues
    modifies definitionValues, preambles, fieldValues
    ensures fresh(evaluator) && evaluator.scope == Scope(Names(definitions, MONTHS), limits)
    ensures var scope := Scope(Names(definitions, MONTHS), limits);
            var (definitions', first) := ValuesExpansion(scope, old(definitionValues[..]), Usage(0, 0));
            var (preambles', second) := ValuesExpansion(scope, old(preambles[..]), first);
            var (fields', third) := ValuesExpansion(scope, old(fieldValues[..]), second);
            && definitionValues[..] == definitions' && preambles[..] == preambles'
            && fieldValues[..] == fields' && evaluator.Counters() == third
    ensures exists duplicates ::
              && ReportsDuplicates(definitions, duplicates)
              && diagnostics == duplicates + (FailureReports(InDefinition, definitionValues[..])
                                              + FailureReports(InPreamble, preambles[..])
                                              + FailureReports(InField, fieldValues[..]))
  {
    var index := IndexNames(definitions);
    var duplicates := ReportDuplicates(definitions, index);
    evaluator := new StringEvaluator(Names(definitions, MONTHS), index, limits);
    var inDefinitions := evaluator.ExpandEach(definitionValues, InDefinition);
    var inPreambles := evaluator.ExpandEach(preambles, InPreamble);
    var inFields := evaluator.ExpandEach(fieldValues, InField);
    diagnostics := duplicates + (inDefinitions + inPreambles + inFields);
  }
}
