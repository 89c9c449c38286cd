/**
 Inheritance of bibliography fields over `crossref` and `xdata` links: the
 depth-limited, cycle-detecting search and what its records mean.
 */
module Crossref {
  import opened Wrappers
  import opened Text

  datatype Status = Resolved | Unresolved | Ambiguous | Cycle | DepthExceeded | ValueUnresolved

  /** A field value after string expansion; `resolved` is None when that failed. */
  datatype FieldValue = FieldValue(raw: string, resolved: Option<string>)

  datatype Field = Field(name: string, value: FieldValue)

  datatype ResolvedField = ResolvedField(
    name: string,
    sourceEntryIndex: nat,
    sourceEntryKey: string,
    inherited: bool,
    value: FieldValue)

  type Fields = map<string, ResolvedField>

  datatype Entry = Entry(index: nat, key: string, fields: seq<Field>, effectiveFields: Fields)

  datatype Resolution = Resolution(
    sourceEntryIndex: nat,
    sourceKey: string,
    field: string,
    targetKey: string,
    status: Status,
    targetEntryIndices: seq<nat>,
    inheritedFields: set<string>)

  /** The parser numbers entries by position. */
  ghost predicate WellIndexed(entries: seq<Entry>) {
    forall i :: 0 <= i < |entries| ==> entries[i].index == i
  }

  // ---------------------------------------------------------------------------
  // Links of one entry

  /** One reference to follow, or a link field whose value did not expand. */
  datatype Link = Link(field: Field, target: Option<string>)

  predicate IsLinkName(name: string) {
    name == "crossref" || name == "xdata"
  }

  function NonEmptyTrimmed(pieces: seq<string>): seq<string> {
    if pieces == [] then []
    else
      var piece := Trim(pieces[0]);
      (if piece == [] then [] else [piece]) + NonEmptyTrimmed(pieces[1..])
  }

  function TargetKeys(name: string, resolved: string): seq<string> {
    if name == "xdata" then NonEmptyTrimmed(Split(resolved, ',')) else [Trim(resolved)]
  }

  function FieldLinks(field: Field): seq<Link> {
    match field.value.resolved
    case None => [Link(field, None)]
    case Some(resolved) =>
      var keys := TargetKeys(field.name, resolved);
      seq(|keys|, i requires 0 <= i < |keys| => Link(field, Some(keys[i])))
  }

  /** All links of a list of fields, in the order the search meets them. */
  function Links(fields: seq<Field>): seq<Link> {
    if fields == [] then []
    else
      var last := fields[|fields| - 1];
      Links(fields[..|fields| - 1]) + if IsLinkName(last.name) then FieldLinks(last) else []
  }

  /** The entries that carry `key`, in order. */
  function Candidates(entries: seq<Entry>, key: string): (found: seq<nat>)
    ensures forall i :: 0 <= i < |found| ==> found[i] < |entries| && entries[found[i]].key == key
  {
    if entries == [] then []
    else
      var last := |entries| - 1;
      Candidates(entries[..last], key) + if entries[last].key == key then [last] else []
  }

  // ---------------------------------------------------------------------------
  // The search, as a function of what it is given

  /** Fields gathered so far, the first failure, and one record per link followed. */
  datatype Effect = Effect(fields: Fields, failure: Option<Status>, records: seq<Resolution>)

  function AddDirect(fields: Fields, entry: Entry, field: Field): Fields {
    fields[field.name := ResolvedField(field.name, entry.index, entry.key, false, field.value)]
  }

  function DirectFrom(entry: Entry, fields: seq<Field>): Fields {
    if fields == [] then map[]
    else AddDirect(DirectFrom(entry, fields[..|fields| - 1]), entry, fields[|fields| - 1])
  }

  function Direct(entry: Entry): Fields {
    DirectFrom(entry, entry.fields)
  }

  /** The names a target contributes to an entry that already has `fields`. */
  function NewNames(fields: Fields, parent: Fields): set<string> {
    set name | name in parent && !IsLinkName(name) && name !in fields
  }

  function Inherit(fields: Fields, parent: Fields): Fields {
    fields + map name | name in NewNames(fields, parent) :: parent[name].(inherited := true)
  }

  predicate IsEntry(entries: seq<Entry>, i: int) {
    0 <= i < |entries|
  }

  ghost function Remaining(entries: seq<Entry>, visiting: set<nat>): set<nat> {
    set i: nat | 0 <= i < |entries| && IsEntry(entries, i) && i !in visiting
  }

  /** How one link ends, and what its target publishes when it resolves. */
  datatype Outcome = Outcome(status: Status, candidates: seq<nat>, parent: Fields)

  ghost function Follow(
    entries: seq<Entry>, maxDepth: nat, depth: nat, visiting: set<nat>, link: Link): Outcome
    decreases Remaining(entries, visiting), 1
  {
    if link.target.None? then Outcome(ValueUnresolved, [], map[])
    else
      var candidates := Candidates(entries, link.target.value);
      if |candidates| == 0 then Outcome(Unresolved, candidates, map[])
      else if |candidates| > 1 then Outcome(Ambiguous, candidates, map[])
      else if candidates[0] in visiting then Outcome(Cycle, candidates, map[])
      else if depth >= maxDepth then Outcome(DepthExceeded, candidates, map[])
      else
        var parent := Effective(entries, maxDepth, candidates[0], depth + 1, visiting);
        if parent.failure.Some? then Outcome(parent.failure.value, candidates, map[])
        else Outcome(Resolved, candidates, parent.fields)
  }

  function LinkKey(link: Link): string {
    if link.target.None? then link.field.value.raw else link.target.value
  }

  ghost function Step(entry: Entry, effect: Effect, link: Link, outcome: Outcome): Effect {
    var names := if outcome.status == Resolved then NewNames(effect.fields, outcome.parent) else {};
    Effect(
      if outcome.status == Resolved then Inherit(effect.fields, outcome.parent) else effect.fields,
      if effect.failure.None? && outcome.status != Resolved then Some(outcome.status) else effect.failure,
      effect.records + [Resolution(entry.index, entry.key, link.field.name, LinkKey(link),
                                   outcome.status, outcome.candidates, names)])
  }

  ghost function Fold(
    entries: seq<Entry>, maxDepth: nat, x: nat, depth: nat, visiting: set<nat>, links: seq<Link>): Effect
    requires x < |entries|
    decreases Remaining(entries, visiting), 2, |links|
  {
    if links == [] then Effect(Direct(entries[x]), None, [])
    else
      var link := links[|links| - 1];
      Step(entries[x],
           Fold(entries, maxDepth, x, depth, visiting, links[..|links| - 1]),
           link,
           Follow(entries, maxDepth, depth, visiting, link))
  }

  ghost function Effective(
    entries: seq<Entry>, maxDepth: nat, x: nat, depth: nat, visiting: set<nat>): Effect
    requires x < |entries|
    decreases Remaining(entries, visiting), 0
  {
    if x in visiting then Effect(Direct(entries[x]), Some(Cycle), [])
    else
      RemainingShrinks(entries, x, visiting);
      Fold(entries, maxDepth, x, depth, visiting + {x}, Links(entries[x].fields))
  }

  lemma {:induction false} RemainingShrinks(entries: seq<Entry>, x: nat, visiting: set<nat>)
    requires x < |entries| && x !in visiting
    ensures Remaining(entries, visiting + {x}) < Remaining(entries, visiting)
  {
    assert x in Remaining(entries, visiting) && x !in Remaining(entries, visiting + {x});
  }

  /** The records of a whole pass over the first `n` entries. */
  ghost function AllRecords(entries: seq<Entry>, maxDepth: nat, n: nat): seq<Resolution>
    requires n <= |entries|
  {
    if n == 0 then []
    else AllRecords(entries, maxDepth, n - 1) + Effective(entries, maxDepth, n - 1, 0, {}).records
  }

  ghost function WithEffective(entries: seq<Entry>, maxDepth: nat, i: nat): Entry
    requires i < |entries|
  {
    entries[i].(effectiveFields := Effective(entries, maxDepth, i, 0, {}).fields)
  }

  // ---------------------------------------------------------------------------
  // The search, as it runs

  datatype Diagnostic = Diagnostic(field: string, targetKey: string, sourceKey: string, status: Status)

  function Reports(records: seq<Resolution>): seq<Diagnostic> {
    if records == [] then []
    else
      var last := records[|records| - 1];
      Reports(records[..|records| - 1]) +
      if last.status == Resolved then []
      else [Diagnostic(last.field, last.targetKey, last.sourceKey, last.status)]
  }

  lemma {:induction false} ReportsAppend(a: seq<Resolution>, b: seq<Resolution>)
    ensures Reports(a + b) == Reports(a) + Reports(b)
  {
    if b == [] {
      assert a + b == a;
    } else {
      assert (a + b)[..|a + b| - 1] == a + b[..|b| - 1];
      ReportsAppend(a, b[..|b| - 1]);
    }
  }

  /** What a recording search has logged, given the logs it started from. */
  datatype Log = Log(resolutions: seq<Resolution>, diagnostics: seq<Diagnostic>)

  ghost function Logged(record: bool, start: Log, effect: Effect): Log {
    if record then Log(start.resolutions + effect.records, start.diagnostics + Reports(effect.records))
    else start
  }

  lemma {:induction false} LoggedStep(start: Log, entry: Entry, now: Effect, link: Link, outcome: Outcome)
    ensures var next := Step(entry, now, link, outcome);
            var added := [next.records[|now.records|]];
            var before := Logged(true, start, now);
            && next.records == now.records + added
            && Logged(true, start, next) == Log(before.resolutions + added, before.diagnostics + Reports(added))
  {
    var next := Step(entry, now, link, outcome);
    var added := [next.records[|now.records|]];
    ReportsAppend(now.records, added);
    assert start.resolutions + (now.records + added) == start.resolutions + now.records + added;
    assert start.diagnostics + (Reports(now.records) + Reports(added))
           == start.diagnostics + Reports(now.records) + Reports(added);
  }

  lemma {:induction false} FoldExtend(entries: seq<Entry>, maxDepth: nat, x: nat, depth: nat, visiting: set<nat>,
                   links: seq<Link>, link: Link)
    requires x < |entries|
    ensures Fold(entries, maxDepth, x, depth, visiting, links + [link]) ==
            Step(entries[x], Fold(entries, maxDepth, x, depth, visiting, links), link,
                 Follow(entries, maxDepth, depth, visiting, link))
  {
    assert (links + [link])[..|links + [link]| - 1] == links;
  }

  lemma {:induction false} TakeNext<T>(front: seq<T>, items: seq<T>, j: nat)
    requires j < |items|
    ensures front + items[..j] + [items[j]] == front + items[..j + 1]
  {
  }

  lemma {:induction false} LinksExtend(fields: seq<Field>, i: nat)
    requires i < |fields|
    ensures var link := IsLinkName(fields[i].name);
            Links(fields[..i + 1]) == Links(fields[..i]) + (if link then FieldLinks(fields[i]) else [])
    ensures !IsLinkName(fields[i].name) ==> Links(fields[..i + 1]) == Links(fields[..i])
  {
    assert fields[..i + 1][..i] == fields[..i];
  }

  type KeyIndex = map<string, seq<nat>>

  ghost predicate Indexes(keyIndex: KeyIndex, entries: seq<Entry>) {
    forall key {:trigger key in keyIndex} {:trigger Candidates(entries, key)} ::
      Candidates(entries, key) == if key in keyIndex then keyIndex[key] else []
  }

  method BuildKeyIndex(entries: seq<Entry>) returns (keyIndex: KeyIndex)
    requires WellIndexed(entries)
    ensures Indexes(keyIndex, entries)
  {
    keyIndex := map[];
    for n := 0 to |entries|
      invariant Indexes(keyIndex, entries[..n])
    {
      var key := entries[n].key;
      assert entries[..n + 1][..n] == entries[..n];
      var before := if key in keyIndex then keyIndex[key] else [];
      keyIndex := keyIndex[key := before + [entries[n].index]];
    }
    assert entries[..|entries|] == entries;
  }

  method DirectFields(entry: Entry) returns (fields: Fields)
    ensures fields == Direct(entry)
  {
    fields := map[];
    for n := 0 to |entry.fields|
      invariant fields == DirectFrom(entry, entry.fields[..n])
    {
      assert entry.fields[..n + 1][..n] == entry.fields[..n];
      var field := entry.fields[n];
      fields := fields[field.name := ResolvedField(field.name, entry.index, entry.key, false, field.value)];
    }
    assert entry.fields[..|entry.fields|] == entry.fields;
  }

  class CrossrefPass {
    var visiting: set<nat>
    var resolutions: seq<Resolution>
    var diagnostics: seq<Diagnostic>

    ghost function Logs(): Log
      reads this
    {
      Log(resolutions, diagnostics)
    }

    constructor ()
      ensures visiting == {} && resolutions == [] && diagnostics == []
    {
      visiting, resolutions, diagnostics := {}, [], [];
    }

    /** Records one followed link, and reports it unless it resolved. */
    method PushCrossref(entry: Entry, field: Field, targetKey: string, status: Status,
                        targets: seq<nat>, inheritedFields: set<string>)
      modifies this`resolutions, this`diagnostics
      ensures var record := Resolution(entry.index, entry.key, field.name, targetKey, status, targets, inheritedFields);
              resolutions == old(resolutions) + [record]
              && diagnostics == old(diagnostics) + Reports([record])
    {
      resolutions := resolutions +
        [Resolution(entry.index, entry.key, field.name, targetKey, status, targets, inheritedFields)];
      if status != Resolved {
        diagnostics := diagnostics + [Diagnostic(field.name, targetKey, entry.key, status)];
      }
    }

    /** Adds the names of a failure-free target that the entry does not have yet. */
    static method InheritFrom(fields: Fields, parent: Fields) returns (merged: Fields, names: set<string>)
      ensures merged == Inherit(fields, parent) && names == NewNames(fields, parent)
    {
      merged, names := fields, {};
      var rest := parent.Keys;
      while rest != {}
        invariant rest <= parent.Keys
        invariant names == NewNames(fields, parent) - rest
        invariant merged.Keys == fields.Keys + names
        invariant forall name :: name in fields ==> merged[name] == fields[name]
        invariant forall name :: name in names ==> merged[name] == parent[name].(inherited := true)
        decreases rest
      {
        var name :| name in rest;
        rest := rest - {name};
        if !IsLinkName(name) && name !in merged {
          names := names + {name};
          merged := merged[name := parent[name].(inherited := true)];
        }
      }
      assert names == NewNames(fields, parent);
    }

    /** Follows one reference; only a failure-free target changes the fields. */
    method FollowTarget(link: Link, entries: seq<Entry>, keyIndex: KeyIndex,
                        maxDepth: nat, depth: nat, fields: Fields)
      returns (status: Status, candidates: seq<nat>, merged: Fields, names: set<string>)
      requires Indexes(keyIndex, entries) && link.target.Some?
      modifies this
      ensures visiting == old(visiting) && Logs() == old(Logs())
      ensures var outcome := Follow(entries, maxDepth, depth, old(visiting), link);
              && status == outcome.status
              && candidates == outcome.candidates
              && merged == (if status == Resolved then Inherit(fields, outcome.parent) else fields)
              && names == (if status == Resolved then NewNames(fields, outcome.parent) else {})
      decreases Remaining(entries, visiting), 1
    {
      var targetKey := link.target.value;
      merged, names := fields, {};
      assert targetKey in keyIndex || Candidates(entries, targetKey) == [];
      candidates := if targetKey in keyIndex then keyIndex[targetKey] else [];
      status := if |candidates| == 0 then Unresolved else if |candidates| == 1 then Resolved else Ambiguous;
      if status == Resolved {
        var target := candidates[0];
        if target in visiting {
          status := Cycle;
        } else if depth >= maxDepth {
          status := DepthExceeded;
        } else {
          FailureIsNotResolved(entries, maxDepth, depth, visiting, link);
          var parent, parentFailure :=
            EffectiveFieldsFor(target, entries, keyIndex, maxDepth, depth + 1, false);
          if parentFailure.Some? {
            status := parentFailure.value;
          } else {
            merged, names := InheritFrom(fields, parent);
          }
        }
      }
    }

    /** Follows one reference of an entry and records how it ended. */
    method FollowLink(entry: Entry, link: Link, entries: seq<Entry>, keyIndex: KeyIndex, maxDepth: nat, depth: nat,
                      record: bool, fields: Fields, failure: Option<Status>, ghost now: Effect, ghost start: Log)
      returns (fields': Fields, failure': Option<Status>)
      requires Indexes(keyIndex, entries) && link.target.Some?
      requires fields == now.fields && failure == now.failure && Logs() == Logged(record, start, now)
      modifies this
      ensures visiting == old(visiting)
      ensures var next := Step(entry, now, link, Follow(entries, maxDepth, depth, visiting, link));
              fields' == next.fields && failure' == next.failure && Logs() == Logged(record, start, next)
      decreases Remaining(entries, visiting), 2
    {
      LoggedStep(start, entry, now, link, Follow(entries, maxDepth, depth, visiting, link));
      var status, candidates, merged, names := FollowTarget(link, entries, keyIndex, maxDepth, depth, fields);
      fields', failure' := merged, failure;
      if status != Resolved && failure.None? {
        failure' := Some(status);
      }
      if record {
        PushCrossref(entry, link.field, link.target.value, status, candidates, names);
      }
    }

    /** Records a link field whose value did not expand. */
    method RecordUnexpanded(entry: Entry, field: Field, record: bool, failure: Option<Status>,
                            ghost now: Effect, ghost start: Log)
      returns (failure': Option<Status>)
      requires failure == now.failure && Logs() == Logged(record, start, now)
      modifies this`resolutions, this`diagnostics
      ensures var next := Step(entry, now, Link(field, None), Outcome(ValueUnresolved, [], map[]));
              now.fields == next.fields && failure' == next.failure && Logs() == Logged(record, start, next)
    {
      LoggedStep(start, entry, now, Link(field, None), Outcome(ValueUnresolved, [], map[]));
      if record {
        PushCrossref(entry, field, field.value.raw, ValueUnresolved, [], {});
      }
      failure' := if failure.None? then Some(ValueUnresolved) else failure;
    }

    /** Follows every reference of one link field, in order. */
    method FollowField(entryIndex: nat, field: Field, entries: seq<Entry>, keyIndex: KeyIndex, maxDepth: nat,
                       depth: nat, record: bool, fields: Fields, failure: Option<Status>,
                       ghost seen: seq<Link>, ghost start: Log)
      returns (fields': Fields, failure': Option<Status>)
      requires entryIndex < |entries| && Indexes(keyIndex, entries)
      requires var before := Fold(entries, maxDepth, entryIndex, depth, visiting, seen);
               fields == before.fields && failure == before.failure && Logs() == Logged(record, start, before)
      modifies this
      ensures visiting == old(visiting)
      ensures var after := Fold(entries, maxDepth, entryIndex, depth, visiting, seen + FieldLinks(field));
              fields' == after.fields && failure' == after.failure && Logs() == Logged(record, start, after)
      decreases Remaining(entries, visiting), 3
    {
      var entry := entries[entryIndex];
      fields', failure' := fields, failure;
      ghost var now := Fold(entries, maxDepth, entryIndex, depth, visiting, seen);
      if field.value.resolved.None? {
        FoldExtend(entries, maxDepth, entryIndex, depth, visiting, seen, Link(field, None));
        failure' := RecordUnexpanded(entry, field, record, failure, now, start);
        return;
      }
      var targets := TargetKeys(field.name, field.value.resolved.value);
      ghost var fieldLinks := FieldLinks(field);
      assert seen + fieldLinks[..0] == seen;
      for j := 0 to |targets|
        invariant visiting == old(visiting)
        invariant now == Fold(entries, maxDepth, entryIndex, depth, visiting, seen + fieldLinks[..j])
        invariant fields' == now.fields && failure' == now.failure && Logs() == Logged(record, start, now)
      {
        var link := Link(field, Some(targets[j]));
        FoldExtend(entries, maxDepth, entryIndex, depth, visiting, seen + fieldLinks[..j], link);
        TakeNext(seen, fieldLinks, j);
        fields', failure' := FollowLink(entry, link, entries, keyIndex, maxDepth, depth, record,
                                        fields', failure', now, start);
        now := Fold(entries, maxDepth, entryIndex, depth, visiting, seen + fieldLinks[..j + 1]);
      }
      assert fieldLinks[..|targets|] == fieldLinks;
    }

    /** Follows every link field of an entry, in order. */
    method FollowFields(entryIndex: nat, entries: seq<Entry>, keyIndex: KeyIndex, maxDepth: nat,
                        depth: nat, record: bool)
      returns (fields: Fields, failure: Option<Status>)
      requires entryIndex < |entries| && Indexes(keyIndex, entries)
      modifies this
      ensures visiting == old(visiting)
      ensures var after := Fold(entries, maxDepth, entryIndex, depth, visiting, Links(entries[entryIndex].fields));
              fields == after.fields && failure == after.failure && Logs() == Logged(record, old(Logs()), after)
      decreases Remaining(entries, visiting), 4
    {
      var entry := entries[entryIndex];
      fields := DirectFields(entry);
      failure := None;
      ghost var start := Logs();
      ghost var now := Fold(entries, maxDepth, entryIndex, depth, visiting, []);
      assert Logged(record, start, now) == start;
      for i := 0 to |entry.fields|
        invariant visiting == old(visiting)
        invariant now == Fold(entries, maxDepth, entryIndex, depth, visiting, Links(entry.fields[..i]))
        invariant fields == now.fields && failure == now.failure && Logs() == Logged(record, start, now)
      {
        LinksExtend(entry.fields, i);
        var field := entry.fields[i];
        if IsLinkName(field.name) {
          ghost var seen := Links(entry.fields[..i]);
          fields, failure := FollowField(entryIndex, field, entries, keyIndex, maxDepth, depth, record,
                                         fields, failure, seen, start);
          now := Fold(entries, maxDepth, entryIndex, depth, visiting, seen + FieldLinks(field));
        }
      }
      assert entry.fields[..|entry.fields|] == entry.fields;
    }

    /** The search of one entry; a recording search also logs each of its links. */
    method EffectiveFieldsFor(entryIndex: nat, entries: seq<Entry>, keyIndex: KeyIndex,
                              maxDepth: nat, depth: nat, record: bool)
      returns (fields: Fields, failure: Option<Status>)
      requires entryIndex < |entries| && Indexes(keyIndex, entries)
      modifies this
      ensures visiting == old(visiting)
      ensures var effect := Effective(entries, maxDepth, entryIndex, depth, old(visiting));
              fields == effect.fields && failure == effect.failure && Logs() == Logged(record, old(Logs()), effect)
      decreases Remaining(entries, visiting), 0
    {
      if entryIndex in visiting {
        fields := DirectFields(entries[entryIndex]);
        return fields, Some(Cycle);
      }
      RemainingShrinks(entries, entryIndex, visiting);
      visiting := visiting + {entryIndex};
      fields, failure := FollowFields(entryIndex, entries, keyIndex, maxDepth, depth, record);
      visiting := visiting - {entryIndex};
    }

    /** One entry of the pass: searched from scratch, with its links recorded. */
    method ResolveEntry(i: nat, snapshot: seq<Entry>, keyIndex: KeyIndex, maxDepth: nat) returns (fields: Fields)
      requires i < |snapshot| && Indexes(keyIndex, snapshot) && visiting == {}
      requires resolutions == AllRecords(snapshot, maxDepth, i) && diagnostics == Reports(resolutions)
      modifies this
      ensures visiting == {}
      ensures fields == Effective(snapshot, maxDepth, i, 0, {}).fields
      ensures resolutions == AllRecords(snapshot, maxDepth, i + 1) && diagnostics == Reports(resolutions)
    {
      ReportsAppend(resolutions, Effective(snapshot, maxDepth, i, 0, {}).records);
      var failure;
      fields, failure := EffectiveFieldsFor(i, snapshot, keyIndex, maxDepth, 0, true);
    }

    /** Computes every entry's effective fields against a snapshot of the entries. */
    method ResolveAllCrossrefs(entries: array<Entry>, maxDepth: nat)
      requires WellIndexed(entries[..])
      requires visiting == {} && resolutions == [] && diagnostics == []
      modifies this, entries
      ensures visiting == {}
      ensures forall i :: 0 <= i < entries.Length ==>
                entries[i] == WithEffective(old(entries[..]), maxDepth, i)
      ensures resolutions == AllRecords(old(entries[..]), maxDepth, entries.Length)
      ensures diagnostics == Reports(resolutions)
    {
      var snapshot := entries[..];
      var keyIndex := BuildKeyIndex(snapshot);
      for i := 0 to entries.Length
        invariant visiting == {}
        invariant forall k :: i <= k < entries.Length ==> entries[k] == snapshot[k]
        invariant forall k :: 0 <= k < i ==>
                    entries[k] == WithEffective(snapshot, maxDepth, k)
        invariant resolutions == AllRecords(snapshot, maxDepth, i)
        invariant diagnostics == Reports(resolutions)
      {
        var fields := ResolveEntry(i, snapshot, keyIndex, maxDepth);
        entries[i] := entries[i].(effectiveFields := fields);
      }
    }
  }

  /** A failing search never reports Resolved as its failure. */
  lemma {:induction false} FailureIsNotResolved(
    entries: seq<Entry>, maxDepth: nat, depth: nat, visiting: set<nat>, link: Link)
    ensures var outcome := Follow(entries, maxDepth, depth, visiting, link);
            link.target.Some? && |outcome.candidates| == 1 && outcome.candidates[0] !in visiting && depth < maxDepth ==>
              (outcome.status == Resolved <==>
               Effective(entries, maxDepth, outcome.candidates[0], depth + 1, visiting).failure.None?)
    decreases Remaining(entries, visiting), 1
  {
    if link.target.Some? {
      var candidates := Candidates(entries, link.target.value);
      if |candidates| == 1 && candidates[0] !in visiting && depth < maxDepth {
        var x := candidates[0];
        RemainingShrinks(entries, x, visiting);
        FoldSummary(entries, maxDepth, x, depth + 1, visiting + {x}, Links(entries[x].fields));
      }
    }
  }

  /** One record per link, carrying that link's own outcome; no failure iff all resolve. */
  lemma {:induction false} FoldSummary(
    entries: seq<Entry>, maxDepth: nat, x: nat, depth: nat, visiting: set<nat>, links: seq<Link>)
    requires x < |entries|
    ensures var effect := Fold(entries, maxDepth, x, depth, visiting, links);
            && |effect.records| == |links|
            && (forall k :: 0 <= k < |links| ==>
                  var outcome := Follow(entries, maxDepth, depth, visiting, links[k]);
                  var record := effect.records[k];
                  && record.sourceEntryIndex == entries[x].index
                  && record.sourceKey == entries[x].key
                  && record.field == links[k].field.name
                  && record.targetKey == LinkKey(links[k])
                  && record.status == outcome.status
                  && record.targetEntryIndices == outcome.candidates)
            && (effect.failure.None? <==>
                forall k :: 0 <= k < |links| ==>
                  Follow(entries, maxDepth, depth, visiting, links[k]).status == Resolved)
            && effect.failure != Some(Resolved)
    decreases Remaining(entries, visiting), 2, |links|
  {
    if links != [] {
      var front := links[..|links| - 1];
      FoldSummary(entries, maxDepth, x, depth, visiting, front);
      assert forall k :: 0 <= k < |front| ==> links[k] == front[k];
    }
  }
}
