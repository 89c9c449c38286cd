/** Which frontmatter maps come out of parsing and printing as they were. */
module LdgrMaps {
  import opened Wrappers
  import opened Text
  import opened LdgrFrontmatter

  function Lookup(fields: map<string, Json>, key: string): Option<Json> {
    if key in fields then Some(fields[key]) else None
  }

  predicate AllStrings(items: seq<Json>) {
    forall i :: 0 <= i < |items| ==> items[i].Str?
  }

  predicate AllRefs(items: seq<Json>) {
    forall i :: 0 <= i < |items| ==> items[i].Str? && ParseRef(items[i].s).Some?
  }

  /** Absent, or a string. */
  predicate StringOrAbsent(value: Option<Json>) {
    value.Some? ==> value.value.Str?
  }

  predicate RefOrAbsent(value: Option<Json>) {
    value.Some? ==> value.value.Str? && ParseRef(value.value.s).Some?
  }

  /** Absent, or a list of references with at least one. */
  predicate RefsOrAbsent(value: Option<Json>) {
    value.Some? ==> value.value.Array? && value.value.items != [] && AllRefs(value.value.items)
  }

  predicate StringsOrAbsent(value: Option<Json>) {
    value.Some? ==> value.value.Array? && value.value.items != [] && AllStrings(value.value.items)
  }

  predicate IsString(value: Option<Json>) {
    value.Some? && value.value.Str?
  }

  predicate IsUnsigned(value: Option<Json>) {
    value.Some? && value.value.Number? && value.value.number.Unsigned?
  }

  predicate CanonicalRequired(keys: Keys, names: KindNames, fields: map<string, Json>) {
    && IsUnsigned(Lookup(fields, keys.ldgrDoc))
    && IsString(Lookup(fields, keys.kind)) && KindNamed(names, KINDS, fields[keys.kind].s).Some?
    && IsString(Lookup(fields, keys.id)) && IsString(Lookup(fields, keys.schema))
  }

  /** Every known field has the shape the printer gives it; other fields are free. */
  predicate Canonical(keys: Keys, names: KindNames, fields: map<string, Json>) {
    && CanonicalRequired(keys, names, fields)
    && StringOrAbsent(Lookup(fields, keys.status)) && StringOrAbsent(Lookup(fields, keys.created))
    && StringOrAbsent(Lookup(fields, keys.updated)) && RefOrAbsent(Lookup(fields, keys.parent))
    && RefsOrAbsent(Lookup(fields, keys.dependsOn)) && RefsOrAbsent(Lookup(fields, keys.produces))
    && StringsOrAbsent(Lookup(fields, keys.tags))
  }

  // ---------------------------------------------------------------------------
  // One field at a time

  /** The print has the fields of the map exactly if each known field is printed as it stands there. */
  lemma {:induction false} PrintsIff(keys: Keys, names: KindNames, m: Metadata, fields: map<string, Json>)
    requires m.kind in names && KeysDistinct(keys) && m.extra == Extra(keys, fields)
    ensures Print(keys, names, m) == fields <==>
            forall i :: 0 <= i < |AllKeys(keys)| ==> Entries(keys, names, m)[i].value == Lookup(fields, AllKeys(keys)[i])
  {
    var printed, all := Print(keys, names, m), AllKeys(keys);
    forall i | 0 <= i < |all| ensures Lookup(printed, all[i]) == Entries(keys, names, m)[i].value {
      PrintedAt(keys, names, m, i);
    }
    PrintedExtra(keys, names, m);
    if forall i :: 0 <= i < |all| ==> Entries(keys, names, m)[i].value == Lookup(fields, all[i]) {
      forall key ensures Lookup(printed, key) == Lookup(fields, key) {
        SameField(keys, printed, fields, key);
      }
      SameMaps(printed, fields);
    }
  }

  lemma {:induction false} SameField(keys: Keys, a: map<string, Json>, b: map<string, Json>, key: string)
    requires Extra(keys, a) == Extra(keys, b)
    requires forall i :: 0 <= i < |AllKeys(keys)| ==> Lookup(a, AllKeys(keys)[i]) == Lookup(b, AllKeys(keys)[i])
    ensures Lookup(a, key) == Lookup(b, key)
  {
    if key in AllKeys(keys) {
      var i :| 0 <= i < |AllKeys(keys)| && AllKeys(keys)[i] == key;
    } else {
      assert Lookup(Extra(keys, a), key) == Lookup(a, key);
      assert Lookup(Extra(keys, b), key) == Lookup(b, key);
    }
  }

  lemma {:induction false} SameMaps(a: map<string, Json>, b: map<string, Json>)
    requires forall key :: Lookup(a, key) == Lookup(b, key)
    ensures a == b
  {
    forall key ensures key in a <==> key in b {
      assert Lookup(a, key) == Lookup(b, key);
    }
    forall key | key in a ensures a[key] == b[key] {
      assert Lookup(a, key) == Lookup(b, key);
    }
  }

  lemma {:induction false} KindPrints(keys: Keys, names: KindNames, fields: map<string, Json>)
    requires NamesKinds(names)
    ensures Some(Str(names[ReadKind(keys, names, fields).value])) == Lookup(fields, keys.kind) <==>
            IsString(Lookup(fields, keys.kind)) && KindNamed(names, KINDS, fields[keys.kind].s).Some?
  {
    if IsString(Lookup(fields, keys.kind)) {
      var raw, kind := fields[keys.kind].s, ReadKind(keys, names, fields).value;
      EveryKindListed(kind);
      NamedKind(names, KINDS, raw, kind);
      NamedKindIsNamed(names, KINDS, raw);
    }
  }

  lemma {:induction false} ParentPrints(fields: map<string, Json>, key: string)
    ensures var parent := OptionalRef(fields, key).value;
            (if parent.Some? then Some(Str(RefString(parent.value))) else None) == Lookup(fields, key) <==>
            RefOrAbsent(Lookup(fields, key))
  {
    if key in fields && fields[key].Str? {
      ParsedRefPrints(fields[key].s);
    }
  }

  /** As many references as items at most, and as many only if all are references. */
  lemma {:induction false} RefsRead(items: seq<Json>, key: string)
    ensures |RefsOf(items, key).value| <= |items|
    ensures |RefsOf(items, key).value| == |items| <==> AllRefs(items)
    ensures AllRefs(items) ==> TextsOf(RefStrings(RefsOf(items, key).value)) == items
  {
    if items != [] {
      var n := |items| - 1;
      var front, last := items[..n], items[n];
      RefsRead(front, key);
      assert items == front + [last];
      assert AllRefs(items) <==> AllRefs(front) && last.Str? && ParseRef(last.s).Some?;
      if AllRefs(items) {
        ParsedRefPrints(last.s);
        var before := RefsOf(front, key).value;
        assert RefsOf(items, key).value == before + [ParseRef(last.s).value];
        assert TextsOf(RefStrings(RefsOf(items, key).value)) == TextsOf(RefStrings(before)) + [last];
      }
    }
  }

  lemma {:induction false} RefListPrints(fields: map<string, Json>, key: string)
    ensures ListOf(RefStrings(RefList(fields, key).value)) == Lookup(fields, key) <==>
            RefsOrAbsent(Lookup(fields, key))
  {
    if key in fields && fields[key].Array? {
      RefsRead(fields[key].items, key);
      var printed := TextsOf(RefStrings(RefList(fields, key).value));
      assert printed == fields[key].items ==> |printed| == |fields[key].items|;
    }
  }

  lemma {:induction false} StringsRead(items: seq<Json>)
    ensures |StringsOf(items)| <= |items|
    ensures |StringsOf(items)| == |items| <==> AllStrings(items)
    ensures AllStrings(items) ==> TextsOf(StringsOf(items)) == items
  {
    if items != [] {
      var n := |items| - 1;
      var front, last := items[..n], items[n];
      StringsRead(front);
      assert items == front + [last];
      assert AllStrings(items) <==> AllStrings(front) && last.Str?;
      if AllStrings(items) {
        assert TextsOf(StringsOf(items)) == TextsOf(StringsOf(front)) + [last];
      }
    }
  }

  lemma {:induction false} StringListPrints(fields: map<string, Json>, key: string)
    ensures ListOf(StringList(fields, key).value) == Lookup(fields, key) <==> StringsOrAbsent(Lookup(fields, key))
  {
    if key in fields && fields[key].Array? {
      StringsRead(fields[key].items);
      var printed := TextsOf(StringList(fields, key).value);
      assert printed == fields[key].items ==> |printed| == |fields[key].items|;
    }
  }

  // ---------------------------------------------------------------------------
  // Whole maps

  predicate HoldsRequired(keys: Keys, fields: map<string, Json>, doc: nat, kindName: string, id: string, schema: string) {
    && Some(Number(Unsigned(doc))) == Lookup(fields, keys.ldgrDoc)
    && Some(Str(kindName)) == Lookup(fields, keys.kind)
    && Some(Str(id)) == Lookup(fields, keys.id)
    && Some(Str(schema)) == Lookup(fields, keys.schema)
  }

  /** The known fields of the map are as the metadata is printed. */
  predicate HoldsPrinted(keys: Keys, names: KindNames, m: Metadata, fields: map<string, Json>)
    requires m.kind in names
  {
    && HoldsRequired(keys, fields, m.ldgrDoc, names[m.kind], m.id, m.schema)
    && TextOf(m.status) == Lookup(fields, keys.status)
    && TextOf(m.created) == Lookup(fields, keys.created)
    && TextOf(m.updated) == Lookup(fields, keys.updated)
    && (if m.parent.Some? then Some(Str(RefString(m.parent.value))) else None) == Lookup(fields, keys.parent)
    && ListOf(RefStrings(m.dependsOn)) == Lookup(fields, keys.dependsOn)
    && ListOf(RefStrings(m.produces)) == Lookup(fields, keys.produces)
    && ListOf(m.tags) == Lookup(fields, keys.tags)
  }

  lemma {:induction false} EntriesSpelledOut(keys: Keys, names: KindNames, m: Metadata, fields: map<string, Json>)
    requires m.kind in names
    ensures (forall i :: 0 <= i < |AllKeys(keys)| ==> Entries(keys, names, m)[i].value == Lookup(fields, AllKeys(keys)[i]))
            <==> HoldsPrinted(keys, names, m, fields)
  {
    var entries, all := Entries(keys, names, m), AllKeys(keys);
    if forall i :: 0 <= i < |all| ==> entries[i].value == Lookup(fields, all[i]) {
      assert entries[0].value == Lookup(fields, all[0]) && entries[1].value == Lookup(fields, all[1]);
      assert entries[2].value == Lookup(fields, all[2]) && entries[3].value == Lookup(fields, all[3]);
      assert entries[4].value == Lookup(fields, all[4]) && entries[5].value == Lookup(fields, all[5]);
      assert entries[6].value == Lookup(fields, all[6]) && entries[7].value == Lookup(fields, all[7]);
      assert entries[8].value == Lookup(fields, all[8]) && entries[9].value == Lookup(fields, all[9]);
      assert entries[10].value == Lookup(fields, all[10]);
    }
  }

  /** A map is printed back unchanged from what was parsed of it exactly if it is canonical, whatever was reported. */
  lemma {:induction false} PrintsBackIffCanonical(keys: Keys, names: KindNames, fields: map<string, Json>)
    requires NamesKinds(names) && KeysDistinct(keys)
    ensures Print(keys, names, ParseFields(keys, names, fields).value) == fields <==> Canonical(keys, names, fields)
  {
    var m := ParseFields(keys, names, fields).value;
    PrintsIff(keys, names, m, fields);
    EntriesSpelledOut(keys, names, m, fields);
    HoldsIffCanonical(keys, names, fields);
  }

  lemma {:induction false} HoldsIffCanonical(keys: Keys, names: KindNames, fields: map<string, Json>)
    requires NamesKinds(names)
    ensures HoldsPrinted(keys, names, ParseFields(keys, names, fields).value, fields) <==> Canonical(keys, names, fields)
  {
    RequiredPrints(keys, names, fields);
    StringPrints(fields, keys.status);
    StringPrints(fields, keys.created);
    StringPrints(fields, keys.updated);
    ParentPrints(fields, keys.parent);
    RefListPrints(fields, keys.dependsOn);
    RefListPrints(fields, keys.produces);
    StringListPrints(fields, keys.tags);
  }

  lemma {:induction false} RequiredPrints(keys: Keys, names: KindNames, fields: map<string, Json>)
    requires NamesKinds(names)
    ensures var kind := ReadKind(keys, names, fields).value;
            HoldsRequired(keys, fields, ReadDoc(keys, fields).value, names[kind], ReadId(keys, fields).value,
                          ReadSchema(keys, fields, names[kind]).value) <==>
            CanonicalRequired(keys, names, fields)
  {
    KindPrints(keys, names, fields);
  }

  lemma {:induction false} StringPrints(fields: map<string, Json>, key: string)
    ensures TextOf(OptionalString(fields, key)) == Lookup(fields, key) <==> StringOrAbsent(Lookup(fields, key))
  {
  }

  /** What is reported depends on the required fields, the references and the tags only. */
  lemma {:induction false} SameReports(keys: Keys, names: KindNames, a: map<string, Json>, b: map<string, Json>)
    requires NamesKinds(names)
    requires Lookup(a, keys.ldgrDoc) == Lookup(b, keys.ldgrDoc) && Lookup(a, keys.kind) == Lookup(b, keys.kind)
    requires Lookup(a, keys.id) == Lookup(b, keys.id) && Lookup(a, keys.schema) == Lookup(b, keys.schema)
    requires Lookup(a, keys.parent) == Lookup(b, keys.parent) && Lookup(a, keys.dependsOn) == Lookup(b, keys.dependsOn)
    requires Lookup(a, keys.produces) == Lookup(b, keys.produces) && Lookup(a, keys.tags) == Lookup(b, keys.tags)
    ensures ParseFields(keys, names, a).diagnostics == ParseFields(keys, names, b).diagnostics
  {
    SameRequired(keys, names, a, b);
    SameLists(a, b, keys.dependsOn);
    SameLists(a, b, keys.produces);
    SameLists(a, b, keys.tags);
    assert OptionalRef(a, keys.parent) == OptionalRef(b, keys.parent);
  }

  lemma {:induction false} SameRequired(keys: Keys, names: KindNames, a: map<string, Json>, b: map<string, Json>)
    requires Lookup(a, keys.ldgrDoc) == Lookup(b, keys.ldgrDoc) && Lookup(a, keys.kind) == Lookup(b, keys.kind)
    requires Lookup(a, keys.id) == Lookup(b, keys.id) && Lookup(a, keys.schema) == Lookup(b, keys.schema)
    ensures ReadDoc(keys, a) == ReadDoc(keys, b) && ReadKind(keys, names, a) == ReadKind(keys, names, b)
    ensures ReadId(keys, a) == ReadId(keys, b)
    ensures forall kindName :: ReadSchema(keys, a, kindName) == ReadSchema(keys, b, kindName)
  {
    assert GetU64(a, keys.ldgrDoc) == GetU64(b, keys.ldgrDoc);
    assert GetString(a, keys.kind) == GetString(b, keys.kind);
    assert GetString(a, keys.id) == GetString(b, keys.id);
    assert GetString(a, keys.schema) == GetString(b, keys.schema);
  }

  lemma {:induction false} SameLists(a: map<string, Json>, b: map<string, Json>, key: string)
    requires Lookup(a, key) == Lookup(b, key)
    ensures RefList(a, key) == RefList(b, key) && StringList(a, key) == StringList(b, key)
  {
  }

  /** An input that is changed without a word: a status that is a number is dropped. */
  lemma {:induction false} NumberStatusIsDropped(keys: Keys, names: KindNames, fields: map<string, Json>, n: JsonNumber)
    requires NamesKinds(names) && KeysDistinct(keys) && ParseFields(keys, names, fields).diagnostics == []
    ensures var changed := fields[keys.status := Number(n)];
            && ParseFields(keys, names, changed).diagnostics == []
            && Print(keys, names, ParseFields(keys, names, changed).value) != changed
  {
    var changed, all := fields[keys.status := Number(n)], AllKeys(keys);
    assert all[0] != all[4] && all[1] != all[4] && all[2] != all[4] && all[3] != all[4];
    assert all[4] != all[7] && all[4] != all[8] && all[4] != all[9] && all[4] != all[10];
    SameReports(keys, names, fields, changed);
    PrintsBackIffCanonical(keys, names, changed);
  }

  /** A ticket with the required fields alone. */
  function Minimal(keys: Keys, names: KindNames, id: string): map<string, Json>
    requires Ticket in names
  {
    map[keys.ldgrDoc := Number(Unsigned(1)), keys.kind := Str(names[Ticket]), keys.id := Str(id),
        keys.schema := Str(names[Ticket])]
  }

  lemma {:induction false} MinimalFields(keys: Keys, names: KindNames, id: string)
    requires Ticket in names && KeysDistinct(keys)
    ensures var fields := Minimal(keys, names, id);
            && Lookup(fields, keys.ldgrDoc) == Some(Number(Unsigned(1))) && Lookup(fields, keys.id) == Some(Str(id))
            && Lookup(fields, keys.kind) == Lookup(fields, keys.schema) == Some(Str(names[Ticket]))
            && Lookup(fields, keys.parent) == Lookup(fields, keys.dependsOn) == None
            && Lookup(fields, keys.produces) == Lookup(fields, keys.tags) == None
  {
    var all := AllKeys(keys);
    assert all[0] != all[1] && all[0] != all[2] && all[0] != all[3] && all[1] != all[2] && all[1] != all[3];
    assert all[2] != all[3];
    forall i | i in {7, 8, 9, 10} ensures all[i] !in Minimal(keys, names, id) {
      assert all[i] != all[0] && all[i] != all[1] && all[i] != all[2] && all[i] != all[3];
    }
    assert all[7] !in Minimal(keys, names, id) && all[8] !in Minimal(keys, names, id);
    assert all[9] !in Minimal(keys, names, id) && all[10] !in Minimal(keys, names, id);
  }

  lemma {:induction false} MinimalKind(keys: Keys, names: KindNames, id: string)
    requires NamesKinds(names) && KeysDistinct(keys)
    ensures ReadKind(keys, names, Minimal(keys, names, id)) == Read(Ticket, [])
  {
    var name := names[Ticket];
    MinimalFields(keys, names, id);
    EveryKindListed(Ticket);
    NamedKind(names, KINDS, name, Ticket);
    assert GetString(Minimal(keys, names, id), keys.kind) == Read(Some(name), []);
  }

  lemma {:induction false} MinimalSchema(keys: Keys, names: KindNames, id: string)
    requires NamesKinds(names) && KeysDistinct(keys) && names[Ticket] != []
    ensures ReadSchema(keys, Minimal(keys, names, id), names[Ticket]).diagnostics == []
  {
    var name := names[Ticket];
    MinimalFields(keys, names, id);
    assert GetString(Minimal(keys, names, id), keys.schema) == Read(Some(name), []);
    assert MatchesAt(name, 0, name) && Contains(name, name);
  }

  lemma {:induction false} MinimalRest(keys: Keys, names: KindNames, id: string)
    requires NamesKinds(names) && KeysDistinct(keys) && id != []
    ensures var fields := Minimal(keys, names, id);
            && ReadDoc(keys, fields).diagnostics == [] && ReadId(keys, fields).diagnostics == []
            && OptionalRef(fields, keys.parent).diagnostics == [] && RefList(fields, keys.dependsOn).diagnostics == []
            && RefList(fields, keys.produces).diagnostics == [] && StringList(fields, keys.tags).diagnostics == []
  {
    MinimalFields(keys, names, id);
    assert GetU64(Minimal(keys, names, id), keys.ldgrDoc) == Read(Some(1), []);
    assert GetString(Minimal(keys, names, id), keys.id) == Read(Some(id), []);
  }

  /** It parses without a diagnostic. */
  lemma {:induction false} MinimalParses(keys: Keys, names: KindNames, id: string)
    requires NamesKinds(names) && KeysDistinct(keys) && id != [] && names[Ticket] != []
    ensures ParseFields(keys, names, Minimal(keys, names, id)).diagnostics == []
  {
    MinimalKind(keys, names, id);
    MinimalSchema(keys, names, id);
    MinimalRest(keys, names, id);
  }
}
