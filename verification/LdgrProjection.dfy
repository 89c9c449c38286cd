/** The frontmatter parser and printer as they run, and the names they use. */
module LdgrProjection {
  import opened Wrappers
  import opened LdgrFrontmatter

  // ---------------------------------------------------------------------------
  // Parsing

  method ReadRefs(items: seq<Json>, key: string, reported: seq<Diagnostic>)
    returns (references: seq<LdgrRef>, diagnostics: seq<Diagnostic>)
    ensures var read := RefsOf(items, key);
            references == read.value && diagnostics == reported + read.diagnostics
  {
    references, diagnostics := [], reported;
    for i := 0 to |items|
      invariant references == RefsOf(items[..i], key).value
      invariant diagnostics == reported + RefsOf(items[..i], key).diagnostics
    {
      assert items[..i + 1][..i] == items[..i];
      if items[i].Str? {
        var reference := ParseRef(items[i].s);
        if reference.Some? {
          references := references + [reference.value];
        } else {
          diagnostics := diagnostics + [InvalidRef(key, items[i].s)];
        }
      }
    }
    assert items[..|items|] == items;
  }

  method ReadRefList(fields: map<string, Json>, key: string, reported: seq<Diagnostic>)
    returns (references: seq<LdgrRef>, diagnostics: seq<Diagnostic>)
    ensures var read := RefList(fields, key);
            references == read.value && diagnostics == reported + read.diagnostics
  {
    references, diagnostics := [], reported;
    if key in fields {
      match fields[key] {
        case Array(items) =>
          references, diagnostics := ReadRefs(items, key, reported);
        case Str(raw) =>
          references, diagnostics := ReadRefs([fields[key]], key, reported);
          assert [fields[key]][..0] == [];
          assert RefsOf([fields[key]], key).value == Listed(RefForField(raw, key).value);
          assert [] + RefForField(raw, key).diagnostics == RefForField(raw, key).diagnostics;
        case _ =>
          diagnostics := reported + [WrongType(key)];
      }
    }
  }

  method ReadStrings(items: seq<Json>) returns (strings: seq<string>)
    ensures strings == StringsOf(items)
  {
    strings := [];
    for i := 0 to |items|
      invariant strings == StringsOf(items[..i])
    {
      assert items[..i + 1][..i] == items[..i];
      if items[i].Str? {
        strings := strings + [items[i].s];
      }
    }
    assert items[..|items|] == items;
  }

  method ReadStringList(fields: map<string, Json>, key: string, reported: seq<Diagnostic>)
    returns (strings: seq<string>, diagnostics: seq<Diagnostic>)
    ensures var read := StringList(fields, key);
            strings == read.value && diagnostics == reported + read.diagnostics
  {
    strings, diagnostics := [], reported;
    if key in fields {
      match fields[key] {
        case Array(items) => strings := ReadStrings(items);
        case Str(raw) => strings := [raw];
        case _ => diagnostics := reported + [WrongType(key)];
      }
    }
  }

  /** Fields of no known name are kept as they are. */
  method ReadExtra(keys: Keys, fields: map<string, Json>) returns (extra: map<string, Json>)
    ensures extra == Extra(keys, fields)
  {
    var known := AllKeys(keys);
    var rest := fields.Keys;
    extra := map[];
    while rest != {}
      invariant rest <= fields.Keys
      invariant extra == map key | key in fields && key !in rest && key !in known :: fields[key]
      decreases |rest|
    {
      var key :| key in rest;
      if key !in known {
        extra := extra[key := fields[key]];
      }
      rest := rest - {key};
    }
  }

  lemma {:induction false} ReportedJoins(a: seq<Diagnostic>, b: seq<Diagnostic>, c: seq<Diagnostic>)
    ensures a + b + c == a + (b + c)
  {
  }

  method ReadDocNumber(keys: Keys, fields: map<string, Json>) returns (ldgrDoc: nat, diagnostics: seq<Diagnostic>)
    ensures Read(ldgrDoc, diagnostics) == ReadDoc(keys, fields)
  {
    var doc := GetU64(fields, keys.ldgrDoc);
    ldgrDoc, diagnostics := if doc.value.Some? then doc.value.value else 0, doc.diagnostics;
    if ldgrDoc != 1 {
      diagnostics := diagnostics + [NotOne];
    }
  }

  method ReadKindName(keys: Keys, names: KindNames, fields: map<string, Json>, reported: seq<Diagnostic>)
    returns (kind: DocumentKind, diagnostics: seq<Diagnostic>)
    ensures var read := ReadKind(keys, names, fields);
            kind == read.value && diagnostics == reported + read.diagnostics
  {
    var raw := GetString(fields, keys.kind);
    kind, diagnostics := Ticket, reported + raw.diagnostics;
    if raw.value.Some? {
      var named := KindNamed(names, KINDS, raw.value.value);
      if named.Some? {
        kind := named.value;
      } else {
        diagnostics := diagnostics + [UnknownKind(raw.value.value)];
        ReportedJoins(reported, raw.diagnostics, [UnknownKind(raw.value.value)]);
      }
    }
  }

  method ReadIdentifier(keys: Keys, fields: map<string, Json>, reported: seq<Diagnostic>)
    returns (id: string, diagnostics: seq<Diagnostic>)
    ensures var read := ReadId(keys, fields);
            id == read.value && diagnostics == reported + read.diagnostics
  {
    var text := GetString(fields, keys.id);
    id, diagnostics := OrEmpty(text.value), reported + text.diagnostics;
    if id == [] {
      diagnostics := diagnostics + [EmptyId];
      ReportedJoins(reported, text.diagnostics, [EmptyId]);
    }
  }

  method ReadSchemaName(keys: Keys, fields: map<string, Json>, kindName: string, reported: seq<Diagnostic>)
    returns (schema: string, diagnostics: seq<Diagnostic>)
    ensures var read := ReadSchema(keys, fields, kindName);
            schema == read.value && diagnostics == reported + read.diagnostics
  {
    var text := GetString(fields, keys.schema);
    schema, diagnostics := OrEmpty(text.value), reported + text.diagnostics;
    if schema == [] {
      diagnostics := diagnostics + [EmptySchema];
      ReportedJoins(reported, text.diagnostics, [EmptySchema]);
    } else if !Contains(schema, kindName) {
      diagnostics := diagnostics + [SchemaMismatch];
      ReportedJoins(reported, text.diagnostics, [SchemaMismatch]);
    }
  }

  method ParseMetadata(keys: Keys, names: KindNames, value: Option<Json>)
    returns (metadata: Metadata, diagnostics: seq<Diagnostic>)
    requires NamesKinds(names)
    ensures Read(metadata, diagnostics) == ParseValue(keys, names, value)
  {
    if value.None? || !value.value.Object? {
      return DEFAULT, [FrontmatterMissing];
    }
    var fields := value.value.fields;
    var ldgrDoc, reported := ReadDocNumber(keys, fields);
    var kind, id, schema;
    kind, reported := ReadKindName(keys, names, fields, reported);
    id, reported := ReadIdentifier(keys, fields, reported);
    schema, reported := ReadSchemaName(keys, fields, names[kind], reported);
    var parent := OptionalRef(fields, keys.parent);
    var dependsOn, produces, tags;
    dependsOn, diagnostics := ReadRefList(fields, keys.dependsOn, reported + parent.diagnostics);
    produces, diagnostics := ReadRefList(fields, keys.produces, diagnostics);
    tags, diagnostics := ReadStringList(fields, keys.tags, diagnostics);
    var extra := ReadExtra(keys, fields);
    metadata := Metadata(
      ldgrDoc, kind, id, schema, OptionalString(fields, keys.status), OptionalString(fields, keys.created),
      OptionalString(fields, keys.updated), parent.value, dependsOn, produces, tags, extra);
  }

  // ---------------------------------------------------------------------------
  // Printing

  method Insert(fields: map<string, Json>, ghost done: seq<Entry>, key: string, value: Option<Json>)
    returns (fields': map<string, Json>)
    requires fields == Filled(done)
    ensures fields' == Filled(done + [Entry(key, value)])
  {
    assert (done + [Entry(key, value)])[..|done|] == done;
    fields' := if value.Some? then fields[key := value.value] else fields;
  }

  method MetadataToValue(keys: Keys, names: KindNames, m: Metadata) returns (fields: map<string, Json>)
    requires NamesKinds(names)
    ensures fields == Print(keys, names, m)
  {
    var entries := Entries(keys, names, m);
    fields := map[];
    for i := 0 to |entries|
      invariant fields == Filled(entries[..i])
    {
      assert entries[..i + 1] == entries[..i] + [entries[i]];
      fields := Insert(fields, entries[..i], entries[i].key, entries[i].value);
    }
    assert entries[..|entries|] == entries;
    fields := InsertAll(fields, m.extra);
  }

  /** Extra fields are written over what is there. */
  method InsertAll(known: map<string, Json>, extra: map<string, Json>) returns (fields: map<string, Json>)
    ensures fields == known + extra
  {
    fields := known;
    var rest := extra.Keys;
    while rest != {}
      invariant rest <= extra.Keys
      invariant fields == known + map key | key in extra && key !in rest :: extra[key]
      decreases |rest|
    {
      var key :| key in rest;
      fields := fields[key := extra[key]];
      rest := rest - {key};
    }
    assert extra == map key | key in extra && key !in rest :: extra[key];
  }
}

/** The field and kind names of LDGR documents. */
module LdgrVocabulary {
  import opened Wrappers
  import opened LdgrFrontmatter
  import opened LdgrMaps

  const KEYS: Keys := Keys(
    "ldgr_doc", "kind", "id", "schema", "status", "created", "updated", "parent", "depends_on", "produces", "tags")

  function NameOf(kind: DocumentKind): string {
    match kind
    case Spec => "spec"
    case Epoch => "epoch"
    case Ticket => "ticket"
    case WorkItem => "work_item"
    case Artifact => "artifact"
    case Decision => "decision"
    case Claim => "claim"
    case Validation => "validation"
    case RunReport => "run_report"
    case Graph => "graph"
    case TicketIndex => "ticket_index"
    case BatchState => "batch_state"
  }

  const NAMES: KindNames := map kind: DocumentKind | kind in KINDS :: NameOf(kind)

  /** The length and the first letter tell the names apart. */
  lemma {:induction false} NamesDiffer(a: DocumentKind, b: DocumentKind)
    requires NameOf(a) == NameOf(b)
    ensures a == b
  {
    assert |NameOf(a)| == |NameOf(b)| && NameOf(a)[0] == NameOf(b)[0];
  }

  lemma {:induction false} VocabularyFits()
    ensures NamesKinds(NAMES) && KeysDistinct(KEYS)
  {
    forall kind: DocumentKind ensures kind in NAMES {
      EveryKindListed(kind);
    }
    forall a, b | a in NAMES && b in NAMES && NAMES[a] == NAMES[b] ensures a == b {
      NamesDiffer(a, b);
    }
    var all := AllKeys(KEYS);
    forall i, j | 0 <= i < j < |all| ensures all[i] != all[j] {
      assert |all[i]| != |all[j]| || all[i][0] != all[j][0] || all[i][1] != all[j][1];
    }
  }

  /** With the names in use: whatever parses without a diagnostic is given back by printing and parsing again. */
  lemma {:induction false} FrontmatterRoundTrips(value: Option<Json>)
    requires NamesKinds(NAMES)
    requires ParseValue(KEYS, NAMES, value).diagnostics == []
    ensures var m := ParseValue(KEYS, NAMES, value).value;
            ParseValue(KEYS, NAMES, Some(Object(Print(KEYS, NAMES, m)))) == Read(m, [])
  {
    VocabularyFits();
    ParsePrintsBack(KEYS, NAMES, value);
  }

  /** With the names in use: a map is printed back as it was exactly if each known field has the printer's shape. */
  lemma {:induction false} FrontmatterMapsPrintBack(fields: map<string, Json>)
    requires NamesKinds(NAMES)
    ensures Print(KEYS, NAMES, ParseFields(KEYS, NAMES, fields).value) == fields <==> Canonical(KEYS, NAMES, fields)
  {
    VocabularyFits();
    PrintsBackIffCanonical(KEYS, NAMES, fields);
  }

  /** Such a map is not always printed back: a status that is a number is dropped without a word. */
  lemma {:induction false} MinimalStatusIsDropped(id: string, n: JsonNumber)
    requires NamesKinds(NAMES) && id != []
    ensures ParseFields(KEYS, NAMES, Minimal(KEYS, NAMES, id)).diagnostics == []
    ensures var changed := Minimal(KEYS, NAMES, id)[KEYS.status := Number(n)];
            && ParseFields(KEYS, NAMES, changed).diagnostics == []
            && Print(KEYS, NAMES, ParseFields(KEYS, NAMES, changed).value) != changed
  {
    VocabularyFits();
    TicketNamed();
    MinimalParses(KEYS, NAMES, id);
    NumberStatusIsDropped(KEYS, NAMES, Minimal(KEYS, NAMES, id), n);
  }

  lemma {:induction false} TicketNamed()
    requires NamesKinds(NAMES)
    ensures NAMES[Ticket] != []
  {
    assert NAMES[Ticket] == NameOf(Ticket);
  }
}
