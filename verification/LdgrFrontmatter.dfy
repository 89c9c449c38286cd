/**
 The frontmatter of an LDGR projection: a parser from JSON maps that reports what
 it dislikes, and a printer back. They undo each other exactly on well-formed
 metadata.
 */
module LdgrFrontmatter {
  import opened Wrappers
  import opened Text

  datatype JsonNumber = Unsigned(n: nat) | Signed(m: int) | Fraction(spelling: string)

  datatype Json = Null | Bool(b: bool) | Number(number: JsonNumber) | Str(s: string) | Array(items: seq<Json>)
                | Object(fields: map<string, Json>)

  datatype DocumentKind =
    | Spec | Epoch | Ticket | WorkItem | Artifact | Decision | Claim | Validation | RunReport | Graph | TicketIndex
    | BatchState

  datatype LdgrRef = LdgrRef(kind: string, value: string)

  datatype Metadata = Metadata(
    ldgrDoc: nat, kind: DocumentKind, id: string, schema: string, status: Option<string>, created: Option<string>,
    updated: Option<string>, parent: Option<LdgrRef>, dependsOn: seq<LdgrRef>, produces: seq<LdgrRef>,
    tags: seq<string>, extra: map<string, Json>)

  /** The names of the known fields; `LdgrVocabulary` has the ones in use. */
  datatype Keys = Keys(
    ldgrDoc: string, kind: string, id: string, schema: string, status: string, created: string, updated: string,
    parent: string, dependsOn: string, produces: string, tags: string)

  /** The names of the document kinds. */
  type KindNames = map<DocumentKind, string>

  datatype Diagnostic =
    | FrontmatterMissing | FieldMissing(key: string) | WrongType(key: string) | NotOne | EmptyId | EmptySchema
    | SchemaMismatch | UnknownKind(raw: string) | InvalidRef(key: string, reference: string)

  /** What a reader finds, and what it reports on the way. */
  datatype Read<T> = Read(value: T, diagnostics: seq<Diagnostic>)

  // ---------------------------------------------------------------------------
  // References

  /** Where the first colon stands. */
  function ColonAt(s: string): (at: Option<nat>)
    ensures at.Some? ==> at.value < |s| && s[at.value] == ':' && ':' !in s[..at.value]
    ensures at.None? ==> ':' !in s
  {
    if s == [] then None
    else if s[0] == ':' then Some(0)
    else
      assert s == [s[0]] + s[1..];
      match ColonAt(s[1..])
      case None => None
      case Some(k) =>
        assert s[..k + 1] == [s[0]] + s[1..][..k];
        Some(k + 1)
  }

  function ParseRef(input: string): Option<LdgrRef> {
    match ColonAt(input)
    case None => None
    case Some(at) =>
      if at == 0 || at + 1 == |input| then None else Some(LdgrRef(input[..at], input[at + 1..]))
  }

  function RefString(reference: LdgrRef): string {
    reference.kind + ":" + reference.value
  }

  predicate RefOk(reference: LdgrRef) {
    reference.kind != [] && ':' !in reference.kind && reference.value != []
  }

  /** What parses as a reference is well-formed, and prints as it was. */
  lemma {:induction false} ParsedRefPrints(input: string)
    ensures match ParseRef(input)
            case None => true
            case Some(reference) => RefOk(reference) && RefString(reference) == input
  {
    var at := ColonAt(input);
    if at.Some? {
      assert input == input[..at.value] + ":" + input[at.value + 1..];
    }
  }

  /** A reference survives printing exactly if its kind is not empty and has no colon, and its value is not empty. */
  lemma {:induction false} PrintedRefParses(reference: LdgrRef)
    ensures ParseRef(RefString(reference)) == Some(reference) <==> RefOk(reference)
  {
    var s := RefString(reference);
    ParsedRefPrints(s);
    if RefOk(reference) {
      var n := |reference.kind|;
      assert s[n] == ':' && s[..n] == reference.kind && s[n + 1..] == reference.value;
      FirstColon(s, n);
    }
  }

  lemma {:induction false} FirstColon(s: string, n: nat)
    requires n < |s| && s[n] == ':' && ':' !in s[..n]
    ensures ColonAt(s) == Some(n)
  {
    if n > 0 {
      assert s[0] == s[..n][0] && s[1..][..n - 1] == s[..n][1..];
      FirstColon(s[1..], n - 1);
    }
  }

  // ---------------------------------------------------------------------------
  // Readers

  function GetU64(fields: map<string, Json>, key: string): Read<Option<nat>> {
    if key !in fields then Read(None, [FieldMissing(key)])
    else if fields[key].Number? then
      Read(if fields[key].number.Unsigned? then Some(fields[key].number.n) else None, [])
    else Read(None, [WrongType(key)])
  }

  function GetString(fields: map<string, Json>, key: string): Read<Option<string>> {
    if key !in fields then Read(None, [FieldMissing(key)])
    else if fields[key].Str? then Read(Some(fields[key].s), [])
    else Read(None, [WrongType(key)])
  }

  function OptionalString(fields: map<string, Json>, key: string): Option<string> {
    if key in fields && fields[key].Str? then Some(fields[key].s) else None
  }

  function RefForField(raw: string, key: string): Read<Option<LdgrRef>> {
    match ParseRef(raw)
    case None => Read(None, [InvalidRef(key, raw)])
    case Some(reference) => Read(Some(reference), [])
  }

  function OptionalRef(fields: map<string, Json>, key: string): Read<Option<LdgrRef>> {
    if key in fields && fields[key].Str? then RefForField(fields[key].s, key) else Read(None, [])
  }

  function Listed<T>(value: Option<T>): seq<T> {
    if value.Some? then [value.value] else []
  }

  /** The references of a list; what is not a string is passed over. */
  function RefsOf(items: seq<Json>, key: string): Read<seq<LdgrRef>> {
    if items == [] then Read([], [])
    else
      var front, last := RefsOf(items[..|items| - 1], key), items[|items| - 1];
      if !last.Str? then front
      else
        var read := RefForField(last.s, key);
        Read(front.value + Listed(read.value), front.diagnostics + read.diagnostics)
  }

  function RefList(fields: map<string, Json>, key: string): Read<seq<LdgrRef>> {
    if key !in fields then Read([], [])
    else
      match fields[key]
      case Array(items) => RefsOf(items, key)
      case Str(raw) =>
        var read := RefForField(raw, key);
        Read(Listed(read.value), read.diagnostics)
      case _ => Read([], [WrongType(key)])
  }

  function StringsOf(items: seq<Json>): seq<string> {
    if items == [] then []
    else
      StringsOf(items[..|items| - 1]) + if items[|items| - 1].Str? then [items[|items| - 1].s] else []
  }

  function StringList(fields: map<string, Json>, key: string): Read<seq<string>> {
    if key !in fields then Read([], [])
    else
      match fields[key]
      case Array(items) => Read(StringsOf(items), [])
      case Str(raw) => Read([raw], [])
      case _ => Read([], [WrongType(key)])
  }

  /** A single string reads as the list of that one string, with the same diagnostics. */
  lemma {:induction false} SingleReadsAsList(fields: map<string, Json>, key: string, raw: string)
    ensures RefList(fields[key := Str(raw)], key) == RefList(fields[key := Array([Str(raw)])], key)
    ensures StringList(fields[key := Str(raw)], key) == StringList(fields[key := Array([Str(raw)])], key)
    ensures StringList(fields[key := Str(raw)], key) == Read([raw], [])
  {
    var items := [Str(raw)];
    assert items[..0] == [] && RefsOf(items[..0], key) == Read([], []) && StringsOf(items[..0]) == [];
    var read := RefForField(raw, key);
    assert [] + Listed(read.value) == Listed(read.value) && [] + read.diagnostics == read.diagnostics;
    assert StringsOf(items) == [raw];
    assert StringList(fields[key := Array(items)], key) == Read(StringsOf(items), []);
  }

  // ---------------------------------------------------------------------------
  // Kinds

  /** Every kind has a name of its own. */
  ghost predicate NamesKinds(names: KindNames) {
    && (forall kind: DocumentKind :: kind in names)
    && (forall a, b :: a in names && b in names && names[a] == names[b] ==> a == b)
  }

  const KINDS: seq<DocumentKind> := [
    Spec, Epoch, Ticket, WorkItem, Artifact, Decision, Claim, Validation, RunReport, Graph, TicketIndex, BatchState]

  /** The first kind of a list that has this name. */
  function KindNamed(names: KindNames, kinds: seq<DocumentKind>, raw: string): Option<DocumentKind> {
    if kinds == [] then None
    else if kinds[0] in names && names[kinds[0]] == raw then Some(kinds[0])
    else KindNamed(names, kinds[1..], raw)
  }

  lemma {:induction false} NamedKind(names: KindNames, kinds: seq<DocumentKind>, raw: string, kind: DocumentKind)
    requires NamesKinds(names) && kind in kinds
    ensures KindNamed(names, kinds, raw) == Some(kind) <==> names[kind] == raw
  {
    if kinds[0] != kind {
      assert kinds == [kinds[0]] + kinds[1..];
      NamedKind(names, kinds[1..], raw, kind);
    } else if kinds[1..] != [] {
      NamedKindIsNamed(names, kinds[1..], raw);
    }
  }

  lemma {:induction false} NamedKindIsNamed(names: KindNames, kinds: seq<DocumentKind>, raw: string)
    ensures match KindNamed(names, kinds, raw)
            case None => true
            case Some(kind) => kind in names && names[kind] == raw
  {
    if kinds != [] {
      NamedKindIsNamed(names, kinds[1..], raw);
    }
  }

  lemma {:induction false} EveryKindListed(kind: DocumentKind)
    ensures kind in KINDS
  {
    match kind
    case Spec => assert KINDS[0] == kind;
    case Epoch => assert KINDS[1] == kind;
    case Ticket => assert KINDS[2] == kind;
    case WorkItem => assert KINDS[3] == kind;
    case Artifact => assert KINDS[4] == kind;
    case Decision => assert KINDS[5] == kind;
    case Claim => assert KINDS[6] == kind;
    case Validation => assert KINDS[7] == kind;
    case RunReport => assert KINDS[8] == kind;
    case Graph => assert KINDS[9] == kind;
    case TicketIndex => assert KINDS[10] == kind;
    case BatchState => assert KINDS[11] == kind;
  }

  // ---------------------------------------------------------------------------
  // The whole metadata

  function AllKeys(keys: Keys): seq<string> {
    [keys.ldgrDoc, keys.kind, keys.id, keys.schema, keys.status, keys.created, keys.updated, keys.parent,
     keys.dependsOn, keys.produces, keys.tags]
  }

  predicate KeysDistinct(keys: Keys) {
    var all := AllKeys(keys);
    forall i, j :: 0 <= i < j < |all| ==> all[i] != all[j]
  }

  predicate Contains(s: string, needle: string) {
    Find(s, 0, needle).Some?
  }

  const DEFAULT: Metadata := Metadata(0, Ticket, [], [], None, None, None, None, [], [], [], map[])

  function Extra(keys: Keys, fields: map<string, Json>): map<string, Json> {
    map key | key in fields && key !in AllKeys(keys) :: fields[key]
  }

  function OrEmpty(s: Option<string>): string {
    if s.Some? then s.value else []
  }

  function ReadDoc(keys: Keys, fields: map<string, Json>): Read<nat> {
    var read := GetU64(fields, keys.ldgrDoc);
    var n := if read.value.Some? then read.value.value else 0;
    Read(n, read.diagnostics + if n != 1 then [NotOne] else [])
  }

  function ReadKind(keys: Keys, names: KindNames, fields: map<string, Json>): Read<DocumentKind> {
    var read := GetString(fields, keys.kind);
    if read.value.None? then Read(Ticket, read.diagnostics)
    else
      match KindNamed(names, KINDS, read.value.value)
      case None => Read(Ticket, read.diagnostics + [UnknownKind(read.value.value)])
      case Some(kind) => Read(kind, read.diagnostics)
  }

  function ReadId(keys: Keys, fields: map<string, Json>): Read<string> {
    var read := GetString(fields, keys.id);
    var id := OrEmpty(read.value);
    Read(id, read.diagnostics + if id == [] then [EmptyId] else [])
  }

  function ReadSchema(keys: Keys, fields: map<string, Json>, kindName: string): Read<string> {
    var read := GetString(fields, keys.schema);
    var schema := OrEmpty(read.value);
    Read(schema,
         read.diagnostics
         + if schema == [] then [EmptySchema] else if !Contains(schema, kindName) then [SchemaMismatch] else [])
  }

  ghost function ParseFields(keys: Keys, names: KindNames, fields: map<string, Json>): Read<Metadata>
    requires NamesKinds(names)
  {
    var doc, kind, id := ReadDoc(keys, fields), ReadKind(keys, names, fields), ReadId(keys, fields);
    var schema := ReadSchema(keys, fields, names[kind.value]);
    var parent, dependsOn := OptionalRef(fields, keys.parent), RefList(fields, keys.dependsOn);
    var produces, tags := RefList(fields, keys.produces), StringList(fields, keys.tags);
    Read(
      Metadata(doc.value, kind.value, id.value, schema.value, OptionalString(fields, keys.status),
               OptionalString(fields, keys.created), OptionalString(fields, keys.updated), parent.value,
               dependsOn.value, produces.value, tags.value, Extra(keys, fields)),
      doc.diagnostics + kind.diagnostics + id.diagnostics + schema.diagnostics + parent.diagnostics
      + dependsOn.diagnostics + produces.diagnostics + tags.diagnostics)
  }

  ghost function ParseValue(keys: Keys, names: KindNames, value: Option<Json>): Read<Metadata>
    requires NamesKinds(names)
  {
    if value.Some? && value.value.Object? then ParseFields(keys, names, value.value.fields)
    else Read(DEFAULT, [FrontmatterMissing])
  }

  // ---------------------------------------------------------------------------
  // The printer

  datatype Entry = Entry(key: string, value: Option<Json>)

  function TextOf(s: Option<string>): Option<Json> {
    if s.Some? then Some(Str(s.value)) else None
  }

  function TextsOf(strings: seq<string>): (items: seq<Json>)
    ensures |items| == |strings| && forall i :: 0 <= i < |strings| ==> items[i] == Str(strings[i])
  {
    seq(|strings|, i requires 0 <= i < |strings| => Str(strings[i]))
  }

  function RefStrings(references: seq<LdgrRef>): (strings: seq<string>)
    ensures |strings| == |references| && forall i :: 0 <= i < |references| ==> strings[i] == RefString(references[i])
  {
    seq(|references|, i requires 0 <= i < |references| => RefString(references[i]))
  }

  /** Empty lists are left out. */
  function ListOf(strings: seq<string>): Option<Json> {
    if strings == [] then None else Some(Array(TextsOf(strings)))
  }

  /** The known fields, in order, with the value each is given, if any. */
  function Entries(keys: Keys, names: KindNames, m: Metadata): (entries: seq<Entry>)
    requires m.kind in names
    ensures |entries| == |AllKeys(keys)| && forall i :: 0 <= i < |entries| ==> entries[i].key == AllKeys(keys)[i]
  {
    [Entry(keys.ldgrDoc, Some(Number(Unsigned(m.ldgrDoc)))), Entry(keys.kind, Some(Str(names[m.kind]))),
     Entry(keys.id, Some(Str(m.id))), Entry(keys.schema, Some(Str(m.schema))), Entry(keys.status, TextOf(m.status)),
     Entry(keys.created, TextOf(m.created)), Entry(keys.updated, TextOf(m.updated)),
     Entry(keys.parent, if m.parent.Some? then Some(Str(RefString(m.parent.value))) else None),
     Entry(keys.dependsOn, ListOf(RefStrings(m.dependsOn))), Entry(keys.produces, ListOf(RefStrings(m.produces))),
     Entry(keys.tags, ListOf(m.tags))]
  }

  function Filled(entries: seq<Entry>): map<string, Json> {
    if entries == [] then map[]
    else
      var front, last := Filled(entries[..|entries| - 1]), entries[|entries| - 1];
      if last.value.Some? then front[last.key := last.value.value] else front
  }

  /** The fields of metadata; extra fields are written last, over known ones of the same name. */
  function Print(keys: Keys, names: KindNames, m: Metadata): map<string, Json>
    requires m.kind in names
  {
    Filled(Entries(keys, names, m)) + m.extra
  }

  // ---------------------------------------------------------------------------
  // Printing and parsing

  /** Metadata that the frontmatter can carry. */
  ghost predicate WellFormed(keys: Keys, names: KindNames, m: Metadata)
    requires NamesKinds(names)
  {
    && m.ldgrDoc == 1 && m.id != [] && m.schema != [] && Contains(m.schema, names[m.kind])
    && (m.parent.Some? ==> RefOk(m.parent.value))
    && (forall i :: 0 <= i < |m.dependsOn| ==> RefOk(m.dependsOn[i]))
    && (forall i :: 0 <= i < |m.produces| ==> RefOk(m.produces[i]))
    && (forall key :: key in m.extra ==> key !in AllKeys(keys))
  }

  lemma {:induction false} ReadRefIsOk(raw: string, key: string)
    ensures var read := RefForField(raw, key);
            && (read.value.Some? ==> RefOk(read.value.value) && read.diagnostics == [])
            && (read.value.None? ==> read.diagnostics != [])
  {
    ParsedRefPrints(raw);
  }

  lemma {:induction false} ReadRefsAreOk(items: seq<Json>, key: string)
    ensures forall i :: 0 <= i < |RefsOf(items, key).value| ==> RefOk(RefsOf(items, key).value[i])
  {
    if items != [] {
      var last := items[|items| - 1];
      ReadRefsAreOk(items[..|items| - 1], key);
      if last.Str? {
        ReadRefIsOk(last.s, key);
      }
    }
  }

  lemma {:induction false} ReadListIsOk(fields: map<string, Json>, key: string)
    ensures forall i :: 0 <= i < |RefList(fields, key).value| ==> RefOk(RefList(fields, key).value[i])
  {
    if key in fields {
      match fields[key]
      case Array(items) => ReadRefsAreOk(items, key);
      case Str(raw) => ReadRefIsOk(raw, key);
      case _ =>
    }
  }

  /** What parses without a diagnostic is well-formed. */
  lemma {:induction false} ParsedIsWellFormed(keys: Keys, names: KindNames, fields: map<string, Json>)
    requires NamesKinds(names) && ParseFields(keys, names, fields).diagnostics == []
    ensures WellFormed(keys, names, ParseFields(keys, names, fields).value)
  {
    var doc, kind, id := ReadDoc(keys, fields), ReadKind(keys, names, fields), ReadId(keys, fields);
    var schema := ReadSchema(keys, fields, names[kind.value]);
    var m := ParseFields(keys, names, fields).value;
    NoneReported(doc.diagnostics, kind.diagnostics, id.diagnostics, schema.diagnostics,
                 OptionalRef(fields, keys.parent).diagnostics, RefList(fields, keys.dependsOn).diagnostics,
                 RefList(fields, keys.produces).diagnostics, StringList(fields, keys.tags).diagnostics);
    ReadListIsOk(fields, keys.dependsOn);
    ReadListIsOk(fields, keys.produces);
    if keys.parent in fields && fields[keys.parent].Str? {
      ReadRefIsOk(fields[keys.parent].s, keys.parent);
    }
  }

  lemma {:induction false} NoneReported<T>(
    a: seq<T>, b: seq<T>, c: seq<T>, d: seq<T>, e: seq<T>, f: seq<T>, g: seq<T>, h: seq<T>)
    requires a + b + c + d + e + f + g + h == []
    ensures a == [] && b == [] && c == [] && d == [] && e == [] && f == [] && g == [] && h == []
  {
    assert |a + b + c + d + e + f + g + h| == |a| + |b| + |c| + |d| + |e| + |f| + |g| + |h|;
  }

  lemma {:induction false} FilledAt(entries: seq<Entry>, i: nat)
    requires i < |entries| && forall j, k :: 0 <= j < k < |entries| ==> entries[j].key != entries[k].key
    ensures match entries[i].value
            case None => entries[i].key !in Filled(entries)
            case Some(value) => entries[i].key in Filled(entries) && Filled(entries)[entries[i].key] == value
  {
    var front := entries[..|entries| - 1];
    if i < |front| {
      FilledAt(front, i);
    } else {
      FilledOnly(front, entries[i].key);
    }
  }

  lemma {:induction false} FilledOnly(entries: seq<Entry>, key: string)
    requires forall i :: 0 <= i < |entries| ==> entries[i].key != key
    ensures key !in Filled(entries)
  {
    if entries != [] {
      FilledOnly(entries[..|entries| - 1], key);
    }
  }

  /** A known field of a print holds what the metadata says, unless an extra field is in the way. */
  lemma {:induction false} PrintedAt(keys: Keys, names: KindNames, m: Metadata, i: nat)
    requires m.kind in names && KeysDistinct(keys) && i < |AllKeys(keys)|
    requires forall key :: key in m.extra ==> key !in AllKeys(keys)
    ensures var key, value := AllKeys(keys)[i], Entries(keys, names, m)[i].value;
            match value
            case None => key !in Print(keys, names, m)
            case Some(v) => key in Print(keys, names, m) && Print(keys, names, m)[key] == v
  {
    var entries, all := Entries(keys, names, m), AllKeys(keys);
    assert all[i] in all;
    forall j, k | 0 <= j < k < |entries| ensures entries[j].key != entries[k].key {
      assert all[j] != all[k];
    }
    FilledAt(entries, i);
  }

  /** The extra fields of a print are the extra fields. */
  lemma {:induction false} PrintedExtra(keys: Keys, names: KindNames, m: Metadata)
    requires m.kind in names && forall key :: key in m.extra ==> key !in AllKeys(keys)
    ensures Extra(keys, Print(keys, names, m)) == m.extra
  {
    var fields := Print(keys, names, m);
    forall key | key in Extra(keys, fields) ensures key in m.extra {
      FilledOnly(Entries(keys, names, m), key);
    }
  }

  lemma {:induction false} PrintedRefsRead(references: seq<LdgrRef>, key: string)
    requires forall i :: 0 <= i < |references| ==> RefOk(references[i])
    ensures RefsOf(TextsOf(RefStrings(references)), key) == Read(references, [])
  {
    if references != [] {
      var n := |references| - 1;
      var front := references[..n];
      PrintedRefsRead(front, key);
      PrintedRefParses(references[n]);
      assert TextsOf(RefStrings(references))[..n] == TextsOf(RefStrings(front));
      assert front + [references[n]] == references;
    }
  }

  lemma {:induction false} PrintedStringsRead(strings: seq<string>)
    ensures StringsOf(TextsOf(strings)) == strings
  {
    if strings != [] {
      var n := |strings| - 1;
      PrintedStringsRead(strings[..n]);
      assert TextsOf(strings)[..n] == TextsOf(strings[..n]);
      assert strings[..n] + [strings[n]] == strings;
    }
  }

  /** Reading back a printed list, absent if it is empty. */
  lemma {:induction false} PrintedListReads(fields: map<string, Json>, key: string, references: seq<LdgrRef>)
    requires forall i :: 0 <= i < |references| ==> RefOk(references[i])
    requires match ListOf(RefStrings(references))
             case None => key !in fields
             case Some(v) => key in fields && fields[key] == v
    ensures RefList(fields, key) == Read(references, [])
  {
    PrintedRefsRead(references, key);
    assert |RefStrings(references)| == |references|;
  }

  lemma {:induction false} PrintedTagsRead(fields: map<string, Json>, key: string, tags: seq<string>)
    requires match ListOf(tags)
             case None => key !in fields
             case Some(v) => key in fields && fields[key] == v
    ensures StringList(fields, key) == Read(tags, [])
  {
    PrintedStringsRead(tags);
  }

  lemma {:induction false} PrintedRequiredRead(keys: Keys, names: KindNames, m: Metadata)
    requires NamesKinds(names) && KeysDistinct(keys) && WellFormed(keys, names, m)
    ensures var fields := Print(keys, names, m);
            && ReadDoc(keys, fields) == Read(1, []) && ReadKind(keys, names, fields) == Read(m.kind, [])
            && ReadId(keys, fields) == Read(m.id, [])
            && ReadSchema(keys, fields, names[m.kind]) == Read(m.schema, [])
  {
    PrintedAt(keys, names, m, 0);
    PrintedAt(keys, names, m, 1);
    PrintedAt(keys, names, m, 2);
    PrintedAt(keys, names, m, 3);
    EveryKindListed(m.kind);
    NamedKind(names, KINDS, names[m.kind], m.kind);
  }

  lemma {:induction false} PrintedOptionalRead(keys: Keys, names: KindNames, m: Metadata)
    requires NamesKinds(names) && KeysDistinct(keys) && WellFormed(keys, names, m)
    ensures var fields := Print(keys, names, m);
            && OptionalString(fields, keys.status) == m.status
            && OptionalString(fields, keys.created) == m.created
            && OptionalString(fields, keys.updated) == m.updated
            && OptionalRef(fields, keys.parent) == Read(m.parent, [])
  {
    PrintedAt(keys, names, m, 4);
    PrintedAt(keys, names, m, 5);
    PrintedAt(keys, names, m, 6);
    PrintedAt(keys, names, m, 7);
    if m.parent.Some? {
      PrintedRefParses(m.parent.value);
    }
  }

  lemma {:induction false} PrintedListsRead(keys: Keys, names: KindNames, m: Metadata)
    requires NamesKinds(names) && KeysDistinct(keys) && WellFormed(keys, names, m)
    ensures var fields := Print(keys, names, m);
            && RefList(fields, keys.dependsOn) == Read(m.dependsOn, [])
            && RefList(fields, keys.produces) == Read(m.produces, [])
            && StringList(fields, keys.tags) == Read(m.tags, [])
  {
    PrintedAt(keys, names, m, 8);
    PrintedAt(keys, names, m, 9);
    PrintedAt(keys, names, m, 10);
    var fields := Print(keys, names, m);
    PrintedListReads(fields, keys.dependsOn, m.dependsOn);
    PrintedListReads(fields, keys.produces, m.produces);
    PrintedTagsRead(fields, keys.tags, m.tags);
  }

  /** Printing and parsing gives metadata back without a diagnostic exactly when it is well-formed. */
  lemma {:induction false} PrintParses(keys: Keys, names: KindNames, m: Metadata)
    requires NamesKinds(names) && KeysDistinct(keys)
    ensures ParseFields(keys, names, Print(keys, names, m)) == Read(m, []) <==> WellFormed(keys, names, m)
  {
    if WellFormed(keys, names, m) {
      PrintedRequiredRead(keys, names, m);
      PrintedOptionalRead(keys, names, m);
      PrintedListsRead(keys, names, m);
      PrintedExtra(keys, names, m);
    }
    if ParseFields(keys, names, Print(keys, names, m)) == Read(m, []) {
      ParsedIsWellFormed(keys, names, Print(keys, names, m));
    }
  }

  /** Whatever parses without a diagnostic is given back by printing and parsing again. */
  lemma {:induction false} ParsePrintsBack(keys: Keys, names: KindNames, value: Option<Json>)
    requires NamesKinds(names) && KeysDistinct(keys) && ParseValue(keys, names, value).diagnostics == []
    ensures var m := ParseValue(keys, names, value).value;
            ParseValue(keys, names, Some(Object(Print(keys, names, m)))) == Read(m, [])
  {
    var fields := value.value.fields;
    ParsedIsWellFormed(keys, names, fields);
    PrintParses(keys, names, ParseFields(keys, names, fields).value);
  }
}
