/** The document tables of `src/hive/pgsql.js`. Every GraphQL type with a
    table keeps its objects as rows of a JSONB `data` column keyed by a
    primary key, with `created`, `last_modified` and `type_name` columns
    beside it, and a global lookup table records which type each key was
    first stored under. A `Table` holds one table's rows and a
    `GlobalLookup` the lookup; each statement the code sends is one method,
    and each transaction either happens completely or not at all. The
    clock and `uuidv4` are parameters (`now`, `freshId`). */
module Hive {
  import opened Text
  import opened Json
  import opened Filter
  import opened Paging

  /** A primary key as the code passes it to the store. The key columns
      have type `UUID`, so the store accepts a key only when `IsUuid`. */
  type Id = string

  predicate IsHexDigit(c: char)
  {
    '0' <= c <= '9' || 'a' <= c <= 'f' || 'A' <= c <= 'F'
  }

  /** What is left of `s` once bytes `i` to 15 of a UUID are read from it,
      each as two hex digits, with one `-` skipped after each odd byte but
      the last; None when a byte is not two hex digits. */
  function UuidRest(s: string, i: nat): Option<string>
    requires i <= 16
    decreases 16 - i
  {
    if i == 16 then Some(s)
    else if |s| < 2 || !IsHexDigit(s[0]) || !IsHexDigit(s[1]) then None
    else UuidRest(SkipHyphen(s[2..], i), i + 1)
  }

  /** The text after byte `i`, less the `-` that may follow it. */
  function SkipHyphen(t: string, i: nat): string
  {
    if |t| > 0 && t[0] == '-' && i % 2 == 1 && i < 15 then t[1..] else t
  }

  /** The store's input syntax of type `uuid`: 32 hex digits in either
      case, a `-` allowed after any group of four but the last, the whole
      optionally in braces. Any other text is "invalid input syntax for
      type uuid". */
  predicate IsUuid(s: string)
  {
    if |s| > 0 && s[0] == '{' then UuidRest(s[1..], 0) == Some("}")
    else UuidRest(s, 0) == Some("")
  }

  /** The extra configuration of an assignment table, as `insertType` reads it. */
  datatype AssignmentConfig = AssignmentConfig(
    assignedField: string,
    startField: string,
    endField: string,
    exclusive: bool)

  /** `table_config`: the type stored, its table, its key column and the
      names of its declared fields in declaration order. */
  datatype TableConfig = TableConfig(
    typeName: string,
    tableName: string,
    pkColumn: string,
    fields: seq<string>,
    assignment: Option<AssignmentConfig>)

  predicate ExclusiveAssignment(cfg: TableConfig)
  {
    cfg.assignment.Some? && cfg.assignment.value.exclusive
  }

  /** One stored row. `lastModified` is None until the row is first changed. */
  datatype Row = Row(data: Doc, created: string, lastModified: Option<string>, typeName: string)

  /** Why an operation throws. */
  datatype Error =
    | NotFound(pk: Id)        // patch and list-field operations on a missing object
    | ReadBackFailed(pk: Id)  // `putType` on a missing key: the re-read row is undefined
    | InvalidKey              // a primary key that is not text
    | NotUuid(key: string)    // a primary key the store cannot read as a UUID
    | InvalidStart            // `new Date(start).toISOString()` throws
    | NotAList                // a list-field operation on a field that is not an array
    | BadFilter               // the store rejects the rendered filter
    | BadPage(reason: PageError)

  function Lookup(d: Doc, k: string): Option<Json>
  {
    if k in d then Some(d[k]) else None
  }

  // ---------------------------------------------------------------------
  // objects as the resolvers see them

  /** The `system` object: creation time, last change (null if never) and type. */
  function SystemObject(row: Row): Json
  {
    JObj(map[
      "created" := JStr(row.created),
      "last_modified" := (if row.lastModified.Some? then JStr(row.lastModified.value) else JNull),
      "type_name" := JStr(row.typeName)])
  }

  /** `applySystem`: the row's document with its `system` key set from the
      row's columns; every other key is the document's own. */
  function ApplySystem(row: Row): (d: Doc)
    ensures "system" in d && d["system"] == SystemObject(row)
    ensures forall k :: k != "system" ==> (k in d <==> k in row.data)
    ensures forall k :: k != "system" && k in row.data ==> d[k] == row.data[k]
  {
    row.data["system" := SystemObject(row)]
  }

  /** The `system` object carries exactly the row's three columns. */
  lemma SystemFields(row: Row)
    ensures SystemObject(row).fields.Keys == {"created", "last_modified", "type_name"}
    ensures SystemObject(row).fields["created"] == JStr(row.created)
    ensures SystemObject(row).fields["type_name"] == JStr(row.typeName)
    ensures SystemObject(row).fields["last_modified"] == JNull <==> row.lastModified.None?
  {
  }

  // ---------------------------------------------------------------------
  // the record written to `data`

  /** `forDB`: the key under the key column, then every declared field that
      the input has, copied from the input (a declared key column present
      in the input is thus taken from the input). */
  function Record(pkColumn: string, pk: Json, fields: seq<string>, input: Doc): Doc
  {
    map k | k in {pkColumn} + (set f | f in fields && f in input) ::
      if k in fields && k in input then input[k] else pk
  }

  /** What `forDB` holds, key by key. */
  lemma RecordContents(pkColumn: string, pk: Json, fields: seq<string>, input: Doc)
    ensures forall k :: k in Record(pkColumn, pk, fields, input) <==> k == pkColumn || (k in fields && k in input)
    ensures forall k :: k in fields && k in input ==> Record(pkColumn, pk, fields, input)[k] == input[k]
    ensures pkColumn !in fields || pkColumn !in input ==> Record(pkColumn, pk, fields, input)[pkColumn] == pk
  {
  }

  /** The loop that builds `forDB`. */
  method BuildRecord(pkColumn: string, pk: Json, fields: seq<string>, input: Doc) returns (forDB: Doc)
    ensures forDB == Record(pkColumn, pk, fields, input)
  {
    forDB := map[pkColumn := pk];
    var i := 0;
    while i < |fields|
      invariant 0 <= i <= |fields|
      invariant forDB == Record(pkColumn, pk, fields[..i], input)
    {
      var f := fields[i];
      assert fields[..i + 1] == fields[..i] + [f];
      if f in input {
        forDB := forDB[f := input[f]];
      }
      i := i + 1;
    }
    assert fields[..i] == fields;
  }

  // ---------------------------------------------------------------------
  // the global lookup

  /** `setGlobalLookup`: insert if absent (`ON CONFLICT DO NOTHING`). */
  function Register(entries: map<Id, string>, uid: Id, typeName: string): (e: map<Id, string>)
    ensures uid in e && e[uid] == (if uid in entries then entries[uid] else typeName)
    ensures forall k :: k != uid ==> (k in e <==> k in entries)
    ensures forall k :: k != uid && k in entries ==> e[k] == entries[k]
  {
    if uid in entries then entries else entries[uid := typeName]
  }

  /** The type a key was first registered with is the one it keeps. */
  lemma FirstTypeWins(entries: map<Id, string>, uid: Id, first: string, second: string)
    requires uid !in entries
    ensures Register(Register(entries, uid, first), uid, second)[uid] == first
  {
  }

  class GlobalLookup {
    var entries: map<Id, string>

    constructor ()
      ensures entries == map[]
    {
      entries := map[];
    }

    /** `setGlobalLookup`: a key that is not a UUID is rejected, and the
        transaction rolls back. */
    method SetGlobalLookup(uid: Id, typeName: string) returns (r: Result<(), Error>)
      modifies this
      ensures IsUuid(uid) ==> r == Ok(()) && entries == Register(old(entries), uid, typeName)
      ensures !IsUuid(uid) ==> r == Err(NotUuid(uid)) && entries == old(entries)
    {
      if !IsUuid(uid) {
        return Err(NotUuid(uid));
      }
      if uid !in entries {
        entries := entries[uid := typeName];
      }
      r := Ok(());
    }

    /** `inferType`: the registered type, or null; a key that is not a
        UUID is an error. */
    method InferType(uid: Id) returns (r: Result<Option<string>, Error>)
      ensures r.Err? <==> !IsUuid(uid)
      ensures r.Err? ==> r.error == NotUuid(uid)
      ensures r.Ok? ==> (r.value.Some? <==> uid in entries)
      ensures r.Ok? && r.value.Some? ==> r.value.value == entries[uid]
    {
      if !IsUuid(uid) {
        r := Err(NotUuid(uid));
      } else if uid in entries {
        r := Ok(Some(entries[uid]));
      } else {
        r := Ok(None);
      }
    }
  }

  // ---------------------------------------------------------------------
  // insert, with the exclusive-assignment closeout

  /** `new Date(start).toISOString()` for a start already in canonical
      form: a string is kept, null is the epoch, a missing start throws. */
  function StartText(v: Option<Json>): Result<string, Error>
  {
    match v
    case Some(JStr(s)) => Ok(s)
    case Some(JNull) => Ok("1970-01-01T00:00:00.000Z")
    case _ => Err(InvalidStart)
  }

  /** The closeout filter for a new record: its assigned value as the code
      interpolates it, and its start. */
  function CloseoutFor(a: AssignmentConfig, forDB: Doc, start: string): Expr
  {
    CloseoutFilter(a.assignedField, a.startField, a.endField, Interpolate(Lookup(forDB, a.assignedField)), start)
  }

  /** `data = data || '{"end": "start"}', last_modified = CURRENT_TIMESTAMP`. */
  function Close(row: Row, a: AssignmentConfig, start: string, now: string): Row
  {
    row.(data := row.data[a.endField := JStr(start)], lastModified := Some(now))
  }

  /** The closeout `UPDATE`: every row the filter selects is closed at `start`. */
  function Closeout(rows: map<Id, Row>, a: AssignmentConfig, forDB: Doc, start: string, now: string): map<Id, Row>
  {
    map id | id in rows ::
      if Eval(CloseoutFor(a, forDB, start), rows[id].data) then Close(rows[id], a, start, now) else rows[id]
  }

  /** The `INSERT ... ON CONFLICT DO UPDATE SET data = $2`: a new row gets
      the creation time and type; an existing one only new data. */
  function Upsert(rows: map<Id, Row>, pk: Id, forDB: Doc, typeName: string, now: string): (r: map<Id, Row>)
    ensures r.Keys == rows.Keys + {pk}
    ensures r[pk].data == forDB
    ensures pk in rows ==>
      r[pk].created == rows[pk].created && r[pk].lastModified == rows[pk].lastModified && r[pk].typeName == rows[pk].typeName
    ensures pk !in rows ==> r[pk].created == now && r[pk].lastModified.None? && r[pk].typeName == typeName
    ensures forall id :: id in rows && id != pk ==> r[id] == rows[id]
  {
    if pk in rows then rows[pk := rows[pk].(data := forDB)]
    else rows[pk := Row(forDB, now, None, typeName)]
  }

  /** The record after the closeout step and the rows it leaves. */
  datatype Staged = Staged(forDB: Doc, rows: map<Id, Row>)

  function Stage(rows: map<Id, Row>, cfg: TableConfig, forDB: Doc, now: string): Result<Staged, Error>
  {
    if !ExclusiveAssignment(cfg) then Ok(Staged(forDB, rows))
    else
      var a := cfg.assignment.value;
      match StartText(Lookup(forDB, a.startField))
      case Err(e) => Err(e)
      case Ok(start) =>
        var stamped := forDB[a.startField := JStr(start)];
        Ok(Staged(stamped, Closeout(rows, a, stamped, start, now)))
  }

  /** The key used when the input does not name one. */
  function KeyValue(cfg: TableConfig, input: Doc, freshId: Id): Json
  {
    if cfg.pkColumn in input then input[cfg.pkColumn] else JStr(freshId)
  }

  datatype Insertion = Insertion(pk: Id, rows: map<Id, Row>)

  /** The committed outcome of `insertType`. */
  function Inserted(rows: map<Id, Row>, cfg: TableConfig, input: Doc, freshId: Id, now: string): Result<Insertion, Error>
  {
    var pk := KeyValue(cfg, input, freshId);
    match Stage(rows, cfg, Record(cfg.pkColumn, pk, cfg.fields, input), now)
    case Err(e) => Err(e)
    case Ok(st) =>
      if !pk.JStr? then Err(InvalidKey)
      else if !IsUuid(pk.s) then Err(NotUuid(pk.s))
      else Ok(Insertion(pk.s, Upsert(st.rows, pk.s, st.forDB, cfg.typeName, now)))
  }

  // ---------------------------------------------------------------------
  // replace and patch

  /** The `UPDATE` of `putType`: data, type and last change replaced,
      creation time kept; nothing happens for a missing key. */
  function Put(rows: map<Id, Row>, cfg: TableConfig, pk: Id, input: Doc, now: string): map<Id, Row>
  {
    if pk in rows then
      rows[pk := Row(Record(cfg.pkColumn, JStr(pk), cfg.fields, input), rows[pk].created, Some(now), cfg.typeName)]
    else rows
  }

  // ---------------------------------------------------------------------
  // list fields

  datatype ListInput = One(item: string) | Many(items: seq<string>)

  /** A single string stands for a one-element list. */
  function Items(input: ListInput): seq<string>
  {
    match input
    case One(s) => [s]
    case Many(ss) => ss
  }

  /** The list stored under a field: missing or null is empty. */
  function ListField(current: Doc, target: string): Result<seq<Json>, Error>
  {
    if target !in current || current[target] == JNull then Ok([])
    else if current[target].JArr? then Ok(current[target].items)
    else Err(NotAList)
  }

  function Strings(items: seq<string>): (r: seq<Json>)
    ensures |r| == |items|
    ensures forall i :: 0 <= i < |items| ==> r[i] == JStr(items[i])
  {
    seq(|items|, i requires 0 <= i < |items| => JStr(items[i]))
  }

  /** `input.filter(el => !vector.includes(el))`. */
  function KeepAbsent(items: seq<string>, vector: seq<Json>): (r: seq<string>)
    ensures forall s :: s in r <==> s in items && JStr(s) !in vector
  {
    if |items| == 0 then []
    else (if JStr(items[0]) in vector then [] else [items[0]]) + KeepAbsent(items[1..], vector)
  }

  /** `vector.concat(...)`: the list followed by the new items. */
  function Appended(vector: seq<Json>, items: seq<string>): seq<Json>
  {
    vector + Strings(KeepAbsent(items, vector))
  }

  /** `vector.filter(el => !input.includes(el))`. */
  function Removed(vector: seq<Json>, items: seq<string>): (r: seq<Json>)
    ensures forall e :: e in r <==> e in vector && !(e.JStr? && e.s in items)
  {
    if |vector| == 0 then []
    else (if vector[0].JStr? && vector[0].s in items then [] else [vector[0]]) + Removed(vector[1..], items)
  }

  function AppendedDoc(current: Doc, target: string, input: ListInput): Result<Doc, Error>
  {
    match ListField(current, target)
    case Err(e) => Err(e)
    case Ok(v) => Ok(current[target := JArr(Appended(v, Items(input)))])
  }

  function RemovedDoc(current: Doc, target: string, input: ListInput): Result<Doc, Error>
  {
    match ListField(current, target)
    case Err(e) => Err(e)
    case Ok(v) => Ok(current[target := JArr(Removed(v, Items(input)))])
  }

  // ---------------------------------------------------------------------
  // reads

  /** Which rows a read statement selects. */
  datatype Selector =
    | All                                             // `listType`
    | Where(e: Expr)                                  // `queryType`
    | Related(field: string, value: string)           // `getRelatedItems`: data @> {"f": "v"}
    | RelatedWhere(field: string, value: string, e: Expr)  // `getRelatedItemsFiltered`
    | Containing(query: Doc)                          // `simpleQueryType`: data @> query

  predicate SelectorExecutable(sel: Selector)
  {
    match sel
    case Where(e) => Executable(e)
    case RelatedWhere(_, _, e) => Executable(e)
    case _ => true
  }

  predicate RelatesTo(doc: Doc, field: string, value: string)
  {
    field in doc && doc[field] == JStr(value)
  }

  predicate Selects(sel: Selector, doc: Doc)
    requires SelectorExecutable(sel)
  {
    match sel
    case All => true
    case Where(e) => Eval(e, doc)
    case Related(f, v) => RelatesTo(doc, f, v)
    case RelatedWhere(f, v, e) => RelatesTo(doc, f, v) && Eval(e, doc)
    case Containing(q) => DocContains(doc, q)
  }

  /** `data @> '{"f": "v"}'` is the containment test it is written as. */
  lemma RelatedIsContainment(doc: Doc, f: string, v: string)
    ensures Selects(Related(f, v), doc) <==> DocContains(doc, map[f := JStr(v)])
  {
    SingleKeyContainment(doc, f, v);
  }

  /** The order the store produces the rows of a table in: every key once. */
  predicate IsScan(rows: map<Id, Row>, scan: seq<Id>)
  {
    (forall i :: 0 <= i < |scan| ==> scan[i] in rows) &&
    (forall id :: id in rows ==> id in scan) &&
    (forall i, j :: 0 <= i < j < |scan| ==> scan[i] != scan[j])
  }

  /** The keys of the selected rows, in scan order. */
  function MatchingIds(rows: map<Id, Row>, scan: seq<Id>, sel: Selector): (ids: seq<Id>)
    requires SelectorExecutable(sel)
    requires forall i :: 0 <= i < |scan| ==> scan[i] in rows
    ensures forall i :: 0 <= i < |ids| ==> ids[i] in rows
    ensures forall id :: id in ids <==> id in scan && Selects(sel, rows[id].data)
  {
    if |scan| == 0 then []
    else (if Selects(sel, rows[scan[0]].data) then [scan[0]] else []) + MatchingIds(rows, scan[1..], sel)
  }

  /** The keys a read statement returns, or why the store rejects it. */
  function Selection(rows: map<Id, Row>, scan: seq<Id>, sel: Selector, page: Option<PageInfo>): (r: Result<seq<Id>, Error>)
    requires forall i :: 0 <= i < |scan| ==> scan[i] in rows
    ensures r.Ok? ==> forall i :: 0 <= i < |r.value| ==> r.value[i] in rows
  {
    if !SelectorExecutable(sel) then Err(BadFilter)
    else if page.Some? && PageWindow(page.value).Err? then Err(BadPage(PageWindow(page.value).error))
    else
      var ids := MatchingIds(rows, scan, sel);
      Ok(if page.None? then ids else Slice(ids, PageWindow(page.value).value))
  }

  /** The objects the resolvers get: `applySystem` of each selected row. */
  function Docs(rows: map<Id, Row>, ids: seq<Id>): (r: seq<Doc>)
    requires forall i :: 0 <= i < |ids| ==> ids[i] in rows
    ensures |r| == |ids|
    ensures forall i :: 0 <= i < |ids| ==> r[i] == ApplySystem(rows[ids[i]])
  {
    seq(|ids|, i requires 0 <= i < |ids| => ApplySystem(rows[ids[i]]))
  }

  /** `{data, page_info}` of `listType`, `queryType` and `simpleQueryType`. */
  datatype Listing = Listing(data: seq<Doc>, pageInfo: PageInfoResult)

  /** The rows in the order a statement asks for. */
  predicate InOrder(rows: map<Id, Row>, ids: seq<Id>, order: Order)
    requires forall i :: 0 <= i < |ids| ==> ids[i] in rows
  {
    forall i, j :: 0 <= i < j < |ids| ==>
      !Precedes(order, rows[ids[j]].data, rows[ids[j]].created, rows[ids[i]].data, rows[ids[i]].created)
  }

  /** The statement text of `queryType`, up to the schema and table names. */
  function QueryTypeStatement(schemaName: string, tableName: string, query: Option<Expr>, page: Option<PageInfo>): string
  {
    RenderPageInfo(
      "SELECT created, last_modified, data, type_name FROM " + schemaName + "." + tableName +
      "  " + (if query.Some? then "WHERE" else "") + " " + Render(query), page)
  }

  // ---------------------------------------------------------------------
  // one table

  class Table {
    const name: string
    var rows: map<Id, Row>

    constructor (name: string)
      ensures this.name == name && rows == map[]
    {
      this.name := name;
      rows := map[];
    }

    /** Every stored key is in the global lookup. */
    predicate Registered(lookup: GlobalLookup)
      reads this, lookup
    {
      rows.Keys <= lookup.entries.Keys
    }

    /** `insertType`. */
    method InsertType(cfg: TableConfig, lookup: GlobalLookup, input: Doc, freshId: Id, now: string) returns (r: Result<Doc, Error>)
      requires freshId !in rows
      modifies this, lookup
      ensures Inserted(old(rows), cfg, input, freshId, now).Err? ==>
        r == Err(Inserted(old(rows), cfg, input, freshId, now).error) &&
        rows == old(rows) && lookup.entries == old(lookup.entries)
      ensures Inserted(old(rows), cfg, input, freshId, now).Ok? ==>
        var ins := Inserted(old(rows), cfg, input, freshId, now).value;
        rows == ins.rows && ins.pk in rows &&
        lookup.entries == Register(old(lookup.entries), ins.pk, cfg.typeName) &&
        r == Ok(ApplySystem(rows[ins.pk]))
      ensures old(Registered(lookup)) ==> Registered(lookup)
    {
      var pk := KeyValue(cfg, input, freshId);
      var forDB := BuildRecord(cfg.pkColumn, pk, cfg.fields, input);
      var next := rows;
      if ExclusiveAssignment(cfg) {
        var a := cfg.assignment.value;
        var start := StartText(Lookup(forDB, a.startField));
        if start.Err? {
          return Err(start.error);
        }
        forDB := forDB[a.startField := JStr(start.value)];
        next := Closeout(next, a, forDB, start.value, now);
      }
      if !pk.JStr? {
        return Err(InvalidKey);
      }
      if !IsUuid(pk.s) {
        return Err(NotUuid(pk.s));
      }
      next := Upsert(next, pk.s, forDB, cfg.typeName, now);
      rows := next;
      var registered := lookup.SetGlobalLookup(pk.s, cfg.typeName);
      r := Ok(ApplySystem(rows[pk.s]));
    }

    /** `getItem`: the object, or null; a key that is not a UUID is an
        error. */
    method GetItem(pk: Id) returns (r: Result<Option<Doc>, Error>)
      ensures r.Err? <==> !IsUuid(pk)
      ensures r.Err? ==> r.error == NotUuid(pk)
      ensures r.Ok? ==> (r.value.Some? <==> pk in rows)
      ensures r.Ok? && r.value.Some? ==> r.value.value == ApplySystem(rows[pk])
    {
      if !IsUuid(pk) {
        r := Err(NotUuid(pk));
      } else if pk in rows {
        r := Ok(Some(ApplySystem(rows[pk])));
      } else {
        r := Ok(None);
      }
    }

    /** `putType`. A key that is not a UUID fails the `UPDATE`, and nothing
        changes; otherwise the lookup is written even when no row has the
        key. */
    method PutType(cfg: TableConfig, lookup: GlobalLookup, pk: Id, input: Doc, now: string) returns (r: Result<Doc, Error>)
      modifies this, lookup
      ensures !IsUuid(pk) ==> r == Err(NotUuid(pk)) && rows == old(rows) && lookup.entries == old(lookup.entries)
      ensures IsUuid(pk) ==>
        rows == Put(old(rows), cfg, pk, input, now) &&
        lookup.entries == Register(old(lookup.entries), pk, cfg.typeName) &&
        r == if pk in rows then Ok(ApplySystem(rows[pk])) else Err(ReadBackFailed(pk))
      ensures old(Registered(lookup)) ==> Registered(lookup)
    {
      if !IsUuid(pk) {
        return Err(NotUuid(pk));
      }
      var forDB := BuildRecord(cfg.pkColumn, JStr(pk), cfg.fields, input);
      if pk in rows {
        rows := rows[pk := Row(forDB, rows[pk].created, Some(now), cfg.typeName)];
      }
      var registered := lookup.SetGlobalLookup(pk, cfg.typeName);
      if pk in rows {
        r := Ok(ApplySystem(rows[pk]));
      } else {
        r := Err(ReadBackFailed(pk));
      }
    }

    /** `patchType`. */
    method PatchType(cfg: TableConfig, lookup: GlobalLookup, pk: Id, input: Doc, now: string) returns (r: Result<Doc, Error>)
      modifies this, lookup
      ensures !IsUuid(pk) ==> r == Err(NotUuid(pk)) && rows == old(rows) && lookup.entries == old(lookup.entries)
      ensures IsUuid(pk) && old(pk !in rows) ==>
        r == Err(NotFound(pk)) && rows == old(rows) && lookup.entries == old(lookup.entries)
      ensures IsUuid(pk) && old(pk in rows) ==>
        rows == Put(old(rows), cfg, pk, ApplySystem(old(rows)[pk]) + input, now) &&
        lookup.entries == Register(old(lookup.entries), pk, cfg.typeName) &&
        pk in rows && r == Ok(ApplySystem(rows[pk]))
    {
      var current := GetItem(pk);
      if current.Err? {
        return Err(current.error);
      }
      if current.value.None? {
        return Err(NotFound(pk));
      }
      var merged := Overwrite(current.value.value, input);
      r := PutType(cfg, lookup, pk, merged, now);
    }

    /** `appendToListField`. */
    method AppendToListField(cfg: TableConfig, lookup: GlobalLookup, id: Id, target: string, input: ListInput, now: string)
      returns (r: Result<Doc, Error>)
      modifies this, lookup
      ensures !IsUuid(id) ==> r == Err(NotUuid(id)) && rows == old(rows) && lookup.entries == old(lookup.entries)
      ensures IsUuid(id) && old(id !in rows) ==>
        r == Err(NotFound(id)) && rows == old(rows) && lookup.entries == old(lookup.entries)
      ensures IsUuid(id) && old(id in rows) && AppendedDoc(ApplySystem(old(rows)[id]), target, input).Err? ==>
        r == Err(NotAList) && rows == old(rows) && lookup.entries == old(lookup.entries)
      ensures IsUuid(id) && old(id in rows) && AppendedDoc(ApplySystem(old(rows)[id]), target, input).Ok? ==>
        rows == Put(old(rows), cfg, id, AppendedDoc(ApplySystem(old(rows)[id]), target, input).value, now) &&
        lookup.entries == Register(old(lookup.entries), id, cfg.typeName) &&
        id in rows && r == Ok(ApplySystem(rows[id]))
    {
      var current := GetItem(id);
      if current.Err? {
        return Err(current.error);
      }
      if current.value.None? {
        return Err(NotFound(id));
      }
      var vector := ListField(current.value.value, target);
      if vector.Err? {
        return Err(NotAList);
      }
      var added := KeepAbsent(Items(input), vector.value);
      var doc := current.value.value[target := JArr(vector.value + Strings(added))];
      r := PutType(cfg, lookup, id, doc, now);
    }

    /** `deleteFromListField`. */
    method DeleteFromListField(cfg: TableConfig, lookup: GlobalLookup, id: Id, target: string, input: ListInput, now: string)
      returns (r: Result<Doc, Error>)
      modifies this, lookup
      ensures !IsUuid(id) ==> r == Err(NotUuid(id)) && rows == old(rows) && lookup.entries == old(lookup.entries)
      ensures IsUuid(id) && old(id !in rows) ==>
        r == Err(NotFound(id)) && rows == old(rows) && lookup.entries == old(lookup.entries)
      ensures IsUuid(id) && old(id in rows) && RemovedDoc(ApplySystem(old(rows)[id]), target, input).Err? ==>
        r == Err(NotAList) && rows == old(rows) && lookup.entries == old(lookup.entries)
      ensures IsUuid(id) && old(id in rows) && RemovedDoc(ApplySystem(old(rows)[id]), target, input).Ok? ==>
        rows == Put(old(rows), cfg, id, RemovedDoc(ApplySystem(old(rows)[id]), target, input).value, now) &&
        lookup.entries == Register(old(lookup.entries), id, cfg.typeName) &&
        id in rows && r == Ok(ApplySystem(rows[id]))
    {
      var current := GetItem(id);
      if current.Err? {
        return Err(current.error);
      }
      if current.value.None? {
        return Err(NotFound(id));
      }
      var vector := ListField(current.value.value, target);
      if vector.Err? {
        return Err(NotAList);
      }
      var doc := current.value.value[target := JArr(Removed(vector.value, Items(input)))];
      r := PutType(cfg, lookup, id, doc, now);
    }

    /** `deleteType`: the number of rows deleted, or null for none; a key
        that is not a UUID is an error. The global lookup keeps its entry. */
    method DeleteType(pk: Id) returns (r: Result<Option<nat>, Error>)
      modifies this
      ensures !IsUuid(pk) ==> r == Err(NotUuid(pk)) && rows == old(rows)
      ensures IsUuid(pk) ==> rows == old(rows) - {pk}
      ensures IsUuid(pk) ==> r == Ok(if pk in old(rows) then Some(1) else None)
    {
      if !IsUuid(pk) {
        r := Err(NotUuid(pk));
      } else if pk in rows {
        rows := rows - {pk};
        r := Ok(Some(1));
      } else {
        r := Ok(None);
      }
    }

    /** `deleteRelations`: every row holding `value` under `field` is
        deleted; the number deleted, or null for none. */
    method DeleteRelations(field: string, value: string) returns (r: Option<nat>)
      modifies this
      ensures forall id :: id in rows <==> id in old(rows) && !RelatesTo(old(rows)[id].data, field, value)
      ensures forall id :: id in rows ==> rows[id] == old(rows)[id]
      ensures var n := |set id | id in old(rows) && RelatesTo(old(rows)[id].data, field, value)|;
        r == if n > 0 then Some(n) else None
    {
      var matched := set id | id in rows && RelatesTo(rows[id].data, field, value);
      rows := map id | id in rows && id !in matched :: rows[id];
      r := if |matched| > 0 then Some(|matched|) else None;
    }

    /** A read statement: the store selects, orders and limits the rows,
        and the code applies `applySystem` to each in a loop. */
    method Select(sel: Selector, page: Option<PageInfo>, scan: seq<Id>) returns (r: Result<seq<Doc>, Error>)
      requires IsScan(rows, scan)
      ensures Selection(rows, scan, sel, page).Err? ==> r == Err(Selection(rows, scan, sel, page).error)
      ensures Selection(rows, scan, sel, page).Ok? ==> r == Ok(Docs(rows, Selection(rows, scan, sel, page).value))
    {
      var found := Selection(rows, scan, sel, page);
      if found.Err? {
        return Err(found.error);
      }
      var data := ApplySystemEach(found.value);
      r := Ok(data);
    }

    /** The loop that turns each selected row into its object. */
    method ApplySystemEach(ids: seq<Id>) returns (data: seq<Doc>)
      requires forall k :: 0 <= k < |ids| ==> ids[k] in rows
      ensures data == Docs(rows, ids)
    {
      data := [];
      var i := 0;
      while i < |ids|
        invariant 0 <= i <= |ids| && |data| == i
        invariant forall k :: 0 <= k < i ==> data[k] == ApplySystem(rows[ids[k]])
      {
        data := data + [ApplySystem(rows[ids[i]])];
        i := i + 1;
      }
    }

    /** `listType`. */
    method ListType(page: Option<PageInfo>, scan: seq<Id>) returns (r: Result<Listing, Error>)
      requires IsScan(rows, scan)
      ensures Selection(rows, scan, All, page).Err? ==> r == Err(Selection(rows, scan, All, page).error)
      ensures Selection(rows, scan, All, page).Ok? ==>
        var ids := Selection(rows, scan, All, page).value;
        r == Ok(Listing(Docs(rows, ids), GetPageInfoResult(page, |ids|)))
    {
      var data := Select(All, page, scan);
      if data.Err? {
        return Err(data.error);
      }
      r := Ok(Listing(data.value, GetPageInfoResult(page, |data.value|)));
    }

    /** `queryType`: all rows when no filter is given. */
    method QueryType(query: Option<Expr>, page: Option<PageInfo>, scan: seq<Id>) returns (r: Result<Listing, Error>)
      requires IsScan(rows, scan)
      ensures var sel := if query.Some? then Where(query.value) else All;
        (Selection(rows, scan, sel, page).Err? ==> r == Err(Selection(rows, scan, sel, page).error)) &&
        (Selection(rows, scan, sel, page).Ok? ==>
          r == Ok(Listing(Docs(rows, Selection(rows, scan, sel, page).value),
                          GetPageInfoResult(page, |Selection(rows, scan, sel, page).value|))))
    {
      var sel := if query.Some? then Where(query.value) else All;
      var data := Select(sel, page, scan);
      if data.Err? {
        return Err(data.error);
      }
      r := Ok(Listing(data.value, GetPageInfoResult(page, |data.value|)));
    }

    /** `simpleQueryType`: rows whose document contains the query object. */
    method SimpleQueryType(query: Doc, page: Option<PageInfo>, scan: seq<Id>) returns (r: Result<Listing, Error>)
      requires IsScan(rows, scan)
      ensures Selection(rows, scan, Containing(query), page).Err? ==> r == Err(Selection(rows, scan, Containing(query), page).error)
      ensures Selection(rows, scan, Containing(query), page).Ok? ==>
        var ids := Selection(rows, scan, Containing(query), page).value;
        r == Ok(Listing(Docs(rows, ids), GetPageInfoResult(page, |ids|)))
    {
      var data := Select(Containing(query), page, scan);
      if data.Err? {
        return Err(data.error);
      }
      r := Ok(Listing(data.value, GetPageInfoResult(page, |data.value|)));
    }

    /** `getRelatedItems`: the rows holding `value` under `field`, without page info. */
    method GetRelatedItems(field: string, value: string, page: Option<PageInfo>, scan: seq<Id>) returns (r: Result<seq<Doc>, Error>)
      requires IsScan(rows, scan)
      ensures Selection(rows, scan, Related(field, value), page).Err? ==> r == Err(Selection(rows, scan, Related(field, value), page).error)
      ensures Selection(rows, scan, Related(field, value), page).Ok? ==> r == Ok(Docs(rows, Selection(rows, scan, Related(field, value), page).value))
    {
      r := Select(Related(field, value), page, scan);
    }

    /** `getRelatedItemsFiltered`: as `getRelatedItems`, and the filter. */
    method GetRelatedItemsFiltered(field: string, value: string, query: Option<Expr>, page: Option<PageInfo>, scan: seq<Id>)
      returns (r: Result<seq<Doc>, Error>)
      requires IsScan(rows, scan)
      ensures var sel := if query.Some? then RelatedWhere(field, value, query.value) else Related(field, value);
        (Selection(rows, scan, sel, page).Err? ==> r == Err(Selection(rows, scan, sel, page).error)) &&
        (Selection(rows, scan, sel, page).Ok? ==> r == Ok(Docs(rows, Selection(rows, scan, sel, page).value)))
    {
      var sel := if query.Some? then RelatedWhere(field, value, query.value) else Related(field, value);
      r := Select(sel, page, scan);
    }
  }

  /** `for (k of Object.keys(input)) current[k] = input[k]`. */
  method Overwrite(current: Doc, input: Doc) returns (merged: Doc)
    ensures merged == current + input
  {
    merged := current;
    var todo := input.Keys;
    while todo != {}
      invariant todo <= input.Keys
      invariant merged == current + (map k | k in input.Keys - todo :: input[k])
      decreases todo
    {
      var k :| k in todo;
      merged := merged[k := input[k]];
      todo := todo - {k};
    }
    assert (map k | k in input.Keys - todo :: input[k]) == input;
  }
}
