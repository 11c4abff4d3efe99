/** `src/queen.js`, the earlier revision of the directives. Its table
    configuration and type resolution agree with `src/hive/types.js`
    (module `Directives`); its create resolver writes the row itself, and
    keys the row by a fresh id even when the input brings its own key. */
module Queen {
  import opened Text
  import opened Json
  import opened Hive
  import opened Directives

  /** `visitObject` of this revision: the declared key column first, then
      the `pk_column` and `table_name` overrides. The registry ends up as
      with `Directives.Registry.VisitObject`. */
  method VisitObject(reg: Registry, t: ObjectType, args: TableArgs)
    modifies reg
    ensures reg.tables == old(reg.tables)[t.name := ConfigFor(t, args)]
    ensures reg.lctypemap == old(reg.lctypemap)[ToLower(t.name) := t.name]
    ensures reg.types == old(reg.types)[t.name := WithSystem(t.fields)]
    ensures reg.schemaName == old(reg.schemaName) && reg.resolvers == old(reg.resolvers)
    ensures old(reg.Valid()) ==> reg.Valid()
  {
    var pkColumn := FindIdField(t.fields);
    if Given(args.pkColumn) {
      pkColumn := args.pkColumn.value;
    }
    var tableName := t.name;
    if Given(args.tableName) {
      tableName := args.tableName.value;
    }
    var fields := WithSystem(t.fields);
    var cfg := TableConfig(t.name, tableName, pkColumn, Names(fields), None);
    assert cfg == ConfigFor(t, args);
    if reg.Valid() {
      RegisterKeepsConsistent(reg.tables, reg.lctypemap, t, args);
    }
    reg.types := reg.types[t.name := fields];
    reg.tables := reg.tables[t.name := cfg];
    reg.lctypemap := reg.lctypemap[ToLower(t.name) := t.name];
  }

  // ---------------------------------------------------------------------
  // the create resolver

  /** `forDB` of this revision: the fresh id under the key column only when
      the input has no key, then every declared field the input has. */
  function QueenRecord(pkColumn: string, thingId: Id, fields: seq<string>, input: Doc): Doc
  {
    map k | k in (if pkColumn in input then {} else {pkColumn}) + (set f | f in fields && f in input) ::
      if k in fields && k in input then input[k] else JStr(thingId)
  }

  /** What the record holds: the declared fields of the input, and the
      fresh id only in place of a missing key. An input key that is not a
      declared field is dropped. */
  lemma QueenRecordContents(pkColumn: string, thingId: Id, fields: seq<string>, input: Doc)
    ensures var d := QueenRecord(pkColumn, thingId, fields, input);
      (forall k :: k in d <==> (k == pkColumn && pkColumn !in input) || (k in fields && k in input)) &&
      (forall k :: k in fields && k in input ==> d[k] == input[k]) &&
      (pkColumn !in input ==> d[pkColumn] == JStr(thingId))
  {
  }

  /** The record agrees with the one `insertType` writes except when the
      input has a key that is not a declared field. */
  lemma QueenRecordAgrees(pkColumn: string, thingId: Id, fields: seq<string>, input: Doc)
    ensures pkColumn !in input ==>
      QueenRecord(pkColumn, thingId, fields, input) == Record(pkColumn, JStr(thingId), fields, input)
    ensures pkColumn in input && pkColumn in fields ==>
      QueenRecord(pkColumn, thingId, fields, input) == Record(pkColumn, input[pkColumn], fields, input)
    ensures pkColumn in input && pkColumn !in fields ==>
      pkColumn !in QueenRecord(pkColumn, thingId, fields, input)
  {
  }

  /** The loop that fills `forDB`. */
  method BuildQueenRecord(pkColumn: string, thingId: Id, fields: seq<string>, input: Doc) returns (forDB: Doc)
    ensures forDB == QueenRecord(pkColumn, thingId, fields, input)
  {
    forDB := map[];
    if pkColumn !in input {
      forDB := forDB[pkColumn := JStr(thingId)];
    }
    var i := 0;
    while i < |fields|
      invariant 0 <= i <= |fields|
      invariant forDB == QueenRecord(pkColumn, thingId, fields[..i], input)
    {
      var f := fields[i];
      assert fields[..i + 1] == fields[..i] + [f];
      QueenRecordStep(pkColumn, thingId, fields[..i], input, f);
      if f in input {
        forDB := forDB[f := input[f]];
      }
      i := i + 1;
    }
    assert fields[..i] == fields;
  }

  /** One more declared field adds its input value, if the input has one. */
  lemma QueenRecordStep(pkColumn: string, thingId: Id, fields: seq<string>, input: Doc, f: string)
    ensures QueenRecord(pkColumn, thingId, fields + [f], input) ==
      if f in input then QueenRecord(pkColumn, thingId, fields, input)[f := input[f]]
      else QueenRecord(pkColumn, thingId, fields, input)
  {
    var a := QueenRecord(pkColumn, thingId, fields + [f], input);
    var b := QueenRecord(pkColumn, thingId, fields, input);
    var c := if f in input then b[f := input[f]] else b;
    assert forall k :: k in fields + [f] <==> k in fields || k == f;
    assert a.Keys == c.Keys;
  }

  /** The rows after a create: a new row under the fresh id, created now,
      never modified, with the record as its data. */
  function Created(rows: map<Id, Row>, cfg: TableConfig, input: Doc, thingId: Id, now: string): map<Id, Row>
  {
    rows[thingId := Row(QueenRecord(cfg.pkColumn, thingId, cfg.fields, input), now, None, cfg.typeName)]
  }

  /** The create resolver: throws without an input object; otherwise
      inserts the record under the fresh id (no upsert, no global lookup)
      and re-reads the row by that id. The type name written is the one
      the table is configured for, which is the target type's name in a
      consistent registry. */
  method Create(field: CreateField, args: map<string, Json>, table: Table, thingId: Id, now: string)
    returns (r: Result<Doc, DirectiveError>)
    requires table.name == field.config.tableName
    requires thingId !in table.rows
    modifies table
    ensures field.inputName !in args || !args[field.inputName].JObj? ==>
      r == Err(MissingInput(field.inputName)) && table.rows == old(table.rows)
    ensures field.inputName in args && args[field.inputName].JObj? && !IsUuid(thingId) ==>
      r == Err(Store(NotUuid(thingId))) && table.rows == old(table.rows)
    ensures field.inputName in args && args[field.inputName].JObj? && IsUuid(thingId) ==>
      table.rows == Created(old(table.rows), field.config, args[field.inputName].fields, thingId, now) &&
      r == Ok(ApplySystem(table.rows[thingId]))
  {
    if field.inputName !in args || !args[field.inputName].JObj? {
      return Err(MissingInput(field.inputName));
    }
    if !IsUuid(thingId) {
      return Err(Store(NotUuid(thingId)));
    }
    var input := args[field.inputName].fields;
    var cfg := field.config;
    var forDB := BuildQueenRecord(cfg.pkColumn, thingId, cfg.fields, input);
    table.rows := table.rows[thingId := Row(forDB, now, None, cfg.typeName)];
    var found := table.GetItem(thingId);
    r := Ok(found.value.value);
  }

  /** A create never touches an existing row, and the new row is the only
      one added. */
  lemma CreateAddsOneRow(rows: map<Id, Row>, cfg: TableConfig, input: Doc, thingId: Id, now: string)
    requires thingId !in rows
    ensures Created(rows, cfg, input, thingId, now).Keys == rows.Keys + {thingId}
    ensures forall id :: id in rows ==> Created(rows, cfg, input, thingId, now)[id] == rows[id]
    ensures |Created(rows, cfg, input, thingId, now).Keys| == |rows.Keys| + 1
  {
    assert Created(rows, cfg, input, thingId, now).Keys == rows.Keys + {thingId};
  }

  /** The key quirk: when the input brings its own key `p`, the row is
      still stored under the fresh id, so looking `p` up finds nothing new,
      while the stored document says its key is `p`; `insertType` instead
      stores the row under `p`. */
  lemma OwnKeyIsNotTheRowKey(rows: map<Id, Row>, cfg: TableConfig, input: Doc, thingId: Id, now: string, p: Id)
    requires thingId !in rows && p !in rows && p != thingId
    requires cfg.pkColumn in input && input[cfg.pkColumn] == JStr(p) && cfg.pkColumn in cfg.fields
    ensures p !in Created(rows, cfg, input, thingId, now)
    ensures Created(rows, cfg, input, thingId, now)[thingId].data[cfg.pkColumn] == JStr(p)
    ensures !ExclusiveAssignment(cfg) && IsUuid(p) ==>
      Inserted(rows, cfg, input, thingId, now).Ok? && Inserted(rows, cfg, input, thingId, now).value.pk == p
    ensures !IsUuid(p) ==> Inserted(rows, cfg, input, thingId, now).Err?
  {
    QueenRecordContents(cfg.pkColumn, thingId, cfg.fields, input);
  }

  // ---------------------------------------------------------------------
  // the list resolver

  /** What the list field of this revision returns: `{data: rows}`. */
  datatype RowsPayload = RowsPayload(data: seq<Doc>)

  /** The list resolver of this revision: every row of the table, as the
      store yields them, without page info. */
  method ResolveList(tables: map<string, TableConfig>, target: string, table: Table, scan: seq<Id>)
    returns (r: Result<RowsPayload, DirectiveError>)
    requires target in tables ==> table.name == tables[target].tableName
    requires IsScan(table.rows, scan)
    ensures target !in tables ==> r == Err(UnknownTable(target))
    ensures target in tables ==> r == Ok(RowsPayload(Docs(table.rows, scan)))
  {
    if target !in tables {
      return Err(UnknownTable(target));
    }
    var rows: seq<Doc> := [];
    var i := 0;
    while i < |scan|
      invariant 0 <= i <= |scan|
      invariant rows == Docs(table.rows, scan[..i])
    {
      rows := rows + [ApplySystem(table.rows[scan[i]])];
      i := i + 1;
    }
    assert scan[..i] == scan;
    r := Ok(RowsPayload(rows));
  }

  /** Listing every row is the unpaged read of every row: each stored
      object once. */
  lemma ListIsEveryRow(rows: map<Id, Row>, scan: seq<Id>)
    requires IsScan(rows, scan)
    ensures Selection(rows, scan, All, None) == Ok(scan)
    ensures forall id :: id in rows <==> id in scan
  {
    AllMatchesScan(rows, scan);
  }

  lemma {:induction false} AllMatchesScan(rows: map<Id, Row>, scan: seq<Id>)
    requires forall i :: 0 <= i < |scan| ==> scan[i] in rows
    ensures MatchingIds(rows, scan, All) == scan
  {
    if |scan| > 0 {
      var tail := scan[1..];
      assert forall i :: 0 <= i < |tail| ==> tail[i] in rows;
      AllMatchesScan(rows, tail);
      assert Selects(All, rows[scan[0]].data);
      assert MatchingIds(rows, scan, All) == [scan[0]] + MatchingIds(rows, tail, All);
      assert scan == [scan[0]] + tail;
    }
  }
}
