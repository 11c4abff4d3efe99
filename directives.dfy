/** The schema directives of `src/hive/types.js`: how `@beehive` and
    `@beehiveTable` derive each table's configuration and the lower-case type
    map, how interfaces and unions resolve an object's concrete type, and how
    the create, list, query, get and relation fields dispatch to the table
    operations of module `Hive`. The schema registry (`schema._beehive`) is a
    `Registry` object that the visitors update. */
module Directives {
  import opened Text
  import opened Json
  import opened Paging
  import opened Hive

  // ---------------------------------------------------------------------
  // GraphQL types and fields

  /** A GraphQL type reference: a named type, a list of a type, or a
      non-null type. */
  datatype GqlType = Named(name: string) | ListOf(elem: GqlType) | NonNull(inner: GqlType)

  /** How GraphQL prints a type reference (`String(type)`), e.g. `ID!`, `[Thing!]`. */
  function TypeText(t: GqlType): string
  {
    match t
    case Named(n) => n
    case ListOf(e) => "[" + TypeText(e) + "]"
    case NonNull(i) => TypeText(i) + "!"
  }

  /** One field of an object type, in declaration order. */
  datatype FieldDef = FieldDef(name: string, typ: GqlType)

  /** An object or interface type: its name and `_fields`. */
  datatype ObjectType = ObjectType(name: string, fields: seq<FieldDef>)

  function Names(fields: seq<FieldDef>): (r: seq<string>)
    ensures |r| == |fields|
    ensures forall i :: 0 <= i < |fields| ==> r[i] == fields[i].name
  {
    seq(|fields|, i requires 0 <= i < |fields| => fields[i].name)
  }

  /** The arguments of `@beehiveTable`. */
  datatype TableArgs = TableArgs(tableName: Option<string>, pkColumn: Option<string>, resolveTypeField: Option<string>)

  /** A directive argument JavaScript reads as true: given and not empty. */
  predicate Given(arg: Option<string>)
  {
    arg.Some? && arg.value != ""
  }

  // ---------------------------------------------------------------------
  // findIdField

  /** The key column a type declares: the first field, in declaration
      order, whose type prints as `ID!`, and `id` when there is none. */
  function IdField(fields: seq<FieldDef>): (r: string)
    ensures (forall i :: 0 <= i < |fields| ==> TypeText(fields[i].typ) != "ID!") ==> r == "id"
    ensures (exists i :: 0 <= i < |fields| && TypeText(fields[i].typ) == "ID!") ==>
      exists i :: 0 <= i < |fields| && TypeText(fields[i].typ) == "ID!" && fields[i].name == r &&
        forall j :: 0 <= j < i ==> TypeText(fields[j].typ) != "ID!"
  {
    if |fields| == 0 then "id"
    else if TypeText(fields[0].typ) == "ID!" then fields[0].name
    else
      var r := IdField(fields[1..]);
      assert forall i :: 1 <= i < |fields| ==> fields[i] == fields[1..][i - 1];
      r
  }

  /** `findIdField`: the search loop over the type's fields. */
  method FindIdField(fields: seq<FieldDef>) returns (name: string)
    ensures name == IdField(fields)
  {
    var i := 0;
    while i < |fields|
      invariant 0 <= i <= |fields|
      invariant IdField(fields) == IdField(fields[i..])
    {
      if TypeText(fields[i].typ) == "ID!" {
        return fields[i].name;
      }
      assert fields[i..][1..] == fields[i + 1..];
      i := i + 1;
    }
    return "id";
  }

  /** The two cases of the `findIdField` unit tests. */
  lemma IdFieldExamples()
    ensures IdField([FieldDef("jim", Named("pants")), FieldDef("id8", NonNull(Named("ID"))), FieldDef("idiot", Named("ID"))]) == "id8"
    ensures IdField([FieldDef("jim", Named("pants")), FieldDef("idiot", Named("ID"))]) == "id"
  {
    var one := [FieldDef("jim", Named("pants")), FieldDef("id8", NonNull(Named("ID"))), FieldDef("idiot", Named("ID"))];
    assert one[1..] == [FieldDef("id8", NonNull(Named("ID"))), FieldDef("idiot", Named("ID"))];
    var two := [FieldDef("jim", Named("pants")), FieldDef("idiot", Named("ID"))];
    assert two[1..] == [FieldDef("idiot", Named("ID"))];
    assert two[1..][1..] == [];
  }

  // ---------------------------------------------------------------------
  // visitObject

  /** The type of the `system` field the visitor adds. */
  const SystemType := NonNull(Named("System"))

  /** `type._fields.system = ...`: an existing `system` field keeps its
      place and takes the new type; otherwise it is added last. */
  function WithSystem(fields: seq<FieldDef>): (r: seq<FieldDef>)
    ensures Names(r) == if "system" in Names(fields) then Names(fields) else Names(fields) + ["system"]
    ensures forall i :: 0 <= i < |r| ==> r[i].name == "system" ==> r[i].typ == SystemType
    ensures forall i :: 0 <= i < |r| && r[i].name != "system" ==> i < |fields| && r[i] == fields[i]
  {
    if "system" in Names(fields) then
      seq(|fields|, i requires 0 <= i < |fields| => if fields[i].name == "system" then FieldDef("system", SystemType) else fields[i])
    else
      fields + [FieldDef("system", SystemType)]
  }

  /** The `table_config` `@beehiveTable` derives for a type: the given
      `table_name` or the type's name, the given `pk_column` or the declared
      key column, and the type's fields once `system` is added. */
  function ConfigFor(t: ObjectType, args: TableArgs): (cfg: TableConfig)
    ensures cfg.typeName == t.name
    ensures cfg.tableName == if Given(args.tableName) then args.tableName.value else t.name
    ensures cfg.pkColumn == if Given(args.pkColumn) then args.pkColumn.value else IdField(t.fields)
    ensures "system" in cfg.fields && forall f :: f in Names(t.fields) ==> f in cfg.fields
  {
    TableConfig(
      t.name,
      if Given(args.tableName) then args.tableName.value else t.name,
      if Given(args.pkColumn) then args.pkColumn.value else IdField(t.fields),
      Names(WithSystem(t.fields)),
      None)
  }

  /** Every entry of the lower-case type map leads from a lower-cased name
      to a registered type of that name, and every table is registered
      under its own type's name. */
  predicate Consistent(tables: map<string, TableConfig>, lctypemap: map<string, string>)
  {
    (forall k :: k in lctypemap ==> lctypemap[k] in tables && ToLower(lctypemap[k]) == k) &&
    (forall n :: n in tables ==> tables[n].typeName == n)
  }

  /** Registering a type keeps the registry consistent. */
  lemma RegisterKeepsConsistent(tables: map<string, TableConfig>, lctypemap: map<string, string>, t: ObjectType, args: TableArgs)
    requires Consistent(tables, lctypemap)
    ensures Consistent(tables[t.name := ConfigFor(t, args)], lctypemap[ToLower(t.name) := t.name])
  {
  }

  /** Why a directive throws. */
  datatype DirectiveError =
    | UnknownTable(typeName: string)   // no `@beehiveTable` for the target type
    | MissingInput(inputName: string)  // the create field got no input object
    | NotText(field: string)           // `resolve_type_field` does not hold text
    | NoSystem                         // an object whose `system` is missing or null
    | Store(error: Error)              // the table operation threw

  /** `schema._beehive` and the types the visitors changed. */
  class Registry {
    var schemaName: string
    var tables: map<string, TableConfig>
    var lctypemap: map<string, string>
    /** `type._fields` of every visited type. */
    var types: map<string, seq<FieldDef>>
    /** The `resolve_type_field` of every visited interface. */
    var resolvers: map<string, Option<string>>

    predicate Valid()
      reads this
    {
      Consistent(tables, lctypemap)
    }

    /** `visitSchema`: the given schema name or `beehive`, and nothing registered. */
    constructor VisitSchema(schemaNameArg: Option<string>)
      ensures schemaName == if Given(schemaNameArg) then schemaNameArg.value else "beehive"
      ensures tables == map[] && lctypemap == map[] && types == map[] && resolvers == map[]
      ensures Valid()
    {
      schemaName := if Given(schemaNameArg) then schemaNameArg.value else "beehive";
      tables := map[];
      lctypemap := map[];
      types := map[];
      resolvers := map[];
    }

    /** `visitObject`: registers the type's table under its name and its
        lower-cased name in the type map, and adds the `system` field. */
    method VisitObject(t: ObjectType, args: TableArgs)
      modifies this
      ensures tables == old(tables)[t.name := ConfigFor(t, args)]
      ensures lctypemap == old(lctypemap)[ToLower(t.name) := t.name]
      ensures types == old(types)[t.name := WithSystem(t.fields)]
      ensures schemaName == old(schemaName) && resolvers == old(resolvers)
      ensures old(Valid()) ==> Valid()
    {
      var pkColumn := if args.pkColumn.Some? then args.pkColumn.value else "";
      if !Given(args.pkColumn) {
        pkColumn := FindIdField(t.fields);
      }
      var tableName := t.name;
      if Given(args.tableName) {
        tableName := args.tableName.value;
      }
      var fields := WithSystem(t.fields);
      var cfg := TableConfig(t.name, tableName, pkColumn, Names(fields), None);
      assert cfg == ConfigFor(t, args);
      if Valid() {
        RegisterKeepsConsistent(tables, lctypemap, t, args);
      }
      types := types[t.name := fields];
      tables := tables[t.name := cfg];
      lctypemap := lctypemap[ToLower(t.name) := t.name];
    }

    /** `visitInterface`: an interface gets a table like an object type,
        and a type resolver reading `resolve_type_field`. */
    method VisitInterface(t: ObjectType, args: TableArgs)
      modifies this
      ensures tables == old(tables)[t.name := ConfigFor(t, args)]
      ensures lctypemap == old(lctypemap)[ToLower(t.name) := t.name]
      ensures types == old(types)[t.name := WithSystem(t.fields)]
      ensures resolvers == old(resolvers)[t.name := args.resolveTypeField]
      ensures schemaName == old(schemaName)
      ensures old(Valid()) ==> Valid()
    {
      VisitObject(t, args);
      resolvers := resolvers[t.name := args.resolveTypeField];
    }
  }

  // ---------------------------------------------------------------------
  // type resolution

  /** `obj.system.type_name`: the type the object was stored as. Reading a
      property of a missing or null `system` throws; any other value that
      is not an object has no `type_name`. */
  function SystemTypeName(obj: Doc): (r: Result<Option<string>, DirectiveError>)
    ensures r.Err? <==> "system" !in obj || obj["system"].JNull?
    ensures r.Ok? && r.value.Some? <==>
      "system" in obj && obj["system"].JObj? && "type_name" in obj["system"].fields &&
      obj["system"].fields["type_name"].JStr?
    ensures r.Ok? && r.value.Some? ==> obj["system"].fields["type_name"] == JStr(r.value.value)
  {
    if "system" !in obj || obj["system"].JNull? then Err(NoSystem)
    else if !obj["system"].JObj? then Ok(None)
    else
      var sys := obj["system"].fields;
      if "type_name" in sys && sys["type_name"].JStr? then Ok(Some(sys["type_name"].s)) else Ok(None)
  }

  /** A union resolves every object a table operation returns to the type
      its row was stored under. */
  lemma UnionResolvesStoredType(row: Row)
    ensures SystemTypeName(ApplySystem(row)) == Ok(Some(row.typeName))
  {
    SystemFields(row);
  }

  /** The interface `resolveType`: with a `resolve_type_field`, the
      registered type whose lower-cased name is the lower-cased text of
      that field (none when no type has it); without one, the stored type. */
  function ResolveInterface(lctypemap: map<string, string>, resolveField: Option<string>, obj: Doc): (r: Result<Option<string>, DirectiveError>)
    ensures !Given(resolveField) ==> r == SystemTypeName(obj)
    ensures Given(resolveField) ==>
      (r.Err? <==> resolveField.value !in obj || !obj[resolveField.value].JStr?)
    ensures Given(resolveField) && r.Ok? ==>
      (r.value.Some? <==> ToLower(obj[resolveField.value].s) in lctypemap) &&
      (r.value.Some? ==> r.value.value == lctypemap[ToLower(obj[resolveField.value].s)])
  {
    if Given(resolveField) then
      var f := resolveField.value;
      if f in obj && obj[f].JStr? then
        var key := ToLower(obj[f].s);
        Ok(if key in lctypemap then Some(lctypemap[key]) else None)
      else Err(NotText(f))
    else SystemTypeName(obj)
  }

  /** In a consistent registry an interface resolves to a registered type
      whose name differs from the field's text at most in case. */
  lemma ResolvedIsRegistered(tables: map<string, TableConfig>, lctypemap: map<string, string>, resolveField: Option<string>, obj: Doc)
    requires Consistent(tables, lctypemap)
    requires Given(resolveField)
    requires ResolveInterface(lctypemap, resolveField, obj).Ok?
    requires ResolveInterface(lctypemap, resolveField, obj).value.Some?
    ensures var n := ResolveInterface(lctypemap, resolveField, obj).value.value;
      n in tables && tables[n].typeName == n && ToLower(n) == ToLower(obj[resolveField.value].s)
  {
  }

  /** Once a type is visited, any spelling of its name in the field
      resolves to it. */
  lemma VisitedTypeResolves(reg: map<string, string>, t: ObjectType, resolveField: Option<string>, obj: Doc)
    requires Given(resolveField) && resolveField.value in obj && obj[resolveField.value].JStr?
    requires ToLower(obj[resolveField.value].s) == ToLower(t.name)
    ensures ResolveInterface(reg[ToLower(t.name) := t.name], resolveField, obj) == Ok(Some(t.name))
  {
  }

  // ---------------------------------------------------------------------
  // create

  /** The argument the create field reads: the type's name with its first
      letter in lower case. */
  function InputName(typeName: string): (r: string)
    ensures |r| == |typeName|
    ensures |typeName| > 0 ==> r[0] == LowerChar(typeName[0]) && r[1..] == typeName[1..]
  {
    if |typeName| == 0 then "" else [LowerChar(typeName[0])] + typeName[1..]
  }

  lemma InputNameExamples()
    ensures InputName("Nest") == "nest"
    ensures InputName("RelatedThing") == "relatedThing"
    ensures InputName("Assignment") == "assignment"
  {
  }

  /** A create field as `@beehiveCreate` sets it up. */
  datatype CreateField = CreateField(inputName: string, config: TableConfig)

  /** Setting up a create field fails at schema build time when the target
      type has no table. */
  function CreateDirective(tables: map<string, TableConfig>, target: string): (r: Result<CreateField, DirectiveError>)
    ensures r.Err? <==> target !in tables
    ensures r.Err? ==> r.error == UnknownTable(target)
    ensures r.Ok? ==> r.value.inputName == InputName(target) && r.value.config == tables[target]
  {
    if target in tables then Ok(CreateField(InputName(target), tables[target])) else Err(UnknownTable(target))
  }

  /** The create resolver: throws without an input object, and otherwise
      inserts it with `insertType`. Arguments are the GraphQL arguments of
      the field; an input object argument is an object or null. */
  method ResolveCreate(field: CreateField, args: map<string, Json>, table: Table, lookup: GlobalLookup, freshId: Id, now: string)
    returns (r: Result<Doc, DirectiveError>)
    requires table.name == field.config.tableName
    requires freshId !in table.rows
    modifies table, lookup
    ensures field.inputName !in args || !args[field.inputName].JObj? ==>
      r == Err(MissingInput(field.inputName)) && table.rows == old(table.rows) && lookup.entries == old(lookup.entries)
    ensures field.inputName in args && args[field.inputName].JObj? ==>
      var ins := Inserted(old(table.rows), field.config, args[field.inputName].fields, freshId, now);
      (ins.Err? ==>
         r == Err(Store(ins.error)) && table.rows == old(table.rows) && lookup.entries == old(lookup.entries)) &&
      (ins.Ok? ==>
         table.rows == ins.value.rows && ins.value.pk in table.rows &&
         lookup.entries == Register(old(lookup.entries), ins.value.pk, field.config.typeName) &&
         r == Ok(ApplySystem(table.rows[ins.value.pk])))
  {
    if field.inputName !in args || !args[field.inputName].JObj? {
      return Err(MissingInput(field.inputName));
    }
    var stored := table.InsertType(field.config, lookup, args[field.inputName].fields, freshId, now);
    r := if stored.Err? then Err(Store(stored.error)) else Ok(stored.value);
  }

  // ---------------------------------------------------------------------
  // list, query, get

  /** What the list field returns: its `data` is the whole result of
      `listType`, data and page info together. */
  datatype ListPayload = ListPayload(data: Listing)

  /** The list resolver. */
  method ResolveList(tables: map<string, TableConfig>, target: string, page: Option<PageInfo>, table: Table, scan: seq<Id>)
    returns (r: Result<ListPayload, DirectiveError>)
    requires target in tables ==> table.name == tables[target].tableName
    requires IsScan(table.rows, scan)
    ensures target !in tables ==> r == Err(UnknownTable(target))
    ensures target in tables && Selection(table.rows, scan, All, page).Err? ==>
      r == Err(Store(Selection(table.rows, scan, All, page).error))
    ensures target in tables && Selection(table.rows, scan, All, page).Ok? ==>
      var ids := Selection(table.rows, scan, All, page).value;
      r == Ok(ListPayload(Listing(Docs(table.rows, ids), GetPageInfoResult(page, |ids|))))
  {
    if target !in tables {
      return Err(UnknownTable(target));
    }
    var listing := table.ListType(page, scan);
    r := if listing.Err? then Err(Store(listing.error)) else Ok(ListPayload(listing.value));
  }

  /** The query resolver builds no query yet: its `data` is always empty. */
  function ResolveQuery(args: map<string, Json>): (data: seq<Doc>)
    ensures |data| == 0
  {
    []
  }

  /** The get resolver: the object whose key is the argument named like the
      table's key column, or null. Without that argument the key is sent
      as null and matches no row; a key that is not a UUID is the store's
      error. */
  method ResolveGet(tables: map<string, TableConfig>, target: string, args: map<string, string>, table: Table)
    returns (r: Result<Option<Doc>, DirectiveError>)
    requires target in tables ==> table.name == tables[target].tableName
    ensures target !in tables ==> r == Err(UnknownTable(target))
    ensures target in tables && tables[target].pkColumn !in args ==> r == Ok(None)
    ensures target in tables && tables[target].pkColumn in args ==>
      var key := args[tables[target].pkColumn];
      (!IsUuid(key) ==> r == Err(Store(NotUuid(key)))) &&
      (IsUuid(key) ==>
         r.Ok? && (r.value.Some? <==> key in table.rows) &&
         (r.value.Some? ==> r.value.value == ApplySystem(table.rows[key])))
  {
    if target !in tables {
      return Err(UnknownTable(target));
    }
    var pk := tables[target].pkColumn;
    if pk !in args {
      return Ok(None);
    }
    var found := table.GetItem(args[pk]);
    r := if found.Err? then Err(Store(found.error)) else Ok(found.value);
  }

  // ---------------------------------------------------------------------
  // relations

  /** `Reflect.has(field.type, "ofType")`: every list and every non-null
      type has an `ofType`; only a bare named type has none. */
  predicate HasOfType(t: GqlType)
  {
    !t.Named?
  }

  /** A relation field as `@beehiveRelation` sets it up: the target type,
      the type the field belongs to, the field's name and type, and
      `target_field_name`. */
  datatype RelationField = RelationField(target: string, owner: string, fieldName: string, typ: GqlType, targetField: Option<string>)

  /** What a relation field resolves to: the related rows, or one object. */
  datatype RelationResult = RelatedRows(docs: seq<Doc>) | Target(doc: Option<Doc>)

  /** The text `target_field_name` puts in the containment query. */
  function TargetFieldText(targetField: Option<string>): string
  {
    if targetField.Some? then targetField.value else "undefined"
  }

  /** The relation resolver. A field whose type has an `ofType` fetches the
      target rows that hold this object's key under `target_field_name`;
      any other fetches the target object whose key this object holds in
      the field. */
  method ResolveRelation(tables: map<string, TableConfig>, rel: RelationField, obj: Doc, table: Table, scan: seq<Id>)
    returns (r: Result<RelationResult, DirectiveError>)
    requires rel.target in tables ==> table.name == tables[rel.target].tableName
    requires IsScan(table.rows, scan)
    ensures rel.target !in tables ==> r == Err(UnknownTable(rel.target))
    ensures rel.target in tables && HasOfType(rel.typ) && rel.owner !in tables ==> r == Err(UnknownTable(rel.owner))
    ensures rel.target in tables && HasOfType(rel.typ) && rel.owner in tables ==>
      var value := Interpolate(Lookup(obj, tables[rel.owner].pkColumn));
      var ids := MatchingIds(table.rows, scan, Related(TargetFieldText(rel.targetField), value));
      r == Ok(RelatedRows(Docs(table.rows, ids))) &&
      forall id :: id in ids <==> id in table.rows && RelatesTo(table.rows[id].data, TargetFieldText(rel.targetField), value)
    ensures rel.target in tables && !HasOfType(rel.typ) ==>
      match Lookup(obj, rel.fieldName)
      case Some(JStr(pk)) =>
        r == if !IsUuid(pk) then Err(Store(NotUuid(pk)))
             else Ok(Target(if pk in table.rows then Some(ApplySystem(table.rows[pk])) else None))
      case Some(JNull) => r == Ok(Target(None))
      case None => r == Ok(Target(None))
      case _ => r == Err(Store(InvalidKey))
  {
    if rel.target !in tables {
      return Err(UnknownTable(rel.target));
    }
    if HasOfType(rel.typ) {
      if rel.owner !in tables {
        return Err(UnknownTable(rel.owner));
      }
      var value := Interpolate(Lookup(obj, tables[rel.owner].pkColumn));
      var docs := table.GetRelatedItems(TargetFieldText(rel.targetField), value, None, scan);
      r := Ok(RelatedRows(docs.value));
    } else {
      var key := Lookup(obj, rel.fieldName);
      if key.None? || key.value == JNull {
        r := Ok(Target(None));
      } else if key.value.JStr? {
        var found := table.GetItem(key.value.s);
        r := if found.Err? then Err(Store(found.error)) else Ok(Target(found.value));
      } else {
        r := Err(Store(InvalidKey));
      }
    }
  }

  /** A non-null object field such as `assigned: Held!` has an `ofType`,
      so its relation is resolved as a list of related rows, not as the
      object whose key the field holds. */
  lemma NonNullRelationIsList(name: string)
    ensures HasOfType(NonNull(Named(name)))
    ensures !HasOfType(Named(name))
  {
  }
}
