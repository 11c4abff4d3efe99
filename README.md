# graphql-beehive, modelled in Dafny

graphql-beehive turns a GraphQL schema into a document store on
PostgreSQL. Every object type marked `@beehiveTable` becomes a table of rows
`(key, data JSONB, created, last_modified, type_name)`. Field directives
give the type its resolvers:

- `@beehiveCreate` inserts an object;
- `@beehiveList` lists the objects, page by page;
- `@beehiveQuery` returns nothing yet;
- `@beehiveGet` reads one object by its key;
- `@beehiveRelation` follows a key from one object to another, or back;
- `@beehiveUnion` and interfaces resolve a stored object to its type.

The storage layer (`src/hive/pgsql.js`) does several jobs:

- it writes records with an upsert;
- in an exclusive assignment table, it closes the previous open assignment
  of the same thing before it inserts a new one;
- it replaces, patches and deletes objects, and appends to or removes from
  list fields;
- it compiles a filter tree into a `WHERE` clause;
- it compiles a `PaginationInput` into an `ORDER BY`, a clamped `LIMIT` and
  a base64 cursor that carries the next `OFFSET`;
- it keeps a global table that records the type each key was created with.

`src/queen.js` is the earlier revision of the directives. It wrote its rows
itself, without the upsert and without the global lookup.

The project has nine modules:

- `Text`, `Json` and `Base64` hold the string, JSON and buffer semantics the
  source relies on.
- `Filter` holds the filter compiler, together with an evaluator that says
  which documents the rendered condition selects.
- `Paging` holds the pagination compiler, the cursor codec and the window
  of rows the store returns.
- `Hive` holds the table operations. The `Table` class owns a map of rows,
  and the `GlobalLookup` class owns the key-to-type map.
- `HiveProperties` holds what those operations promise.
- `Directives` holds `src/hive/types.js`. The `Registry` class is the
  `_beehive` object the schema visitors fill in.
- `Queen` holds `src/queen.js` where it differs from `src/hive/types.js`.

The database is modelled by the following values:

- **Rows:** a map from key to row.
- **Row order:** a `scan` sequence, the order the store yields the rows in.
- **Fresh keys:** a fresh-key parameter stands for `uuidv4()`.
- **Time:** a `now` parameter stands for `CURRENT_TIMESTAMP`.
- **Transactions:** each transaction is one atomic step.
- **Errors:** a statement the store rejects is an `Err` value. The model
  does not throw.

## Model

| member | source | states |
|---|---|---|
| Hive.ApplySystem | src/hive/pgsql.js:6-14 | the returned object is the row's document with `system` holding the created time, the last change (null if never) and the type name; every other key is the document's own |
| Hive.SystemFields | src/hive/pgsql.js:8-12 | `system` has exactly the three keys `created`, `last_modified`, `type_name`, and `last_modified` is null exactly when the row was never modified |
| Hive.RecordContents | src/hive/pgsql.js:108-117 | the record holds the key column, plus exactly the declared fields the input has, copied from the input; the key column holds the chosen key unless the input supplies a declared key |
| Hive.BuildRecord | src/hive/pgsql.js:108-117 | the loop over the declared fields builds exactly that record |
| Hive.Register | src/hive/pgsql.js:63-83 | the global lookup is insert-if-absent: a new key gets the type, a registered key keeps its type, and other keys are untouched |
| Hive.FirstTypeWins | src/hive/pgsql.js:68-72 | registering a key twice keeps the first type |
| Hive.GlobalLookup.SetGlobalLookup | src/hive/pgsql.js:63-83 | a key the store cannot read as a UUID is an error that changes nothing; otherwise the entries become `Register` of the old entries |
| Hive.GlobalLookup.InferType | src/hive/pgsql.js:85-92 | an error exactly when the key is not a UUID; otherwise a type exactly when the key is registered, and that type is the registered one, else null |
| Hive.Upsert | src/hive/pgsql.js:147-157 | after the upsert the key is present with the record as its data; on conflict the row keeps its creation time, last change and type, a new row is created now with the given type and no last change, and every other row is unchanged |
| Hive.Strings | src/hive/pgsql.js:408-410 | the input strings, as JSON strings, in order |
| Hive.KeepAbsent | src/hive/pgsql.js:413 | keeps exactly the input strings that the stored list does not already hold |
| HiveProperties.KeepAbsentConcat | src/hive/pgsql.js:413 | filtering two inputs one after the other is filtering each, in input order |
| HiveProperties.KeepAbsentKeepsNew | src/hive/pgsql.js:413 | input strings the list does not hold are all kept, in order and with their repetitions |
| HiveProperties.KeepAbsentDropsHeld | src/hive/pgsql.js:413 | input strings the list already holds are all dropped |
| HiveProperties.AppendKeepsRepeats | src/hive/pgsql.js:413 | a string given twice and not yet in the list is appended twice |
| Hive.Removed | src/hive/pgsql.js:428 | keeps exactly the list elements that are not one of the given strings |
| Hive.RelatedIsContainment | src/hive/pgsql.js:193-201 | the relation test selects exactly the documents that contain the one-key object `{field: value}` |
| Hive.MatchingIds | src/hive/pgsql.js:326-336 | the selected keys are the scanned keys whose document satisfies the condition, and all are stored keys |
| Hive.Selection | src/hive/pgsql.js:227-254 | a successful read returns only stored keys |
| Hive.Docs | src/hive/pgsql.js:330-334 | one object per selected row, in order, each being `applySystem` of its row |
| Hive.Table.InsertType | src/hive/pgsql.js:96-167 | the rows become the committed outcome of the insert, which is the closeout when exclusive, then the upsert; on failure (a bad start, a key that is not text or not a UUID) nothing changes; the key is registered in the global lookup; the re-read object is returned; every stored key stays registered |
| Hive.Table.GetItem | src/hive/pgsql.js:180-190 | an error exactly when the key is not a UUID; otherwise an object exactly when the key is stored, and that object is `applySystem` of its row, else null |
| Hive.Table.PutType | src/hive/pgsql.js:353-388 | a key that is not a UUID is an error that changes neither the rows nor the lookup; otherwise the rows become `Put` (data, type and last change replaced), the lookup registers the key even when no row has it, and the result is the re-read object, or an error when the key is not stored |
| Hive.Table.PatchType | src/hive/pgsql.js:391-400 | a key that is not a UUID, or a missing key, is an error that changes nothing; otherwise the stored object merged with the input is put back |
| Hive.Table.AppendToListField | src/hive/pgsql.js:403-416 | a key that is not a UUID, a missing object or a non-list field is an error that changes nothing; otherwise the field becomes the old list followed by the new strings that are not in it, and is put back |
| Hive.Table.DeleteFromListField | src/hive/pgsql.js:419-430 | a key that is not a UUID, a missing object or a non-list field is an error that changes nothing; otherwise the field loses every listed string, and is put back |
| Hive.Table.DeleteType | src/hive/pgsql.js:433-443 | a key that is not a UUID is an error that changes nothing; otherwise the key's row is removed and no other, and the result is 1 when it existed, else null |
| Hive.Table.DeleteRelations | src/hive/pgsql.js:204-214 | removes exactly the rows holding the value under the field, keeps the others unchanged, and reports how many were removed (null for none) |
| Hive.Table.ApplySystemEach | src/hive/pgsql.js:330-333 | the loop returns `applySystem` of each selected row, in the selected order |
| Hive.Table.Select | src/hive/pgsql.js:326-350 | a read returns `applySystem` of the selected rows, or the store's error |
| Hive.Table.ListType | src/hive/pgsql.js:170-177 | all rows, paginated, with the page info of the returned count |
| Hive.Table.QueryType | src/hive/pgsql.js:326-336 | the rows satisfying the filter (all rows without one), paginated, with page info |
| Hive.Table.SimpleQueryType | src/hive/pgsql.js:338-350 | the rows whose document contains the query object, paginated, with page info |
| Hive.Table.GetRelatedItems | src/hive/pgsql.js:193-201 | the rows holding the value under the field, without page info |
| Hive.Table.GetRelatedItemsFiltered | src/hive/pgsql.js:217-225 | the rows holding the value under the field that also satisfy the filter |
| Hive.Overwrite | src/hive/pgsql.js:394-396 | the merged object is the stored object with each input key overwritten |
| HiveProperties.CanonicalIsUuid | src/hive/pgsql.js:34 | a key in the 8-4-4-4-12 hex form `uuidv4` writes is one the `UUID` key column accepts, bare or in braces |
| HiveProperties.UuidLength | src/hive/pgsql.js:34 | a key the `UUID` key column accepts has between 32 and 41 characters, so an empty or short key is never one |
| HiveProperties.UuidExamples | src/hive/pgsql.js:34 | a word such as `held1` is not a key the `UUID` key column accepts |
| HiveProperties.InsertChoosesKey | src/hive/pgsql.js:100-105 | the key is the input's key when it supplies one, else the fresh id; a committed key is a UUID; outside exclusive tables the insert commits exactly when the key is text the store reads as a UUID |
| HiveProperties.InsertStoresRecord | src/hive/pgsql.js:108-157 | outside exclusive assignment tables, an insert stores the record under its key, keeps an existing row's other columns, and leaves every other row unchanged |
| HiveProperties.ExclusiveCloseout | src/hive/pgsql.js:121-145 | in an exclusive assignment table, a row is closed (end set to the new start, last change set to now) exactly when the closeout condition holds for it; every other row is unchanged |
| HiveProperties.CloseoutLeavesNoOpen | src/hive/pgsql.js:121-145 | after the closeout, no open row is assigned the new value, and every row left open is unchanged |
| HiveProperties.NewRowAssignedText | src/hive/pgsql.js:131-133 | the text the closeout compares with is the text of the new row's assigned field |
| HiveProperties.ExclusiveInsertKeepsOneOpen | src/hive/pgsql.js:96-167 | for an assigned field without a dot, an insert into an exclusive assignment table preserves the invariant that no two open assignments share an assigned value |
| HiveProperties.ReassignmentScenario | test/index.spec.js:251-281 | reassigning `held1` to a new holder closes the open `held1` assignment, leaves `held2` unchanged, and stores the new open row |
| HiveProperties.ScenarioRecord | test/index.spec.js:251-257 | the record the reassignment stores, and the closeout condition it builds |
| HiveProperties.ScenarioFilter | src/hive/pgsql.js:128-140 | an open assignment is closed by that condition exactly when it is assigned `held1` |
| HiveProperties.PutReplaces | src/hive/pgsql.js:353-388 | put keeps the key set, leaves other rows unchanged, and on a stored key replaces data and type and stamps the last change |
| HiveProperties.PutIdempotent | src/hive/pgsql.js:353-388 | putting the same input twice is putting it once |
| HiveProperties.PatchOverwritesGivenKeys | src/hive/pgsql.js:391-400 | a patch overwrites the declared fields it is given and keeps the stored declared fields it is not given |
| HiveProperties.AppendedContents | src/hive/pgsql.js:403-416 | the old list is a prefix, the tail is exactly the new strings, and membership is old-or-given |
| HiveProperties.AppendIdempotent | src/hive/pgsql.js:403-416 | appending the same strings twice is appending them once |
| HiveProperties.RemoveIdempotent | src/hive/pgsql.js:419-430 | removing the same strings twice is removing them once |
| HiveProperties.RemoveKeepsUnlisted | src/hive/pgsql.js:428 | removing leaves a list with no listed string unchanged |
| HiveProperties.RemoveDropsListed | src/hive/pgsql.js:428 | removing empties a list made only of listed strings |
| HiveProperties.RemovedConcat | src/hive/pgsql.js:428 | removal distributes over concatenation |
| HiveProperties.RemoveAfterAppend | src/hive/pgsql.js:403-430 | removing what was just appended gives what removing alone gives |
| HiveProperties.TagExamples | test/index.spec.js:854-857 | the tag results of the list-field mutations |
| HiveProperties.MissingListIsEmpty | src/hive/pgsql.js:411-412 | a missing or null list field acts as the empty list for append and remove |
| HiveProperties.MatchingDistinct | src/hive/pgsql.js:326-336 | a read of distinct rows returns each row at most once |
| HiveProperties.InOrderRest | src/hive/pgsql.js:227-238 | the tail of an ordered sequence is ordered, and its rows do not precede the head |
| HiveProperties.InOrderCons | src/hive/pgsql.js:227-238 | a row that no later row precedes extends an ordered sequence |
| HiveProperties.MatchingInOrder | src/hive/pgsql.js:227-238 | filtering an ordered scan keeps it ordered |
| HiveProperties.SelectionSound | src/hive/pgsql.js:326-350 | a read that succeeds had an executable condition; every returned row satisfies it, and no row is returned twice |
| HiveProperties.SelectionComplete | src/hive/pgsql.js:326-336 | without a `PaginationInput`, a read succeeds exactly when its condition is executable, and then returns every row that satisfies it |
| HiveProperties.SelectionBounded | src/hive/pgsql.js:239-249 | a paginated read returns at most the limit: the window of the matching rows |
| HiveProperties.SelectionOrdered | src/hive/pgsql.js:227-238 | when the store yields rows in the requested order, the read returns them in that order |
| HiveProperties.CursorsVisitEveryMatch | src/hive/pgsql.js:247-284 | starting without a cursor and following each returned cursor visits every matching row exactly once, in order, when every page is cut from the same ordered scan |
| HiveProperties.TotalOrderFixesScan | src/hive/pgsql.js:230-238 | when no two rows tie on the `ORDER BY` terms, there is only one scan in that order, so every page statement reads the same scan |
| HiveProperties.ScanSize | src/hive/pgsql.js:230-238 | a scan lists exactly as many ids as the table has rows |
| HiveProperties.QueryStatementWhere | src/hive/pgsql.js:326-327 | without a filter `queryType` has no `WHERE`; with one, it renders the filter after `WHERE` |
| Filter.Render | src/hive/pgsql.js:299-324 | the rendered condition is empty exactly when no filter is given |
| Filter.RenderExpr | src/hive/pgsql.js:299-322 | every node renders to non-empty text |
| Filter.RenderEach | src/hive/pgsql.js:313-318 | each child of a boolean node renders in order |
| Filter.Path | src/hive/pgsql.js:304-305 | a field name splits at dots into a non-empty path |
| Filter.LikePercent | src/hive/pgsql.js:289 | `%` matches every text |
| Filter.LikeLiteral | src/hive/pgsql.js:289 | a pattern without wildcards matches exactly itself |
| Filter.LikePrefix | src/hive/pgsql.js:289 | `x%` matches exactly the texts that start with `x` |
| Filter.LikeLeadingPercent | src/hive/pgsql.js:289 | `%p` matches exactly the texts with a suffix that `p` matches |
| Filter.LikeContains | src/hive/pgsql.js:289 | `%x%` matches exactly the texts that contain `x` |
| Filter.FieldRefNamesPath | src/hive/pgsql.js:304-307 | a plain field is read with `->>`; a dotted field is read with `#>>` along the path, its dots turned into commas |
| Filter.PlainFieldText | src/hive/pgsql.js:307 | a plain field reads the text of the document's value under that key, or SQL NULL |
| Filter.RegexIsEquality | src/hive/pgsql.js:290 | the `RE` operator renders and evaluates as `=` |
| Filter.IsNullMeansAbsent | src/hive/pgsql.js:308-309 | `ISNULL` holds exactly when the key is absent; it does not hold for a JSON null |
| Filter.NotNullNeverHolds | src/hive/pgsql.js:310-311 | `NOTNULL` (`<> NULL`) selects no document |
| Filter.SplitAtSeparator | src/hive/pgsql.js:304-305 | a field name with a dot has a path of two or more names |
| Filter.BalancedConcat | src/hive/pgsql.js:312-321 | two balanced texts concatenate to a balanced text |
| Filter.JoinBalanced | src/hive/pgsql.js:318 | joining balanced parts with a separator without parentheses stays balanced |
| Filter.WrapGrouped | src/hive/pgsql.js:318 | parentheses around a balanced text form one group |
| Filter.CompareBalanced | src/hive/pgsql.js:303-307 | a comparison renders balanced when its field and value have no parentheses |
| Filter.RenderBalanced | src/hive/pgsql.js:299-324 | a filter whose names and values have no parentheses renders to balanced text, and every node except a comparison renders as one parenthesised group |
| Filter.GroupedBalanced | src/hive/pgsql.js:312-321 | one parenthesised group is balanced |
| Filter.CloseoutExecutable | src/hive/pgsql.js:128-140 | the closeout condition uses only operators that render to valid SQL |
| Filter.CloseoutMatches | src/hive/pgsql.js:128-140 | the closeout condition holds exactly when the row's assigned field reads as the new assigned value, and it has no end key, or an end after the new start, or a start after the new start |
| Paging.SortTexts | src/hive/pgsql.js:231-234 | one `data->>'field' DIR` per sort term, in order, with `ASC` by default |
| Paging.LimitOf | src/hive/pgsql.js:240-246 | the limit is 20 when `max` is missing or zero, `max` when it is at most 100, and 1000 above; a negative `max` stays negative |
| Paging.RenderPageInfo | src/hive/pgsql.js:227-254 | without a `PaginationInput` the statement is unchanged; with one, it begins by wrapping the statement |
| Paging.RenderedSorted | src/hive/pgsql.js:227-247 | without a cursor and with sort terms, the statement is `WITH temp as (` + the query + ` ORDER BY ` + the terms (`data->>'f' DIR`, `ASC` by default) joined by `, ` + `) SELECT * FROM temp LIMIT ` + the clamped limit |
| Paging.RenderedByCreation | src/hive/pgsql.js:227-247 | without a cursor and without sort terms, the statement is the same text with ` ORDER BY created ASC` |
| Paging.DefaultPaging | src/hive/pgsql.js:227-247 | an empty `PaginationInput` orders by creation time and limits to 20 |
| Paging.CursorAppends | src/hive/pgsql.js:248-250 | a given cursor appends a space and its decoded text to the statement rendered without it |
| Paging.CursorRendersOffset | src/hive/pgsql.js:247-266 | a cursor made for offset `n` appends ` OFFSET n` to the statement the same input renders without a cursor |
| Paging.GetPageInfoResult | src/hive/pgsql.js:269-284 | the page info echoes `max` and `sort` (null without input), has the count and no total, and its cursor encodes the cursor's offset plus the count |
| Paging.PageWindow | src/hive/pgsql.js:227-254 | the window has the clamped limit and, without a cursor, offset 0; an empty sort list and a negative limit are rejected by the store; a decoded cursor other than empty text or `OFFSET <digits>` counts as rejected |
| Paging.EmptyCursorIsFirstPage | src/hive/pgsql.js:248-274 | a cursor that decodes to empty text reads the same rows as no cursor, and the next cursor's offset is the count |
| Paging.PaddingCursorIsEmpty | src/hive/pgsql.js:257-260 | the cursor `=` decodes to empty text |
| Paging.Slice | src/hive/pgsql.js:242-249 | the window's rows, in order: at most the limit, starting at the offset |
| Paging.CursorRoundTrip | src/hive/pgsql.js:257-266 | decoding the cursor made for offset `n` gives `OFFSET n`, and that cursor is non-empty |
| Paging.NextWindow | src/hive/pgsql.js:269-284 | sending back the returned cursor asks for the same limit at the offset advanced by the count |
| Paging.PagesAreWindows | src/hive/pgsql.js:239-284 | the pages the cursors lead to are exactly the windows of the first request's limit, each starting where the previous one ended |
| Paging.WindowsCoverRest | src/hive/pgsql.js:239-249 | consecutive windows of a positive limit, up to the first empty one, join into every row from the first offset on |
| Paging.PagesCoverRest | src/hive/pgsql.js:269-284 | following the cursors from a first request yields, page after page, all rows from its offset on |
| Paging.PagesBounded | src/hive/pgsql.js:239-246 | no page that the cursors visit is empty or longer than the limit |
| Paging.KeyPrecedesStrict | src/hive/pgsql.js:231-234 | ordering by one text key is a strict order, nulls last when ascending and first when descending |
| Paging.TermsPrecedeStrict | src/hive/pgsql.js:231-236 | ordering lexicographically by the sort terms is a strict order |
| Paging.PrecedesStrict | src/hive/pgsql.js:227-238 | the requested order, with `created` by default, is irreflexive and transitive |
| Base64.ValueOfCharOf | src/hive/pgsql.js:263-266 | each base64 character decodes to the sextet it encodes |
| Base64.Sextets | src/hive/pgsql.js:263-266 | every 3 bytes give 4 sextets, and a final 1 or 2 bytes give 2 or 3 |
| Base64.Encode | src/hive/pgsql.js:263-266 | the encoding is padded to a multiple of four characters |
| Base64.DecodeEncode | src/hive/pgsql.js:257-260 | decoding what was encoded gives back the bytes |
| Base64.FromSextetsOfSextets | src/hive/pgsql.js:257-260 | reading back the sextets of some bytes gives those bytes |
| Base64.AsciiRoundTrip | src/hive/pgsql.js:257-266 | ASCII text survives conversion to bytes and back |
| Text.JoinSplitIsReplace | src/hive/pgsql.js:305 | `split(".").join(",")` replaces every dot with a comma |
| Text.JoinSplitRoundTrip | src/hive/pgsql.js:305 | splitting and joining on the same character gives the text back |
| Text.NatToString | src/hive/pgsql.js:264 | `${n}` is non-empty decimal digits, without leading zeros |
| Text.DigitsOfNat | src/hive/pgsql.js:272 | the digits of `${n}` read back as `n` |
| Text.ParseNumberText | src/hive/pgsql.js:272 | `Number` reads back `${x}` for an integer or NaN |
| Text.ParseDigits | src/hive/pgsql.js:272 | `Number` of plain digits is their value |
| Text.ToLower | src/hive/types.js:82 | lower-cases character by character, keeping the length |
| Text.LessTotal | src/hive/pgsql.js:231-234 | the C collation order on text is total |
| Text.LessTransitive | src/hive/pgsql.js:231-234 | the C collation order on text is transitive |
| Json.TextOf | src/hive/pgsql.js:307 | the text `->>` gives for a string, number or boolean; SQL NULL for a JSON null, and (as a simplification) for an array or object |
| Json.ArrayIndexNames | src/hive/pgsql.js:305-307 | a `#>>` path step `k`, and equally `-(len - k)`, names element `k` of an array; a step past the end names nothing |
| Json.AtSecondStep | src/hive/pgsql.js:305-307 | a dotted field `f.c` reaches key `c` of an object under `f`, element `c` of an array under `f`, and nothing inside a scalar |
| Json.InterpolateAgreesWithText | src/hive/pgsql.js:131-133 | a scalar interpolated by JavaScript reads as the text `->>` extracts |
| Json.ContainsReflexive | src/hive/pgsql.js:341 | every JSON value contains itself |
| Json.SingleKeyContainment | src/hive/pgsql.js:197 | `data @> '{"f": "v"}'` holds exactly when the document has the string `v` under `f` |
| Directives.Names | src/hive/types.js:52-59 | the field names, in declaration order |
| Directives.IdField | src/hive/types.js:52-59 | the key column is the first field typed `ID!`, or `id` when there is none |
| Directives.FindIdField | src/hive/types.js:52-59 | the loop returns that field |
| Directives.IdFieldExamples | test/types.spec.js:8-37 | `id8` is found among `pants`, `ID!` and `ID` fields; `id` when no field is `ID!` |
| Directives.WithSystem | src/hive/types.js:79 | the fields gain `system` of the `System` type, and the others keep their order and definitions |
| Directives.ConfigFor | src/hive/types.js:64-81 | the table config is named after the type unless `table_name` is given; its key column is `pk_column` if given, else the `ID!` field; its fields include `system` |
| Directives.Registry.VisitSchema | src/hive/types.js:109-115 | the schema name is `schema_name`, or `beehive` by default, and the registry starts empty |
| Directives.Registry.VisitObject | src/hive/types.js:64-83 | registers the type's config, its lower-case name and its fields with `system`; leaves the rest unchanged |
| Directives.Registry.VisitInterface | src/hive/types.js:85-107 | visits the interface as an object and records its resolve-type field |
| Directives.SystemTypeName | src/hive/types.js:214-220 | reads `system.type_name`: an error exactly when `system` is missing or null, a type exactly when `system` is an object with a string `type_name` |
| Directives.UnionResolvesStoredType | src/hive/types.js:214-220 | a union resolves a stored object to the type it was stored with |
| Directives.ResolveInterface | src/hive/types.js:93-106 | without a resolve-type field the interface resolves as a union; with one, it looks the field's lower-cased value up among the registered types |
| Directives.ResolvedIsRegistered | src/hive/types.js:93-100 | a type found through the resolve-type field is a registered table type |
| Directives.VisitedTypeResolves | src/hive/types.js:82 | a value naming a visited type, in any case, resolves to that type |
| Directives.InputName | src/hive/types.js:124 | the input argument is the type name with its first letter lower-cased |
| Directives.InputNameExamples | src/hive/types.js:124 | `Nest` gives `nest`, `RelatedThing` gives `relatedThing`, and `Assignment` gives `assignment` |
| Directives.CreateDirective | src/hive/types.js:120-130 | the directive fails exactly for an unknown target table; otherwise it has the input name and the target's config |
| Directives.ResolveCreate | src/hive/types.js:131-139 | a missing input is an error that changes nothing; otherwise the resolver is `insertType` of the input |
| Directives.ResolveList | src/hive/types.js:144-156 | an unknown table is an error; otherwise the `data` member holds the whole listing of `listType` |
| Directives.ResolveQuery | src/hive/types.js:158-171 | the result's `data` is always empty |
| Directives.ResolveGet | src/hive/types.js:173-185 | an unknown table is an error; without the key argument the result is null; a key that is not a UUID is the store's error; otherwise the object under that key, or null |
| Directives.ResolveRelation | src/hive/types.js:187-211 | a field with an `ofType` returns the target rows holding this object's key under the target field; any other returns the object whose key this field holds, or null, and a held key that is not a UUID is the store's error |
| Directives.NonNullRelationIsList | src/hive/types.js:197 | a non-null object type counts as having an `ofType`, so such a relation is resolved as a list |
| Queen.VisitObject | src/queen.js:79-98 | the registry ends as `Directives.Registry.VisitObject` leaves it |
| Queen.QueenRecordContents | src/queen.js:154-165 | the record has the fresh id under the key column only when the input has no key, plus exactly the declared fields the input has |
| Queen.QueenRecordAgrees | src/queen.js:154-165 | the record equals the one `insertType` builds, except that an input key which is not a declared field is dropped |
| Queen.BuildQueenRecord | src/queen.js:154-165 | the loop builds exactly that record |
| Queen.Create | src/queen.js:135-188 | a missing input, or a fresh id the store cannot read as a UUID, is an error that changes nothing; otherwise one row is added under the fresh id, and its object is returned |
| Queen.CreateAddsOneRow | src/queen.js:170-174 | a create adds exactly one row and leaves every existing row unchanged |
| Queen.OwnKeyIsNotTheRowKey | src/queen.js:148-174 | an input that brings its own key `p` is stored under the fresh id, not under `p`, while its document says `p`; `insertType` stores it under `p` when `p` is a UUID, and rejects it otherwise |
| Queen.ResolveList | src/queen.js:191-209 | an unknown table is an error; otherwise the `data` member holds every row, as `applySystem` objects, in store order, without page info |
| Queen.ListIsEveryRow | src/queen.js:197-205 | that listing is the unpaged read of all rows: each stored object exactly once |
| Queen.AllMatchesScan | src/queen.js:199-204 | the condition that holds for every row selects the whole scan |

## Left out

- **The database server and the pool:**
  - `ensureDatabase` (`src/hive/pgsql.js:19-60`, `src/queen.js:318-350`): DDL, schema and table creation;
  - the connection pool;
  - `BEGIN`/`COMMIT`/`ROLLBACK`, modelled as one atomic step;
  - concurrent requests.
- **The row order:** the store's row order is the `scan` parameter. `ORDER BY` of the rendered statement is proved only to be a strict order (`Paging.PrecedesStrict`). The store's sorting is not modelled: `HiveProperties.SelectionOrdered` assumes a scan already in the requested order.
- **The clock and uuid:** `uuidv4()` and `CURRENT_TIMESTAMP` are parameters.
- **Other source files:**
  - the GraphQL server, the per-request plugin and the drones (`src/hive/index.js`, `src/hive/drones/index.js`);
  - the fixture schema;
  - `console.log`.
- **The `@beehiveAssignmentType` directive:** it is not part of this model. The assignment configuration of a table (`TableConfig.assignment`) is an input.
- **`UTCDate`:** the `UTCDate` directive of `src/queen.js:289-299` and its date formatting.
- **Aliasing:** `applySystem` writes `system` into the row's own `data` object; the model builds a new document.
- **SQL injection:** keys, field names, values and type names are pasted into statements unescaped. The model assumes they are well-formed and proves `Filter.RenderBalanced` only for texts without parentheses.
- **The three-valued SQL logic:** the filter evaluator is two-valued, treating SQL NULL as false. This is exact for the operators modelled, since the grammar has no `NOT`.
- **The `IN` operator:** it renders `x IN 'v'`, which the store rejects. Such a filter is not executable in the model.
- Filter.LikeLiteral: the `LIKE` escape character `\` is not modelled; patterns are plain text with `%` and `_`.
- Filter.Render: the text comparison is byte-wise C collation; database collations are not modelled.
- Hive.StartText: the closeout stamps the start as it was given. `new Date(start).toISOString()` normalisation of other date forms and of numbers is not modelled; a null start becomes the epoch, and a missing start is an error (`toISOString` of an invalid date throws). Numbers and booleans, which JavaScript turns into dates, are errors here too.
- Paging.PageWindow: a decoded cursor other than empty text or `OFFSET <digits>` (`OFFSET 5 ROWS`, lower-case `offset`, doubled spaces, a trailing clause) is treated as rejected by the store. The source pastes any decoded text after the `LIMIT`, and the store may accept some of these.
- Text.NatToString: this is `${n}` of a JavaScript number only below 10^21. From 10^21 on, JavaScript writes exponent text such as `1e+21`, which is not modelled.
- Text.DigitsOfNat: numbers are unbounded integers. JavaScript numbers are doubles, so `Number` of digit text above 2^53 is rounded there and exact here.
- Text.ParseDigits: exact for any digit text; `Number` in JavaScript rounds digit text above 2^53 to the nearest double, which is not modelled.
- Paging.CursorRoundTrip: holds for offsets below 10^21 in the source. From 10^21 on, `${offset}` is exponent text, so the cursor decodes to `OFFSET 1e+21` and the like, which the store rejects.
- Paging.CursorRendersOffset: as `Paging.CursorRoundTrip`, faithful only for offsets below 10^21.
- Paging.GetPageInfoResult: the next offset is the exact sum of the cursor's offset and the count. In JavaScript, `Number` and `+=` on doubles round it above 2^53, which is not modelled.
- Paging.NextWindow: proved for every offset. In the source, an offset above 2^53 is rounded when the next cursor is made, and an offset beyond the store's `bigint` range (2^63 - 1) makes the store reject the statement; neither is modelled.
- Paging.PageWindow: any `OFFSET <digits>` gives a window here. The store rejects an offset beyond its `bigint` range (2^63 - 1), which is not modelled.
- HiveProperties.ExclusiveInsertKeepsOneOpen: proved only for an assigned field without a dot. For a dotted field, `forDB` has no entry under the dotted name, so the closeout compares the nested value with the text `undefined` and does not close the open rows assigned the same thing; the invariant does not hold there. Nor is it proved for numbers of 10^21 or more: JavaScript writes those in exponent form (`1e+21`), `->>` writes the digits, and the closeout misses the open rows.
- Json.InterpolateAgreesWithText: the model writes every number as its digits. JavaScript's template string writes a number of 10^21 or more in exponent form (`1e+21`) while `->>` writes the digits, so for those numbers the two texts differ and the lemma does not describe the source.
- HiveProperties.NewRowAssignedText: as for `Json.InterpolateAgreesWithText`, an assigned number of 10^21 or more is interpolated in exponent form in the source, so the closeout text differs from the stored text there.
- HiveProperties.CursorsVisitEveryMatch: each page is its own statement, and Postgres may return rows that tie on every `ORDER BY` term (or on `created`) in a different order each time. Pages can then repeat or skip rows. The lemma takes one shared scan, which `HiveProperties.TotalOrderFixesScan` justifies only when no two rows tie.
- Json.TextOf: `->>` and `#>>` of a JSON array or object give its JSON text in the store; here they give SQL NULL. So `=`, `<>`, `LIKE` and the comparisons on a list or object field are not modelled as the store evaluates them. Array path steps (`Json.ArrayIndex`) read digits and `-digits` only; leading spaces and a `+` sign, which the store also accepts, name nothing here.
- Text.ParseNumber: only integer notation is read. Exponents, fractions, hexadecimal and `Infinity` read as NaN.
- Text.ToLower: only ASCII letters are lower-cased, and so only ASCII in `Directives.InputName`.
- Hive.Table.AppendToListField: a list field that is stored as a JSON string rather than an array is an error here. In JavaScript, `concat` and `filter` on a string behave differently; that behaviour is not modelled.
- Hive.Table.InsertType: an insert whose key is not a string is an error here. The source sends a number or a boolean as its text, which the store then reads as a UUID or rejects.
- Hive.IsUuid: keys are compared as text. The store compares UUID values, so `A0EEBC99-…`, `a0eebc99-…` and `{a0eebc99-…}` name the same row and the same lookup entry there, and different ones here.
- Directives.ResolveCreate: any argument that is not a JSON object counts as a missing input. JavaScript would pass a truthy scalar on and fail later.
- Directives.ResolveList: the `data` member holds the listing as `listType` returns it (`src/hive/types.js:152`). That the promise, not the awaited value, is wrapped is not modelled.
- Directives.SystemTypeName: a `type_name` that is not a string reads as no type, where JavaScript would return that value.
- Hive.Table.DeleteType: the global lookup entry of a deleted key is kept, as in the source. Nothing proves the lookup consistent after a delete.
- **Modelled once:** the parts of `src/queen.js` that are the same as in `src/hive/types.js` and `src/hive/pgsql.js` are modelled once, by the same members:
  - `findIdField` (`Directives.IdField`);
  - `applySystem` (`Hive.ApplySystem`);
  - `visitSchema` (`Directives.Registry.VisitSchema`);
  - `visitInterface` (`Directives.Registry.VisitInterface`);
  - the Get and Relation resolvers (`Directives.ResolveGet`, `Directives.ResolveRelation`);
  - the empty Query resolver (`Directives.ResolveQuery`).
- Queen.Create: any argument that is not a JSON object counts as a missing input, as in `Directives.ResolveCreate`. The type name written is the configured one, which is the target type's name.
- Queen.ResolveList: an unknown table is an error here. The source fails with a type error instead.
