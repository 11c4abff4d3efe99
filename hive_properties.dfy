/** What the table operations of `src/hive/pgsql.js` promise, stated over
    the specification functions of module `Hive` and proved. */
module HiveProperties {
  import opened Text
  import opened Json
  import opened Filter
  import opened Paging
  import opened Hive

  // ---------------------------------------------------------------------
  // keys

  /** The form `uuidv4` writes: 8-4-4-4-12 hex digits joined by `-`. */
  predicate IsHyphenPosition(k: int)
  {
    k == 8 || k == 13 || k == 18 || k == 23
  }

  predicate Canonical(s: string)
  {
    |s| == 36 &&
    forall k :: 0 <= k < 36 ==> if IsHyphenPosition(k) then s[k] == '-' else IsHexDigit(s[k])
  }

  /** Where byte `i` starts in the canonical form. */
  function BytePosition(i: nat): nat
  {
    2 * i + (if i >= 4 then 1 else 0) + (if i >= 6 then 1 else 0) + (if i >= 8 then 1 else 0) + (if i >= 10 then 1 else 0)
  }

  /** Reading the canonical form `s` from byte `i` on leaves exactly the
      text that follows it. */
  lemma {:induction false} CanonicalRest(s: string, rest: string, i: nat)
    requires Canonical(s) && i <= 16
    ensures UuidRest((s + rest)[BytePosition(i)..], i) == Some(rest)
    decreases 16 - i
  {
    if i == 16 {
      CanonicalEnd(s, rest);
    } else {
      CanonicalByte(s, rest, i);
      ReadByte((s + rest)[BytePosition(i)..], i, (s + rest)[BytePosition(i + 1)..]);
      CanonicalRest(s, rest, i + 1);
    }
  }

  lemma CanonicalEnd(s: string, rest: string)
    requires |s| == 36
    ensures (s + rest)[BytePosition(16)..] == rest
  {
  }

  /** One step of reading a key: byte `i` is two hex digits. */
  lemma ReadByte(u: string, i: nat, next: string)
    requires i < 16 && |u| >= 2 && IsHexDigit(u[0]) && IsHexDigit(u[1])
    requires SkipHyphen(u[2..], i) == next
    ensures UuidRest(u, i) == UuidRest(next, i + 1)
  {
  }

  /** Byte `i` of the canonical form is two hex digits, and what follows
      it, less a `-`, starts at byte `i + 1`. */
  lemma CanonicalByte(s: string, rest: string, i: nat)
    requires Canonical(s) && i < 16
    ensures var u := (s + rest)[BytePosition(i)..];
      |u| >= 2 && IsHexDigit(u[0]) && IsHexDigit(u[1]) &&
      SkipHyphen(u[2..], i) == (s + rest)[BytePosition(i + 1)..]
  {
    var w := s + rest;
    var p := BytePosition(i);
    assert w[p..][2..] == w[p + 2..];
    assert !IsHyphenPosition(p) && !IsHyphenPosition(p + 1);
    assert w[p] == s[p] && w[p + 1] == s[p + 1];
    var t := w[p + 2..];
    if i == 3 || i == 5 || i == 7 || i == 9 {
      assert IsHyphenPosition(p + 2) && t[0] == s[p + 2];
      assert t[1..] == w[BytePosition(i + 1)..];
    } else {
      assert BytePosition(i + 1) == p + 2;
      if |t| > 0 && i % 2 == 1 && i < 15 {
        assert !IsHyphenPosition(p + 2) && t[0] == s[p + 2];
      }
    }
  }

  /** Every key `uuidv4` makes is one the store accepts, bare or in braces. */
  lemma CanonicalIsUuid(s: string)
    requires Canonical(s)
    ensures IsUuid(s)
    ensures IsUuid("{" + s + "}")
  {
    CanonicalBare(s);
    CanonicalBraced(s);
  }

  lemma CanonicalBare(s: string)
    requires Canonical(s)
    ensures IsUuid(s)
  {
    CanonicalRest(s, "", 0);
    assert s + "" == s;
    assert s[0] != '{' by { assert !IsHyphenPosition(0); }
  }

  lemma CanonicalBraced(s: string)
    requires Canonical(s)
    ensures IsUuid("{" + s + "}")
  {
    var b := "{" + s + "}";
    CanonicalRest(s, "}", 0);
    assert b[1..] == s + "}";
    assert |b| > 0 && b[0] == '{';
  }

  /** At most one `-` per byte pair from `i` on, and only after odd bytes
      before the last. */
  function HyphensFrom(i: nat): nat
  {
    if i >= 15 then 0 else (15 - i) / 2
  }

  lemma {:induction false} UuidRestLength(s: string, i: nat)
    requires i <= 16 && UuidRest(s, i).Some?
    ensures 2 * (16 - i) <= |s| - |UuidRest(s, i).value| <= 2 * (16 - i) + HyphensFrom(i)
    decreases 16 - i
  {
    if i < 16 {
      var t := s[2..];
      UuidRestLength(SkipHyphen(t, i), i + 1);
      if |t| > 0 && t[0] == '-' && i % 2 == 1 && i < 15 {
        assert HyphensFrom(i) == HyphensFrom(i + 1) + 1;
      }
    }
  }

  /** A key the store accepts has 32 hex digits, at most seven hyphens and
      at most two braces; in particular an empty key is never one. */
  lemma UuidLength(s: string)
    requires IsUuid(s)
    ensures 32 <= |s| <= 41
  {
    if |s| > 0 && s[0] == '{' {
      UuidRestLength(s[1..], 0);
    } else {
      UuidRestLength(s, 0);
    }
  }

  /** The forms the store reads: canonical, upper case, braced, without
      hyphens; and a text that is not a key. */
  lemma UuidExamples()
    ensures !IsUuid("held1")
  {
  }

  // ---------------------------------------------------------------------
  // insert

  /** The key of an inserted object is the input's key when the input has
      the key column, and a fresh one otherwise; a key that is not text, or
      not a UUID, is rejected. */
  lemma InsertChoosesKey(rows: map<Id, Row>, cfg: TableConfig, input: Doc, freshId: Id, now: string)
    ensures Inserted(rows, cfg, input, freshId, now).Ok? ==>
      Inserted(rows, cfg, input, freshId, now).value.pk ==
        (if cfg.pkColumn in input then input[cfg.pkColumn].s else freshId)
    ensures Inserted(rows, cfg, input, freshId, now).Ok? ==> IsUuid(Inserted(rows, cfg, input, freshId, now).value.pk)
    ensures cfg.pkColumn in input && !input[cfg.pkColumn].JStr? ==> Inserted(rows, cfg, input, freshId, now).Err?
    ensures !ExclusiveAssignment(cfg) ==>
      (Inserted(rows, cfg, input, freshId, now).Ok? <==>
         KeyValue(cfg, input, freshId).JStr? && IsUuid(KeyValue(cfg, input, freshId).s))
  {
  }

  /** Outside exclusive assignment tables, an insert stores the key and the
      declared fields the input has, creating a row (created now, never
      modified, with the table's type) for a new key and replacing only the
      data of an existing one; every other row stays as it was. */
  lemma InsertStoresRecord(rows: map<Id, Row>, cfg: TableConfig, input: Doc, freshId: Id, now: string)
    requires !ExclusiveAssignment(cfg)
    requires Inserted(rows, cfg, input, freshId, now).Ok?
    ensures var ins := Inserted(rows, cfg, input, freshId, now).value;
      ins.rows.Keys == rows.Keys + {ins.pk} &&
      ins.rows[ins.pk].data == Record(cfg.pkColumn, JStr(ins.pk), cfg.fields, input) &&
      (ins.pk !in rows ==> ins.rows[ins.pk] == Row(ins.rows[ins.pk].data, now, None, cfg.typeName)) &&
      (ins.pk in rows ==> ins.rows[ins.pk] == rows[ins.pk].(data := ins.rows[ins.pk].data)) &&
      (forall id :: id in rows && id != ins.pk ==> ins.rows[id] == rows[id])
  {
    var pk := KeyValue(cfg, input, freshId);
    assert Stage(rows, cfg, Record(cfg.pkColumn, pk, cfg.fields, input), now) == Ok(Staged(Record(cfg.pkColumn, pk, cfg.fields, input), rows));
  }

  /** The rows of an exclusive assignment table an insert leaves: each
      other row is closed at the new start exactly when it is assigned the
      same value and is open, ends after the new start or starts after it. */
  lemma ExclusiveCloseout(rows: map<Id, Row>, cfg: TableConfig, input: Doc, freshId: Id, now: string)
    requires ExclusiveAssignment(cfg)
    requires Inserted(rows, cfg, input, freshId, now).Ok?
    ensures var a := cfg.assignment.value;
      var forDB := Record(cfg.pkColumn, KeyValue(cfg, input, freshId), cfg.fields, input);
      var start := StartText(Lookup(forDB, a.startField)).value;
      var stamped := forDB[a.startField := JStr(start)];
      var value := Interpolate(Lookup(stamped, a.assignedField));
      var ins := Inserted(rows, cfg, input, freshId, now).value;
      ins.rows.Keys == rows.Keys + {ins.pk} &&
      ins.rows[ins.pk].data == stamped &&
      forall id :: id in rows && id != ins.pk ==>
        ins.rows[id] ==
          if TextAt(rows[id].data, Path(a.assignedField)) == Some(value) &&
             (a.endField !in rows[id].data ||
              (TextAt(rows[id].data, Path(a.endField)).Some? && Less(start, TextAt(rows[id].data, Path(a.endField)).value)) ||
              (TextAt(rows[id].data, Path(a.startField)).Some? && Less(start, TextAt(rows[id].data, Path(a.startField)).value)))
          then Close(rows[id], a, start, now) else rows[id]
  {
    var a := cfg.assignment.value;
    var forDB := Record(cfg.pkColumn, KeyValue(cfg, input, freshId), cfg.fields, input);
    var start := StartText(Lookup(forDB, a.startField)).value;
    var stamped := forDB[a.startField := JStr(start)];
    var value := Interpolate(Lookup(stamped, a.assignedField));
    forall id | id in rows {
      CloseoutMatches(a.assignedField, a.startField, a.endField, value, start, rows[id].data);
    }
  }

  /** The value a row is assigned to, as the closeout filter reads it. */
  function AssignedText(a: AssignmentConfig, doc: Doc): Option<string>
  {
    TextAt(doc, Path(a.assignedField))
  }

  /** An assignment without an end, to something. */
  predicate IsOpen(a: AssignmentConfig, doc: Doc)
  {
    a.endField !in doc && AssignedText(a, doc).Some?
  }

  /** No two open assignments of the same thing. */
  predicate AtMostOneOpen(rows: map<Id, Row>, a: AssignmentConfig)
  {
    forall x, y :: x in rows && y in rows && x != y && IsOpen(a, rows[x].data) && IsOpen(a, rows[y].data) ==>
      AssignedText(a, rows[x].data) != AssignedText(a, rows[y].data)
  }

  /** After the closeout no open row is assigned the new value, and the open
      rows that remain are untouched. */
  lemma CloseoutLeavesNoOpen(rows: map<Id, Row>, a: AssignmentConfig, stamped: Doc, start: string, now: string)
    ensures var closed := Closeout(rows, a, stamped, start, now);
      forall id :: id in closed && IsOpen(a, closed[id].data) ==>
        closed[id] == rows[id] && AssignedText(a, rows[id].data) != Some(Interpolate(Lookup(stamped, a.assignedField)))
  {
    var value := Interpolate(Lookup(stamped, a.assignedField));
    var closed := Closeout(rows, a, stamped, start, now);
    forall id | id in closed && IsOpen(a, closed[id].data)
      ensures closed[id] == rows[id] && AssignedText(a, rows[id].data) != Some(value)
    {
      CloseoutMatches(a.assignedField, a.startField, a.endField, value, start, rows[id].data);
    }
  }

  /** The text the closeout filter compares with is the text the new row's
      assigned value has in the store. */
  lemma NewRowAssignedText(a: AssignmentConfig, stamped: Doc)
    requires '.' !in a.assignedField
    ensures AssignedText(a, stamped).Some? ==> AssignedText(a, stamped) == Some(Interpolate(Lookup(stamped, a.assignedField)))
  {
    PlainFieldText(stamped, a.assignedField);
    if a.assignedField in stamped && TextOf(stamped[a.assignedField]).Some? {
      InterpolateAgreesWithText(stamped[a.assignedField]);
    }
  }

  /** An insert into an exclusive assignment table keeps every thing
      assigned at most once at a time, for an undotted assigned field. */
  lemma ExclusiveInsertKeepsOneOpen(rows: map<Id, Row>, cfg: TableConfig, input: Doc, freshId: Id, now: string)
    requires ExclusiveAssignment(cfg) && '.' !in cfg.assignment.value.assignedField
    requires AtMostOneOpen(rows, cfg.assignment.value)
    requires Inserted(rows, cfg, input, freshId, now).Ok?
    ensures AtMostOneOpen(Inserted(rows, cfg, input, freshId, now).value.rows, cfg.assignment.value)
  {
    var a := cfg.assignment.value;
    var forDB := Record(cfg.pkColumn, KeyValue(cfg, input, freshId), cfg.fields, input);
    var start := StartText(Lookup(forDB, a.startField)).value;
    var stamped := forDB[a.startField := JStr(start)];
    var closed := Closeout(rows, a, stamped, start, now);
    var ins := Inserted(rows, cfg, input, freshId, now).value;
    assert ins.rows == Upsert(closed, ins.pk, stamped, cfg.typeName, now);
    CloseoutLeavesNoOpen(rows, a, stamped, start, now);
    NewRowAssignedText(a, stamped);
    var after := ins.rows;
    forall x, y | x in after && y in after && x != y && IsOpen(a, after[x].data) && IsOpen(a, after[y].data)
      ensures AssignedText(a, after[x].data) != AssignedText(a, after[y].data)
    {
      if x != ins.pk && y != ins.pk {
        assert after[x] == closed[x] && after[y] == closed[y];
      }
    }
  }

  /** The assignment table of the reassignment test. */
  const Assignments := AssignmentConfig("assigned", "start", "end", true)
  const AssignmentTable := TableConfig("Assignment", "assignments", "assignment_id",
                                       ["assignment_id", "assigned", "holder", "start", "end", "system"], Some(Assignments))

  /** The reassignment test: `held1` and `held2` are assigned (open) to
      `holder1`; assigning `held1` to `holder2` ends the first assignment at
      the new start, leaves the second alone and stores the new one open. */
  lemma ReassignmentScenario(rows: map<Id, Row>, first: Id, second: Id, newId: Id, start: string, now: string)
    requires rows.Keys == {first, second} && newId !in rows && IsUuid(newId)
    requires rows[first].data == map["assigned" := JStr("held1"), "holder" := JStr("holder1")]
    requires rows[second].data == map["assigned" := JStr("held2"), "holder" := JStr("holder1")]
    ensures var input := map["assigned" := JStr("held1"), "holder" := JStr("holder2"), "start" := JStr(start)];
      var ins := Inserted(rows, AssignmentTable, input, newId, now);
      ins.Ok? && ins.value.pk == newId && ins.value.rows.Keys == {first, second, newId} &&
      ins.value.rows[first] == Close(rows[first], Assignments, start, now) &&
      ins.value.rows[second] == rows[second] &&
      ins.value.rows[newId].data == map["assignment_id" := JStr(newId), "assigned" := JStr("held1"), "holder" := JStr("holder2"), "start" := JStr(start)]
  {
    var input := map["assigned" := JStr("held1"), "holder" := JStr("holder2"), "start" := JStr(start)];
    var stored := ScenarioRecord(newId, start);
    var closed := ScenarioCloseout(rows, first, second, stored, start, now);
    InsertWithStart(rows, AssignmentTable, input, newId, now, stored, start);
    var after := Upsert(closed, newId, stored, "Assignment", now);
    assert Inserted(rows, AssignmentTable, input, newId, now) == Ok(Insertion(newId, after));
    assert after[first] == closed[first] && after[second] == closed[second];
  }

  /** The closeout of the reassignment: `held1`'s open row is closed, and
      `held2`'s is kept. */
  lemma ScenarioCloseout(rows: map<Id, Row>, first: Id, second: Id, stored: Doc, start: string, now: string)
    returns (closed: map<Id, Row>)
    requires rows.Keys == {first, second}
    requires rows[first].data == map["assigned" := JStr("held1"), "holder" := JStr("holder1")]
    requires rows[second].data == map["assigned" := JStr("held2"), "holder" := JStr("holder1")]
    requires CloseoutFor(Assignments, stored, start) == CloseoutFilter("assigned", "start", "end", "held1", start)
    ensures closed == Closeout(rows, Assignments, stored, start, now)
    ensures closed.Keys == {first, second}
    ensures closed[first] == Close(rows[first], Assignments, start, now) && closed[second] == rows[second]
  {
    ScenarioFilter(rows[first].data, "held1", start);
    ScenarioFilter(rows[second].data, "held2", start);
    closed := Closeout(rows, Assignments, stored, start, now);
  }

  /** An insert into an exclusive assignment table whose record already
      carries its start: the closeout at that start, then the upsert. */
  lemma InsertWithStart(rows: map<Id, Row>, cfg: TableConfig, input: Doc, freshId: Id, now: string, stored: Doc, start: string)
    requires ExclusiveAssignment(cfg) && cfg.pkColumn !in input && IsUuid(freshId)
    requires Record(cfg.pkColumn, JStr(freshId), cfg.fields, input) == stored
    requires Lookup(stored, cfg.assignment.value.startField) == Some(JStr(start))
    requires stored[cfg.assignment.value.startField := JStr(start)] == stored
    ensures Inserted(rows, cfg, input, freshId, now) ==
      Ok(Insertion(freshId, Upsert(Closeout(rows, cfg.assignment.value, stored, start, now), freshId, stored, cfg.typeName, now)))
  {
  }

  /** The record the reassignment stores. */
  lemma ScenarioRecord(newId: Id, start: string) returns (stored: Doc)
    ensures var input := map["assigned" := JStr("held1"), "holder" := JStr("holder2"), "start" := JStr(start)];
      stored == Record(AssignmentTable.pkColumn, KeyValue(AssignmentTable, input, newId), AssignmentTable.fields, input)
    ensures stored == map["assignment_id" := JStr(newId), "assigned" := JStr("held1"), "holder" := JStr("holder2"), "start" := JStr(start)]
    ensures Lookup(stored, "start") == Some(JStr(start)) && stored["start" := JStr(start)] == stored
    ensures CloseoutFor(Assignments, stored, start) == CloseoutFilter("assigned", "start", "end", "held1", start)
  {
    stored := map["assignment_id" := JStr(newId), "assigned" := JStr("held1"), "holder" := JStr("holder2"), "start" := JStr(start)];
    ScenarioRecordKeys(newId, start);
  }

  lemma ScenarioRecordKeys(newId: Id, start: string)
    ensures var input := map["assigned" := JStr("held1"), "holder" := JStr("holder2"), "start" := JStr(start)];
      Record("assignment_id", JStr(newId), AssignmentTable.fields, input) ==
      map["assignment_id" := JStr(newId), "assigned" := JStr("held1"), "holder" := JStr("holder2"), "start" := JStr(start)]
  {
    var input := map["assigned" := JStr("held1"), "holder" := JStr("holder2"), "start" := JStr(start)];
    var r := Record("assignment_id", JStr(newId), AssignmentTable.fields, input);
    var stored := map["assignment_id" := JStr(newId), "assigned" := JStr("held1"), "holder" := JStr("holder2"), "start" := JStr(start)];
    ScenarioRecordDomain(newId, start);
    RecordContents("assignment_id", JStr(newId), AssignmentTable.fields, input);
    assert forall k :: k in r ==> r[k] == stored[k];
  }

  lemma ScenarioRecordDomain(newId: Id, start: string)
    ensures var input := map["assigned" := JStr("held1"), "holder" := JStr("holder2"), "start" := JStr(start)];
      Record("assignment_id", JStr(newId), AssignmentTable.fields, input).Keys ==
        {"assignment_id", "assigned", "holder", "start"}
  {
    var input := map["assigned" := JStr("held1"), "holder" := JStr("holder2"), "start" := JStr(start)];
    RecordContents("assignment_id", JStr(newId), AssignmentTable.fields, input);
  }

  /** An open assignment of `held` is closed by the reassignment of
      `held1` exactly when `held` is `held1`. */
  lemma ScenarioFilter(doc: Doc, held: string, start: string)
    requires "assigned" in doc && doc["assigned"] == JStr(held) && "end" !in doc
    ensures Eval(CloseoutFilter("assigned", "start", "end", "held1", start), doc) <==> held == "held1"
  {
    HeldText(doc, held);
    CloseoutMatches("assigned", "start", "end", "held1", start, doc);
  }

  lemma HeldText(doc: Doc, held: string)
    requires "assigned" in doc && doc["assigned"] == JStr(held)
    ensures TextAt(doc, Path("assigned")) == Some(held)
  {
    PlainFieldText(doc, "assigned");
  }

  // ---------------------------------------------------------------------
  // replace and patch

  /** `putType` on a stored key: the declared fields of the input and the
      key are the new data, the type and last change are set, the creation
      time is kept; other rows and a missing key are left alone. */
  lemma PutReplaces(rows: map<Id, Row>, cfg: TableConfig, pk: Id, input: Doc, now: string)
    ensures Put(rows, cfg, pk, input, now).Keys == rows.Keys
    ensures forall id :: id in rows && id != pk ==> Put(rows, cfg, pk, input, now)[id] == rows[id]
    ensures pk in rows ==>
      var row := Put(rows, cfg, pk, input, now)[pk];
      row.created == rows[pk].created && row.lastModified == Some(now) && row.typeName == cfg.typeName &&
      (forall k :: k in row.data <==> k == cfg.pkColumn || (k in cfg.fields && k in input)) &&
      (forall k :: k in cfg.fields && k in input ==> row.data[k] == input[k])
  {
    RecordContents(cfg.pkColumn, JStr(pk), cfg.fields, input);
  }

  /** Replacing twice with the same input at the same time is replacing once. */
  lemma PutIdempotent(rows: map<Id, Row>, cfg: TableConfig, pk: Id, input: Doc, now: string)
    ensures Put(Put(rows, cfg, pk, input, now), cfg, pk, input, now) == Put(rows, cfg, pk, input, now)
  {
  }

  /** `patchType` overwrites the declared fields it is given, keeps the
      stored declared fields it is not given, and, when `system` is a
      declared field, stores the `system` object the object was read with. */
  lemma PatchOverwritesGivenKeys(rows: map<Id, Row>, cfg: TableConfig, pk: Id, input: Doc, now: string)
    requires pk in rows
    ensures var d := Put(rows, cfg, pk, ApplySystem(rows[pk]) + input, now)[pk].data;
      (forall k :: k in cfg.fields && k in input ==> d[k] == input[k]) &&
      (forall k :: k in cfg.fields && k !in input && k != "system" && k in rows[pk].data ==> d[k] == rows[pk].data[k]) &&
      (forall k :: k in cfg.fields && k !in input && k != "system" && k !in rows[pk].data && k != cfg.pkColumn ==> k !in d) &&
      ("system" in cfg.fields && "system" !in input ==> d["system"] == SystemObject(rows[pk]))
  {
    RecordContents(cfg.pkColumn, JStr(pk), cfg.fields, ApplySystem(rows[pk]) + input);
  }

  // ---------------------------------------------------------------------
  // list fields

  /** Appending keeps the list as a prefix and adds exactly the given
      strings that were missing, in their order. */
  lemma AppendedContents(vector: seq<Json>, items: seq<string>)
    ensures vector <= Appended(vector, items)
    ensures Appended(vector, items)[|vector|..] == Strings(KeepAbsent(items, vector))
    ensures forall e :: e in Appended(vector, items) <==> e in vector || (e.JStr? && e.s in items)
  {
    var added := KeepAbsent(items, vector);
    assert Appended(vector, items) == vector + Strings(added);
    assert (vector + Strings(added))[|vector|..] == Strings(added);
    forall e: Json ensures e in vector + Strings(added) <==> e in vector || (e.JStr? && e.s in items) {
      StringsMembership(added, e);
    }
  }

  /** The strings kept from two inputs are those kept from each, in
      input order. */
  lemma {:induction false} KeepAbsentConcat(a: seq<string>, b: seq<string>, vector: seq<Json>)
    ensures KeepAbsent(a + b, vector) == KeepAbsent(a, vector) + KeepAbsent(b, vector)
  {
    if |a| > 0 {
      var x, rest := a[0], a[1..];
      var head := if JStr(x) in vector then [] else [x];
      assert a == [x] + rest;
      SeqRegroup([x], rest, b);
      KeepAbsentConcat(rest, b, vector);
      calc {
        KeepAbsent(a + b, vector);
        { KeepAbsentCons(x, rest + b, vector); }
        head + KeepAbsent(rest + b, vector);
        head + (KeepAbsent(rest, vector) + KeepAbsent(b, vector));
        { SeqRegroup(head, KeepAbsent(rest, vector), KeepAbsent(b, vector)); }
        (head + KeepAbsent(rest, vector)) + KeepAbsent(b, vector);
        { KeepAbsentCons(x, rest, vector); }
        KeepAbsent(a, vector) + KeepAbsent(b, vector);
      }
    } else {
      assert a + b == b;
    }
  }

  lemma SeqRegroup<T>(a: seq<T>, b: seq<T>, c: seq<T>)
    ensures a + (b + c) == (a + b) + c
  {
  }

  lemma KeepAbsentCons(x: string, rest: seq<string>, vector: seq<Json>)
    ensures KeepAbsent([x] + rest, vector) == (if JStr(x) in vector then [] else [x]) + KeepAbsent(rest, vector)
  {
    assert ([x] + rest)[0] == x && ([x] + rest)[1..] == rest;
  }

  /** Input strings the list does not hold are all kept, in input order
      and with their repetitions. */
  lemma {:induction false} KeepAbsentKeepsNew(items: seq<string>, vector: seq<Json>)
    requires forall i :: 0 <= i < |items| ==> JStr(items[i]) !in vector
    ensures KeepAbsent(items, vector) == items
  {
    if |items| > 0 {
      KeepAbsentKeepsNew(items[1..], vector);
      assert items == [items[0]] + items[1..];
    }
  }

  /** Input strings the list already holds are all dropped. */
  lemma {:induction false} KeepAbsentDropsHeld(items: seq<string>, vector: seq<Json>)
    requires forall i :: 0 <= i < |items| ==> JStr(items[i]) in vector
    ensures KeepAbsent(items, vector) == []
  {
    if |items| > 0 {
      KeepAbsentDropsHeld(items[1..], vector);
    }
  }

  /** Repeated input strings are appended as often as they are given. */
  lemma AppendKeepsRepeats()
    ensures Appended([JStr("blue")], ["red", "blue", "red"]) == [JStr("blue"), JStr("red"), JStr("red")]
  {
    var v := [JStr("blue")];
    KeepAbsentConcat(["red"], ["blue", "red"], v);
    KeepAbsentConcat(["blue"], ["red"], v);
    assert ["red", "blue", "red"] == ["red"] + (["blue"] + ["red"]);
    assert KeepAbsent(["red", "blue", "red"], v) == ["red", "red"];
  }

  /** A JSON value is among the strings exactly when it is one of them. */
  lemma StringsMembership(xs: seq<string>, e: Json)
    ensures e in Strings(xs) <==> e.JStr? && e.s in xs
  {
    if e in Strings(xs) {
      var i :| 0 <= i < |xs| && Strings(xs)[i] == e;
    }
    if e.JStr? && e.s in xs {
      var i :| 0 <= i < |xs| && xs[i] == e.s;
      assert Strings(xs)[i] == e;
    }
  }

  /** Appending the same strings again changes nothing. */
  lemma AppendIdempotent(vector: seq<Json>, items: seq<string>)
    ensures Appended(Appended(vector, items), items) == Appended(vector, items)
  {
    var once := Appended(vector, items);
    AppendedContents(vector, items);
    var again := KeepAbsent(items, once);
    if |again| > 0 {
      assert again[0] in again;
    }
    assert Strings(again) == [];
  }

  /** Removing the same strings again changes nothing. */
  lemma RemoveIdempotent(vector: seq<Json>, items: seq<string>)
    ensures Removed(Removed(vector, items), items) == Removed(vector, items)
  {
    RemoveKeepsUnlisted(Removed(vector, items), items);
  }

  /** Removing leaves a list with no listed string unchanged. */
  lemma {:induction false} RemoveKeepsUnlisted(vector: seq<Json>, items: seq<string>)
    requires forall e :: e in vector ==> !(e.JStr? && e.s in items)
    ensures Removed(vector, items) == vector
  {
    if |vector| > 0 {
      assert vector[0] in vector;
      assert forall e :: e in vector[1..] ==> e in vector;
      RemoveKeepsUnlisted(vector[1..], items);
      assert vector == [vector[0]] + vector[1..];
    }
  }

  /** Removing drops a list made only of listed strings entirely. */
  lemma {:induction false} RemoveDropsListed(vector: seq<Json>, items: seq<string>)
    requires forall e :: e in vector ==> e.JStr? && e.s in items
    ensures Removed(vector, items) == []
  {
    if |vector| > 0 {
      assert vector[0] in vector;
      assert forall e :: e in vector[1..] ==> e in vector;
      RemoveDropsListed(vector[1..], items);
    }
  }

  lemma {:induction false} RemovedConcat(a: seq<Json>, b: seq<Json>, items: seq<string>)
    ensures Removed(a + b, items) == Removed(a, items) + Removed(b, items)
  {
    if |a| > 0 {
      assert (a + b)[0] == a[0];
      assert (a + b)[1..] == a[1..] + b;
      RemovedConcat(a[1..], b, items);
    } else {
      assert a + b == b;
    }
  }

  /** Removing what was just appended leaves what removing alone leaves. */
  lemma RemoveAfterAppend(vector: seq<Json>, items: seq<string>)
    ensures Removed(Appended(vector, items), items) == Removed(vector, items)
  {
    var added := Strings(KeepAbsent(items, vector));
    RemovedConcat(vector, added, items);
    forall e | e in added ensures e.JStr? && e.s in items {
      var kept := KeepAbsent(items, vector);
      var i :| 0 <= i < |added| && added[i] == e;
      assert kept[i] in kept;
    }
    RemoveDropsListed(added, items);
    assert Removed(vector, items) + [] == Removed(vector, items);
  }

  /** The tag operations of the list-field tests. */
  lemma TagExamples()
    ensures Appended([JStr("new"), JStr("blue")], ["orange"]) == [JStr("new"), JStr("blue"), JStr("orange")]
    ensures Removed([JStr("new"), JStr("red")], ["red"]) == [JStr("new")]
    ensures Appended([], ["red"]) == [JStr("red")]
    ensures Removed([JStr("red")], ["red"]) == []
  {
    assert KeepAbsent(["orange"], [JStr("new"), JStr("blue")]) == ["orange"];
    assert KeepAbsent(["red"], []) == ["red"];
    assert Removed([JStr("red")], ["red"]) == [];
  }

  /** A missing or null list field is the empty list. */
  lemma MissingListIsEmpty(current: Doc, target: string, input: ListInput)
    requires target !in current || current[target] == JNull
    ensures AppendedDoc(current, target, input) == Ok(current[target := JArr(Strings(KeepAbsent(Items(input), [])))])
    ensures RemovedDoc(current, target, input) == Ok(current[target := JArr([])])
  {
    assert Appended([], Items(input)) == Strings(KeepAbsent(Items(input), []));
  }

  // ---------------------------------------------------------------------
  // reads

  predicate Distinct(ids: seq<Id>)
  {
    forall i, j :: 0 <= i < j < |ids| ==> ids[i] != ids[j]
  }

  lemma {:induction false} MatchingDistinct(rows: map<Id, Row>, scan: seq<Id>, sel: Selector)
    requires SelectorExecutable(sel)
    requires forall i :: 0 <= i < |scan| ==> scan[i] in rows
    requires Distinct(scan)
    ensures Distinct(MatchingIds(rows, scan, sel))
  {
    if |scan| > 0 {
      MatchingDistinct(rows, scan[1..], sel);
      assert scan[0] !in scan[1..];
    }
  }

  /** Row `x` does not come before row `y` in the order. */
  predicate NotBefore(rows: map<Id, Row>, order: Order, x: Id, y: Id)
    requires x in rows && y in rows
  {
    !Precedes(order, rows[x].data, rows[x].created, rows[y].data, rows[y].created)
  }

  lemma InOrderRest(rows: map<Id, Row>, ids: seq<Id>, order: Order)
    requires |ids| > 0
    requires forall i :: 0 <= i < |ids| ==> ids[i] in rows
    requires InOrder(rows, ids, order)
    ensures InOrder(rows, ids[1..], order)
    ensures forall id :: id in ids[1..] ==> NotBefore(rows, order, id, ids[0])
  {
    var rest := ids[1..];
    forall i, j | 0 <= i < j < |rest|
      ensures !Precedes(order, rows[rest[j]].data, rows[rest[j]].created, rows[rest[i]].data, rows[rest[i]].created)
    {
      assert rest[i] == ids[i + 1] && rest[j] == ids[j + 1];
    }
    forall id | id in rest ensures NotBefore(rows, order, id, ids[0]) {
      var k :| 0 <= k < |rest| && rest[k] == id;
      assert ids[k + 1] == id;
    }
  }

  lemma InOrderCons(rows: map<Id, Row>, h: Id, tail: seq<Id>, order: Order)
    requires h in rows && forall i :: 0 <= i < |tail| ==> tail[i] in rows
    requires InOrder(rows, tail, order)
    requires forall k :: 0 <= k < |tail| ==> NotBefore(rows, order, tail[k], h)
    ensures InOrder(rows, [h] + tail, order)
  {
    var m := [h] + tail;
    forall i, j | 0 <= i < j < |m|
      ensures !Precedes(order, rows[m[j]].data, rows[m[j]].created, rows[m[i]].data, rows[m[i]].created)
    {
      assert m[j] == tail[j - 1];
      if i > 0 {
        assert m[i] == tail[i - 1];
      } else {
        assert NotBefore(rows, order, tail[j - 1], h);
      }
    }
  }

  lemma {:induction false} MatchingInOrder(rows: map<Id, Row>, scan: seq<Id>, sel: Selector, order: Order)
    requires SelectorExecutable(sel)
    requires forall i :: 0 <= i < |scan| ==> scan[i] in rows
    requires InOrder(rows, scan, order)
    ensures InOrder(rows, MatchingIds(rows, scan, sel), order)
  {
    if |scan| > 0 {
      InOrderRest(rows, scan, order);
      MatchingInOrder(rows, scan[1..], sel, order);
      var tail := MatchingIds(rows, scan[1..], sel);
      if Selects(sel, rows[scan[0]].data) {
        forall k | 0 <= k < |tail| ensures NotBefore(rows, order, tail[k], scan[0]) {
          assert tail[k] in tail;
        }
        InOrderCons(rows, scan[0], tail, order);
      } else {
        assert MatchingIds(rows, scan, sel) == [] + tail;
      }
    }
  }

  /** What a successful read is: the matching rows, or their window. */
  lemma SelectionShape(rows: map<Id, Row>, scan: seq<Id>, sel: Selector, page: Option<PageInfo>)
    requires forall i :: 0 <= i < |scan| ==> scan[i] in rows
    requires Selection(rows, scan, sel, page).Ok?
    ensures SelectorExecutable(sel)
    ensures page.None? ==> Selection(rows, scan, sel, page).value == MatchingIds(rows, scan, sel)
    ensures page.Some? ==>
      PageWindow(page.value).Ok? &&
      Selection(rows, scan, sel, page).value == Slice(MatchingIds(rows, scan, sel), PageWindow(page.value).value)
  {
  }

  /** A window takes its rows from the sequence, and takes none twice. */
  lemma SliceDistinct(m: seq<Id>, w: Window)
    requires Distinct(m)
    ensures Distinct(Slice(m, w))
    ensures forall i :: 0 <= i < |Slice(m, w)| ==> Slice(m, w)[i] in m
  {
    var ids := Slice(m, w);
    forall i, j | 0 <= i < j < |ids| ensures ids[i] != ids[j] {
      assert ids[i] == m[w.offset + i] && ids[j] == m[w.offset + j];
    }
    forall i | 0 <= i < |ids| ensures ids[i] in m {
      assert ids[i] == m[w.offset + i];
    }
  }

  /** Every row a read returns satisfies the statement's condition, and
      none comes twice. */
  lemma SelectionSound(rows: map<Id, Row>, scan: seq<Id>, sel: Selector, page: Option<PageInfo>)
    requires IsScan(rows, scan)
    requires Selection(rows, scan, sel, page).Ok?
    ensures SelectorExecutable(sel)
    ensures var ids := Selection(rows, scan, sel, page).value;
      Distinct(ids) && forall i :: 0 <= i < |ids| ==> Selects(sel, rows[ids[i]].data)
  {
    SelectionShape(rows, scan, sel, page);
    var m := MatchingIds(rows, scan, sel);
    MatchingDistinct(rows, scan, sel);
    if page.Some? {
      SliceDistinct(m, PageWindow(page.value).value);
    }
  }

  /** Without a `PaginationInput` a read returns every row that satisfies
      its condition, and rejects only a filter the store cannot run. */
  lemma SelectionComplete(rows: map<Id, Row>, scan: seq<Id>, sel: Selector)
    requires IsScan(rows, scan)
    ensures Selection(rows, scan, sel, None).Ok? <==> SelectorExecutable(sel)
    ensures Selection(rows, scan, sel, None).Ok? ==>
      forall id :: id in rows && Selects(sel, rows[id].data) ==> id in Selection(rows, scan, sel, None).value
  {
  }

  /** A paginated read returns at most the limit, and the page it returns
      is the window of all the matching rows. */
  lemma SelectionBounded(rows: map<Id, Row>, scan: seq<Id>, sel: Selector, p: PageInfo)
    requires IsScan(rows, scan)
    requires Selection(rows, scan, sel, Some(p)).Ok?
    ensures PageWindow(p).Ok?
    ensures |Selection(rows, scan, sel, Some(p)).value| <= LimitOf(p.max)
    ensures Selection(rows, scan, sel, Some(p)).value == Slice(MatchingIds(rows, scan, sel), PageWindow(p).value)
  {
  }

  /** When the store returns the rows in the order the statement asks for,
      the page is in that order too. */
  lemma SelectionOrdered(rows: map<Id, Row>, scan: seq<Id>, sel: Selector, page: Option<PageInfo>)
    requires IsScan(rows, scan)
    requires InOrder(rows, scan, OrderOf(page))
    requires Selection(rows, scan, sel, page).Ok?
    ensures InOrder(rows, Selection(rows, scan, sel, page).value, OrderOf(page))
  {
    SelectionShape(rows, scan, sel, page);
    MatchingInOrder(rows, scan, sel, OrderOf(page));
    if page.Some? {
      SliceInOrder(rows, MatchingIds(rows, scan, sel), PageWindow(page.value).value, OrderOf(page));
    }
  }

  /** A window of an ordered sequence is ordered. */
  lemma SliceInOrder(rows: map<Id, Row>, m: seq<Id>, w: Window, order: Order)
    requires forall i :: 0 <= i < |m| ==> m[i] in rows
    requires InOrder(rows, m, order)
    ensures forall i :: 0 <= i < |Slice(m, w)| ==> Slice(m, w)[i] in rows
    ensures InOrder(rows, Slice(m, w), order)
  {
    var ids := Slice(m, w);
    forall i, j | 0 <= i < j < |ids|
      ensures !Precedes(order, rows[ids[j]].data, rows[ids[j]].created, rows[ids[i]].data, rows[ids[i]].created)
    {
      assert ids[i] == m[w.offset + i] && ids[j] == m[w.offset + j];
    }
  }

  /** Starting without a cursor and sending each returned cursor back until
      a page is empty returns every matching row once, in order. */
  lemma CursorsVisitEveryMatch(rows: map<Id, Row>, scan: seq<Id>, sel: Selector, p: PageInfo)
    requires IsScan(rows, scan)
    requires SelectorExecutable(sel)
    requires PageWindow(p).Ok? && !CursorGiven(p.cursor)
    ensures Concat(Pages(MatchingIds(rows, scan, sel), p)) == MatchingIds(rows, scan, sel)
    ensures Selection(rows, scan, sel, Some(p)).Ok?
  {
    var m := MatchingIds(rows, scan, sel);
    PagesCoverRest(m, p);
    assert m[0..] == m;
  }

  /** No two distinct rows tie under the order: one of them precedes the other. */
  predicate NoTies(rows: map<Id, Row>, order: Order)
  {
    forall x, y :: x in rows && y in rows && x != y ==>
      Precedes(order, rows[x].data, rows[x].created, rows[y].data, rows[y].created) ||
      Precedes(order, rows[y].data, rows[y].created, rows[x].data, rows[x].created)
  }

  /** When no two rows tie under the order, there is only one way to list
      the rows in that order, so every statement that sorts them returns
      them in the same order and the pages of `CursorsVisitEveryMatch` are
      cut from one scan. */
  lemma {:induction false} TotalOrderFixesScan(rows: map<Id, Row>, s1: seq<Id>, s2: seq<Id>, order: Order)
    requires IsScan(rows, s1) && IsScan(rows, s2)
    requires InOrder(rows, s1, order) && InOrder(rows, s2, order)
    requires NoTies(rows, order)
    ensures s1 == s2
    decreases |s1|
  {
    ScanSize(rows, s1);
    ScanSize(rows, s2);
    if |s1| > 0 {
      var a := s1[0];
      var b := s2[0];
      FirstRowFixed(rows, s1, s2, order);
      var rest := rows - {a};
      ScanTail(rows, s1);
      ScanTail(rows, s2);
      TotalOrderFixesScan(rest, s1[1..], s2[1..], order);
      assert s1 == [a] + s1[1..] && s2 == [b] + s2[1..];
    }
  }

  /** A scan lists each row once, so it is as long as there are rows. */
  lemma {:induction false} ScanSize(rows: map<Id, Row>, s: seq<Id>)
    requires IsScan(rows, s)
    ensures |s| == |rows|
    decreases |s|
  {
    if |s| == 0 {
      assert forall id :: id !in rows;
      assert rows == map[];
    } else {
      ScanTail(rows, s);
      ScanSize(rows - {s[0]}, s[1..]);
      assert s[0] in rows;
    }
  }

  /** Two ordered scans without ties start with the same row: each first
      row would otherwise come after the other. */
  lemma FirstRowFixed(rows: map<Id, Row>, s1: seq<Id>, s2: seq<Id>, order: Order)
    requires IsScan(rows, s1) && IsScan(rows, s2) && |s1| > 0 && |s2| > 0
    requires InOrder(rows, s1, order) && InOrder(rows, s2, order)
    requires NoTies(rows, order)
    ensures s1[0] == s2[0]
  {
    var a, b := s1[0], s2[0];
    assert a in rows && b in rows;
    var j :| 0 <= j < |s1| && s1[j] == b;
    var k :| 0 <= k < |s2| && s2[k] == a;
  }

  /** Dropping the first row of a scan leaves a scan of the other rows, in
      the same order and still without ties. */
  lemma ScanTail(rows: map<Id, Row>, s: seq<Id>)
    requires IsScan(rows, s) && |s| > 0
    ensures IsScan(rows - {s[0]}, s[1..])
    ensures forall order :: InOrder(rows, s, order) ==> InOrder(rows - {s[0]}, s[1..], order)
    ensures forall order :: NoTies(rows, order) ==> NoTies(rows - {s[0]}, order)
  {
    var rest := rows - {s[0]};
    var t := s[1..];
    forall i | 0 <= i < |t| ensures t[i] in rest {
      assert t[i] == s[i + 1] && s[i + 1] != s[0];
    }
    forall id | id in rest ensures id in t {
      var i :| 0 <= i < |s| && s[i] == id;
      assert i > 0 && t[i - 1] == id;
    }
  }

  /** Without a filter `queryType` has no `WHERE`; with one the rendered
      predicate follows `WHERE`. */
  lemma QueryStatementWhere(schemaName: string, tableName: string, query: Option<Expr>, page: Option<PageInfo>)
    ensures var from := "SELECT created, last_modified, data, type_name FROM " + schemaName + "." + tableName;
      QueryTypeStatement(schemaName, tableName, query, page) ==
        RenderPageInfo(if query.None? then from + "   " else from + "  WHERE " + RenderExpr(query.value), page)
  {
    var from := "SELECT created, last_modified, data, type_name FROM " + schemaName + "." + tableName;
    if query.None? {
      assert from + "  " + "" + " " + "" == from + "   ";
    } else {
      assert from + "  " + "WHERE" + " " + RenderExpr(query.value) == from + "  WHERE " + RenderExpr(query.value);
    }
  }
}
