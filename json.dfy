/** JSON values as they are stored in a row's `data` column and passed in
    from GraphQL arguments, and the two ways the code turns one into text:
    JavaScript string interpolation (`${v}`) and the store's `->>` / `#>>`
    text extraction. Numbers are integers here. */
module Json {
  import opened Text

  datatype Json =
    | JNull
    | JBool(b: bool)
    | JNum(n: int)
    | JStr(s: string)
    | JArr(items: seq<Json>)
    | JObj(fields: map<string, Json>)

  /** A JSON object, e.g. a stored document or a resolver's input. */
  type Doc = map<string, Json>

  /** `${v}` where `v` is the JavaScript value of a property that may be
      missing (`undefined`): arrays print their elements separated by
      commas, with null elements as empty text, and objects print as
      `[object Object]`. */
  function Interpolate(v: Option<Json>): string
  {
    match v
    case None => "undefined"
    case Some(j) => InterpolateValue(j)
  }

  function InterpolateValue(j: Json): string
    decreases j, 1
  {
    match j
    case JNull => "null"
    case JBool(b) => if b then "true" else "false"
    case JNum(n) => IntToString(n)
    case JStr(s) => s
    case JArr(items) => InterpolateItems(items)
    case JObj(_) => "[object Object]"
  }

  function InterpolateItems(items: seq<Json>): string
    decreases items, 0
  {
    if |items| == 0 then ""
    else
      var first := if items[0] == JNull then "" else InterpolateValue(items[0]);
      if |items| == 1 then first else first + "," + InterpolateItems(items[1..])
  }

  /** The text `->>` extracts from a scalar value; SQL NULL (None) for a
      JSON null. Arrays and objects are also None here: the store would
      give their JSON serialisation, which this model does not write out. */
  function TextOf(j: Json): (r: Option<string>)
    ensures r.None? <==> (j.JNull? || j.JArr? || j.JObj?)
  {
    match j
    case JStr(s) => Some(s)
    case JNum(n) => Some(IntToString(n))
    case JBool(b) => Some(if b then "true" else "false")
    case _ => None
  }

  /** The element a path step `c` names in an array of `len` elements:
      `k` counts from the front and `-k` from the back; any other step, or
      one out of range, names nothing. */
  function ArrayIndex(c: string, len: nat): (r: Option<nat>)
    ensures r.Some? ==> r.value < len
  {
    if |c| > 0 && AllDigits(c) then
      if DigitsValue(c) < len then Some(DigitsValue(c)) else None
    else if |c| > 1 && c[0] == '-' && AllDigits(c[1..]) then
      var k := DigitsValue(c[1..]);
      if 1 <= k <= len then Some(len - k) else None
    else None
  }

  /** Element `k` of an array of `len` is named both by `k` and by
      `-(len - k)`, and a step past the end names nothing. */
  lemma ArrayIndexNames(k: nat, len: nat)
    ensures k < len ==> ArrayIndex(NatToString(k), len) == Some(k)
    ensures k < len ==> ArrayIndex("-" + NatToString(len - k), len) == Some(k)
    ensures k >= len ==> ArrayIndex(NatToString(k), len).None?
  {
    DigitsOfNat(k);
    if k < len {
      var c := "-" + NatToString(len - k);
      assert c[1..] == NatToString(len - k);
      DigitsOfNat(len - k);
      assert !IsDigit(c[0]);
    }
  }

  /** The value `#>>` reaches by following `path` from the document. */
  function At(doc: Doc, path: seq<string>): (r: Option<Json>)
    requires |path| >= 1
    ensures r.Some? ==> path[0] in doc
    ensures |path| == 1 ==> r == (if path[0] in doc then Some(doc[path[0]]) else None)
  {
    if path[0] !in doc then None else Below(doc[path[0]], path[1..])
  }

  /** The value reached from `j` by the rest of a path: an object step
      takes the key, an array step the element `ArrayIndex` names, and a
      step into a scalar reaches nothing. */
  function Below(j: Json, path: seq<string>): Option<Json>
    decreases |path|
  {
    if |path| == 0 then Some(j)
    else match j
      case JObj(inner) => if path[0] in inner then Below(inner[path[0]], path[1..]) else None
      case JArr(items) =>
        (match ArrayIndex(path[0], |items|)
         case Some(i) => Below(items[i], path[1..])
         case None => None)
      case _ => None
  }

  /** A two-step path reaches a key of a nested object, or an element of
      a nested array by its index, and nothing inside a scalar. */
  lemma AtSecondStep(doc: Doc, f: string, c: string)
    requires f in doc
    ensures doc[f].JObj? ==> At(doc, [f, c]) == (if c in doc[f].fields then Some(doc[f].fields[c]) else None)
    ensures doc[f].JArr? ==> forall k :: 0 <= k < |doc[f].items| && c == NatToString(k) ==>
      At(doc, [f, c]) == Some(doc[f].items[k])
    ensures !doc[f].JObj? && !doc[f].JArr? ==> At(doc, [f, c]).None?
  {
    assert [f, c][1..] == [c] && [c][1..] == [];
    assert At(doc, [f, c]) == Below(doc[f], [c]);
    match doc[f]
    case JObj(inner) =>
      if c in inner {
        assert Below(inner[c], []) == Some(inner[c]);
      }
    case JArr(items) =>
      forall k | 0 <= k < |items| && c == NatToString(k)
        ensures At(doc, [f, c]) == Some(items[k])
      {
        ArrayIndexNames(k, |items|);
        assert Below(items[k], []) == Some(items[k]);
      }
    case _ =>
  }

  /** The text extracted at `path`, SQL NULL when the path leads nowhere. */
  function TextAt(doc: Doc, path: seq<string>): Option<string>
    requires |path| >= 1
  {
    match At(doc, path)
    case None => None
    case Some(j) => TextOf(j)
  }

  /** For a scalar that has a text form, interpolating it in JavaScript and
      extracting it in the store give the same text; this is what lets a
      filter built from a stored value find the rows holding that value. */
  lemma InterpolateAgreesWithText(j: Json)
    requires TextOf(j).Some?
    ensures Interpolate(Some(j)) == TextOf(j).value
  {
  }

  /** JSONB containment `a @> b`: an object contains an object whose every
      key it has with a contained value; an array contains an array whose
      every element is contained in one of its own; scalars only themselves. */
  predicate Contains(a: Json, b: Json)
    decreases b, 0
  {
    match b
    case JObj(fb) => a.JObj? && forall k :: k in fb ==> k in a.fields && Contains(a.fields[k], fb[k])
    case JArr(ys) => a.JArr? && forall i :: 0 <= i < |ys| ==> Covered(a.items, ys[i])
    case _ => a == b
  }

  /** Some element of `items` contains `y`. */
  predicate Covered(items: seq<Json>, y: Json)
    decreases y, 1
  {
    exists x :: x in items && Contains(x, y)
  }

  /** `data @> query` for a stored document and an object-valued query. */
  predicate DocContains(doc: Doc, query: Doc)
  {
    Contains(JObj(doc), JObj(query))
  }

  /** Every value contains itself. */
  lemma {:induction false} ContainsReflexive(a: Json)
    ensures Contains(a, a)
    decreases a
  {
    match a
    case JObj(m) =>
      forall k | k in m ensures Contains(m[k], m[k]) {
        ContainsReflexive(m[k]);
      }
    case JArr(xs) =>
      forall i | 0 <= i < |xs| ensures Contains(xs[i], xs[i]) {
        ContainsReflexive(xs[i]);
      }
      ArrayContainsItself(xs);
    case _ =>
  }

  /** An array whose elements contain themselves contains itself. */
  lemma ArrayContainsItself(xs: seq<Json>)
    requires forall i :: 0 <= i < |xs| ==> Contains(xs[i], xs[i])
    ensures Contains(JArr(xs), JArr(xs))
  {
    forall i | 0 <= i < |xs| ensures Covered(xs, xs[i]) {
      assert xs[i] in xs;
    }
  }

  /** A one-key query `{"f": "v"}` selects exactly the documents holding the
      string `v` under `f`. */
  lemma SingleKeyContainment(doc: Doc, f: string, v: string)
    ensures DocContains(doc, map[f := JStr(v)]) <==> f in doc && doc[f] == JStr(v)
  {
    var q := map[f := JStr(v)];
    if f in doc && doc[f] == JStr(v) {
      forall k | k in q ensures k in doc && Contains(doc[k], q[k]) {
        assert k == f;
      }
    }
    if DocContains(doc, q) {
      assert f in q;
      assert f in doc && Contains(doc[f], q[f]);
      assert q[f] == JStr(v);
    }
  }
}
