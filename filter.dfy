/** The filter compiler of `src/hive/pgsql.js`: a filter expression tree is
    rendered to the text of a SQL predicate over the JSONB `data` column
    (`renderQuery`, with the operator table `opMap`), and `Eval` gives that
    predicate's meaning on one stored document, so that statements about
    which rows an UPDATE or SELECT touches can be made and proved. */
module Filter {
  import opened Text
  import opened Json

  /** The comparison operators `renderQuery` knows. */
  datatype CmpOp = EQ | NE | LIKE | RE | IN | LT | GT | LTE | GTE

  /** The operators of an inner node. */
  datatype BoolOp = AND | OR

  datatype Expr =
    | Compare(field: string, cmp: CmpOp, value: string)
    | IsNull(field: string)
    | NotNull(field: string)
    | Junction(conj: BoolOp, children: seq<Expr>)

  /** `opMap`. */
  function OpSymbol(op: CmpOp): string
  {
    match op
    case EQ => "="
    case NE => "<>"
    case LIKE => "LIKE"
    case RE => "="
    case IN => "IN"
    case LT => "<"
    case GT => ">"
    case LTE => "<="
    case GTE => ">="
  }

  function BoolOpName(op: BoolOp): string
  {
    match op
    case AND => "AND"
    case OR => "OR"
  }

  // ---------------------------------------------------------------------
  // rendering

  /** The text a field is extracted with: `data->>'f'` for a plain field,
      `data #>>'{a,b}'` for a dotted one. */
  function FieldRef(field: string): string
  {
    if '.' in field then "data #>>'{" + Join(Split(field, '.'), ",") + "}'"
    else "data->>'" + field + "'"
  }

  /** `renderQuery(query)`: the empty text for no expression. */
  function Render(q: Option<Expr>): (r: string)
    ensures q.None? <==> r == ""
  {
    match q
    case None => ""
    case Some(e) => RenderExpr(e)
  }

  function RenderExpr(e: Expr): (r: string)
    ensures |r| > 0
    decreases e, 1
  {
    match e
    case Compare(f, op, v) => FieldRef(f) + " " + OpSymbol(op) + " '" + v + "'"
    case IsNull(f) => "(NOT(data ? '" + f + "') OR (data ? '" + f + "') is NULL)"
    case NotNull(f) => "((data ? '" + f + "') AND (data ? '" + f + "') <> NULL)"
    case Junction(op, cs) => "(" + Join(RenderEach(cs), " " + BoolOpName(op) + " ") + ")"
  }

  /** The children rendered one by one, in order. */
  function RenderEach(cs: seq<Expr>): (r: seq<string>)
    ensures |r| == |cs|
    ensures forall i :: 0 <= i < |cs| ==> r[i] == RenderExpr(cs[i])
    decreases cs, 0
  {
    if |cs| == 0 then [] else [RenderExpr(cs[0])] + RenderEach(cs[1..])
  }

  // ---------------------------------------------------------------------
  // meaning of a rendered predicate on one document

  /** The path the rendered field reference follows: the field split at
      its dots. */
  function Path(field: string): (p: seq<string>)
    ensures |p| >= 1
  {
    Split(field, '.')
  }

  /** A filter the store can run: no `IN` leaf (it renders `x IN 'v'`, which
      is not valid SQL) and no inner node without children (it renders `()`). */
  predicate Executable(e: Expr)
  {
    match e
    case Compare(_, op, _) => op != IN
    case IsNull(_) => true
    case NotNull(_) => true
    case Junction(_, cs) => |cs| >= 1 && forall i :: 0 <= i < |cs| ==> Executable(cs[i])
  }

  /** The result of one rendered comparison on extracted text; a comparison
      with SQL NULL is never true. */
  predicate CompareText(op: CmpOp, t: Option<string>, v: string)
    requires op != IN
  {
    t.Some? &&
    match op
    case EQ => t.value == v
    case RE => t.value == v
    case NE => t.value != v
    case LIKE => Like(t.value, v)
    case LT => Less(t.value, v)
    case GT => Less(v, t.value)
    case LTE => Less(t.value, v) || t.value == v
    case GTE => Less(v, t.value) || t.value == v
  }

  /** Whether the rendered predicate holds for a row whose `data` is `doc`.
      NULL is read as false, which is exact here because the grammar has no
      negation above a leaf. `data ? 'f'` is a test for the top-level key
      `f`, so `ISNULL` holds exactly when the key is absent (the second
      disjunct, a null test on a boolean, never holds), and `NOTNULL` never
      holds (`x <> NULL` is NULL). */
  predicate Eval(e: Expr, doc: Doc)
    requires Executable(e)
    decreases e
  {
    match e
    case Compare(f, op, v) => CompareText(op, TextAt(doc, Path(f)), v)
    case IsNull(f) => f !in doc
    case NotNull(f) => false
    case Junction(AND, cs) => forall i :: 0 <= i < |cs| ==> Eval(cs[i], doc)
    case Junction(OR, cs) => exists i :: 0 <= i < |cs| && Eval(cs[i], doc)
  }

  // ---------------------------------------------------------------------
  // LIKE patterns

  /** `s LIKE p`: `%` matches any run of characters, `_` any one character. */
  predicate Like(s: string, p: string)
    decreases |s| + |p|
  {
    if |p| == 0 then |s| == 0
    else if p[0] == '%' then Like(s, p[1..]) || (|s| > 0 && Like(s[1..], p))
    else |s| > 0 && (p[0] == '_' || p[0] == s[0]) && Like(s[1..], p[1..])
  }

  predicate Literal(x: string)
  {
    '%' !in x && '_' !in x
  }

  lemma {:induction false} LikePercent(s: string)
    ensures Like(s, "%")
    decreases |s|
  {
    if |s| > 0 { LikePercent(s[1..]); }
  }

  /** A pattern without wildcards matches only itself. */
  lemma {:induction false} LikeLiteral(s: string, x: string)
    requires Literal(x)
    ensures Like(s, x) <==> s == x
    decreases |x|
  {
    if |x| > 0 && |s| > 0 {
      assert x[0] != '%' && x[0] != '_';
      assert Literal(x[1..]) by {
        assert forall i :: 0 <= i < |x[1..]| ==> x[1..][i] == x[i + 1];
      }
      LikeLiteral(s[1..], x[1..]);
      if s[0] == x[0] && s[1..] == x[1..] {
        assert s == [s[0]] + s[1..] && x == [x[0]] + x[1..];
      }
    }
  }

  /** `x%` with a wildcard-free `x` matches exactly the texts starting with `x`. */
  lemma {:induction false} LikePrefix(s: string, x: string)
    requires Literal(x)
    ensures Like(s, x + "%") <==> x <= s
    decreases |x|
  {
    if |x| == 0 {
      assert x + "%" == "%";
      LikePercent(s);
    } else {
      assert x[0] != '%' && x[0] != '_';
      assert Literal(x[1..]) by {
        assert forall i :: 0 <= i < |x[1..]| ==> x[1..][i] == x[i + 1];
      }
      assert (x + "%")[1..] == x[1..] + "%";
      if |s| > 0 {
        LikePrefix(s[1..], x[1..]);
        if x <= s {
          assert x[1..] <= s[1..];
        }
        if s[0] == x[0] && x[1..] <= s[1..] {
          assert x == [x[0]] + x[1..];
          assert s == [s[0]] + s[1..];
        }
      }
    }
  }

  /** `%p` matches exactly the texts with a suffix that `p` matches. */
  lemma {:induction false} LikeLeadingPercent(s: string, p: string)
    ensures Like(s, "%" + p) <==> exists k :: 0 <= k <= |s| && Like(s[k..], p)
    decreases |s|
  {
    var q := "%" + p;
    assert q[1..] == p;
    assert s[0..] == s;
    if |s| == 0 {
      assert Like(s, q) == Like(s, p);
    } else {
      LikeLeadingPercent(s[1..], p);
      if Like(s, q) && !Like(s, p) {
        var k :| 0 <= k <= |s[1..]| && Like(s[1..][k..], p);
        assert s[1..][k..] == s[k + 1..];
      }
      if exists k :: 0 <= k <= |s| && Like(s[k..], p) {
        var k :| 0 <= k <= |s| && Like(s[k..], p);
        if k > 0 {
          assert s[1..][k - 1..] == s[k..];
        }
      }
    }
  }

  /** `x` occurs in `s` starting at position `k`. */
  predicate OccursAt(s: string, x: string, k: int)
  {
    0 <= k && k + |x| <= |s| && s[k..k + |x|] == x
  }

  /** `%x%` with a wildcard-free `x` matches exactly the texts containing `x`
      (the "contains" search the filter tests use, such as `%Star Wars%`). */
  lemma LikeContains(s: string, x: string)
    requires Literal(x)
    ensures Like(s, "%" + x + "%") <==> exists k :: OccursAt(s, x, k)
  {
    assert "%" + x + "%" == "%" + (x + "%");
    LikeLeadingPercent(s, x + "%");
    if Like(s, "%" + x + "%") {
      var k :| 0 <= k <= |s| && Like(s[k..], x + "%");
      LikePrefix(s[k..], x);
      assert s[k..][..|x|] == s[k..k + |x|];
      assert OccursAt(s, x, k);
    }
    if exists k :: OccursAt(s, x, k) {
      var k :| OccursAt(s, x, k);
      assert s[k..][..|x|] == s[k..k + |x|];
      LikePrefix(s[k..], x);
    }
  }

  // ---------------------------------------------------------------------
  // rendering and evaluation agree on the field

  lemma {:induction false} SplitAtSeparator(s: string, c: char)
    requires c in s
    ensures |Split(s, c)| >= 2
    decreases |s|
  {
    if s[0] != c {
      assert c in s[1..] by {
        var i :| 0 <= i < |s| && s[i] == c;
        assert s[1..][i - 1] == c;
      }
      SplitAtSeparator(s[1..], c);
    }
  }

  /** The field reference the renderer writes names exactly the path the
      evaluator follows: `->>` with the single key when the path has one
      element, `#>>` with the elements separated by commas otherwise, which
      is the field with its dots replaced by commas. */
  lemma FieldRefNamesPath(f: string)
    ensures |Path(f)| == 1 ==> Path(f) == [f] && FieldRef(f) == "data->>'" + Path(f)[0] + "'"
    ensures |Path(f)| > 1 ==> FieldRef(f) == "data #>>'{" + Join(Path(f), ",") + "}'"
    ensures |Path(f)| > 1 ==> FieldRef(f) == "data #>>'{" + Replace(f, '.', ',') + "}'"
  {
    if '.' in f {
      SplitAtSeparator(f, '.');
      JoinSplitIsReplace(f, '.', ',');
    } else {
      SplitWithoutSeparator(f, '.');
    }
  }

  /** A plain field is compared on the value under its key. */
  lemma PlainFieldText(doc: Doc, f: string)
    requires '.' !in f
    ensures TextAt(doc, Path(f)) == (if f in doc then TextOf(doc[f]) else None)
  {
    SplitWithoutSeparator(f, '.');
  }

  /** `RE` is rendered, and therefore behaves, exactly like `EQ`. */
  lemma RegexIsEquality(f: string, v: string, doc: Doc)
    ensures RenderExpr(Compare(f, RE, v)) == RenderExpr(Compare(f, EQ, v))
    ensures Eval(Compare(f, RE, v), doc) <==> Eval(Compare(f, EQ, v), doc)
  {
  }

  /** `ISNULL` holds only when the key is absent: a key stored with a JSON
      null value is not null to this predicate. */
  lemma IsNullMeansAbsent(f: string, doc: Doc)
    ensures Eval(IsNull(f), doc) <==> f !in doc
    ensures Eval(IsNull(f), doc[f := JNull]) == false
  {
  }

  /** `NOTNULL` renders `(data ? 'f') <> NULL`, whose value is NULL: it
      excludes every row, even one that holds the key. */
  lemma NotNullNeverHolds(f: string, doc: Doc)
    ensures !Eval(NotNull(f), doc)
    ensures !Eval(NotNull(f), doc[f := JStr("x")])
  {
  }

  // ---------------------------------------------------------------------
  // parentheses

  function ParenDelta(ch: char): int
  {
    if ch == '(' then 1 else if ch == ')' then -1 else 0
  }

  /** Open parentheses minus closed ones. */
  function Depth(s: string): int
  {
    if |s| == 0 then 0 else Depth(s[..|s| - 1]) + ParenDelta(s[|s| - 1])
  }

  /** Every prefix of `s` has depth at least `k`. */
  predicate PrefixesAtLeast(s: string, k: int)
  {
    forall i :: 0 <= i <= |s| ==> Depth(s[..i]) >= k
  }

  /** Parentheses that close properly. */
  predicate Balanced(s: string)
  {
    Depth(s) == 0 && PrefixesAtLeast(s, 0)
  }

  /** One parenthesised group: opened by the first character and closed by
      the last one, and by no character before it. */
  predicate Grouped(s: string)
  {
    |s| >= 2 && s[0] == '(' && Depth(s) == 0 &&
    forall i :: 1 <= i < |s| ==> Depth(s[..i]) >= 1
  }

  predicate NoParens(s: string)
  {
    '(' !in s && ')' !in s
  }

  /** Field names and values without parentheses throughout the tree. */
  predicate ParenFree(e: Expr)
  {
    match e
    case Compare(f, _, v) => NoParens(f) && NoParens(v)
    case IsNull(f) => NoParens(f)
    case NotNull(f) => NoParens(f)
    case Junction(_, cs) => forall i :: 0 <= i < |cs| ==> ParenFree(cs[i])
  }

  lemma {:induction false} DepthConcat(a: string, b: string)
    ensures Depth(a + b) == Depth(a) + Depth(b)
    decreases |b|
  {
    if |b| > 0 {
      var b' := b[..|b| - 1];
      assert (a + b)[..|a + b| - 1] == a + b';
      DepthConcat(a, b');
    } else {
      assert a + b == a;
    }
  }

  lemma PrefixesConcat(a: string, b: string, k: int, m: int)
    requires PrefixesAtLeast(a, k) && PrefixesAtLeast(b, m)
    ensures PrefixesAtLeast(a + b, if k <= Depth(a) + m then k else Depth(a) + m)
    ensures Depth(a + b) == Depth(a) + Depth(b)
  {
    DepthConcat(a, b);
    var lo := if k <= Depth(a) + m then k else Depth(a) + m;
    forall i | 0 <= i <= |a + b| ensures Depth((a + b)[..i]) >= lo {
      if i <= |a| {
        assert (a + b)[..i] == a[..i];
      } else {
        assert (a + b)[..i] == a + b[..i - |a|];
        DepthConcat(a, b[..i - |a|]);
      }
    }
  }

  lemma {:induction false} NoParensDepth(s: string)
    requires NoParens(s)
    ensures Depth(s) == 0 && PrefixesAtLeast(s, 0)
    decreases |s|
  {
    if |s| > 0 {
      assert s[|s| - 1] in s;
      var s' := s[..|s| - 1];
      assert NoParens(s') by {
        assert forall ch :: ch in s' ==> ch in s;
      }
      NoParensDepth(s');
      forall i | 0 <= i <= |s| ensures Depth(s[..i]) >= 0 {
        if i < |s| {
          assert s[..i] == s'[..i];
        } else {
          assert s[..i] == s;
        }
      }
    }
  }

  lemma OpenParen()
    ensures Depth("(") == 1 && PrefixesAtLeast("(", 0)
  {
    assert "("[..0] == "";
    assert "("[..1] == "(";
  }

  lemma CloseParen()
    ensures Depth(")") == -1 && PrefixesAtLeast(")", -1)
  {
    assert ")"[..0] == "";
    assert ")"[..1] == ")";
  }

  lemma BalancedConcat(a: string, b: string)
    requires Balanced(a) && Balanced(b)
    ensures Balanced(a + b)
  {
    PrefixesConcat(a, b, 0, 0);
  }

  lemma NoParensBalanced(s: string)
    requires NoParens(s)
    ensures Balanced(s)
  {
    NoParensDepth(s);
  }

  lemma {:induction false} JoinBalanced(parts: seq<string>, sep: string)
    requires NoParens(sep)
    requires forall i :: 0 <= i < |parts| ==> Balanced(parts[i])
    ensures Balanced(Join(parts, sep))
  {
    if |parts| == 0 {
      NoParensBalanced("");
    } else if |parts| > 1 {
      JoinBalanced(parts[1..], sep);
      NoParensBalanced(sep);
      BalancedConcat(parts[0], sep);
      BalancedConcat(parts[0] + sep, Join(parts[1..], sep));
    }
  }

  /** `(` + a balanced text + `)` is one group. */
  lemma WrapGrouped(j: string)
    requires Balanced(j)
    ensures Grouped("(" + j + ")")
    ensures Balanced("(" + j + ")")
  {
    OpenParen();
    CloseParen();
    PrefixesConcat("(", j, 0, 0);
    PrefixesConcat("(" + j, ")", 0, -1);
    var s := "(" + j + ")";
    forall i | 1 <= i < |s| ensures Depth(s[..i]) >= 1 {
      assert s[..i] == "(" + j[..i - 1];
      DepthConcat("(", j[..i - 1]);
    }
    GroupedBalanced(s);
  }

  /** `(data ? 'f')`, the key test. */
  lemma KeyTestBalanced(f: string)
    requires NoParens(f)
    ensures Balanced("(data ? '" + f + "')")
  {
    var m := "data ? '" + f + "'";
    assert NoParens(m);
    NoParensBalanced(m);
    WrapGrouped(m);
    assert "(data ? '" + f + "')" == "(" + m + ")";
  }

  /** A text of paren-free pieces around two balanced ones. */
  lemma TwoBalanced(a: string, k: string, b: string, c: string)
    requires NoParens(a) && NoParens(b) && NoParens(c) && Balanced(k)
    ensures Balanced(a + k + b + k + c)
  {
    NoParensBalanced(a);
    NoParensBalanced(b);
    NoParensBalanced(c);
    BalancedConcat(a, k);
    BalancedConcat(a + k, b);
    BalancedConcat(a + k + b, k);
    BalancedConcat(a + k + b + k, c);
  }

  lemma IsNullGrouped(f: string)
    requires NoParens(f)
    ensures Grouped(RenderExpr(IsNull(f)))
  {
    var k := "(data ? '" + f + "')";
    KeyTestBalanced(f);
    TwoBalanced("NOT", k, " OR ", " is NULL");
    WrapGrouped("NOT" + k + " OR " + k + " is NULL");
    IsNullText(f);
  }

  lemma IsNullText(f: string)
    ensures var k := "(data ? '" + f + "')";
      RenderExpr(IsNull(f)) == "(" + ("NOT" + k + " OR " + k + " is NULL") + ")"
  {
  }

  lemma NotNullGrouped(f: string)
    requires NoParens(f)
    ensures Grouped(RenderExpr(NotNull(f)))
  {
    var k := "(data ? '" + f + "')";
    var m := k + " AND " + k + " <> NULL";
    KeyTestBalanced(f);
    NoParensBalanced(" AND ");
    NoParensBalanced(" <> NULL");
    BalancedConcat(k, " AND ");
    BalancedConcat(k + " AND ", k);
    BalancedConcat(k + " AND " + k, " <> NULL");
    WrapGrouped(m);
    NotNullText(f);
  }

  lemma NotNullText(f: string)
    ensures var k := "(data ? '" + f + "')";
      RenderExpr(NotNull(f)) == "(" + (k + " AND " + k + " <> NULL") + ")"
  {
  }

  lemma FieldRefNoParens(f: string)
    requires NoParens(f)
    ensures NoParens(FieldRef(f))
  {
    if '.' in f {
      var j := Join(Split(f, '.'), ",");
      JoinSplitIsReplace(f, '.', ',');
      assert NoParens(j) by {
        forall i | 0 <= i < |j| ensures j[i] != '(' && j[i] != ')' {
          assert f[i] in f;
        }
      }
    }
  }

  lemma CompareBalanced(f: string, op: CmpOp, v: string)
    requires NoParens(f) && NoParens(v)
    ensures Balanced(RenderExpr(Compare(f, op, v)))
  {
    FieldRefNoParens(f);
    assert NoParens(OpSymbol(op));
    assert NoParens(FieldRef(f) + " " + OpSymbol(op) + " '" + v + "'");
    NoParensBalanced(RenderExpr(Compare(f, op, v)));
  }

  /** The rendered predicate opens and closes its parentheses properly, and
      every `ISNULL`, `NOTNULL` and inner node is wrapped in exactly one
      group, so that a rendered node stays one operand when the caller
      places it after `WHERE` or `AND`. */
  lemma {:induction false} RenderBalanced(e: Expr)
    requires ParenFree(e)
    ensures Balanced(RenderExpr(e))
    ensures !e.Compare? ==> Grouped(RenderExpr(e))
    decreases e
  {
    match e
    case Compare(f, op, v) =>
      CompareBalanced(f, op, v);
    case IsNull(f) =>
      IsNullGrouped(f);
      GroupedBalanced(RenderExpr(e));
    case NotNull(f) =>
      NotNullGrouped(f);
      GroupedBalanced(RenderExpr(e));
    case Junction(op, cs) =>
      var rs := RenderEach(cs);
      forall i | 0 <= i < |rs| ensures Balanced(rs[i]) {
        RenderBalanced(cs[i]);
      }
      var sep := " " + BoolOpName(op) + " ";
      assert NoParens(sep);
      JoinBalanced(rs, sep);
      WrapGrouped(Join(rs, sep));
  }

  lemma GroupedBalanced(s: string)
    requires Grouped(s)
    ensures Balanced(s)
  {
    forall i | 0 <= i <= |s| ensures Depth(s[..i]) >= 0 {
      if i == 0 {
        assert s[..i] == "";
      } else if i == |s| {
        assert s[..i] == s;
      }
    }
  }

  // ---------------------------------------------------------------------
  // the exclusive-assignment closeout filter

  /** The filter `insertType` builds for an exclusive assignment table:
      rows of the same resource whose interval is open (no end key), ends
      after the new start, or starts after it. */
  function CloseoutFilter(assignedField: string, startField: string, endField: string, value: string, start: string): Expr
  {
    Junction(AND, [
      Compare(assignedField, EQ, value),
      Junction(OR, [IsNull(endField), Compare(endField, GT, start), Compare(startField, GT, start)])
    ])
  }

  lemma CloseoutExecutable(assignedField: string, startField: string, endField: string, value: string, start: string)
    ensures Executable(CloseoutFilter(assignedField, startField, endField, value, start))
  {
  }

  /** Which documents the closeout filter selects, stated without the tree. */
  lemma CloseoutMatches(assignedField: string, startField: string, endField: string, value: string, start: string, doc: Doc)
    ensures Executable(CloseoutFilter(assignedField, startField, endField, value, start))
    ensures Eval(CloseoutFilter(assignedField, startField, endField, value, start), doc) <==>
      TextAt(doc, Path(assignedField)) == Some(value) &&
      (endField !in doc ||
       (TextAt(doc, Path(endField)).Some? && Less(start, TextAt(doc, Path(endField)).value)) ||
       (TextAt(doc, Path(startField)).Some? && Less(start, TextAt(doc, Path(startField)).value)))
  {
    var e := CloseoutFilter(assignedField, startField, endField, value, start);
    var inner := e.children[1];
    assert Eval(e, doc) <==> Eval(e.children[0], doc) && Eval(inner, doc);
    assert Eval(inner, doc) <==> Eval(inner.children[0], doc) || Eval(inner.children[1], doc) || Eval(inner.children[2], doc);
  }
}
