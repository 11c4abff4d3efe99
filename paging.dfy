/** Pagination in `src/hive/pgsql.js`: the `PaginationInput` of a list or
    query field becomes an `ORDER BY`, a clamped `LIMIT` and an opaque
    cursor that carries the `OFFSET` of the next page (`renderPageInfo`,
    `encodeCursor`, `decodeCursor`, `getPageInfoResult`). Beside the
    statement text, `PageWindow` and `Precedes` say which rows the store
    returns for it. */
module Paging {
  import opened Text
  import opened Json
  import Base64

  datatype Direction = Asc | Desc

  datatype SortTerm = SortTerm(field: string, direction: Option<Direction>)

  /** `PaginationInput`: every member may be missing. */
  datatype PageInfo = PageInfo(max: Option<int>, sort: Option<seq<SortTerm>>, cursor: Option<string>)

  /** `PageInfo` as returned beside a page. `total` is never filled in. */
  datatype PageInfoResult = PageInfoResult(
    total: Option<int>,
    count: nat,
    max: Option<int>,
    sort: Option<seq<SortTerm>>,
    cursor: string)

  /** Why the store rejects the statement a `PaginationInput` renders. */
  datatype PageError =
    | EmptySort          // `ORDER BY ` followed by nothing
    | NegativeLimit      // `LIMIT -n`
    | UnsupportedCursor(decoded: string)  // decoded cursor that is neither empty nor `OFFSET <digits>`

  // ---------------------------------------------------------------------
  // statement text

  /** A cursor is used only when it is a non-empty string (JavaScript truthiness). */
  predicate CursorGiven(cursor: Option<string>)
  {
    cursor.Some? && cursor.value != ""
  }

  function DirectionText(d: Option<Direction>): string
  {
    if d == Some(Desc) then "DESC" else "ASC"
  }

  function SortTexts(terms: seq<SortTerm>): (r: seq<string>)
    ensures |r| == |terms|
    ensures forall i :: 0 <= i < |terms| ==>
      r[i] == "data->>'" + terms[i].field + "' " + DirectionText(terms[i].direction)
  {
    if |terms| == 0 then []
    else ["data->>'" + terms[0].field + "' " + DirectionText(terms[0].direction)] + SortTexts(terms[1..])
  }

  /** The `ORDER BY` clause: the given sort terms, else creation time. */
  function OrderByClause(p: PageInfo): string
  {
    if p.sort.Some? then " ORDER BY " + Join(SortTexts(p.sort.value), ", ")
    else " ORDER BY created ASC"
  }

  /** The `LIMIT`: 20 when `max` is missing or zero, `max` up to 100, and
      1000 above 100. A negative `max` passes through. */
  function LimitOf(max: Option<int>): (n: int)
    ensures max.None? || max == Some(0) ==> n == 20
    ensures max.Some? && max.value != 0 && max.value <= 100 ==> n == max.value
    ensures max.Some? && max.value > 100 ==> n == 1000
    ensures n <= 1000 && (n < 0 <==> max.Some? && max.value < 0)
  {
    if max.Some? && max.value != 0 && max.value <= 100 then max.value
    else if max.Some? && max.value != 0 && max.value > 100 then 1000
    else 20
  }

  /** `decodeCursor`: base64 to bytes to ASCII text. */
  function DecodeCursor(cursor: string): string
  {
    Base64.AsciiText(Base64.Decode(cursor))
  }

  /** `encodeCursor`: the text `OFFSET <n>` as ASCII bytes, in base64. */
  function EncodeCursor(offset: Number): string
  {
    Base64.Encode(Base64.AsciiBytes("OFFSET " + NumberText(offset)))
  }

  /** `renderPageInfo`: without a `PaginationInput` the query is unchanged;
      with one it is ordered, wrapped, limited and offset by the decoded
      cursor. */
  function RenderPageInfo(query: string, page: Option<PageInfo>): (r: string)
    ensures page.None? ==> r == query
    ensures page.Some? ==> "WITH temp as (" + query <= r
  {
    match page
    case None => query
    case Some(p) =>
      var limited := "WITH temp as (" + query + OrderByClause(p) + ") SELECT * FROM temp LIMIT " + IntToString(LimitOf(p.max));
      if CursorGiven(p.cursor) then limited + " " + DecodeCursor(p.cursor.value) else limited
  }

  /** The whole paged statement with sort terms and without a cursor: the
      query, `ORDER BY` and the sort terms joined by `, `, wrapped and
      limited by the clamped limit. `CursorAppends` adds the cursor. */
  lemma RenderedSorted(query: string, p: PageInfo)
    requires !CursorGiven(p.cursor) && p.sort.Some?
    ensures RenderPageInfo(query, Some(p)) ==
      "WITH temp as (" + query + " ORDER BY " + Join(SortTexts(p.sort.value), ", ") +
      ") SELECT * FROM temp LIMIT " + IntToString(LimitOf(p.max))
  {
    var order := Join(SortTexts(p.sort.value), ", ");
    var limit := ") SELECT * FROM temp LIMIT " + IntToString(LimitOf(p.max));
    calc {
      RenderPageInfo(query, Some(p));
      "WITH temp as (" + query + OrderByClause(p) + limit;
      "WITH temp as (" + query + (" ORDER BY " + order) + limit;
      { Regroup("WITH temp as (" + query, " ORDER BY ", order, limit); }
      "WITH temp as (" + query + " ORDER BY " + order + limit;
    }
  }

  lemma Regroup(a: string, b: string, c: string, d: string)
    ensures a + (b + c) + d == a + b + c + d
  {
  }

  /** Without sort terms and without a cursor, the statement is ordered by
      creation time. */
  lemma RenderedByCreation(query: string, p: PageInfo)
    requires !CursorGiven(p.cursor) && p.sort.None?
    ensures RenderPageInfo(query, Some(p)) ==
      "WITH temp as (" + query + " ORDER BY created ASC" + ") SELECT * FROM temp LIMIT " + IntToString(LimitOf(p.max))
  {
    var limit := ") SELECT * FROM temp LIMIT " + IntToString(LimitOf(p.max));
    calc {
      RenderPageInfo(query, Some(p));
      "WITH temp as (" + query + OrderByClause(p) + limit;
      "WITH temp as (" + query + " ORDER BY created ASC" + limit;
    }
  }

  /** A `PaginationInput` with nothing set reads the first 20 rows by
      creation time. */
  lemma DefaultPaging(query: string)
    ensures RenderPageInfo(query, Some(PageInfo(None, None, None))) ==
      "WITH temp as (" + query + " ORDER BY created ASC" + ") SELECT * FROM temp LIMIT " + "20"
  {
    RenderedByCreation(query, PageInfo(None, None, None));
    assert IntToString(20) == "20";
  }

  // ---------------------------------------------------------------------
  // the page-info result

  /** The text after the first seven characters (`substring(7)`). */
  function AfterOffsetWord(s: string): string
  {
    if |s| >= 7 then s[7..] else ""
  }

  function AddCount(x: Number, count: nat): Number
  {
    match x
    case Finite(n) => Finite(n + count)
    case NaN => NaN
  }

  /** The offset of the next page: the offset in the cursor (read back with
      `Number`) plus the number of rows returned. */
  function NextOffset(page: Option<PageInfo>, count: nat): Number
  {
    if page.Some? && CursorGiven(page.value.cursor) then
      AddCount(ParseNumber(AfterOffsetWord(DecodeCursor(page.value.cursor.value))), count)
    else Finite(count)
  }

  /** `getPageInfoResult`: the request's `max` and `sort` echoed back (null
      without a `PaginationInput`), the count, and the cursor of the next page. */
  function GetPageInfoResult(page: Option<PageInfo>, count: nat): (r: PageInfoResult)
    ensures r.total.None? && r.count == count
    ensures r.max == (if page.Some? then page.value.max else None)
    ensures r.sort == (if page.Some? then page.value.sort else None)
    ensures r.cursor == EncodeCursor(NextOffset(page, count))
  {
    PageInfoResult(None, count,
      if page.Some? then page.value.max else None,
      if page.Some? then page.value.sort else None,
      EncodeCursor(NextOffset(page, count)))
  }

  // ---------------------------------------------------------------------
  // which rows a paginated statement returns

  /** Skip `offset` rows, then return at most `limit`. */
  datatype Window = Window(offset: nat, limit: nat)

  /** The window the statement asks for, or why the store rejects it. */
  function PageWindow(p: PageInfo): (r: Result<Window, PageError>)
    ensures r.Ok? ==> r.value.limit >= 1 && r.value.limit == LimitOf(p.max)
    ensures r.Ok? && !CursorGiven(p.cursor) ==> r.value.offset == 0
    ensures p.sort == Some([]) ==> r == Err(EmptySort)
    ensures p.sort != Some([]) && p.max.Some? && p.max.value < 0 ==> r == Err(NegativeLimit)
  {
    var n := LimitOf(p.max);
    if p.sort == Some([]) then Err(EmptySort)
    else if n < 0 then Err(NegativeLimit)
    else if !CursorGiven(p.cursor) then Ok(Window(0, n))
    else
      var d := DecodeCursor(p.cursor.value);
      if d == "" then Ok(Window(0, n))
      else if |d| > 7 && d[..7] == "OFFSET " && AllDigits(d[7..]) then Ok(Window(DigitsValue(d[7..]), n))
      else Err(UnsupportedCursor(d))
  }

  function Min(a: int, b: int): int { if a <= b then a else b }

  /** The rows a window selects from the ordered result. */
  function Slice<T>(xs: seq<T>, w: Window): (r: seq<T>)
    ensures |r| == (if w.offset >= |xs| then 0 else Min(w.limit, |xs| - w.offset))
    ensures forall i :: 0 <= i < |r| ==> r[i] == xs[w.offset + i]
  {
    if w.offset >= |xs| then [] else xs[w.offset..Min(w.offset + w.limit, |xs|)]
  }

  // ---------------------------------------------------------------------
  // the cursor round trip

  lemma EncodeNonEmpty(b: seq<Base64.Byte>)
    requires |b| > 0
    ensures |Base64.Encode(b)| > 0
  {
    assert |Base64.Sextets(b)| > 0;
  }

  lemma OffsetTextAscii(n: nat)
    ensures Base64.IsAscii("OFFSET " + NatToString(n))
  {
    var s := "OFFSET " + NatToString(n);
    forall i | 0 <= i < |s| ensures s[i] as int < 128 {
      if i >= 7 {
        assert s[i] == NatToString(n)[i - 7];
      }
    }
  }

  /** A cursor made for offset `n` decodes to `OFFSET n`, and a non-empty one. */
  lemma CursorRoundTrip(n: nat)
    ensures DecodeCursor(EncodeCursor(Finite(n))) == "OFFSET " + NatToString(n)
    ensures EncodeCursor(Finite(n)) != ""
  {
    var s := "OFFSET " + NatToString(n);
    assert NumberText(Finite(n)) == NatToString(n);
    OffsetTextAscii(n);
    Base64.DecodeEncode(Base64.AsciiBytes(s));
    Base64.AsciiRoundTrip(s);
    EncodeNonEmpty(Base64.AsciiBytes(s));
  }

  /** A given cursor adds its decoded text after the statement the same
      `PaginationInput` renders without one. */
  lemma CursorAppends(query: string, p: PageInfo)
    requires CursorGiven(p.cursor)
    ensures RenderPageInfo(query, Some(p)) ==
      RenderPageInfo(query, Some(p.(cursor := None))) + " " + DecodeCursor(p.cursor.value)
  {
  }

  /** A cursor made for offset `n` puts `OFFSET n` after the statement the
      same `PaginationInput` renders without a cursor. */
  lemma CursorRendersOffset(query: string, p: PageInfo, n: nat)
    requires p.cursor == Some(EncodeCursor(Finite(n)))
    ensures RenderPageInfo(query, Some(p)) ==
      RenderPageInfo(query, Some(p.(cursor := None))) + " OFFSET " + NatToString(n)
  {
    CursorRoundTrip(n);
    CursorAppends(query, p);
    OffsetSuffix(RenderPageInfo(query, Some(p.(cursor := None))), NatToString(n));
  }

  lemma OffsetSuffix(head: string, digits: string)
    ensures head + " " + ("OFFSET " + digits) == head + " OFFSET " + digits
  {
  }

  /** Sending back the cursor of a page asks for the next page: the same
      limit, and an offset advanced by the number of rows the page had. */
  lemma NextWindow(p: PageInfo, count: nat)
    requires PageWindow(p).Ok?
    ensures PageWindow(Following(p, count)) ==
      Ok(Window(PageWindow(p).value.offset + count, PageWindow(p).value.limit))
  {
    var n := PageWindow(p).value.offset + count;
    CursorOffsetRead(p, count);
    OffsetCursorWindow(Following(p, count), n);
  }

  /** The next offset is the offset the page was read at plus its rows. */
  lemma CursorOffsetRead(p: PageInfo, count: nat)
    requires PageWindow(p).Ok?
    ensures NextOffset(Some(p), count) == Finite(PageWindow(p).value.offset + count)
  {
    if CursorGiven(p.cursor) {
      var d := DecodeCursor(p.cursor.value);
      if d == "" {
        EmptyCursorNextOffset(p, count);
      } else {
        assert AfterOffsetWord(d) == d[7..];
        ParseDigits(d[7..]);
      }
    }
  }

  /** A cursor that decodes to nothing (`"="`, say) reads the same rows as
      no cursor at all, and the next cursor starts after them. */
  lemma EmptyCursorIsFirstPage(p: PageInfo, count: nat)
    requires CursorGiven(p.cursor) && DecodeCursor(p.cursor.value) == ""
    ensures PageWindow(p) == PageWindow(p.(cursor := None))
    ensures NextOffset(Some(p), count) == Finite(count)
  {
    EmptyCursorNextOffset(p, count);
  }

  lemma EmptyCursorNextOffset(p: PageInfo, count: nat)
    requires CursorGiven(p.cursor) && DecodeCursor(p.cursor.value) == ""
    ensures NextOffset(Some(p), count) == Finite(count)
  {
    assert AfterOffsetWord("") == "";
    assert TrimEnd(TrimStart("")) == "";
  }

  /** The cursor `"="` is one of them. */
  lemma PaddingCursorIsEmpty()
    ensures DecodeCursor("=") == ""
  {
    assert Base64.Clean("=") == [];
  }

  /** A request carrying the cursor made for offset `n` reads from `n`. */
  lemma OffsetCursorWindow(p: PageInfo, n: nat)
    requires p.cursor == Some(EncodeCursor(Finite(n)))
    requires p.sort != Some([]) && LimitOf(p.max) >= 0
    ensures PageWindow(p) == Ok(Window(n, LimitOf(p.max)))
  {
    CursorRoundTrip(n);
    OffsetTextParts(n);
  }

  lemma OffsetTextParts(n: nat)
    ensures var d := "OFFSET " + NatToString(n);
      |d| > 7 && d[..7] == "OFFSET " && AllDigits(d[7..]) && DigitsValue(d[7..]) == n
  {
    var d := "OFFSET " + NatToString(n);
    assert d[7..] == NatToString(n);
    DigitsOfNat(n);
  }

  /** The pages a client gets by sending each page's cursor back until a
      page comes back empty, over a result that does not change meanwhile. */
  function Pages<T>(xs: seq<T>, p: PageInfo): seq<seq<T>>
    requires PageWindow(p).Ok?
    decreases |xs| - PageWindow(p).value.offset
  {
    var w := PageWindow(p).value;
    var page := Slice(xs, w);
    if |page| == 0 then []
    else
      NextWindow(p, |page|);
      [page] + Pages(xs, Following(p, |page|))
  }

  function Concat<T>(pages: seq<seq<T>>): seq<T>
  {
    if |pages| == 0 then [] else pages[0] + Concat(pages[1..])
  }

  /** The request that follows `p` after a page of `count` rows. */
  function Following(p: PageInfo, count: nat): PageInfo
  {
    p.(cursor := Some(GetPageInfoResult(Some(p), count).cursor))
  }

  lemma PagesStep<T>(xs: seq<T>, p: PageInfo)
    requires PageWindow(p).Ok?
    ensures |Slice(xs, PageWindow(p).value)| == 0 ==> Pages(xs, p) == []
    ensures |Slice(xs, PageWindow(p).value)| > 0 ==>
      PageWindow(Following(p, |Slice(xs, PageWindow(p).value)|)).Ok? &&
      Pages(xs, p) == [Slice(xs, PageWindow(p).value)] + Pages(xs, Following(p, |Slice(xs, PageWindow(p).value)|))
  {
    NextWindow(p, |Slice(xs, PageWindow(p).value)|);
  }

  lemma SliceSplitsRest<T>(xs: seq<T>, w: Window)
    requires w.offset <= |xs|
    ensures xs[w.offset..] == Slice(xs, w) + xs[w.offset + |Slice(xs, w)|..]
  {
    var page := Slice(xs, w);
    if w.offset < |xs| {
      assert page == xs[w.offset..w.offset + |page|];
    }
  }

  lemma ConcatCons<T>(page: seq<T>, rest: seq<seq<T>>)
    ensures Concat([page] + rest) == page + Concat(rest)
  {
    assert ([page] + rest)[1..] == rest;
  }

  /** The windows a fixed limit steps through from `w` on, each starting
      where the previous one ended, up to the first empty one. */
  function Windows<T>(xs: seq<T>, w: Window): seq<seq<T>>
    decreases |xs| - w.offset
  {
    var page := Slice(xs, w);
    if |page| == 0 then [] else [page] + Windows(xs, Window(w.offset + |page|, w.limit))
  }

  /** The cursors step through exactly those windows. */
  lemma {:induction false} PagesAreWindows<T>(xs: seq<T>, p: PageInfo)
    requires PageWindow(p).Ok?
    ensures Pages(xs, p) == Windows(xs, PageWindow(p).value)
    decreases |xs| - PageWindow(p).value.offset
  {
    var w := PageWindow(p).value;
    var page := Slice(xs, w);
    if |page| > 0 {
      var p' := Following(p, |page|);
      PagesUnfold(xs, p, w, page);
      var w' := PageWindow(p').value;
      assert w' == Window(w.offset + |page|, w.limit);
      PagesAreWindows(xs, p');
      WindowsStep(xs, w, w');
    } else {
      PagesStep(xs, p);
    }
  }

  /** A non-empty page, then the pages its cursor leads to, which start
      where it ended. */
  lemma PagesUnfold<T>(xs: seq<T>, p: PageInfo, w: Window, page: seq<T>)
    requires PageWindow(p) == Ok(w) && page == Slice(xs, w) && |page| > 0
    ensures PageWindow(Following(p, |page|)) == Ok(Window(w.offset + |page|, w.limit))
    ensures Pages(xs, p) == [page] + Pages(xs, Following(p, |page|))
  {
    NextWindow(p, |page|);
    var rest := Pages(xs, Following(p, |page|));
    calc {
      Pages(xs, p);
      { PagesStep(xs, p); }
      [Slice(xs, PageWindow(p).value)] + Pages(xs, Following(p, |Slice(xs, PageWindow(p).value)|));
      [page] + rest;
    }
  }

  /** A non-empty window followed by the windows after it. */
  lemma WindowsStep<T>(xs: seq<T>, w: Window, w': Window)
    requires |Slice(xs, w)| > 0 && w' == Window(w.offset + |Slice(xs, w)|, w.limit)
    ensures Windows(xs, w) == [Slice(xs, w)] + Windows(xs, w')
  {
    var page := Slice(xs, w);
    var rest := Windows(xs, w');
    calc {
      Windows(xs, w);
      [page] + Windows(xs, Window(w.offset + |page|, w.limit));
      [page] + rest;
    }
  }

  lemma {:induction false} WindowsCoverRest<T>(xs: seq<T>, w: Window)
    requires w.offset <= |xs| && w.limit >= 1
    ensures Concat(Windows(xs, w)) == xs[w.offset..]
    decreases |xs| - w.offset
  {
    var page := Slice(xs, w);
    if |page| > 0 {
      var w' := Window(w.offset + |page|, w.limit);
      var rest := Windows(xs, w');
      WindowsCoverRest(xs, w');
      WindowsStep(xs, w, w');
      ConcatCons(page, rest);
      SliceSplitsRest(xs, w);
    } else {
      assert w.offset == |xs|;
    }
  }

  lemma {:induction false} WindowsBounded<T>(xs: seq<T>, w: Window)
    ensures forall i :: 0 <= i < |Windows(xs, w)| ==> 1 <= |Windows(xs, w)[i]| <= w.limit
    decreases |xs| - w.offset
  {
    var page := Slice(xs, w);
    if |page| > 0 {
      var w' := Window(w.offset + |page|, w.limit);
      WindowsBounded(xs, w');
      var rest := Windows(xs, w');
      forall i | 0 <= i < |Windows(xs, w)| ensures 1 <= |Windows(xs, w)[i]| <= w.limit {
        if i > 0 {
          assert Windows(xs, w)[i] == rest[i - 1];
        }
      }
    }
  }

  /** Following the cursors visits every row from the first page's offset
      on exactly once and in order. */
  lemma PagesCoverRest<T>(xs: seq<T>, p: PageInfo)
    requires PageWindow(p).Ok? && PageWindow(p).value.offset <= |xs|
    ensures Concat(Pages(xs, p)) == xs[PageWindow(p).value.offset..]
  {
    PagesAreWindows(xs, p);
    WindowsCoverRest(xs, PageWindow(p).value);
  }

  /** No page is empty or longer than the limit. */
  lemma PagesBounded<T>(xs: seq<T>, p: PageInfo)
    requires PageWindow(p).Ok?
    ensures forall i :: 0 <= i < |Pages(xs, p)| ==> 1 <= |Pages(xs, p)[i]| <= PageWindow(p).value.limit
  {
    PagesAreWindows(xs, p);
    WindowsBounded(xs, PageWindow(p).value);
  }

  // ---------------------------------------------------------------------
  // the order the statement asks for

  datatype Order = Unordered | ByCreated | ByTerms(terms: seq<SortTerm>)

  /** No `PaginationInput`: no `ORDER BY`. Otherwise the sort terms, or
      creation time. */
  function OrderOf(page: Option<PageInfo>): Order
  {
    match page
    case None => Unordered
    case Some(p) => if p.sort.Some? then ByTerms(p.sort.value) else ByCreated
  }

  /** The text `data->>'f'` yields for sorting (the field name is used as one key). */
  function SortKey(doc: Doc, field: string): Option<string>
  {
    if field in doc then TextOf(doc[field]) else None
  }

  /** Key `a` sorts strictly before key `b`: nulls last when ascending and
      first when descending. */
  predicate KeyPrecedes(a: Option<string>, b: Option<string>, d: Direction)
  {
    match d
    case Asc => (a.Some? && b.None?) || (a.Some? && b.Some? && Less(a.value, b.value))
    case Desc => (a.None? && b.Some?) || (a.Some? && b.Some? && Less(b.value, a.value))
  }

  /** `a` sorts strictly before `b` under the sort terms: the first term on
      which their keys differ decides. */
  predicate TermsPrecede(a: Doc, b: Doc, terms: seq<SortTerm>)
    decreases |terms|
  {
    |terms| > 0 &&
    var d := if terms[0].direction == Some(Desc) then Desc else Asc;
    var ka := SortKey(a, terms[0].field);
    var kb := SortKey(b, terms[0].field);
    KeyPrecedes(ka, kb, d) || (ka == kb && TermsPrecede(a, b, terms[1..]))
  }

  /** A row (document and creation time) that the order puts strictly before another. */
  predicate Precedes(order: Order, a: Doc, createdA: string, b: Doc, createdB: string)
  {
    match order
    case Unordered => false
    case ByCreated => Less(createdA, createdB)
    case ByTerms(terms) => TermsPrecede(a, b, terms)
  }

  lemma KeyPrecedesStrict(a: Option<string>, b: Option<string>, c: Option<string>, d: Direction)
    ensures !KeyPrecedes(a, a, d)
    ensures KeyPrecedes(a, b, d) && KeyPrecedes(b, c, d) ==> KeyPrecedes(a, c, d)
    ensures KeyPrecedes(a, b, d) ==> a != b
  {
    if a.Some? { LessIrreflexive(a.value); }
    if a.Some? && b.Some? && c.Some? {
      if d == Asc && Less(a.value, b.value) && Less(b.value, c.value) { LessTransitive(a.value, b.value, c.value); }
      if d == Desc && Less(b.value, a.value) && Less(c.value, b.value) { LessTransitive(c.value, b.value, a.value); }
    }
  }

  /** The requested order is a strict order: no row precedes itself, and
      precedence chains. */
  lemma {:induction false} TermsPrecedeStrict(a: Doc, b: Doc, c: Doc, terms: seq<SortTerm>)
    ensures !TermsPrecede(a, a, terms)
    ensures TermsPrecede(a, b, terms) && TermsPrecede(b, c, terms) ==> TermsPrecede(a, c, terms)
    decreases |terms|
  {
    if |terms| > 0 {
      var d := if terms[0].direction == Some(Desc) then Desc else Asc;
      var f := terms[0].field;
      KeyPrecedesStrict(SortKey(a, f), SortKey(b, f), SortKey(c, f), d);
      KeyPrecedesStrict(SortKey(b, f), SortKey(c, f), SortKey(a, f), d);
      TermsPrecedeStrict(a, b, c, terms[1..]);
    }
  }

  lemma PrecedesStrict(order: Order, a: Doc, ca: string, b: Doc, cb: string, c: Doc, cc: string)
    ensures !Precedes(order, a, ca, a, ca)
    ensures Precedes(order, a, ca, b, cb) && Precedes(order, b, cb, c, cc) ==> Precedes(order, a, ca, c, cc)
  {
    match order
    case Unordered =>
    case ByCreated =>
      LessIrreflexive(ca);
      if Less(ca, cb) && Less(cb, cc) { LessTransitive(ca, cb, cc); }
    case ByTerms(terms) =>
      TermsPrecedeStrict(a, b, c, terms);
  }
}
