/**
 * `PagingUtils`: reading a `Pager` from the query parameters of a request,
 * and shaping the response for one page of results.
 */
module PagingUtils {
  import opened Wrappers
  import opened JavaLang
  import opened Http
  import opened Pagers

  /** The query parameters of a request (a JAX-RS `MultivaluedMap<String, String>`). */
  type QueryParams = map<string, seq<string>>

  const QUERY_PAGE: string := "page"
  const QUERY_PAGE_SIZE: string := "pageSize"

  /** `queryParams.getFirst(key)`: `null` (here `None`) when the key is absent or has no values. */
  function GetFirst(q: QueryParams, key: string): (r: Option<string>)
    ensures r.Some? <==> key in q && |q[key]| > 0
    ensures r.Some? ==> r.value == q[key][0]
  {
    if key in q && |q[key]| > 0 then Some(q[key][0]) else None
  }

  /** `String.format("%s expects an int but found [%s]", name, value)`. */
  function ExpectsIntMessage(name: string, value: string): (r: string)
    ensures |r| == |name| + |value| + 28
    ensures r[..|name|] == name
    ensures r[|r| - |value| - 2..] == "[" + value + "]"
  {
    name + " expects an int but found [" + value + "]"
  }

  /** The first value of `name` is absent or is a valid `int` literal. */
  predicate Accepted(q: QueryParams, name: string) {
    GetFirst(q, name).None? || ParseInt(GetFirst(q, name).value).Some?
  }

  /** The value one parameter contributes: its default, its parsed value, or the error. */
  function ReadParam(q: QueryParams, name: string, default: int32): (r: Result<int32, string>)
    ensures r.Success? <==> Accepted(q, name)
    ensures GetFirst(q, name).None? ==> r == Success(default)
    ensures GetFirst(q, name).Some? && r.Success? ==> r.value == ParseInt(GetFirst(q, name).value).value
    ensures r.Failure? ==> r.error == ExpectsIntMessage(name, GetFirst(q, name).value)
  {
    match GetFirst(q, name)
    case None => Success(default)
    case Some(v) =>
      match ParseInt(v)
      case None => Failure(ExpectsIntMessage(name, v))
      case Some(n) => Success(n)
  }

  /**
   * What `extractPager` returns for the query `q`: `page` is read first, then
   * `pageSize`; the first malformed one is reported as an
   * `IllegalArgumentException` (here `Failure` with its message).
   */
  function PagerFromQuery(q: QueryParams): (r: Result<Pager, string>)
    ensures r.Success? <==> Accepted(q, "page") && Accepted(q, "pageSize")
    ensures GetFirst(q, "page") == None && r.Success? ==> r.value.page == 0
    ensures GetFirst(q, "pageSize") == None && r.Success? ==> r.value.itemsPerPage == 10
    ensures GetFirst(q, "page").Some? && r.Success? ==>
              ParseInt(GetFirst(q, "page").value) == Some(r.value.page)
    ensures GetFirst(q, "pageSize").Some? && r.Success? ==>
              ParseInt(GetFirst(q, "pageSize").value) == Some(r.value.itemsPerPage)
    ensures !Accepted(q, QUERY_PAGE) ==>
              r == Failure(ExpectsIntMessage(QUERY_PAGE, GetFirst(q, QUERY_PAGE).value))
    ensures Accepted(q, QUERY_PAGE) && !Accepted(q, QUERY_PAGE_SIZE) ==>
              r == Failure(ExpectsIntMessage(QUERY_PAGE_SIZE, GetFirst(q, QUERY_PAGE_SIZE).value))
  {
    match ReadParam(q, QUERY_PAGE, DEFAULT_PAGE)
    case Failure(e) => Failure(e)
    case Success(p) =>
      match ReadParam(q, QUERY_PAGE_SIZE, DEFAULT_ITEMS_PER_PAGE)
      case Failure(e) => Failure(e)
      case Success(n) => Success(Pager(p, n))
  }

  /** `PagingUtils.extractPager(uriInfo)`, with `uriInfo.getQueryParameters()` given as `query`. */
  method ExtractPager(query: QueryParams) returns (r: Result<Pager, string>)
    ensures r == PagerFromQuery(query)
  {
    var pageBuilder := new PagerBuilder();

    var page := GetFirst(query, QUERY_PAGE);
    if page.Some? {
      var parsed := ParseInt(page.value);
      if parsed.None? {
        return Failure(ExpectsIntMessage(QUERY_PAGE, page.value));
      }
      pageBuilder.Page(parsed.value);
    }

    var itemsPerPage := GetFirst(query, QUERY_PAGE_SIZE);
    if itemsPerPage.Some? {
      var parsed := ParseInt(itemsPerPage.value);
      if parsed.None? {
        return Failure(ExpectsIntMessage(QUERY_PAGE_SIZE, itemsPerPage.value));
      }
      pageBuilder.ItemsPerPage(parsed.value);
    }

    r := Success(pageBuilder.Build());
  }

  /** A malformed first `page` value fails with exactly this message. */
  lemma MalformedPageMessage(q: QueryParams)
    requires !Accepted(q, "page")
    ensures PagerFromQuery(q) == Failure("page expects an int but found [" + GetFirst(q, "page").value + "]")
  {
    var v := GetFirst(q, "page").value;
    calc {
      ExpectsIntMessage(QUERY_PAGE, v);
      ("page" + " expects an int but found [") + v + "]";
      { assert "page" + " expects an int but found [" == "page expects an int but found ["; }
      "page expects an int but found [" + v + "]";
    }
  }

  /** With `page` acceptable, a malformed first `pageSize` value fails with exactly this message. */
  lemma MalformedPageSizeMessage(q: QueryParams)
    requires Accepted(q, "page") && !Accepted(q, "pageSize")
    ensures PagerFromQuery(q) == Failure("pageSize expects an int but found [" + GetFirst(q, "pageSize").value + "]")
  {
    var v := GetFirst(q, "pageSize").value;
    calc {
      ExpectsIntMessage(QUERY_PAGE_SIZE, v);
      ("pageSize" + " expects an int but found [") + v + "]";
      { assert "pageSize" + " expects an int but found [" == "pageSize expects an int but found ["; }
      "pageSize expects an int but found [" + v + "]";
    }
  }

  /** With neither parameter present the pager has the defaults. */
  lemma NoParametersGiveDefaults()
    ensures PagerFromQuery(map[]) == Success(DefaultPager())
  {
  }

  /** Only the first value of each parameter is read; any later values are ignored. */
  lemma OnlyFirstValuesMatter(q1: QueryParams, q2: QueryParams)
    requires GetFirst(q1, "page") == GetFirst(q2, "page")
    requires GetFirst(q1, "pageSize") == GetFirst(q2, "pageSize")
    ensures PagerFromQuery(q1) == PagerFromQuery(q2)
  {
  }

  /**
   * Every pair of `int`s, negative and zero included, written in decimal as
   * the first values of `page` and `pageSize`, is read back unchanged.
   */
  lemma DecimalParametersRoundTrip(p: int32, n: int32, laterPages: seq<string>, laterSizes: seq<string>)
    ensures PagerFromQuery(map["page" := [DecimalString(p as int)] + laterPages,
                               "pageSize" := [DecimalString(n as int)] + laterSizes])
            == Success(Pager(p, n))
  {
    ParseIntOfDecimal(p);
    ParseIntOfDecimal(n);
  }

  /** A word is not an `int`: `?page=abc` names the parameter and the value. */
  lemma WordIsRejected()
    ensures PagerFromQuery(map["page" := ["abc"]]) == Failure("page expects an int but found [abc]")
  {
    var q := map["page" := ["abc"]];
    assert !IsDigit("abc"[0]);
    MalformedPageMessage(q);
    assert "page expects an int but found [" + "abc" + "]" == "page expects an int but found [abc]";
  }

  /** `page` is checked before `pageSize`: when both are malformed the error names `page`. */
  lemma PageCheckedFirst(q: QueryParams)
    requires !Accepted(q, "page") && !Accepted(q, "pageSize")
    ensures PagerFromQuery(q).Failure?
    ensures PagerFromQuery(q).error == ExpectsIntMessage("page", GetFirst(q, "page").value)
  {
  }

  // ---------------------------------------------------------------------
  // responseBuilder
  // ---------------------------------------------------------------------

  /**
   * One page of results.  The Java `Page` class is not shown; only its items
   * and `getTotalCount()`, the number of items across all pages, are
   * modelled, and `isEmpty()` is taken to mean it has no items.
   */
  datatype Page<T> = Page(items: seq<T>, totalCount: int64) {
    predicate IsEmpty(): (b: bool)
      ensures b <==> items == []
    {
      |items| == 0
    }
  }

  const TOTAL_COUNT: string := "TotalCount"

  /**
   * The response `responseBuilder(page)` describes.  `pageHash` stands for
   * `Page.hashCode()`, which is not part of this model.
   */
  function PageResponse<T>(page: Page<T>, pageHash: Page<T> -> int32): (r: Response<Page<T>>)
    ensures r.status == (if page.IsEmpty() then NoContent else Ok)
    ensures r.mediaType == None
    ensures page.IsEmpty() ==> r.headers == map[] && r.entity == None
    ensures !page.IsEmpty() ==>
              && r.entity == Some(page)
              && r.headers.Keys == {"ETag", "TotalCount"}
              && |r.headers["ETag"]| == 1 && r.headers["ETag"][0].EntityTag?
              && ParseInt(r.headers["ETag"][0].tag) == Some(pageHash(page))
              && IsCanonicalDecimal(r.headers["ETag"][0].tag)
              && r.headers["ETag"][0].tag == DecimalString(pageHash(page) as int)
              && |r.headers["TotalCount"]| == 1 && r.headers["TotalCount"][0].Text?
              && LiteralValue(r.headers["TotalCount"][0].text) == Some(page.totalCount as int)
              && IsCanonicalDecimal(r.headers["TotalCount"][0].text)
              && r.headers["TotalCount"][0].text == DecimalString(page.totalCount as int)
  {
    if page.IsEmpty() then
      Response(NoContent, map[], None, None)
    else
      ParseIntOfDecimal(pageHash(page));
      LiteralValueOfDecimal(page.totalCount as int);
      var headers := AddHeader(AddHeader(map[], ETAG, EntityTag(DecimalString(pageHash(page) as int))),
                               TOTAL_COUNT, Text(DecimalString(page.totalCount as int)));
      Response(Ok, headers, None, Some(page))
  }

  /** `PagingUtils.responseBuilder(page)`. */
  method PageResponseBuilder<T>(page: Page<T>, pageHash: Page<T> -> int32) returns (builder: ResponseBuilder<Page<T>>)
    ensures fresh(builder)
    ensures builder.Build() == PageResponse(page, pageHash)
  {
    if page.IsEmpty() {
      builder := new ResponseBuilder.FromStatus(NoContent);
    } else {
      builder := new ResponseBuilder.WithEntity(page);
      var etag := EntityTag(DecimalString(pageHash(page) as int));
      builder.Header(ETAG, etag);
      builder.Header(TOTAL_COUNT, Text(DecimalString(page.totalCount as int)));
    }
  }

  /**
   * The headers of a non-empty page depend on the page only through its hash
   * and its total count: two pages that agree on both get the same headers,
   * whatever their items.
   */
  lemma PageHeadersDependOnHashAndCount<T>(p1: Page<T>, p2: Page<T>, pageHash: Page<T> -> int32)
    requires !p1.IsEmpty() && !p2.IsEmpty()
    requires pageHash(p1) == pageHash(p2) && p1.totalCount == p2.totalCount
    ensures PageResponse(p1, pageHash).headers == PageResponse(p2, pageHash).headers
    ensures PageResponse(p1, pageHash).status == PageResponse(p2, pageHash).status
  {
  }

  /**
   * Two non-empty pages whose hashes differ get different `ETag` texts, so a
   * client can tell them apart exactly when `Page.hashCode()` can.
   */
  lemma DifferentHashDifferentETag<T>(p1: Page<T>, p2: Page<T>, pageHash: Page<T> -> int32)
    requires !p1.IsEmpty() && !p2.IsEmpty() && pageHash(p1) != pageHash(p2)
    ensures PageResponse(p1, pageHash).headers["ETag"] != PageResponse(p2, pageHash).headers["ETag"]
  {
    var t1 := PageResponse(p1, pageHash).headers["ETag"][0].tag;
    var t2 := PageResponse(p2, pageHash).headers["ETag"][0].tag;
    assert ParseInt(t1) != ParseInt(t2);
  }
}
