/** The HTTP entry points of `Main`: how `GET /api/search` assembles a
    `SearchRequest` from query parameters (`handleSearchQuery`, with
    `firstNonBlank` and `parseInt`), how `POST /api/search` passes a decoded
    body on (`handleSearchBody`), and how a failed search becomes an error
    reply. Routing, CORS headers and JSON encoding are not modelled; the query
    parameters are a map from name to first value, as Javalin's `queryParam`
    reads them. */
module Handlers {
  import opened Wrappers
  import opened Text
  import opened Models
  import opened Spaces
  import opened SearchRequests
  import opened SearchService

  /** Query parameters by name; an absent name reads as `null`. */
  type Params = map<string, string>

  function Param(params: Params, name: string): (r: Option<string>)
    ensures r.Some? <==> name in params
    ensures r.Some? ==> r.value == params[name]
  {
    if name in params then Some(params[name]) else None
  }

  /** The value is present and not blank. */
  predicate Given(v: Option<string>) {
    v.Some? && !IsBlank(v.value)
  }

  /** `firstNonBlank`: the first argument when it is given, else the second
      when it is given, else `null`. */
  function FirstNonBlank(first: Option<string>, second: Option<string>): (r: Option<string>)
    ensures r.Some? <==> Given(first) || Given(second)
    ensures r.Some? ==> !IsBlank(r.value)
    ensures Given(first) ==> r == first
    ensures !Given(first) ==> r == (if Given(second) then second else None)
  {
    if Given(first) then first else if Given(second) then second else None
  }

  /** Whichever of the two it picks, the result is one of them, and asking
      again with the result first changes nothing. */
  lemma FirstNonBlankStable(first: Option<string>, second: Option<string>, other: Option<string>)
    ensures FirstNonBlank(first, second) == None || FirstNonBlank(first, second) in {first, second}
    ensures FirstNonBlank(first, second).Some? ==>
      FirstNonBlank(FirstNonBlank(first, second), other) == FirstNonBlank(first, second)
  {
  }

  /** `parseInt`: `null` for an absent, blank or unparseable value, else the
      trimmed value read as a 32-bit integer. */
  function ParseIntParam(value: Option<string>): (r: Option<int>)
    ensures value.None? || IsBlank(value.value) ==> r.None?
    ensures r.Some? ==> InInt32(r.value)
    ensures Given(value) ==> r == ParseInt(Trim(value.value))
  {
    if value.None? || IsBlank(value.value) then None else ParseInt(Trim(value.value))
  }

  /** Any 32-bit integer, padded with spaces or control characters, reads
      back as itself. */
  lemma ParseIntParamOfRendered(n: int, pad: string)
    requires InInt32(n)
    requires forall k :: 0 <= k < |pad| ==> IsTrimmable(pad[k])
    ensures ParseIntParam(Some(pad + IntToString(n) + pad)) == Some(n)
  {
    var t := IntToString(n);
    var s := pad + t + pad;
    ParseIntOfIntToString(n);
    TrimRendered(n, pad);
    assert !IsBlank(s) by {
      assert s[|pad|] == t[0];
      assert !IsJavaWhitespace(t[0]);
    }
  }

  /** `handleSearchQuery`'s request: `query` before `q`, `language` before
      `lang`, the whole `spaces` value as a one-element list unless it is
      absent or blank, and `limit` through `parseInt`. */
  function RequestOf(params: Params): (r: SearchRequest)
    ensures r.query == FirstNonBlank(Param(params, "query"), Param(params, "q"))
    ensures r.language == FirstNonBlank(Param(params, "language"), Param(params, "lang"))
    ensures r.limit == ParseIntParam(Param(params, "limit"))
    ensures !Given(Param(params, "spaces")) ==> r.spaces.None?
    ensures Given(Param(params, "spaces")) ==> r.spaces == Some([Param(params, "spaces")])
  {
    var spaces := Param(params, "spaces");
    SearchRequest(
      FirstNonBlank(Param(params, "query"), Param(params, "q")),
      if spaces.None? || IsBlank(spaces.value) then None else Some([spaces]),
      FirstNonBlank(Param(params, "language"), Param(params, "lang")),
      ParseIntParam(Param(params, "limit")))
  }

  /** A missing or blank `spaces` parameter searches every space. */
  lemma BlankSpacesSearchAll(params: Params)
    requires !Given(Param(params, "spaces"))
    ensures ParseSpaces(RequestOf(params).spaces) == AllSpaces
  {
  }

  /** A `query` parameter that is given wins over `q`. */
  lemma QueryBeatsQ(params: Params)
    requires Given(Param(params, "query"))
    ensures RequestOf(params).query == Some(params["query"])
  {
  }

  // ---------------------------------------------------------------------------
  // Replies

  /** What a handler writes back: the response as JSON, or an error body
      with its status. */
  datatype Reply =
    | Ok(response: SearchResponse)
    | Error(status: int, error: string, message: string)

  /** What the exception handlers catch: an `IllegalArgumentException` with
      its message, or any other exception. */
  datatype Thrown = IllegalArgument(message: string) | Unexpected

  /** The two exception handlers: 400 `bad_request` with the exception's
      message, or 500 `server_error` with a fixed message. */
  function ErrorReply(t: Thrown): (r: Reply)
    ensures r.Error?
    ensures r.status == 400 <==> t.IllegalArgument?
    ensures t.IllegalArgument? ==> r.error == "bad_request" && r.message == t.message
    ensures t.Unexpected? ==> r.status == 500 && r.error == "server_error"
  {
    match t
    case IllegalArgument(m) => Error(400, "bad_request", m)
    case Unexpected => Error(500, "server_error", "Unexpected server error")
  }

  /** `handleSearchBody` for a decoded body, and the end of
      `handleSearchQuery`: the search's response, or its rejection turned into
      an error reply. */
  function Answer(ctx: Context, request: SearchRequest): (r: Reply)
    ensures r.Error? <==> IsBlank(QueryOf(request))
    ensures r.Error? ==> r == Error(400, "bad_request", "query is required")
    ensures r.Ok? ==> r.response.totalResults == |r.response.directHits| + |r.response.ayahResults|
  {
    match Search(ctx, request)
    case Success(response) => Ok(response)
    case Failure(BadArgument(m)) => ErrorReply(IllegalArgument(m))
  }

  /** `GET /api/search`. */
  function HandleSearchQuery(ctx: Context, params: Params): (r: Reply)
    ensures r.Error? <==> RequestOf(params).query.None? || IsBlank(Trim(RequestOf(params).query.value))
    ensures r.Error? ==> r.status == 400 && r.error == "bad_request"
  {
    Answer(ctx, RequestOf(params))
  }

  /** A query string with neither a non-blank `query` nor a non-blank `q` is
      answered with 400 `bad_request`. */
  lemma MissingQueryIsBadRequest(ctx: Context, params: Params)
    requires !Given(Param(params, "query")) && !Given(Param(params, "q"))
    ensures HandleSearchQuery(ctx, params) == Error(400, "bad_request", "query is required")
  {
  }

  /** A non-blank `q` alone is searched for, trimmed. */
  lemma QParamIsSearched(ctx: Context, params: Params)
    requires !Given(Param(params, "query")) && Given(Param(params, "q"))
    requires !IsBlank(Trim(params["q"]))
    ensures HandleSearchQuery(ctx, params).Ok?
    ensures HandleSearchQuery(ctx, params).response.query == Trim(params["q"])
  {
  }
}
