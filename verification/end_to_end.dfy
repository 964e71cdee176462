/**
 * The layers composed: HTTP gateway -> gRPC adapter -> service -> store, over
 * one table value, and the HTTP status each service error ends up as.
 */
module EndToEnd {
  import opened Wrappers
  import opened GoInt
  import opened GoErrors
  import opened Base62
  import opened Repository
  import opened Service
  import opened Rpc
  import opened Gateway

  datatype Served = Served(response: Response, table: Table)

  /** POST /api/shorten served all the way down to the store. */
  function ShortenOverHttp(t: Table, httpMethod: string, payload: Payload, parse: URLParser, faults: Faults): (r: Served)
    ensures r.table != t ==> r.response.status == StatusCreated || r.response.status == StatusInternalServerError
    ensures ServiceInv(t) ==> ServiceInv(r.table)
  {
    var svc := (u: Argument) => AsResult(Service.ShortenURL(t, u, parse, faults).reply);
    var rpc := (m: LongURL) => Rpc.PostURL(Some(m), svc).response;
    var outer := Gateway.ShortenURL(httpMethod, payload, rpc);
    if outer.forwarded.None? then Served(outer.response, t)
    else Served(outer.response, Service.ShortenURL(t, outer.forwarded.value.url, parse, faults).table)
  }

  /** GET /api/{code} served all the way down to the store. */
  function ResolveOverHttp(t: Table, code: string, fault: Option<Fault>): (r: Response)
    ensures r.status == StatusFound ==> r.body.RedirectTo? && exists i ::
      0 <= i < |t.rows| && t.rows[i].shortCode == Some(code) && t.rows[i].longUrl == r.body.location
  {
    var svc := (c: Argument) => AsResult(Service.GetLongURL(t, c, fault));
    var rpc := (m: ShortURL) => Rpc.GetLongURL(Some(m), svc).response;
    var x := Gateway.ResolveURL(code, rpc);
    assert x.response.status == StatusFound ==> x.forwarded == Some(ShortURL(code)) by {
      if !ValidShortCode(code) {
        assert x.response.status == StatusBadRequest;
      }
    }
    x.response
  }

  /** The HTTP status the gateway answers with when the service reports each error kind. */
  function ExpectedStatus(e: ServiceError): int
  {
    match e
    case ErrInvalidURL => StatusBadRequest
    case ErrNotFound => StatusNotFound
    case ErrDatabaseRead => StatusInternalServerError
    case ErrDatabaseWrite => StatusInternalServerError
  }

  /**
   * The HTTP answer to a service reply to a well-formed shorten request: only
   * ErrInvalidURL is a client error, every other kind is 500.
   */
  function RenderShortenReply(reply: Reply): Response
  {
    match reply.err
    case None => Response(StatusCreated, ShortenBody(reply.value))
    case Some(e) =>
      if e == ErrInvalidURL then Response(StatusBadRequest, ErrorBody("invalid url"))
      else Response(StatusInternalServerError, ErrorBody("failed to shorten url"))
  }

  /**
   * The HTTP answer to a service reply to a well-formed resolve request: only
   * ErrNotFound is 404, every other kind is 500.
   */
  function RenderResolveReply(reply: Reply): Response
  {
    match reply.err
    case None => Response(StatusFound, RedirectTo(reply.value))
    case Some(e) =>
      if e == ErrNotFound then Response(StatusNotFound, ErrorBody("short url not found"))
      else Response(StatusInternalServerError, ErrorBody("failed to resolve url"))
  }

  /**
   * A well-formed resolve request runs the service once: the response is the
   * HTTP rendering of the service's reply.
   */
  lemma ResolveOverHttpRunsService(t: Table, code: string, fault: Option<Fault>)
    requires ValidShortCode(code)
    ensures ResolveOverHttp(t, code, fault) == RenderResolveReply(Service.GetLongURL(t, code, fault))
  {
    var reply := Service.GetLongURL(t, code, fault);
    var svc := (c: Argument) => AsResult(Service.GetLongURL(t, c, fault));
    var inner := Rpc.GetLongURL(Some(ShortURL(code)), svc);
    assert svc(code) == AsResult(reply);
    assert FailsWith(AsResult(reply), ErrNotFound) <==> reply.err == Some(ErrNotFound);
  }

  /**
   * A well-formed shorten request runs the service once: the response is the
   * HTTP rendering of the service's reply, the table the one it leaves.
   */
  lemma ShortenOverHttpRunsService(t: Table, longUrl: string, parse: URLParser, faults: Faults)
    requires longUrl != ""
    ensures var s := Service.ShortenURL(t, longUrl, parse, faults);
      ShortenOverHttp(t, "POST", Fields(longUrl), parse, faults) == Served(RenderShortenReply(s.reply), s.table)
  {
  }

  /**
   * Shortening through the gRPC adapter and the gateway turns every error the
   * shortening service can report into the status `ExpectedStatus` assigns.
   */
  lemma ShortenErrorStatus(longUrl: string, svc: string -> Reply, e: ServiceError)
    requires longUrl != "" && svc(longUrl).err == Some(e) && e != ErrNotFound
    ensures var rpc := (m: LongURL) => Rpc.PostURL(Some(m), (u: Argument) => AsResult(svc(u))).response;
      var x := Gateway.ShortenURL("POST", Fields(longUrl), rpc);
      x.response.status == ExpectedStatus(e) && x.response.body.ErrorBody?
  {
  }

  /**
   * Resolving through the gRPC adapter and the gateway turns every error the
   * resolving service can report into the status `ExpectedStatus` assigns.
   */
  lemma ResolveErrorStatus(code: string, svc: string -> Reply, e: ServiceError)
    requires ValidShortCode(code) && svc(code).err == Some(e) && e != ErrInvalidURL
    ensures var rpc := (m: ShortURL) => Rpc.GetLongURL(Some(m), (c: Argument) => AsResult(svc(c))).response;
      var x := Gateway.ResolveURL(code, rpc);
      x.response.status == ExpectedStatus(e) && x.response.body.ErrorBody?
  {
  }

  /** The gateway's character class is exactly the encoder's alphabet. */
  lemma ShortCodeCharIsAlphabet(c: char)
    ensures IsShortCodeChar(c) <==> c in Alphabet
  {
    AlphabetMembership(c);
  }

  /** A code passes the gateway's format check exactly when it is 1 to 12 characters of the alphabet. */
  lemma ValidShortCodeIsAlphabet(code: string)
    ensures ValidShortCode(code) <==> 1 <= |code| <= 12 && InAlphabet(code)
  {
  }

  /** Every code the encoder produces for a non-negative int64 passes the gateway's format check. */
  lemma EncodedCodesPassGateway(id: Int64)
    requires id >= 0
    ensures ValidShortCode(Encode(id))
  {
    EncodeLength(id);
    ValidShortCodeIsAlphabet(Encode(id));
  }

  /** Every code the gateway forwards decodes without error. */
  lemma ForwardedCodesDecode(code: string, rpc: ShortURL -> Outcome<LongURL>)
    requires Gateway.ResolveURL(code, rpc).forwarded.Some?
    ensures Decode(code).err.None?
  {
    ValidShortCodeIsAlphabet(code);
  }

  /** A code no row carries surfaces as 404 over HTTP. */
  lemma UnknownCodeIs404(t: Table, code: string)
    requires ValidShortCode(code) && !HasShortCode(t, code)
    ensures ResolveOverHttp(t, code, None) == Response(StatusNotFound, ErrorBody("short url not found"))
  {
    ResolveOverHttpRunsService(t, code, None);
  }

  /** A code that passes the format check and is carried by a row redirects to that row's URL. */
  lemma KnownCodeRedirects(t: Table, code: string, i: nat)
    requires Wf(t) && ValidShortCode(code)
    requires i < |t.rows| && t.rows[i].shortCode == Some(code)
    ensures ResolveOverHttp(t, code, None) == Response(StatusFound, RedirectTo(t.rows[i].longUrl))
  {
    ResolveOverHttpRunsService(t, code, None);
    GetURLByShortCodeRow(t, code, i);
  }

  /** A URL the service rejects is answered 400 "invalid url", and no record is created. */
  lemma InvalidUrlOverHttp(t: Table, longUrl: string, parse: URLParser, faults: Faults)
    requires longUrl != "" && !IsValidURL(longUrl, parse)
    ensures ShortenOverHttp(t, "POST", Fields(longUrl), parse, faults) ==
      Served(Response(StatusBadRequest, ErrorBody("invalid url")), t)
  {
  }

  /** A body with unknown fields or bad JSON is a 400 and nothing reaches the service. */
  lemma MalformedOverHttp(t: Table, parse: URLParser, faults: Faults)
    ensures ShortenOverHttp(t, "POST", Malformed, parse, faults) ==
      Served(Response(StatusBadRequest, ErrorBody("invalid JSON payload")), t)
  {
  }

  /**
   * A new URL shortened over HTTP on a working store is answered 201 with the
   * code of the next id, and that code then redirects to the URL.
   */
  lemma ShortenThenResolveOverHttp(t: Table, longUrl: string, parse: URLParser)
    requires ServiceInv(t) && IsValidURL(longUrl, parse)
    requires !HasLongUrl(t, longUrl) && t.nextId <= MaxInt64
    ensures var r := ShortenOverHttp(t, "POST", Fields(longUrl), parse, NoFaults);
      && r.response == Response(StatusCreated, ShortenBody(Encode(t.nextId)))
      && ResolveOverHttp(r.table, Encode(t.nextId), None) == Response(StatusFound, RedirectTo(longUrl))
  {
    ShortenNew(t, longUrl, parse);
    ShortenOverHttpRunsService(t, longUrl, parse, NoFaults);
    var s := Service.ShortenURL(t, longUrl, parse, NoFaults);
    EncodedCodesPassGateway(t.nextId);
    KnownCodeRedirects(s.table, Encode(t.nextId), |t.rows|);
  }

  /**
   * Shortening the same URL twice over HTTP on a working store gives the same
   * response, and the second request leaves the table as the first left it.
   */
  lemma ShortenTwiceOverHttp(t: Table, longUrl: string, parse: URLParser)
    requires ServiceInv(t) && IsValidURL(longUrl, parse)
    ensures var first := ShortenOverHttp(t, "POST", Fields(longUrl), parse, NoFaults);
      var second := ShortenOverHttp(first.table, "POST", Fields(longUrl), parse, NoFaults);
      first.response.status == StatusCreated ==> second == first
  {
    var s1 := Service.ShortenURL(t, longUrl, parse, NoFaults);
    ShortenOverHttpRunsService(t, longUrl, parse, NoFaults);
    var first := Served(RenderShortenReply(s1.reply), s1.table);
    if first.response.status == StatusCreated {
      assert s1.reply.err.None?;
      ShortenTwice(t, longUrl, parse);
      ShortenOverHttpRunsService(s1.table, longUrl, parse, NoFaults);
    }
  }

  /** The first URL shortened on an empty store gets id 1, code "1", and resolves back. */
  lemma FirstShortenScenario(parse: URLParser)
    requires parse("https://example.com") == Some(URLParts("https", "example.com"))
    ensures var r := ShortenOverHttp(EmptyTable, "POST", Fields("https://example.com"), parse, NoFaults);
      && r.response == Response(StatusCreated, ShortenBody("1"))
      && r.table.rows == [Row(1, "https://example.com", Some("1"))]
      && ResolveOverHttp(r.table, "1", None) == Response(StatusFound, RedirectTo("https://example.com"))
  {
    var u := "https://example.com";
    EmptyTableInv();
    EncodeExamples();
    assert !HasLongUrl(EmptyTable, u);
    ShortenThenResolveOverHttp(EmptyTable, u, parse);
    ShortenNew(EmptyTable, u, parse);
    ShortenOverHttpRunsService(EmptyTable, u, parse, NoFaults);
  }

  /** Resolving on an empty store is a 404. */
  lemma ResolveOnEmptyStore()
    ensures ResolveOverHttp(EmptyTable, "doesnotexist", None) == Response(StatusNotFound, ErrorBody("short url not found"))
  {
    UnknownCodeIs404(EmptyTable, "doesnotexist");
  }
}
