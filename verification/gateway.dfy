/**
 * The HTTP gateway of `internal/gateway/handler`: `ShortenURL` (POST
 * /api/shorten) and `ResolveURL` (GET /api/{code}) check the request, call the
 * URL service over gRPC, and turn the outcome into an HTTP status and body.
 */
module Gateway {
  import opened Wrappers
  import opened Rpc

  const StatusCreated: int := 201
  const StatusFound: int := 302
  const StatusBadRequest: int := 400
  const StatusNotFound: int := 404
  const StatusMethodNotAllowed: int := 405
  const StatusInternalServerError: int := 500

  /**
   * The outcome of decoding the request body into `{"long_url": ...}` with
   * unknown fields disallowed: a decode error, or the field's value (empty
   * when absent).
   */
  datatype Payload = Malformed | Fields(longUrl: string)

  /** Response bodies: none, `{"error": ...}`, `{"short_code": ...}`, or a redirect to a location. */
  datatype Body = NoBody | ErrorBody(error: string) | ShortenBody(shortCode: string) | RedirectTo(location: string)

  datatype Response = Response(status: int, body: Body)

  /** `ShortenURL` of shorten.go. */
  function ShortenURL(httpMethod: string, payload: Payload, rpc: LongURL -> Outcome<ShortURL>): (x: Exchange<LongURL, Response>)
    ensures x.forwarded.Some? <==> httpMethod == "POST" && payload.Fields? && payload.longUrl != ""
    ensures x.forwarded.Some? ==> x.forwarded.value == LongURL(payload.longUrl)
    ensures httpMethod != "POST" ==> x.response == Response(StatusMethodNotAllowed, NoBody)
    ensures httpMethod == "POST" && payload.Malformed? ==>
      x.response == Response(StatusBadRequest, ErrorBody("invalid JSON payload"))
    ensures httpMethod == "POST" && payload == Fields("") ==>
      x.response == Response(StatusBadRequest, ErrorBody("long_url is required"))
    ensures x.forwarded.Some? ==> var o := rpc(x.forwarded.value);
      && (x.response.status == StatusCreated <==> o.Ok?)
      && (o.Ok? ==> x.response.body == ShortenBody(o.value.alias))
      && (x.response == Response(StatusBadRequest, ErrorBody("invalid url")) <==> HasCode(o, InvalidArgument))
      && (!o.Ok? && !HasCode(o, InvalidArgument) ==>
            x.response == Response(StatusInternalServerError, ErrorBody("failed to shorten url")))
  {
    if httpMethod != "POST" then Exchange(None, Response(StatusMethodNotAllowed, NoBody))
    else if payload.Malformed? then Exchange(None, Response(StatusBadRequest, ErrorBody("invalid JSON payload")))
    else if payload.longUrl == "" then Exchange(None, Response(StatusBadRequest, ErrorBody("long_url is required")))
    else
      var req := LongURL(payload.longUrl);
      var response :=
        match rpc(req)
        case Ok(resp) => Response(StatusCreated, ShortenBody(resp.alias))
        case StatusError(code, _) =>
          if code == InvalidArgument then Response(StatusBadRequest, ErrorBody("invalid url"))
          else Response(StatusInternalServerError, ErrorBody("failed to shorten url"))
        case OtherError(_) => Response(StatusInternalServerError, ErrorBody("failed to shorten url"));
      Exchange(Some(req), response)
  }

  /** The character class `[0-9a-zA-Z]`. */
  predicate IsShortCodeChar(c: char)
  {
    '0' <= c <= '9' || 'a' <= c <= 'z' || 'A' <= c <= 'Z'
  }

  /** The pattern `^[0-9a-zA-Z]{1,12}$` (in Go's regexp, `$` matches only at the end of the text). */
  predicate ValidShortCode(code: string)
    ensures ValidShortCode(code) ==> 0 < |code| <= 12 && IsShortCodeChar(code[0]) && IsShortCodeChar(code[|code| - 1])
  {
    1 <= |code| <= 12 && forall i :: 0 <= i < |code| ==> IsShortCodeChar(code[i])
  }

  /** `ResolveURL` of resolve.go. */
  function ResolveURL(code: string, rpc: ShortURL -> Outcome<LongURL>): (x: Exchange<ShortURL, Response>)
    ensures x.forwarded.Some? <==> ValidShortCode(code)
    ensures x.forwarded.Some? ==> x.forwarded.value == ShortURL(code)
    ensures code == "" ==> x.response == Response(StatusBadRequest, ErrorBody("short code is required"))
    ensures code != "" && !ValidShortCode(code) ==>
      x.response == Response(StatusBadRequest, ErrorBody("invalid short code format"))
    ensures x.forwarded.Some? ==> var o := rpc(x.forwarded.value);
      && (o.Ok? <==> x.response.status == StatusFound)
      && (o.Ok? ==> x.response.body == RedirectTo(o.value.url))
      && (HasCode(o, NotFound) <==> x.response == Response(StatusNotFound, ErrorBody("short url not found")))
      && (!o.Ok? && !HasCode(o, NotFound) <==>
            x.response == Response(StatusInternalServerError, ErrorBody("failed to resolve url")))
  {
    if code == "" then Exchange(None, Response(StatusBadRequest, ErrorBody("short code is required")))
    else if !ValidShortCode(code) then Exchange(None, Response(StatusBadRequest, ErrorBody("invalid short code format")))
    else
      var req := ShortURL(code);
      var response :=
        match rpc(req)
        case Ok(resp) => Response(StatusFound, RedirectTo(resp.url))
        case StatusError(c, _) =>
          if c == NotFound then Response(StatusNotFound, ErrorBody("short url not found"))
          else Response(StatusInternalServerError, ErrorBody("failed to resolve url"))
        case OtherError(_) => Response(StatusInternalServerError, ErrorBody("failed to resolve url"));
      Exchange(Some(req), response)
  }
}
