/**
 * The gRPC adapter of `internal/url/grpc`: `PostURL` and `GetLongURL` check
 * the request, call the service, and turn the service's error sentinels into
 * gRPC status codes.
 */
module Rpc {
  import opened Wrappers
  import opened GoErrors
  import opened Service

  /** A gRPC status code (google.golang.org/grpc/codes), 0 to 16. */
  type Code = c: nat | c <= 16

  const InvalidArgument: Code := 3
  const NotFound: Code := 5
  const Internal: Code := 13

  /** The protobuf messages of the URL service. */
  datatype LongURL = LongURL(url: string)
  datatype ShortURL = ShortURL(alias: string)

  /**
   * What an RPC call yields: a message, an error carrying a gRPC status, or
   * an error with no status (for example a transport failure seen by a client).
   */
  datatype Outcome<T> = Ok(value: T) | StatusError(code: Code, message: string) | OtherError(message: string)

  /** `status.FromError(err)` succeeds and reports code `c`. */
  predicate HasCode<T>(o: Outcome<T>, c: Code)
  {
    o.StatusError? && o.code == c
  }

  /** A handler's response together with the argument it passed downstream, if it made the call. */
  datatype Exchange<A, R> = Exchange(forwarded: Option<A>, response: R)

  /**
   * `PostURL`: a nil request or an empty url is rejected; an error that is or
   * wraps `ErrInvalidURL` is InvalidArgument, every other error Internal.
   */
  function PostURL(req: Option<LongURL>, svc: URLService): (x: Exchange<string, Outcome<ShortURL>>)
    ensures x.forwarded.None? <==> req.None? || req.value.url == ""
    ensures x.forwarded.Some? ==> x.forwarded.value == req.value.url
    ensures x.response.Ok? <==> x.forwarded.Some? && svc(x.forwarded.value).err.None?
    ensures x.response.Ok? ==> x.response.value == ShortURL(svc(x.forwarded.value).value)
    ensures HasCode(x.response, InvalidArgument) <==>
      x.forwarded.None? || FailsWith(svc(x.forwarded.value), ErrInvalidURL)
    ensures HasCode(x.response, Internal) <==>
      x.forwarded.Some? && svc(x.forwarded.value).err.Some? && !FailsWith(svc(x.forwarded.value), ErrInvalidURL)
    ensures !x.response.OtherError?
  {
    if req.None? || req.value.url == "" then
      Exchange(None, StatusError(InvalidArgument, "url is required"))
    else
      var result := svc(req.value.url);
      var response :=
        if result.err.None? then Ok(ShortURL(result.value))
        else if Is(result.err.value, SentinelOf(ErrInvalidURL)) then StatusError(InvalidArgument, "invalid URL")
        else StatusError(Internal, "failed to shorten URL");
      Exchange(Some(req.value.url), response)
  }

  /**
   * `GetLongURL`: a nil request or an empty alias is rejected; an error that
   * is or wraps `ErrNotFound` is NotFound, every other error Internal.
   */
  function GetLongURL(req: Option<ShortURL>, svc: URLService): (x: Exchange<string, Outcome<LongURL>>)
    ensures x.forwarded.None? <==> req.None? || req.value.alias == ""
    ensures x.forwarded.Some? ==> x.forwarded.value == req.value.alias
    ensures x.forwarded.None? ==> HasCode(x.response, InvalidArgument)
    ensures x.response.Ok? <==> x.forwarded.Some? && svc(x.forwarded.value).err.None?
    ensures x.response.Ok? ==> x.response.value == LongURL(svc(x.forwarded.value).value)
    ensures HasCode(x.response, NotFound) <==>
      x.forwarded.Some? && FailsWith(svc(x.forwarded.value), ErrNotFound)
    ensures HasCode(x.response, Internal) <==>
      x.forwarded.Some? && svc(x.forwarded.value).err.Some? && !FailsWith(svc(x.forwarded.value), ErrNotFound)
    ensures !x.response.OtherError?
  {
    if req.None? || req.value.alias == "" then
      Exchange(None, StatusError(InvalidArgument, "alias is required"))
    else
      var result := svc(req.value.alias);
      var response :=
        if result.err.None? then Ok(LongURL(result.value))
        else if Is(result.err.value, SentinelOf(ErrNotFound)) then StatusError(NotFound, "url not found")
        else StatusError(Internal, "failed to fetch url");
      Exchange(Some(req.value.alias), response)
  }

  /** An implementation that wraps `ErrInvalidURL` with context still gets InvalidArgument. */
  lemma PostURLWrappedInvalid(url: string, context: string, svc: URLService)
    requires url != "" && svc(url).err == Some(Wrapped(context, SentinelOf(ErrInvalidURL)))
    ensures PostURL(Some(LongURL(url)), svc).response == StatusError(InvalidArgument, "invalid URL")
  {
    assert Is(Wrapped(context, SentinelOf(ErrInvalidURL)), SentinelOf(ErrInvalidURL));
  }

  /** An error unrelated to the service's sentinels, such as `errors.New("db down")`, is Internal. */
  lemma PostURLForeignError(url: string, reason: string, svc: URLService)
    requires url != "" && svc(url).err == Some(Failure(reason))
    ensures PostURL(Some(LongURL(url)), svc).response == StatusError(Internal, "failed to shorten URL")
  {
  }

  /** An implementation that wraps `ErrNotFound` with context still gets NotFound. */
  lemma GetLongURLWrappedNotFound(alias: string, context: string, svc: URLService)
    requires alias != "" && svc(alias).err == Some(Wrapped(context, SentinelOf(ErrNotFound)))
    ensures GetLongURL(Some(ShortURL(alias)), svc).response == StatusError(NotFound, "url not found")
  {
    assert Is(Wrapped(context, SentinelOf(ErrNotFound)), SentinelOf(ErrNotFound));
  }

  /** An error unrelated to the service's sentinels, such as `errors.New("db down")`, is Internal. */
  lemma GetLongURLForeignError(alias: string, reason: string, svc: URLService)
    requires alias != "" && svc(alias).err == Some(Failure(reason))
    ensures GetLongURL(Some(ShortURL(alias)), svc).response == StatusError(Internal, "failed to fetch url")
  {
  }

}
