# zipit URL shortener — a Dafny model of the shortening engine

This project models the core of the zipit URL shortener. It covers three layers:

- the base-62 encoder, which turns a record id into a short code;
- the `urls` record store, with its four-operation repository contract and its PostgreSQL implementation;
- the shortening service, plus the two adapters in front of it: the gRPC handler and the HTTP gateway. These carry the service's error kinds out to clients.

Everything is sequential and deterministic. The database table is an immutable value (`Repository.Table`) that is threaded through every operation. Failures the table cannot explain are explicit inputs: a lost connection, a context deadline, any other driver error. Each is a `fault: Option<Fault>` parameter of the store call it hits, and `Service.Faults` holds one per call that `ShortenURL` can make. A `Repository.Fault` is any Go error except the bare `sql.ErrNoRows`: `Scan` returns that error only when no row matches, and whether a row matches is decided by the table.

Modules, one per file:

| file | module | models |
|---|---|---|
| wrappers.dfy | `Wrappers` | `Option` |
| goint.dfy | `GoInt` | Go `int64`: its range and two's-complement wrap-around |
| goerrors.dfy | `GoErrors` | Go errors: `sql.ErrNoRows`, other leaf errors, `%w` wrapping, `errors.Is` |
| base62.dfy | `Base62` | `backend/pkg/shortener/shortener.go` |
| repository.dfy | `Repository` | `backend/internal/url/repository/repo.go`, `postgres.go`, over an in-memory table |
| service.dfy | `Service` | `backend/internal/url/service/url_service.go` |
| rpc.dfy | `Rpc` | `backend/internal/url/grpc/handler.go` |
| gateway.dfy | `Gateway` | `backend/internal/gateway/handler/shorten.go`, `resolve.go` |
| end_to_end.dfy | `EndToEnd` | gateway → gRPC → service → store, composed over one table |

Each handler returns an `Exchange`. It holds the handler's response and the argument the handler passed downstream, if it made the call at all. "Rejected without calling the service" therefore becomes `forwarded == None`.

The table follows the schema that `postgres_test.go` creates:

- `id BIGSERIAL`: ids 1, 2, … up to 2^63−1, never reused;
- `long_url TEXT NOT NULL`: no uniqueness constraint;
- `short_code VARCHAR(12) UNIQUE`: nullable.

`Repository.Wf` states what this schema guarantees, and every store operation preserves it. `Service.ServiceInv` adds one condition: every code in the table is the encoding of its own row's id. `ShortenURL` preserves this invariant. Under it, injectivity of `Encode` shows that the service's code write can never violate the `short_code` uniqueness constraint.

## Model

| member | source | states |
|---|---|---|
| Base62.AlphabetLayout | backend/pkg/shortener/shortener.go:18 | the alphabet has 62 characters: digits, then lower case, then upper case, at the positions `DigitChar` gives |
| Base62.DigitRoundTrip | backend/pkg/shortener/shortener.go:18-22 | an alphabet position and its keyMap entry are inverse to each other |
| Base62.AlphabetMembership | backend/pkg/shortener/shortener.go:18-22 | a character has a keyMap entry exactly when it occurs in the alphabet, and the entry is its index |
| Base62.NewKeyMap | backend/pkg/shortener/shortener.go:17-27 | the keyMap loop maps exactly the alphabet's characters, each to its index; no later entry overwrites an earlier one |
| Base62.Digits | backend/pkg/shortener/shortener.go:35-44 | the numeral of a number uses only alphabet characters, and is empty only for 0 |
| Base62.Encode | backend/pkg/shortener/shortener.go:30-45 | every emitted character is in the alphabet; the code is empty exactly for negative ids, which skip both the zero case and the loop |
| Base62.Remainders | backend/pkg/shortener/shortener.go:34-39 | the remainder loop collects the digits of a positive id least significant first: reversed, they are its numeral |
| Base62.ReverseInPlace | backend/pkg/shortener/shortener.go:40-43 | swapping with two converging indices leaves the reversal of the collected digits |
| Base62.EncodeLoop | backend/pkg/shortener/shortener.go:30-45 | the imperative encoder (zero case, remainder loop, in-place reversal) returns exactly `Encode(id)` for every int64, negative ones included |
| Base62.DecodePrefix | backend/pkg/shortener/shortener.go:47-56 | the fold fails exactly when some character lacks a keyMap entry; it then returns −1 and names the first such character; otherwise it returns the int64 wrap of the numeral's value |
| Base62.Decode | backend/pkg/shortener/shortener.go:47-57 | the same for the whole code: an error iff some character is outside the alphabet, reported for the first one, with id −1 |
| Base62.DigitsValue | backend/pkg/shortener/shortener.go:35-44 | the numeral `Encode` builds for n > 0 denotes n |
| Base62.DigitsNoLeadingZero | backend/pkg/shortener/shortener.go:35-44 | for id > 0 the first character is never '0' |
| Base62.DigitsLength | backend/pkg/shortener/shortener.go:35-39 | a number below 62^k has at most k digits |
| Base62.ValuePrefixBound | backend/pkg/shortener/shortener.go:49-55 | each intermediate value of the decode fold is at most the final value, so no wrap happens before the end |
| Base62.CanonicalDigits | backend/pkg/shortener/shortener.go:35-44 | a numeral without a leading zero is exactly the numeral of its value |
| Base62.RoundTrip | backend/pkg/shortener/shortener.go:30-57 | `Decode(Encode(id))` is `id` with no error, for every 0 ≤ id ≤ 2^63−1 |
| Base62.EncodeInjective | backend/pkg/shortener/shortener.go:30-57 | distinct non-negative ids get distinct codes (both directions) |
| Base62.EncodeNegativeCollapse | backend/pkg/shortener/shortener.go:30-35 | all negative ids encode to the same empty string |
| Base62.EncodeIsCanonical | backend/pkg/shortener/shortener.go:30-45 | codes of non-negative ids are canonical; the first character is '0' only for id 0 |
| Base62.CanonicalRoundTrip | backend/pkg/shortener/shortener.go:30-57 | every canonical code decodes without error and re-encodes to itself, so `Encode` is a bijection onto canonical codes |
| Base62.EncodeLength | backend/pkg/shortener/shortener.go:30-45 | every non-negative int64 encodes to 1 to 11 characters |
| Base62.DecodeEmpty | backend/pkg/shortener/shortener.go:48-56 | decoding "" is the vacuous fold: 0, no error |
| Base62.EncodeExamples | backend/pkg/shortener/shortener_test.go:14-18 | the test vectors 0→"0", 1→"1", 61→"Z", 62→"10", 12345→"3d7" |
| Base62.EncodeMaxInt64 | backend/pkg/shortener/shortener_test.go:19 | the test vector for the largest id: 2^63−1 → "aZl8N0y58M7" |
| Base62.DecodeOverflowWraps | backend/pkg/shortener/shortener.go:54 | overflow is not detected: "aZl8N0y58M8" decodes to −2^63 with no error |
| GoInt.Wrap64 | backend/pkg/shortener/shortener.go:54 | the wrapped value is the int64 congruent to the true value mod 2^64, and equals it when it is in range |
| GoInt.WrapMulAdd | backend/pkg/shortener/shortener.go:54 | wrapping the accumulator before `acc*62 + v` does not change the wrapped result |
| GoErrors.IsLeafIffRoot | backend/internal/url/service/url_service.go:21 | `errors.Is` against a sentinel holds exactly when the sentinel is at the root of the wrap chain |
| Repository.FindFirst | backend/internal/url/repository/postgres.go:70 | the row `QueryRow` scans is the first match; if none is returned, no row matches |
| Repository.CreateURL | backend/internal/url/repository/postgres.go:17-29 | success exactly when there is no fault and the sequence is not exhausted; on success one row is appended, with a fresh id and no code, and the id is returned; on failure the id is 0 and nothing changes |
| Repository.GetURLByShortCode | backend/internal/url/repository/postgres.go:32-45 | returns the unmodified long_url of a row carrying the code; it succeeds exactly when there is no fault and some row has the code, so a fault always fails; the error wraps `sql.ErrNoRows` exactly when the lookup found nothing or the fault itself wraps it |
| Repository.WithShortCode | backend/internal/url/repository/postgres.go:49 | the code is written into the row with that id; every other row is unchanged |
| Repository.SetShortCode | backend/internal/url/repository/postgres.go:48-63 | succeeds exactly when there is no fault, the id exists, the code fits VARCHAR(12) and no other row holds it; an unknown id gives an error that does not wrap `sql.ErrNoRows`; a failure changes nothing |
| Repository.URLExists | backend/internal/url/repository/postgres.go:66-79 | with no fault it reports existence exactly and returns the id of a matching row; when the URL is not found the id is 0 and absence is no error; other failures give `(false, 0, err)` |
| Repository.URLExistsFirstRow | backend/internal/url/repository/postgres.go:66-79 | on a fault-free store the answer is the first row holding the URL |
| Repository.GetURLByShortCodeRow | backend/internal/url/repository/postgres.go:32-45 | in a well-formed table, the lookup returns the long_url of the one row carrying the code |
| Repository.FullCycle | backend/internal/url/repository/postgres_test.go:46-77 | on an empty table the first insert gets id 1; writing a code of at most 12 characters to it succeeds; the URL is then found with id 1, and the code resolves to the URL |
| Service.SentinelsDistinct | backend/internal/url/grpc/handler.go:29 | the four error sentinels are distinct values, and `errors.Is` between two of them holds only for the same kind |
| Service.AsResult | backend/internal/url/service/url_service.go:30-56 | the service returns each error kind as its bare sentinel, so through the interface `errors.Is` recovers ErrInvalidURL and ErrNotFound exactly when the service reported that kind |
| Service.ShortenKeepsUrlsUnique | backend/internal/url/service/url_service.go:35-48 | shortening never stores a URL twice, whatever the store's faults: a row is inserted only after a lookup found none for the URL |
| Service.IsValidURL | backend/internal/url/service/url_service.go:65-80 | the empty string is rejected before parsing, whatever the parser would say; an accepted URL parses, with scheme `http` or `https` and a non-empty host |
| Service.Register | backend/internal/url/service/url_service.go:45-55 | on success the code returned and written is the encoding of the id the insert returned, stored in that new row; a failed insert leaves the table unchanged; a failed write leaves a pending row; both are ErrDatabaseWrite |
| Service.ShortenURL | backend/internal/url/service/url_service.go:30-56 | ErrInvalidURL exactly for invalid URLs; never ErrNotFound; read and validation errors change nothing; a returned code is the encoding of a row holding the URL; the service invariant is preserved |
| Service.GetLongURL | backend/internal/url/service/url_service.go:18-27 | on success, returns the long_url of a row carrying the code; with no fault it fails only with ErrNotFound, and exactly when no row has the code; a fault gives ErrNotFound iff it wraps `sql.ErrNoRows`, otherwise ErrDatabaseRead |
| Service.ShortenInvalid | backend/internal/url/service/url_service.go:31-33 | an invalid URL gives ErrInvalidURL whatever the store would do, and the table is unchanged |
| Service.ShortenLookupFails | backend/internal/url/service/url_service.go:35-38 | a failing existence check gives ErrDatabaseRead and no write |
| Service.ShortenExisting | backend/internal/url/service/url_service.go:41-43 | a stored URL is answered with the encoding of its first row's id; no row is created and no code is written |
| Service.ShortenNew | backend/internal/url/service/url_service.go:45-55 | a new URL gets the next id; the id written back is the one the insert returned, the code is its encoding, and that code is returned |
| Service.ShortenInsertFails | backend/internal/url/service/url_service.go:45-48 | a failing insert gives ErrDatabaseWrite; no code is written and the table is unchanged |
| Service.ShortenUpdateFails | backend/internal/url/service/url_service.go:50-53 | a failing code write gives ErrDatabaseWrite and leaves the new row pending, with no rollback |
| Service.ShortenTwice | backend/internal/url/service/url_service.go:35-55 | shortening the same URL twice returns the same code; the second call changes nothing; a new URL adds exactly one row |
| Service.ShortenThenResolve | backend/internal/url/service/url_service.go:18-55 | a freshly shortened URL resolves back to itself, unchanged |
| Service.PendingCodeDoesNotResolve | backend/internal/url/service/url_service.go:41-43 | re-shortening the URL of a pending row returns the encoding of its id, but that code resolves to ErrNotFound |
| Rpc.PostURL | backend/internal/url/grpc/handler.go:22-35 | a nil request or empty url is InvalidArgument with no service call; for any error built from leaf errors and single `%w` wrapping, it is InvalidArgument exactly when `errors.Is(err, ErrInvalidURL)` holds (so a wrapped sentinel counts too), and every other error is Internal; success returns the service's code unchanged |
| Rpc.PostURLWrappedInvalid | backend/internal/url/grpc/handler.go:28-30 | an `ErrInvalidURL` wrapped with context is still InvalidArgument "invalid URL" |
| Rpc.PostURLForeignError | backend/internal/url/grpc/handler_test.go:56-61 | an error unrelated to the sentinels, such as `errors.New("db down")`, is Internal "failed to shorten URL" |
| Rpc.GetLongURL | backend/internal/url/grpc/handler.go:37-50 | a nil request or empty alias is InvalidArgument with no service call; for any error built from leaf errors and single `%w` wrapping, it is NotFound exactly when `errors.Is(err, ErrNotFound)` holds (so a wrapped sentinel counts too), and every other error is Internal; success returns the URL unchanged |
| Rpc.GetLongURLWrappedNotFound | backend/internal/url/grpc/handler.go:42-44 | an `ErrNotFound` wrapped with context is still NotFound "url not found" |
| Rpc.GetLongURLForeignError | backend/internal/url/grpc/handler_test.go:121-126 | an error unrelated to the sentinels, such as `errors.New("db down")`, is Internal "failed to fetch url" |
| Gateway.ShortenURL | backend/internal/gateway/handler/shorten.go:14-44 | a method other than POST is 405 with no body; a bad body is 400 "invalid JSON payload"; an empty long_url is 400 "long_url is required"; only then is the RPC called; InvalidArgument is 400 "invalid url"; any other error is 500; success is 201 with the alias unchanged |
| Gateway.ValidShortCode | backend/internal/gateway/handler/resolve.go:14 | a code matching `^[0-9a-zA-Z]{1,12}$` has 1 to 12 characters, from the class `[0-9a-zA-Z]` at both ends (`$` anchors at the end of the text); `EndToEnd.ValidShortCodeIsAlphabet` identifies the class with the encoder's alphabet |
| Gateway.ResolveURL | backend/internal/gateway/handler/resolve.go:14-40 | an empty code is 400 "short code is required"; a code not matching `^[0-9a-zA-Z]{1,12}$` is 400 "invalid short code format"; only a matching code is forwarded; NotFound is 404; any other error is 500; success is a 302 redirect to the URL |
| EndToEnd.ShortenOverHttp | backend/internal/gateway/handler/shorten.go:32-43 | the full shorten chain changes the table only when the answer is 201 or 500, and keeps the service invariant |
| EndToEnd.ResolveOverHttp | backend/internal/gateway/handler/resolve.go:28-39 | a 302 from the full resolve chain redirects to the long_url of a row carrying the code |
| EndToEnd.ShortenOverHttpRunsService | backend/internal/gateway/handler/shorten.go:32-43 | a well-formed shorten request runs the service exactly once; the response is determined by the service's reply alone |
| EndToEnd.ResolveOverHttpRunsService | backend/internal/gateway/handler/resolve.go:28-39 | a well-formed resolve request runs the service once; the response is determined by the service's reply alone: a redirect on success, 404 for ErrNotFound, 500 otherwise |
| EndToEnd.ShortenErrorStatus | backend/internal/url/grpc/handler.go:28-32 | every error the shortening service can report ends up as the HTTP status `EndToEnd.ExpectedStatus` assigns (400 or 500) |
| EndToEnd.ResolveErrorStatus | backend/internal/gateway/handler/resolve.go:29-35 | every error the resolving service can report ends up as the HTTP status `EndToEnd.ExpectedStatus` assigns (404 or 500) |
| EndToEnd.ShortCodeCharIsAlphabet | backend/internal/gateway/handler/resolve.go:14 | the gateway's character class `[0-9a-zA-Z]` is exactly the encoder's alphabet |
| EndToEnd.ValidShortCodeIsAlphabet | backend/internal/gateway/handler/resolve.go:14 | a code passes the format check iff it is 1 to 12 alphabet characters |
| EndToEnd.EncodedCodesPassGateway | backend/internal/gateway/handler/resolve.go:14 | every code the encoder produces for a non-negative int64 passes the gateway's format check |
| EndToEnd.ForwardedCodesDecode | backend/internal/gateway/handler/resolve.go:23-28 | every code the gateway forwards decodes without error |
| EndToEnd.UnknownCodeIs404 | backend/internal/gateway/handler/resolve.go:31-33 | a well-formed code that no row carries is 404 end to end |
| EndToEnd.KnownCodeRedirects | backend/internal/gateway/handler/resolve.go:39 | a well-formed code carried by a row redirects to that row's URL |
| EndToEnd.InvalidUrlOverHttp | backend/internal/gateway/handler/shorten.go:34-37 | a URL the service rejects is 400 "invalid url" and no record is created |
| EndToEnd.MalformedOverHttp | backend/internal/gateway/handler/shorten.go:21-26 | a malformed body is 400 and nothing reaches the service |
| EndToEnd.ShortenThenResolveOverHttp | backend/internal/gateway/handler/shorten.go:32-43 | a new URL is 201 with the code of the next id, and that code then redirects to the URL |
| EndToEnd.ShortenTwiceOverHttp | backend/internal/url/service/url_service.go:35-43 | a second identical shorten request over HTTP gets the same response and leaves the table as it was |
| EndToEnd.FirstShortenScenario | backend/internal/url/service/url_service.go:30-56 | on an empty store, "https://example.com" gets id 1 and code "1", and "1" redirects back to it |
| EndToEnd.ResolveOnEmptyStore | backend/internal/gateway/handler/resolve.go:31-33 | resolving "doesnotexist" on an empty store is 404 |

## Behaviour worth knowing

- **Resolve answers with a redirect.** `ResolveURL` answers success with a 302 redirect (resolve.go:39). The handler's own tests (resolve_test.go:29-35) and the router test (router_test.go:140) expect 200 with a `{"long_url": ...}` body instead. `Gateway.ResolveURL` models the redirect the code performs.
- **Deduplication is a lookup, not a constraint.** The schema has no UNIQUE on `long_url` (postgres_test.go:84-89). A failed insert is not retried: the service maps every insert error to ErrDatabaseWrite (url_service.go:45-48). Deduplication therefore rests only on the `URLExists` lookup before the insert. `Service.ShortenTwice` proves it for sequential calls.
- **An unknown id in `SetShortCode` is not "no rows".** It gives a fresh error that does not wrap `sql.ErrNoRows` (postgres.go:59-61). The service reports it, like every write error, as ErrDatabaseWrite.
- **Pending rows stay pending.** A row whose code write failed is never repaired. Re-shortening its URL returns the encoding of its id, but that code does not resolve (`Service.PendingCodeDoesNotResolve`).
- **The error-to-status table is per operation.** ErrNotFound on the shorten path, or ErrInvalidURL on the resolve path, would surface as 500 (handler.go:29-32, 43-46). Neither service operation ever reports that error (`Service.ShortenURL`, `Service.GetLongURL`), so every error that actually occurs gets the status of `EndToEnd.ExpectedStatus`.

## Left out

- Process entry points, configuration, logging, connection-pool setup and the HTTP router. These are I/O plumbing with no decisions in them.
- The SQL engine. It is replaced by the in-memory table. Where the engine decides an outcome, the model fixes it:
  - `QueryRow` scans the first row in insertion order;
  - a `VARCHAR(12)` overflow or a uniqueness violation is reported only for a row the `UPDATE` actually touches;
  - a failed statement changes nothing, so a failure after commit is not modelled;
  - an over-length `VARCHAR(12)` value is always `ValueTooLong`. PostgreSQL instead truncates a value whose characters past the twelfth are all spaces. `Repository.SetShortCode` therefore fails with a wrapped `ValueTooLong` for such a code, which the engine would store truncated. The service never writes one: an `Encode` code has at most 11 alphanumeric characters;
  - sequence values consumed by failed inserts are not modelled.
- Context deadlines and cancellation. They appear only as faults of the store call they hit.
- `net/url.Parse`. It is an uninterpreted parameter (`Service.URLParser`); only the checks around it are modelled.
- `encoding/json`. Decoding the request body is an outcome (`Gateway.Payload`): failure, or the `long_url` value (empty when absent). Writing the response bodies is not modelled; bodies are datatype constructors.
- Response headers, the HTML body `http.Redirect` writes, and gRPC transport. `Body.RedirectTo` holds the URL passed to `http.Redirect` before it is processed. `http.Redirect` hex-escapes the URL's non-ASCII characters before putting it in `Location`, and it resolves a URL without a scheme against the request path. A client-side error without a status is `Rpc.Outcome.OtherError`.
- Interpolated values in error messages (the code, the id). The messages keep their fixed wording.
- The file that declares the service's error sentinels and the `URLService` interface is not part of this model. The sentinels are modelled as four distinct `GoErrors.Err` values named after their kinds, and their message texts are not modelled.
- Rpc.PostURL, Rpc.GetLongURL: the service's error is a `GoErrors.Err`: a leaf error, or a chain of single `%w` wraps. The contracts say nothing about errors from `errors.Join`, from `fmt.Errorf` with several `%w`, or with their own `Is` or `Unwrap` methods, although `errors.Is` at handler.go:29 and :43 follows those too. Leaf errors are compared by value, so two distinct `errors.New` values with the same text count as the same error.
- A `URLService` operation is a function of the argument alone (`Service.URLService`). Its argument type excludes "", because the gRPC handler answers an empty url or alias itself and never calls the service with one.
- Concurrent shorten requests, and a retry on duplicate insert. The code has neither.
- Strings that are not valid UTF-8. A Dafny `string` is a sequence of Unicode scalar values, so a short code holding invalid UTF-8 bytes cannot be written. In Go, `range` over such a code yields U+FFFD for each bad byte. `Decode` then returns −1 with an error naming U+FFFD, and the gateway's pattern rejects the code before any RPC. Both outcomes fall in the classes the model covers for characters outside the alphabet.
