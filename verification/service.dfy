/**
 * The shortening service of `internal/url/service`: `ShortenURL` validates,
 * looks the URL up, and either returns the code of the existing record or
 * creates a record and writes its code; `GetLongURL` looks a code up and
 * classifies the store's error. The store is threaded through as a value.
 */
module Service {
  import opened Wrappers
  import opened GoInt
  import opened GoErrors
  import opened Base62
  import opened Repository

  /** The service's error sentinels. */
  datatype ServiceError = ErrInvalidURL | ErrNotFound | ErrDatabaseRead | ErrDatabaseWrite

  /** The `(string, error)` pair both service operations return. */
  datatype Reply = Reply(value: string, err: Option<ServiceError>)

  /** Each error kind as the Go value the service returns: one package-level sentinel per kind. */
  function SentinelOf(e: ServiceError): (r: Err)
    ensures r.Sentinel?
  {
    match e
    case ErrInvalidURL => Sentinel("ErrInvalidURL")
    case ErrNotFound => Sentinel("ErrNotFound")
    case ErrDatabaseRead => Sentinel("ErrDatabaseRead")
    case ErrDatabaseWrite => Sentinel("ErrDatabaseWrite")
  }

  /** Distinct error kinds are distinct sentinels, and `errors.Is` tells them apart. */
  lemma SentinelsDistinct(e: ServiceError, target: ServiceError)
    ensures SentinelOf(e) == SentinelOf(target) <==> e == target
    ensures Is(SentinelOf(e), SentinelOf(target)) <==> e == target
  {
  }

  /**
   * What a caller of the `URLService` interface sees: a string and a Go
   * error of any shape `GoErrors.Err` has, not only one of the four sentinels.
   */
  datatype ServiceResult = ServiceResult(value: string, err: Option<Err>)

  /**
   * The string the gRPC handler passes to a `URLService` operation. The
   * handler answers an empty URL or alias itself, so the service never sees "".
   */
  type Argument = s: string | s != "" witness "0"

  /** An implementation of one `URLService` operation, as the gRPC handler calls it. */
  type URLService = Argument -> ServiceResult

  /** `errors.Is(err, target)` on the error an operation returned; a nil error matches nothing. */
  predicate FailsWith(r: ServiceResult, target: ServiceError)
  {
    r.err.Some? && Is(r.err.value, SentinelOf(target))
  }

  /**
   * This service's reply seen through the interface: each error kind is
   * returned as its bare sentinel, so `errors.Is` recovers exactly that kind.
   */
  function AsResult(r: Reply): (g: ServiceResult)
    ensures g.value == r.value
    ensures g.err.None? <==> r.err.None?
    ensures r.err.Some? ==> g.err == Some(SentinelOf(r.err.value))
    ensures FailsWith(g, ErrInvalidURL) <==> r.err == Some(ErrInvalidURL)
    ensures FailsWith(g, ErrNotFound) <==> r.err == Some(ErrNotFound)
  {
    match r.err
    case None => ServiceResult(r.value, None)
    case Some(e) =>
      SentinelsDistinct(e, ErrInvalidURL);
      SentinelsDistinct(e, ErrNotFound);
      ServiceResult(r.value, Some(SentinelOf(e)))
  }

  /** The two fields of a parsed `net/url.URL` that validation inspects. */
  datatype URLParts = URLParts(scheme: string, host: string)

  /** `net/url.Parse`, left uninterpreted: `None` when it returns an error. */
  type URLParser = string -> Option<URLParts>

  /** Storage faults met by the three store calls `ShortenURL` can make. */
  datatype Faults = Faults(lookup: Option<Fault>, insert: Option<Fault>, update: Option<Fault>)

  const NoFaults: Faults := Faults(None, None, None)

  datatype Shortened = Shortened(reply: Reply, table: Table)

  /** `isValidURL`: non-empty, parses, scheme http or https, non-empty host. */
  predicate IsValidURL(rawUrl: string, parse: URLParser)
    ensures rawUrl == "" ==> !IsValidURL(rawUrl, parse)
    ensures IsValidURL(rawUrl, parse) ==>
      parse(rawUrl).Some? && parse(rawUrl).value.scheme in {"http", "https"} && |parse(rawUrl).value.host| > 0
  {
    && rawUrl != ""
    && parse(rawUrl).Some?
    && (parse(rawUrl).value.scheme == "http" || parse(rawUrl).value.scheme == "https")
    && parse(rawUrl).value.host != ""
  }

  /** Every row that has a code carries the code of its own id. */
  predicate CodesDerived(t: Table)
  {
    forall i :: 0 <= i < |t.rows| && t.rows[i].shortCode.Some? ==> t.rows[i].shortCode == Some(Encode(t.rows[i].id))
  }

  /**
   * What every table the service reaches from an empty one satisfies (it
   * admits unreachable tables too): the schema's guarantees plus codes derived
   * from ids.
   */
  predicate ServiceInv(t: Table)
  {
    Wf(t) && CodesDerived(t)
  }

  /**
   * No two rows hold the same long URL. The schema does not demand it; the
   * service keeps it by inserting a URL only after the lookup found no row.
   */
  predicate UrlsUnique(t: Table)
  {
    forall i, j :: 0 <= i < j < |t.rows| ==> t.rows[i].longUrl != t.rows[j].longUrl
  }

  /**
   * The new-URL branch of `ShortenURL`: insert, encode the returned id, write
   * that code into the row with that id.
   */
  function Register(t: Table, longUrl: string, faults: Faults): (r: Shortened)
    ensures r.reply.err.Some? ==> r.reply == Reply("", Some(ErrDatabaseWrite))
    ensures faults.insert.Some? || t.nextId > MaxInt64 ==> r.reply.err.Some? && r.table == t
    ensures faults.insert.None? && t.nextId <= MaxInt64 && r.reply.err.Some? ==>
      r.table == Table(t.rows + [Row(t.nextId, longUrl, None)], t.nextId + 1)
    ensures faults.update.Some? ==> r.reply.err.Some?
    ensures r.reply.err.None? ==> t.nextId <= MaxInt64 && r.reply.value == Encode(t.nextId)
    ensures r.reply.err.None? && Wf(t) ==>
      r.table == Table(t.rows + [Row(t.nextId, longUrl, Some(Encode(t.nextId)))], t.nextId + 1)
    ensures ServiceInv(t) ==> ServiceInv(r.table)
  {
    var created := CreateURL(t, longUrl, faults.insert);
    if created.result.err.Some? then Shortened(Reply("", Some(ErrDatabaseWrite)), created.table)
    else
      var id := created.result.id;
      var code := Encode(id);
      var updated := SetShortCode(created.table, id, code, faults.update);
      if updated.err.Some? then Shortened(Reply("", Some(ErrDatabaseWrite)), updated.table)
      else
        assert Wf(t) ==> updated.table.rows == t.rows + [Row(id, longUrl, Some(code))] by {
          assert created.table.rows[|t.rows|].id == id;
          if Wf(t) {
            assert forall i :: 0 <= i < |t.rows| ==> created.table.rows[i].id != id;
          }
        }
        Shortened(Reply(code, None), updated.table)
  }

  /** `ShortenURL` of url_service.go. */
  function ShortenURL(t: Table, longUrl: string, parse: URLParser, faults: Faults): (r: Shortened)
    ensures r.reply.err.Some? ==> r.reply.value == ""
    ensures r.reply.err == Some(ErrInvalidURL) <==> !IsValidURL(longUrl, parse)
    ensures r.reply.err != Some(ErrNotFound)
    ensures r.reply.err.Some? && r.reply.err != Some(ErrDatabaseWrite) ==> r.table == t
    ensures r.reply.err.None? ==> exists i ::
      0 <= i < |r.table.rows| && r.table.rows[i].longUrl == longUrl && r.reply.value == Encode(r.table.rows[i].id)
    ensures ServiceInv(t) ==> ServiceInv(r.table)
  {
    if !IsValidURL(longUrl, parse) then Shortened(Reply("", Some(ErrInvalidURL)), t)
    else
      var existing := URLExists(t, longUrl, faults.lookup);
      if existing.err.Some? then Shortened(Reply("", Some(ErrDatabaseRead)), t)
      else if existing.found then Shortened(Reply(Encode(existing.id), None), t)
      else
        var r := Register(t, longUrl, faults);
        assert r.reply.err.None? ==> r.table.rows[|t.rows|].longUrl == longUrl && r.table.rows[|t.rows|].id == t.nextId;
        r
  }

  /** `GetLongURL` of url_service.go. */
  function GetLongURL(t: Table, shortCode: string, fault: Option<Fault>): (r: Reply)
    ensures r.err.None? ==> exists i ::
      0 <= i < |t.rows| && t.rows[i].shortCode == Some(shortCode) && t.rows[i].longUrl == r.value
    ensures r.err.Some? ==> r.value == "" && (r.err == Some(ErrNotFound) || r.err == Some(ErrDatabaseRead))
    ensures fault.None? ==> (r.err.None? <==> HasShortCode(t, shortCode)) && r.err != Some(ErrDatabaseRead)
    ensures fault.Some? ==> r.err.Some? && (r.err == Some(ErrNotFound) <==> Is(fault.value, ErrNoRows))
  {
    var found := GetURLByShortCode(t, shortCode, fault);
    if found.err.Some? then
      if Is(found.err.value, ErrNoRows) then Reply("", Some(ErrNotFound))
      else Reply("", Some(ErrDatabaseRead))
    else Reply(found.longUrl, None)
  }

  // ------------------------------------------------------------------ lemmas

  /** The empty table is a state the service may start from. */
  lemma EmptyTableInv()
    ensures ServiceInv(EmptyTable)
  {
  }

  /** An invalid URL is rejected before any store call: whatever the store would do, nothing changes. */
  lemma ShortenInvalid(t: Table, longUrl: string, parse: URLParser, faults: Faults)
    requires !IsValidURL(longUrl, parse)
    ensures ShortenURL(t, longUrl, parse, faults) == Shortened(Reply("", Some(ErrInvalidURL)), t)
  {
  }

  /** A failing existence check is a read error, and no write follows. */
  lemma ShortenLookupFails(t: Table, longUrl: string, parse: URLParser, faults: Faults)
    requires IsValidURL(longUrl, parse)
    requires faults.lookup.Some?
    ensures ShortenURL(t, longUrl, parse, faults) == Shortened(Reply("", Some(ErrDatabaseRead)), t)
  {
  }

  /**
   * A URL already stored is answered with the code of the first row holding
   * it; no row is created and no code written.
   */
  lemma ShortenExisting(t: Table, longUrl: string, parse: URLParser, faults: Faults, i: nat)
    requires IsValidURL(longUrl, parse) && faults.lookup.None?
    requires i < |t.rows| && t.rows[i].longUrl == longUrl
    requires forall j :: 0 <= j < i ==> t.rows[j].longUrl != longUrl
    ensures ShortenURL(t, longUrl, parse, faults) == Shortened(Reply(Encode(t.rows[i].id), None), t)
  {
    URLExistsFirstRow(t, longUrl, i);
  }

  /**
   * A new URL on a working store gets the next id; the id written back is the
   * one the insert returned, the code is its encoding, and that code is
   * returned.
   */
  lemma ShortenNew(t: Table, longUrl: string, parse: URLParser)
    requires ServiceInv(t) && IsValidURL(longUrl, parse)
    requires !HasLongUrl(t, longUrl) && t.nextId <= MaxInt64
    ensures var r := ShortenURL(t, longUrl, parse, NoFaults);
      && r.reply == Reply(Encode(t.nextId), None)
      && r.table == Table(t.rows + [Row(t.nextId, longUrl, Some(Encode(t.nextId)))], t.nextId + 1)
  {
    var id: Int64 := t.nextId;
    var created := CreateURL(t, longUrl, None);
    var t1 := created.table;
    EncodeLength(id);
    forall i | 0 <= i < |t1.rows| && t1.rows[i].id != id
      ensures t1.rows[i].shortCode != Some(Encode(id))
    {
      if t1.rows[i].shortCode.Some? {
        EncodeInjective(t1.rows[i].id, id);
      }
    }
    assert !CodeTakenByOther(t1, id, Encode(id));
    assert t1.rows[|t.rows|].id == id;
    var t2 := WithShortCode(t1, id, Encode(id));
    assert t2.rows == t.rows + [Row(id, longUrl, Some(Encode(id)))];
  }

  /** A failing insert is a write error; the code is never written and the table is unchanged. */
  lemma ShortenInsertFails(t: Table, longUrl: string, parse: URLParser, faults: Faults)
    requires IsValidURL(longUrl, parse) && !HasLongUrl(t, longUrl)
    requires faults.lookup.None? && faults.insert.Some?
    ensures ShortenURL(t, longUrl, parse, faults) == Shortened(Reply("", Some(ErrDatabaseWrite)), t)
  {
  }

  /**
   * A failing code write is a write error, and the inserted row stays
   * pending: no code, and no rollback.
   */
  lemma ShortenUpdateFails(t: Table, longUrl: string, parse: URLParser, faults: Faults)
    requires IsValidURL(longUrl, parse) && !HasLongUrl(t, longUrl) && t.nextId <= MaxInt64
    requires faults.lookup.None? && faults.insert.None? && faults.update.Some?
    ensures ShortenURL(t, longUrl, parse, faults) ==
      Shortened(Reply("", Some(ErrDatabaseWrite)), Table(t.rows + [Row(t.nextId, longUrl, None)], t.nextId + 1))
  {
  }

  /**
   * Sequential dedup: shortening the same URL twice on a working store gives
   * the same code both times; the second call changes nothing, and in all at
   * most one row is added.
   */
  lemma ShortenTwice(t: Table, longUrl: string, parse: URLParser)
    requires ServiceInv(t) && IsValidURL(longUrl, parse)
    ensures var first := ShortenURL(t, longUrl, parse, NoFaults);
      var second := ShortenURL(first.table, longUrl, parse, NoFaults);
      && |first.table.rows| <= |t.rows| + 1
      && (first.reply.err.None? ==> second == first)
      && (!HasLongUrl(t, longUrl) && t.nextId <= MaxInt64 ==> |first.table.rows| == |t.rows| + 1)
  {
    var first := ShortenURL(t, longUrl, parse, NoFaults);
    if HasLongUrl(t, longUrl) {
      var i := FirstWithLongUrl(t, longUrl);
      ShortenExisting(t, longUrl, parse, NoFaults, i);
      ShortenExisting(first.table, longUrl, parse, NoFaults, i);
    } else if t.nextId <= MaxInt64 {
      ShortenNew(t, longUrl, parse);
      var n := |t.rows|;
      assert first.table.rows[n].longUrl == longUrl;
      ShortenExisting(first.table, longUrl, parse, NoFaults, n);
    }
  }

  /**
   * Shortening never stores a URL twice, whatever the store's faults: a row is
   * inserted only after a fault-free lookup found none for the URL, and the
   * code write touches no URL.
   */
  lemma ShortenKeepsUrlsUnique(t: Table, longUrl: string, parse: URLParser, faults: Faults)
    requires UrlsUnique(t)
    ensures UrlsUnique(ShortenURL(t, longUrl, parse, faults).table)
  {
  }

  /** Index of the first row holding `longUrl`. */
  lemma FirstWithLongUrl(t: Table, longUrl: string) returns (i: nat)
    requires HasLongUrl(t, longUrl)
    ensures i < |t.rows| && t.rows[i].longUrl == longUrl
    ensures forall j :: 0 <= j < i ==> t.rows[j].longUrl != longUrl
  {
    var r := FindFirst(t.rows, (x: Row) => x.longUrl == longUrl);
    i := r.value;
  }

  /** A freshly shortened URL resolves back to itself, unchanged. */
  lemma ShortenThenResolve(t: Table, longUrl: string, parse: URLParser)
    requires ServiceInv(t) && IsValidURL(longUrl, parse)
    requires !HasLongUrl(t, longUrl) && t.nextId <= MaxInt64
    ensures var r := ShortenURL(t, longUrl, parse, NoFaults);
      GetLongURL(r.table, r.reply.value, None) == Reply(longUrl, None)
  {
    ShortenNew(t, longUrl, parse);
    var r := ShortenURL(t, longUrl, parse, NoFaults);
    GetURLByShortCodeRow(r.table, r.reply.value, |t.rows|);
  }

  /**
   * A pending row is never repaired: re-shortening its URL returns the code
   * of its id, but that code does not resolve.
   */
  lemma PendingCodeDoesNotResolve(t: Table, longUrl: string, parse: URLParser, i: nat)
    requires ServiceInv(t) && IsValidURL(longUrl, parse)
    requires i < |t.rows| && t.rows[i].longUrl == longUrl && t.rows[i].shortCode.None?
    requires forall j :: 0 <= j < i ==> t.rows[j].longUrl != longUrl
    ensures var r := ShortenURL(t, longUrl, parse, NoFaults);
      && r.reply == Reply(Encode(t.rows[i].id), None)
      && GetLongURL(r.table, r.reply.value, None) == Reply("", Some(ErrNotFound))
  {
    ShortenExisting(t, longUrl, parse, NoFaults, i);
    var code := Encode(t.rows[i].id);
    forall j | 0 <= j < |t.rows|
      ensures t.rows[j].shortCode != Some(code)
    {
      if t.rows[j].shortCode.Some? {
        EncodeInjective(t.rows[j].id, t.rows[i].id);
      }
    }
  }
}
