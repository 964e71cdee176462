/**
 * The record store: the four-operation `URLRepository` contract and its
 * PostgreSQL implementation, with the `urls` table held as an immutable value.
 *
 * The table follows the schema the repository's tests create: `id BIGSERIAL
 * PRIMARY KEY` (ids 1, 2, ... up to 2^63-1, never reused), `long_url TEXT NOT
 * NULL` with no uniqueness constraint, `short_code VARCHAR(12) UNIQUE`
 * (nullable). Failures the table cannot explain (lost connection, context
 * deadline, any other driver error) enter every operation as a `fault`: when
 * present, the statement fails with that error and changes nothing.
 */
module Repository {
  import opened Wrappers
  import opened GoInt
  import opened GoErrors

  /** Length limit of the `short_code VARCHAR(12)` column. */
  const ShortCodeMaxLen: nat := 12

  /** Errors the engine itself raises for the schema's limits. */
  const SequenceExhausted: Err := Failure("nextval: reached maximum value of sequence")
  const ValueTooLong: Err := Failure("value too long for type character varying(12)")
  const UniqueViolation: Err := Failure("duplicate key value violates unique constraint")

  /**
   * A failure the table cannot explain. It is never the bare `sql.ErrNoRows`:
   * `Scan` returns that only when no row matches, which the table decides.
   */
  type Fault = e: Err | e != ErrNoRows witness Failure("connection reset")

  datatype Row = Row(id: Int64, longUrl: string, shortCode: Option<string>)

  /** The `urls` table: its rows in insertion order and the next value of the id sequence. */
  datatype Table = Table(rows: seq<Row>, nextId: nat)

  const EmptyTable: Table := Table([], 1)

  /** What the schema guarantees of every table state. */
  predicate Wf(t: Table)
  {
    && 1 <= t.nextId <= MaxInt64 + 1
    && (forall i :: 0 <= i < |t.rows| ==> 1 <= t.rows[i].id < t.nextId)
    && (forall i, j :: 0 <= i < j < |t.rows| ==> t.rows[i].id < t.rows[j].id)
    && (forall i, j :: 0 <= i < |t.rows| && 0 <= j < |t.rows| && i != j && t.rows[i].shortCode.Some? ==>
          t.rows[i].shortCode != t.rows[j].shortCode)
    && (forall i :: 0 <= i < |t.rows| && t.rows[i].shortCode.Some? ==> |t.rows[i].shortCode.value| <= ShortCodeMaxLen)
  }

  /** Index of the first row satisfying `matches`: the row `QueryRow` scans. */
  function FindFirst(rows: seq<Row>, matches: Row -> bool): (r: Option<nat>)
    ensures r.Some? ==> r.value < |rows| && matches(rows[r.value])
    ensures r.Some? ==> forall j :: 0 <= j < r.value ==> !matches(rows[j])
    ensures r.None? ==> forall j :: 0 <= j < |rows| ==> !matches(rows[j])
  {
    if |rows| == 0 then None
    else if matches(rows[0]) then Some(0)
    else match FindFirst(rows[1..], matches)
      case None => None
      case Some(k) => Some(k + 1)
  }

  predicate HasLongUrl(t: Table, longUrl: string)
  {
    exists i :: 0 <= i < |t.rows| && t.rows[i].longUrl == longUrl
  }

  predicate HasShortCode(t: Table, code: string)
  {
    exists i :: 0 <= i < |t.rows| && t.rows[i].shortCode == Some(code)
  }

  predicate HasId(t: Table, id: int)
  {
    exists i :: 0 <= i < |t.rows| && t.rows[i].id == id
  }

  // ---------------------------------------------------------------- CreateURL

  datatype CreateResult = CreateResult(id: Int64, err: Option<Err>)
  datatype Created = Created(result: CreateResult, table: Table)

  /**
   * `INSERT INTO urls (long_url) VALUES ($1) RETURNING id`: a new row with
   * the next sequence value and no short code.
   */
  function CreateURL(t: Table, longUrl: string, fault: Option<Fault>): (r: Created)
    ensures r.result.err.None? <==> fault.None? && t.nextId <= MaxInt64
    ensures r.result.err.Some? ==> r.result.id == 0 && r.table == t
    ensures r.result.err.None? ==>
      && r.table.rows == t.rows + [Row(r.result.id, longUrl, None)]
      && r.table.nextId == r.result.id + 1
    ensures Wf(t) && r.result.err.None? ==> r.result.id >= 1 && !HasId(t, r.result.id)
    ensures Wf(t) ==> Wf(r.table)
  {
    var insertErr :=
      if fault.Some? then fault
      else if t.nextId > MaxInt64 then Some(SequenceExhausted)
      else None;
    match insertErr
    case Some(e) => Created(CreateResult(0, Some(Wrapped("failed to insert long URL", e))), t)
    case None =>
      var id: Int64 := t.nextId;
      Created(CreateResult(id, None), Table(t.rows + [Row(id, longUrl, None)], t.nextId + 1))
  }

  // -------------------------------------------------------- GetURLByShortCode

  datatype LookupResult = LookupResult(longUrl: string, err: Option<Err>)

  /**
   * `SELECT long_url FROM urls WHERE short_code = $1`. No matching row is
   * reported by an error that still wraps `sql.ErrNoRows`; any other failure
   * is wrapped as it came.
   */
  function GetURLByShortCode(t: Table, shortCode: string, fault: Option<Fault>): (r: LookupResult)
    ensures r.err.None? ==> exists i :: 0 <= i < |t.rows| && t.rows[i].shortCode == Some(shortCode) && t.rows[i].longUrl == r.longUrl
    ensures r.err.Some? ==> r.longUrl == ""
    ensures r.err.None? <==> fault.None? && HasShortCode(t, shortCode)
    ensures r.err.Some? ==> (Is(r.err.value, ErrNoRows) <==> fault.None? || Is(fault.value, ErrNoRows))
  {
    var row := FindFirst(t.rows, (x: Row) => x.shortCode == Some(shortCode));
    var scanErr :=
      if fault.Some? then fault
      else if row.None? then Some(ErrNoRows)
      else None;
    match scanErr
    case Some(e) =>
      if e == ErrNoRows then LookupResult("", Some(Wrapped("short code does not exist", ErrNoRows)))
      else LookupResult("", Some(Wrapped("failed to retrieve URL", e)))
    case None => LookupResult(t.rows[row.value].longUrl, None)
  }

  // ------------------------------------------------------------- SetShortCode

  datatype Updated = Updated(err: Option<Err>, table: Table)

  /** `t` with `shortCode` written into every row whose id is `id`. */
  function WithShortCode(t: Table, id: int, shortCode: string): (t': Table)
    ensures |t'.rows| == |t.rows| && t'.nextId == t.nextId
    ensures forall i :: 0 <= i < |t.rows| && t.rows[i].id == id ==> t'.rows[i] == t.rows[i].(shortCode := Some(shortCode))
    ensures forall i :: 0 <= i < |t.rows| && t.rows[i].id != id ==> t'.rows[i] == t.rows[i]
  {
    Table(seq(|t.rows|, i requires 0 <= i < |t.rows| =>
      if t.rows[i].id == id then t.rows[i].(shortCode := Some(shortCode)) else t.rows[i]), t.nextId)
  }

  /** Some row other than row `id` already holds `shortCode`. */
  predicate CodeTakenByOther(t: Table, id: int, shortCode: string)
  {
    exists i :: 0 <= i < |t.rows| && t.rows[i].id != id && t.rows[i].shortCode == Some(shortCode)
  }

  /**
   * `UPDATE urls SET short_code = $1 WHERE id = $2`. A statement error is
   * wrapped; zero affected rows (no row with that id) is reported by a fresh
   * error that does NOT wrap `sql.ErrNoRows`. The column's length limit and
   * uniqueness constraint are checked only on a row that is updated.
   */
  function SetShortCode(t: Table, id: Int64, shortCode: string, fault: Option<Fault>): (r: Updated)
    ensures r.err.None? <==>
      fault.None? && HasId(t, id) && |shortCode| <= ShortCodeMaxLen && !CodeTakenByOther(t, id, shortCode)
    ensures r.err.Some? ==> r.table == t
    ensures r.err.None? ==> r.table == WithShortCode(t, id, shortCode)
    ensures fault.None? && !HasId(t, id) ==> r.err.Some? && !Is(r.err.value, ErrNoRows)
    ensures Wf(t) ==> Wf(r.table)
  {
    var execErr :=
      if fault.Some? then fault
      else if !HasId(t, id) then None
      else if |shortCode| > ShortCodeMaxLen then Some(ValueTooLong)
      else if CodeTakenByOther(t, id, shortCode) then Some(UniqueViolation)
      else None;
    if execErr.Some? then Updated(Some(Wrapped("failed to update short code", execErr.value)), t)
    else if !HasId(t, id) then Updated(Some(Failure("no URL found with ID")), t)
    else
      var t' := WithShortCode(t, id, shortCode);
      assert Wf(t) ==> Wf(t') by {
        if Wf(t) {
          forall i, j | 0 <= i < |t'.rows| && 0 <= j < |t'.rows| && i != j && t'.rows[i].shortCode.Some?
            ensures t'.rows[i].shortCode != t'.rows[j].shortCode
          {
            if t.rows[i].id == id {
              assert t.rows[j].id != id;
            }
          }
        }
      }
      Updated(None, t')
  }

  // ---------------------------------------------------------------- URLExists

  datatype ExistsResult = ExistsResult(found: bool, id: Int64, err: Option<Err>)

  /**
   * `SELECT id FROM urls WHERE long_url = $1`. `sql.ErrNoRows` is absorbed:
   * absence is `(false, 0, nil)`. Other failures give `(false, 0, err)`.
   */
  function URLExists(t: Table, longUrl: string, fault: Option<Fault>): (r: ExistsResult)
    ensures r.found ==> r.err.None?
    ensures r.found ==> exists i :: 0 <= i < |t.rows| && t.rows[i].longUrl == longUrl && t.rows[i].id == r.id
    ensures !r.found ==> r.id == 0
    ensures fault.None? ==> r.err.None? && (r.found <==> HasLongUrl(t, longUrl))
    ensures r.err.Some? <==> fault.Some?
  {
    var row := FindFirst(t.rows, (x: Row) => x.longUrl == longUrl);
    var scanErr :=
      if fault.Some? then fault
      else if row.None? then Some(ErrNoRows)
      else None;
    match scanErr
    case Some(e) =>
      if e == ErrNoRows then ExistsResult(false, 0, None)
      else ExistsResult(false, 0, Some(Wrapped("failed to check url existence", e)))
    case None => ExistsResult(true, t.rows[row.value].id, None)
  }

  /** On a fault-free store, `URLExists` answers with the first row holding the URL. */
  lemma URLExistsFirstRow(t: Table, longUrl: string, i: nat)
    requires i < |t.rows| && t.rows[i].longUrl == longUrl
    requires forall j :: 0 <= j < i ==> t.rows[j].longUrl != longUrl
    ensures URLExists(t, longUrl, None) == ExistsResult(true, t.rows[i].id, None)
  {
    var row := FindFirst(t.rows, (x: Row) => x.longUrl == longUrl);
    assert row == Some(i);
  }

  /** In a well-formed table at most one row carries a given short code, so the lookup is by the code alone. */
  lemma GetURLByShortCodeRow(t: Table, shortCode: string, i: nat)
    requires Wf(t)
    requires i < |t.rows| && t.rows[i].shortCode == Some(shortCode)
    ensures GetURLByShortCode(t, shortCode, None) == LookupResult(t.rows[i].longUrl, None)
  {
    var row := FindFirst(t.rows, (x: Row) => x.shortCode == Some(shortCode));
    assert row.Some?;
    assert row.value == i;
  }

  /**
   * The repository's full cycle on an empty table: insert, attach a code,
   * find the row by its URL, resolve the code back to the URL.
   */
  lemma FullCycle(longUrl: string, code: string)
    requires 1 <= |code| <= ShortCodeMaxLen
    ensures var c := CreateURL(EmptyTable, longUrl, None);
      var u := SetShortCode(c.table, c.result.id, code, None);
      && c.result == CreateResult(1, None)
      && u.err.None?
      && URLExists(u.table, longUrl, None) == ExistsResult(true, 1, None)
      && GetURLByShortCode(u.table, code, None) == LookupResult(longUrl, None)
  {
    var c := CreateURL(EmptyTable, longUrl, None);
    assert c.table.rows[0].id == 1;
    var u := SetShortCode(c.table, 1, code, None);
    assert u.table.rows[0] == Row(1, longUrl, Some(code));
    URLExistsFirstRow(u.table, longUrl, 0);
    GetURLByShortCodeRow(u.table, code, 0);
  }
}
