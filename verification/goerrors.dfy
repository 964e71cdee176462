/**
 * Go error values as they flow through the storage layer and the service:
 * the `sql.ErrNoRows` sentinel, the service's own sentinels, other leaf
 * errors, and `fmt.Errorf("...: %w", err)` wrapping, with `errors.Is`
 * following the wrap chain.
 */
module GoErrors {

  datatype Err =
    | ErrNoRows                          // database/sql's sql.ErrNoRows sentinel
    | Sentinel(name: string)             // a package-level errors.New value, compared by identity
    | Failure(reason: string)            // any other leaf error (driver, constraint, deadline, fmt.Errorf without %w)
    | Wrapped(context: string, cause: Err) // fmt.Errorf("<context>: %w", cause)

  /** The innermost error of a wrap chain. */
  function Root(e: Err): (r: Err)
    ensures !r.Wrapped?
  {
    match e
    case Wrapped(_, cause) => Root(cause)
    case _ => e
  }

  /** `errors.Is(e, target)`: `e` or some error it wraps equals `target`. */
  predicate Is(e: Err, target: Err)
  {
    e == target || (e.Wrapped? && Is(e.cause, target))
  }

  /** Asking whether an error wraps a leaf sentinel is asking for its root. */
  lemma {:induction false} IsLeafIffRoot(e: Err, target: Err)
    requires !target.Wrapped?
    ensures Is(e, target) <==> Root(e) == target
  {
    match e
    case Wrapped(_, cause) => IsLeafIffRoot(cause, target);
    case _ =>
  }
}
