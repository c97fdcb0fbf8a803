/**
 * infrastructure/utils/errors.go: the sentinel errors, the wrapped-error chain
 * walked by `errors.Is`, the mapping from errors to HTTP status codes, and `APIError`.
 */
module Errors {

  /** The sentinel errors declared by the utils package. */
  datatype Sentinel =
    | NotFound
    | Unauthorized
    | BadRequest
    | Conflict
    | EmailAlreadyExists
    | InvalidInput
    | WeakPassword

  /**
   * A Go error value: one of the sentinels, an error made by `fmt.Errorf("<prefix>: %w", inner)`,
   * or any other error (database, hashing and token-library failures), identified by its text.
   */
  datatype Error =
    | Sentinel(kind: Sentinel)
    | Wrapped(prefix: string, inner: Error)
    | Other(text: string)

  /** The unwrap chain: the error itself, then whatever `errors.Unwrap` gives, repeatedly. */
  function Chain(e: Error): (c: seq<Error>)
    ensures |c| >= 1 && c[0] == e
  {
    match e
    case Wrapped(_, inner) => [e] + Chain(inner)
    case _ => [e]
  }

  /** The error at the bottom of the chain: the one nothing else is wrapped around. */
  function Root(e: Error): (r: Error)
    ensures !r.Wrapped?
  {
    match e
    case Wrapped(_, inner) => Root(inner)
    case _ => e
  }

  /**
   * `errors.Is(err, target)` for a sentinel target: walk the chain, compare each link.
   * The bottom of the chain decides: wrapping never adds or hides a sentinel.
   */
  function Is(err: Error, target: Sentinel): (b: bool)
    ensures b <==> Root(err) == Sentinel(target)
  {
    match err
    case Sentinel(k) => k == target
    case Wrapped(_, inner) => Is(inner, target)
    case Other(_) => false
  }

  lemma {:induction false} IsMeansInChain(err: Error, target: Sentinel)
    ensures Is(err, target) <==> Sentinel(target) in Chain(err)
  {
    match err
    case Wrapped(p, inner) =>
      IsMeansInChain(inner, target);
      assert Chain(err) == [err] + Chain(inner);
    case Sentinel(k) =>
    case Other(_) =>
  }

  /** A chain holds at most one sentinel, so the order of the cases in ErrorToStatusCode never decides. */
  lemma AtMostOneSentinel(err: Error, s1: Sentinel, s2: Sentinel)
    requires Is(err, s1) && Is(err, s2)
    ensures s1 == s2
  {
  }

  const StatusBadRequest := 400
  const StatusUnauthorized := 401
  const StatusNotFound := 404
  const StatusConflict := 409
  const StatusInternalServerError := 500

  /** The status each sentinel stands for: the error taxonomy of the API. */
  function KindStatus(s: Sentinel): int {
    match s
    case NotFound => StatusNotFound
    case Unauthorized => StatusUnauthorized
    case BadRequest | InvalidInput | WeakPassword => StatusBadRequest
    case Conflict | EmailAlreadyExists => StatusConflict
  }

  /** `ErrorToStatusCode`: the cases of the switch, tried in order, the first match winning. */
  function ErrorToStatusCode(err: Error): (code: int)
    ensures code in {StatusNotFound, StatusUnauthorized, StatusBadRequest, StatusConflict, StatusInternalServerError}
    ensures Is(err, NotFound) ==> code == StatusNotFound
  {
    if Is(err, NotFound) then StatusNotFound
    else if Is(err, Unauthorized) then StatusUnauthorized
    else if Is(err, BadRequest) || Is(err, InvalidInput) || Is(err, WeakPassword) then StatusBadRequest
    else if Is(err, Conflict) || Is(err, EmailAlreadyExists) then StatusConflict
    else StatusInternalServerError
  }

  /** The status of any error is the status of the sentinel at the bottom of its chain, or 500. */
  lemma StatusFromRoot(err: Error)
    ensures ErrorToStatusCode(err) == (if Root(err).Sentinel? then KindStatus(Root(err).kind) else StatusInternalServerError)
  {
    var r := Root(err);
    assert forall s: Sentinel :: Is(err, s) <==> r == Sentinel(s);
  }

  /** Wrapping an error in `fmt.Errorf("...: %w", e)` keeps its status code. */
  lemma WrappingKeepsStatus(prefix: string, err: Error)
    ensures ErrorToStatusCode(Wrapped(prefix, err)) == ErrorToStatusCode(err)
  {
  }

  /** Wraps `e` once per prefix, the last prefix outermost. */
  function WrapAll(prefixes: seq<string>, e: Error): (w: Error)
    ensures Root(w) == Root(e)
  {
    if prefixes == [] then e else Wrapped(prefixes[|prefixes| - 1], WrapAll(prefixes[..|prefixes| - 1], e))
  }

  /** However deeply a sentinel is wrapped, it maps to the status of its kind. */
  lemma WrappedSentinelStatus(prefixes: seq<string>, s: Sentinel)
    ensures ErrorToStatusCode(WrapAll(prefixes, Sentinel(s))) == KindStatus(s)
  {
    StatusFromRoot(WrapAll(prefixes, Sentinel(s)));
  }

  /** `APIError`: the JSON body written for an error response. */
  datatype APIError = APIError(status: int, message: string)

  /** `NewAPIError`: exactly the given status and message. */
  function NewAPIError(status: int, message: string): (e: APIError)
    ensures e.status == status && e.message == message
  {
    APIError(status, message)
  }
}
