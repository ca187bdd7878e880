/** Python exceptions as values, and the Option/Result wrappers every operation returns. */
module Wrappers {

  /** The Python exception classes the modelled code raises or catches (messages are dropped). */
  datatype Exc =
    | TypeError
    | ValueError
    | RuntimeError
    | KeyError
    | AttributeError
    | IndexError
    | StopIteration                   // next() on an exhausted iterator
    | AssertionError
    | RegexError                      // re.error raised while compiling a pattern
    | MatchFailure                    // legacy: a regex that did not fullmatch
    | BadArgument                     // legacy: a converter that rejected its argument
    | OtherError                      // any other exception a foreign converter raises
    | Unmodelled                      // a case whose Python behaviour this model does not describe
    | ConversionError(errors: seq<Exc>)

  datatype Option<T> = None | Some(value: T) {
    predicate IsFailure() { None? }
    function PropagateFailure<U>(): Option<U> requires None? { None }
    function Extract(): T requires Some? { value }
    function GetOr(default: T): T { if Some? then value else default }
  }

  /** A computation that either yields a value or raises an exception. */
  datatype Result<T> = Ok(value: T) | Err(exc: Exc) {
    predicate IsFailure() { Err? }
    function PropagateFailure<U>(): Result<U> requires Err? { Err(exc) }
    function Extract(): T requires Ok? { value }
  }

  /** A computation that only succeeds or raises. */
  datatype Outcome = Pass | Fail(exc: Exc) {
    predicate IsFailure() { Fail? }
    function PropagateFailure(): Outcome requires Fail? { this }
  }

  /** `d.get(k)` on a mapping. */
  function MapGet<K, V>(m: map<K, V>, k: K): Option<V>
  {
    if k in m then Some(m[k]) else None
  }

  /** Evaluates computations in order: all their values, or the first exception raised. */
  function AllOk<T>(rs: seq<Result<T>>): (r: Result<seq<T>>)
    ensures r.Ok? <==> forall i :: 0 <= i < |rs| ==> rs[i].Ok?
    ensures r.Ok? ==> |r.value| == |rs| && forall i :: 0 <= i < |rs| ==> rs[i] == Ok(r.value[i])
    ensures r.Err? ==> exists i :: 0 <= i < |rs| && rs[i] == Err(r.exc) && forall j :: 0 <= j < i ==> rs[j].Ok?
  {
    if rs == [] then Ok([])
    else match rs[0]
      case Err(e) => Err(e)
      case Ok(v) =>
        match AllOk(rs[1..])
        case Err(e) => Err(e)
        case Ok(vs) => Ok([v] + vs)
  }
}
