/** Model of pcc/core/result.hpp: an outcome that is either a success value or
    an error value, with `as_option`, `map`, `map_error`, `and_then` and
    `map_or_else`. */
module Results {
  import Options

  /** `result<S, E>`: built either from `success(v)` or from `error(e)`. */
  datatype Result<S, E> = Success(value: S) | Error(error: E)

  /** `is_success`: true exactly for results built from `success(...)`. */
  predicate IsSuccess<S, E>(r: Result<S, E>)
  {
    r.Success?
  }

  /** `value_unsafe`: the success value; only defined on a success. */
  function ValueUnsafe<S, E>(r: Result<S, E>): (v: S)
    requires IsSuccess(r)
    ensures Success(v) == r
  {
    r.value
  }

  /** `error_unsafe`: the error value; only defined on a failure. */
  function ErrorUnsafe<S, E>(r: Result<S, E>): (e: E)
    requires !IsSuccess(r)
    ensures Error(e) == r
  {
    r.error
  }

  /** `as_option`: `some` of the success value, `none` on failure. */
  function AsOption<S, E>(r: Result<S, E>): (o: Options.Option<S>)
    ensures o.Some? <==> IsSuccess(r)
    ensures o.Some? ==> o.value == r.value
  {
    if IsSuccess(r) then Options.Some(r.value) else Options.None
  }

  /** `map`: applies `op` to a success value; an error value is carried over
      unchanged. */
  function Map<S, E, T>(r: Result<S, E>, op: S -> T): (m: Result<T, E>)
    ensures m.Success? <==> r.Success?
    ensures r.Success? ==> m.value == op(r.value)
    ensures r.Error? ==> m.error == r.error
  {
    if IsSuccess(r) then Success(op(r.value)) else Error(r.error)
  }

  /** `map_error`: transforms only the error; a success value passes through. */
  function MapError<S, E, F>(r: Result<S, E>, op: E -> F): (m: Result<S, F>)
    ensures m.Success? <==> r.Success?
    ensures r.Success? ==> m.value == r.value
    ensures r.Error? ==> m.error == op(r.error)
  {
    if IsSuccess(r) then Success(r.value) else Error(op(r.error))
  }

  /** `and_then`: on success the result of `op` itself (flattened); on failure
      the original error, under the new success type. */
  function AndThen<S, E, T>(r: Result<S, E>, op: S -> Result<T, E>): (m: Result<T, E>)
    ensures r.Success? ==> m == op(r.value)
    ensures r.Error? ==> m == Error(r.error)
  {
    if IsSuccess(r) then op(r.value) else Error(r.error)
  }

  /** `map_or_else(def, op)`: `def()` on failure, `op(value)` on success. */
  function MapOrElse<S, E, T>(r: Result<S, E>, def: () -> T, op: S -> T): (v: T)
    ensures r.Error? ==> v == def()
    ensures r.Success? ==> v == op(r.value)
  {
    if !IsSuccess(r) then def() else ValueUnsafe(Map(r, op))
  }

  /** `map` is `and_then` followed by re-wrapping in `success`. */
  lemma MapIsAndThenSuccess<S, E, T>(r: Result<S, E>, op: S -> T)
    ensures Map(r, op) == AndThen(r, (v: S) => Success(op(v)))
  {
  }

  /** `and_then` chains associate. */
  lemma AndThenAssociative<S, E, T, U>(r: Result<S, E>, f: S -> Result<T, E>, g: T -> Result<U, E>)
    ensures AndThen(AndThen(r, f), g) == AndThen(r, (v: S) => AndThen(f(v), g))
  {
  }

  /** `as_option` commutes with `map`: mapping the result and then forgetting
      the error is mapping the option. */
  lemma AsOptionOfMap<S, E, T>(r: Result<S, E>, op: S -> T)
    ensures AsOption(Map(r, op)) == Options.Map(AsOption(r), op)
  {
  }

  /** `map_error` is invisible to `as_option`. */
  lemma AsOptionOfMapError<S, E, F>(r: Result<S, E>, op: E -> F)
    ensures AsOption(MapError(r, op)) == AsOption(r)
  {
  }

  /** `map_or_else` is `unwrap_or_else` of the mapped option. */
  lemma MapOrElseViaOption<S, E, T>(r: Result<S, E>, def: () -> T, op: S -> T)
    ensures MapOrElse(r, def, op) == Options.UnwrapOrElse(Options.Map(AsOption(r), op), def)
  {
  }
}
