/** Model of pcc/core/option.hpp: a value that is either present (`some`) or
    absent (`none`), with the combinators `map`, `and_then` and `unwrap_or_else`. */
module Options {

  /** `option<T>`: built either from `some(v)` or from `none{}`. */
  datatype Option<T> = None | Some(value: T)

  /** `is_some`: true exactly for options built from `some(...)`. */
  predicate IsSome<T>(o: Option<T>)
  {
    o.Some?
  }

  /** `value_unsafe`: the held value; only defined on `some`. */
  function ValueUnsafe<T>(o: Option<T>): (v: T)
    requires IsSome(o)
    ensures Some(v) == o
  {
    o.value
  }

  /** `map`: applies `op` to a held value; `none` stays `none`. */
  function Map<T, U>(o: Option<T>, op: T -> U): (r: Option<U>)
    ensures r.Some? <==> o.Some?
    ensures o.Some? ==> r.value == op(o.value)
  {
    if IsSome(o) then Some(op(o.value)) else None
  }

  /** `and_then`: on `some(v)` the option returned by `op(v)` itself (not nested);
      on `none`, `none`. */
  function AndThen<T, U>(o: Option<T>, op: T -> Option<U>): (r: Option<U>)
    ensures o.Some? ==> r == op(o.value)
    ensures o.None? ==> r.None?
  {
    if IsSome(o) then op(o.value) else None
  }

  /** `unwrap_or_else`: the held value, or `def()` when absent. The default is
      a thunk, so it is consulted only on `none`. */
  function UnwrapOrElse<T>(o: Option<T>, def: () -> T): (v: T)
    ensures o.Some? ==> v == o.value
    ensures o.None? ==> v == def()
  {
    if !IsSome(o) then def() else ValueUnsafe(o)
  }

  /** `map` is `and_then` followed by re-wrapping in `some`. */
  lemma MapIsAndThenSome<T, U>(o: Option<T>, op: T -> U)
    ensures Map(o, op) == AndThen(o, (v: T) => Some(op(v)))
  {
  }

  /** Mapping twice is mapping once with the composed function. */
  lemma MapCompose<T, U, W>(o: Option<T>, f: T -> U, g: U -> W)
    ensures Map(Map(o, f), g) == Map(o, (v: T) => g(f(v)))
  {
  }

  /** `and_then` chains associate: flattening never nests options. */
  lemma AndThenAssociative<T, U, W>(o: Option<T>, f: T -> Option<U>, g: U -> Option<W>)
    ensures AndThen(AndThen(o, f), g) == AndThen(o, (v: T) => AndThen(f(v), g))
  {
  }
}
