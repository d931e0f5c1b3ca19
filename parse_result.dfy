/** Model of pcc/core/parse_result.hpp: the outcome of running a parser is a
    success holding the parsed value and the unconsumed rest of the input, or
    a failure holding only a message (no position, no code). */
module ParseResults {
  import opened Results

  /** `detail::parsed{value, rest}`. */
  datatype Parsed<V> = Parsed(value: V, rest: seq<char>)

  /** `parse_result<S, Ch>`: exactly one of success(value, rest) or error(message). */
  type ParseResult<V> = Result<Parsed<V>, string>

  /** `parsed(s, r)`: a success carrying value `s` and remainder `r`. */
  function ParsedResult<V>(value: V, rest: seq<char>): (r: ParseResult<V>)
    ensures IsSuccess(r)
    ensures r.value.value == value && r.value.rest == rest
  {
    Success(Parsed(value, rest))
  }

  /** `not_parsed(msg)`: a failure whose only payload is `msg`. */
  function NotParsed<V>(msg: string): (r: ParseResult<V>)
    ensures !IsSuccess(r)
    ensures r.error == msg
  {
    Error(msg)
  }
}
