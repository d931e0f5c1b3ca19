/** Model of pcc/combinators/optional.hpp: `optional(p)` turns `p`'s failure
    into a successful `none` that consumes nothing. */
module Optionals {
  import opened Results
  import opened ParseResults
  import opened Parsers
  import Options

  /** `optional(p)`: the value is `as_option` of `p`'s outcome, mapped to the
      parsed value; the remainder is `p`'s, or the original input on failure. */
  function Optional<V>(p: Parser<V>, s: seq<char>): (r: ParseResult<Options.Option<V>>)
    ensures IsSuccess(r)
    ensures r.value.value.Some? <==> IsSuccess(p(s))
    ensures IsSuccess(p(s)) ==> r.value == Parsed(Options.Some(p(s).value.value), p(s).value.rest)
    ensures !IsSuccess(p(s)) ==> r.value == Parsed(Options.None, s)
  {
    var res := p(s);
    ParsedResult(
      Options.Map(AsOption(res), (pr: Parsed<V>) => pr.value),
      MapOrElse(res, () => s, (pr: Parsed<V>) => pr.rest))
  }

  /** `optional` keeps the suffix contract. */
  lemma OptionalSuffix<V>(p: Parser<V>)
    requires SuffixParser(p)
    ensures SuffixParser((s: seq<char>) => Optional(p, s))
  {
    forall s ensures IsSuffix(Optional(p, s).value.rest, s) {
      if !IsSuccess(p(s)) {
        assert s[|s| - |s|..] == s;
      }
    }
  }
}
