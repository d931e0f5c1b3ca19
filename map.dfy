/** Model of pcc/parsers/map.hpp: `map(fn, p)` transforms the value of a
    successful parse, `constant(c, p)` replaces it. */
module MapParsers {
  import R = Results
  import opened ParseResults
  import opened Parsers
  import BasicParsers

  /** `map(fn, p)`: `fn` of `p`'s value with `p`'s remainder; `p`'s failure as is. */
  function Map<V, W>(fn: V -> W, p: Parser<V>, s: seq<char>): (r: ParseResult<W>)
    ensures R.IsSuccess(r) <==> R.IsSuccess(p(s))
    ensures R.IsSuccess(r) ==> r.value == Parsed(fn(p(s).value.value), p(s).value.rest)
    ensures !R.IsSuccess(r) ==> r.error == p(s).error
  {
    R.Map(p(s), (v: Parsed<V>) => Parsed(fn(v.value), v.rest))
  }

  /** `constant(c, p)`: `c` with `p`'s remainder whenever `p` succeeds. */
  function Constant<V, W>(c: W, p: Parser<V>, s: seq<char>): (r: ParseResult<W>)
    ensures R.IsSuccess(r) <==> R.IsSuccess(p(s))
    ensures R.IsSuccess(r) ==> r.value == Parsed(c, p(s).value.rest)
    ensures !R.IsSuccess(r) ==> r.error == p(s).error
  {
    Map((_: V) => c, p, s)
  }

  /** `map` keeps the suffix contract. */
  lemma MapSuffix<V, W>(fn: V -> W, p: Parser<V>)
    requires SuffixParser(p)
    ensures SuffixParser((s: seq<char>) => Map(fn, p, s))
  {
  }

  /** `constant` keeps the suffix contract, and the consuming one too. */
  lemma ConstantSuffix<V, W>(c: W, p: Parser<V>)
    ensures SuffixParser(p) ==> SuffixParser((s: seq<char>) => Constant(c, p, s))
    ensures ConsumingParser(p) ==> ConsumingParser((s: seq<char>) => Constant(c, p, s))
  {
  }

  /** test/parsers/map.test.cpp: mapping and constant over `tag`. */
  lemma MapTagExamples()
    ensures Map((_: seq<char>) => true, (s: seq<char>) => BasicParsers.Tag("true", s), "true") == ParsedResult(true, [])
    ensures Map((_: seq<char>) => false, (s: seq<char>) => BasicParsers.Tag("false", s), "true") == NotParsed("Tag not found")
    ensures Map((_: seq<char>) => true, (s: seq<char>) => BasicParsers.Tag("true", s), []) == NotParsed("Tag not found")
    ensures Constant(true, (s: seq<char>) => BasicParsers.Tag("true", s), "true") == ParsedResult(true, [])
    ensures Constant(true, (s: seq<char>) => BasicParsers.Tag("true", s), "nethier") == NotParsed("Tag not found")
  {
    assert "nethier"[0] != "true"[0];
  }
}
