/** Model of pcc/parsers/parser.hpp: a parser is a function from an input view
    to a parse outcome, and `<<=` / `>>=` sequence two parsers keeping the
    right or the left value. */
module Parsers {
  import opened Results
  import opened ParseResults

  /** Every parser of the library: a total function over input views. */
  type Parser<V> = seq<char> -> ParseResult<V>

  /** `r` is a suffix of `s`: what a view narrowed from the front looks like. */
  predicate IsSuffix(r: seq<char>, s: seq<char>)
  {
    |r| <= |s| && s[|s| - |r|..] == r
  }

  /** The library's parser contract: the rest of every success is a suffix of
      the input it was given. */
  ghost predicate SuffixParser<V>(p: Parser<V>)
  {
    forall s :: p(s).Success? ==> IsSuffix(p(s).value.rest, s)
  }

  /** A parser that, whenever it succeeds, consumes at least one element. */
  ghost predicate ConsumingParser<V>(p: Parser<V>)
  {
    forall s :: p(s).Success? ==> IsSuffix(p(s).value.rest, s) && |p(s).value.rest| < |s|
  }

  lemma SuffixTransitive(a: seq<char>, b: seq<char>, c: seq<char>)
    requires IsSuffix(a, b) && IsSuffix(b, c)
    ensures IsSuffix(a, c)
  {
    assert c[|c| - |a|..] == c[|c| - |b|..][|b| - |a|..];
  }

  lemma ConsumingIsSuffix<V>(p: Parser<V>)
    requires ConsumingParser(p)
    ensures SuffixParser(p)
  {
  }

  /** `l <<= r`: run `l`, drop its value, run `r` on `l`'s remainder. */
  function KeepRight<L, R>(l: Parser<L>, r: Parser<R>, s: seq<char>): (res: ParseResult<R>)
    ensures !IsSuccess(l(s)) ==> res == Error(l(s).error)
    ensures IsSuccess(l(s)) ==> res == r(l(s).value.rest)
  {
    AndThen(l(s), (lv: Parsed<L>) => r(lv.rest))
  }

  /** `l >>= r`: run `l`, then `r` on `l`'s remainder; keep `l`'s value and
      `r`'s remainder. */
  function KeepLeft<L, R>(l: Parser<L>, r: Parser<R>, s: seq<char>): (res: ParseResult<L>)
    ensures IsSuccess(res) <==> IsSuccess(l(s)) && IsSuccess(r(l(s).value.rest))
    ensures IsSuccess(res) ==> res.value == Parsed(l(s).value.value, r(l(s).value.rest).value.rest)
    ensures !IsSuccess(l(s)) ==> res == Error(l(s).error)
    ensures IsSuccess(l(s)) && !IsSuccess(r(l(s).value.rest)) ==> res == Error(r(l(s).value.rest).error)
  {
    AndThen(l(s), (lv: Parsed<L>) => Map(r(lv.rest), (rv: Parsed<R>) => Parsed(lv.value, rv.rest)))
  }

  /** `<<=` keeps the suffix contract. */
  lemma KeepRightSuffix<L, R>(l: Parser<L>, r: Parser<R>)
    requires SuffixParser(l) && SuffixParser(r)
    ensures SuffixParser((s: seq<char>) => KeepRight(l, r, s))
  {
    forall s | IsSuccess(KeepRight(l, r, s))
      ensures IsSuffix(KeepRight(l, r, s).value.rest, s)
    {
      SuffixTransitive(r(l(s).value.rest).value.rest, l(s).value.rest, s);
    }
  }

  /** `<<=` consumes whenever its right operand does. */
  lemma KeepRightConsuming<L, R>(l: Parser<L>, r: Parser<R>)
    requires SuffixParser(l) && ConsumingParser(r)
    ensures ConsumingParser((s: seq<char>) => KeepRight(l, r, s))
  {
    forall s | IsSuccess(KeepRight(l, r, s))
      ensures IsSuffix(KeepRight(l, r, s).value.rest, s) && |KeepRight(l, r, s).value.rest| < |s|
    {
      SuffixTransitive(r(l(s).value.rest).value.rest, l(s).value.rest, s);
    }
  }

  /** `<<=` also consumes whenever its left operand does. */
  lemma KeepRightConsumingLeft<L, R>(l: Parser<L>, r: Parser<R>)
    requires ConsumingParser(l) && SuffixParser(r)
    ensures ConsumingParser((s: seq<char>) => KeepRight(l, r, s))
  {
    forall s | IsSuccess(KeepRight(l, r, s))
      ensures IsSuffix(KeepRight(l, r, s).value.rest, s) && |KeepRight(l, r, s).value.rest| < |s|
    {
      SuffixTransitive(r(l(s).value.rest).value.rest, l(s).value.rest, s);
    }
  }

  /** `>>=` keeps the suffix contract. */
  lemma KeepLeftSuffix<L, R>(l: Parser<L>, r: Parser<R>)
    requires SuffixParser(l) && SuffixParser(r)
    ensures SuffixParser((s: seq<char>) => KeepLeft(l, r, s))
  {
    forall s | IsSuccess(KeepLeft(l, r, s))
      ensures IsSuffix(KeepLeft(l, r, s).value.rest, s)
    {
      SuffixTransitive(r(l(s).value.rest).value.rest, l(s).value.rest, s);
    }
  }
}
