/** Model of pcc/combinators/alternative.hpp: ordered choice. The first parser
    that succeeds wins; if all fail, the last failure is reported. */
module Alternatives {
  import opened Results
  import opened ParseResults
  import opened Parsers
  import BasicParsers

  /** Binary `alternative(p1, p2)`: `p1`'s success unchanged, else `p2` on the
      same, unadvanced input. */
  function Alternative<V>(p1: Parser<V>, p2: Parser<V>, s: seq<char>): (r: ParseResult<V>)
    ensures IsSuccess(p1(s)) ==> r == p1(s)
    ensures !IsSuccess(p1(s)) ==> r == p2(s)
  {
    var res := p1(s);
    if IsSuccess(res) then res else p2(s)
  }

  /** N-ary `alternative(p1, p2, rest...)`: the left fold
      `alternative(alternative(p1, p2), rest...)`. */
  function AlternativeN<V>(ps: seq<Parser<V>>, s: seq<char>): (r: ParseResult<V>)
    requires |ps| >= 2
    ensures IsSuccess(r) <==> exists i :: 0 <= i < |ps| && IsSuccess(ps[i](s))
    ensures IsSuccess(r) ==> exists i :: 0 <= i < |ps| && r == ps[i](s)
    ensures !IsSuccess(r) ==> r == ps[|ps| - 1](s)
    decreases |ps|
  {
    if |ps| == 2 then Alternative(ps[0], ps[1], s)
    else
      var init := ps[..|ps| - 1];
      var res := AlternativeN(init, s);
      assert forall i :: 0 <= i < |init| ==> init[i] == ps[i];
      Alternative((s': seq<char>) => AlternativeN(init, s'), ps[|ps| - 1], s)
  }

  /** `ps[i]` is the first of `ps` that succeeds on `s`. */
  ghost predicate FirstSuccessAt<V>(ps: seq<Parser<V>>, s: seq<char>, i: int)
  {
    0 <= i < |ps| && IsSuccess(ps[i](s)) && forall j :: 0 <= j < i ==> !IsSuccess(ps[j](s))
  }

  /** Every parser of `ps` fails on `s`. */
  ghost predicate AllFail<V>(ps: seq<Parser<V>>, s: seq<char>)
  {
    forall j :: 0 <= j < |ps| ==> !IsSuccess(ps[j](s))
  }

  /** The first parser in declaration order that succeeds determines the outcome;
      those after it are not consulted. */
  lemma {:induction false} AlternativeNFirstSuccess<V>(ps: seq<Parser<V>>, s: seq<char>, i: int)
    requires |ps| >= 2 && FirstSuccessAt(ps, s, i)
    ensures AlternativeN(ps, s) == ps[i](s)
    decreases |ps|
  {
    if |ps| > 2 {
      var init := ps[..|ps| - 1];
      if i < |ps| - 1 {
        assert FirstSuccessAt(init, s, i);
        AlternativeNFirstSuccess(init, s, i);
      } else {
        assert AllFail(init, s);
        AlternativeNAllFail(init, s);
      }
    }
  }

  /** When every parser fails, the outcome is the last parser's failure: earlier
      messages are discarded. */
  lemma {:induction false} AlternativeNAllFail<V>(ps: seq<Parser<V>>, s: seq<char>)
    requires |ps| >= 2 && AllFail(ps, s)
    ensures AlternativeN(ps, s) == ps[|ps| - 1](s)
    decreases |ps|
  {
    if |ps| > 2 {
      var init := ps[..|ps| - 1];
      assert AllFail(init, s);
      AlternativeNAllFail(init, s);
    }
  }

  /** `alternative(p1, p2, p3)` is `alternative(alternative(p1, p2), p3)`: the
      first of the three that succeeds, else the third's failure. */
  lemma Alternative3<V>(p1: Parser<V>, p2: Parser<V>, p3: Parser<V>, s: seq<char>)
    ensures AlternativeN([p1, p2, p3], s) ==
      if IsSuccess(p1(s)) then p1(s) else if IsSuccess(p2(s)) then p2(s) else p3(s)
  {
    assert [p1, p2, p3][..2] == [p1, p2];
  }

  /** Ordered choice keeps the suffix contract. */
  lemma {:induction false} AlternativeNSuffix<V>(ps: seq<Parser<V>>)
    requires |ps| >= 2
    requires forall i :: 0 <= i < |ps| ==> SuffixParser(ps[i])
    ensures SuffixParser((s: seq<char>) => AlternativeN(ps, s))
    decreases |ps|
  {
    if |ps| > 2 {
      AlternativeNSuffix(ps[..|ps| - 1]);
    }
    assert SuffixParser(ps[|ps| - 1]);
  }

  /** Choice determinism: `alternative(tag("true"), tag("true2"))` on "true2"
      matches "true" and leaves "2". */
  lemma ChoiceIsOrdered()
    ensures AlternativeN([(s: seq<char>) => BasicParsers.Tag("true", s), (s: seq<char>) => BasicParsers.Tag("true2", s)], "true2")
         == ParsedResult("true", "2")
  {
  }
}
