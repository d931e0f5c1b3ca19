/** Model of pcc/combinators/sum.hpp: ordered choice whose branches produce
    different alternatives of one sum type. The variant type is modelled by an
    injection `V -> W` per branch. */
module Sums {
  import opened Results
  import opened ParseResults
  import opened Parsers
  import opened Alternatives

  /** `as_sum<Variant>(p)`: `p`'s value injected into the sum type; every
      failure of `p` is replaced by one fixed message. */
  function AsSum<V, W>(inject: V -> W, p: Parser<V>, s: seq<char>): (r: ParseResult<W>)
    ensures IsSuccess(r) <==> IsSuccess(p(s))
    ensures IsSuccess(r) ==> r.value == Parsed(inject(p(s).value.value), p(s).value.rest)
    ensures !IsSuccess(r) ==> r.error == "No suitable variant to parse"
  {
    var res := p(s);
    if IsSuccess(res) then ParsedResult(inject(res.value.value), res.value.rest)
    else NotParsed("No suitable variant to parse")
  }

  /** The wrapped branches `as_sum<Variant>(ps)...`. */
  function Branches<V, W>(injects: seq<V -> W>, ps: seq<Parser<V>>): (bs: seq<Parser<W>>)
    requires |injects| == |ps|
    ensures |bs| == |ps|
    ensures forall i, s :: 0 <= i < |ps| ==> bs[i](s) == AsSum(injects[i], ps[i], s)
  {
    seq(|ps|, i requires 0 <= i < |ps| => (s: seq<char>) => AsSum(injects[i], ps[i], s))
  }

  /** `sum<Types...>(ps...)`: `alternative` over the wrapped branches. */
  function Sum<V, W>(injects: seq<V -> W>, ps: seq<Parser<V>>, s: seq<char>): (r: ParseResult<W>)
    requires |ps| >= 2 && |injects| == |ps|
    ensures IsSuccess(r) <==> exists i :: 0 <= i < |ps| && IsSuccess(ps[i](s))
    ensures IsSuccess(r) ==>
              exists i :: 0 <= i < |ps| && IsSuccess(ps[i](s)) &&
                          r == ParsedResult(injects[i](ps[i](s).value.value), ps[i](s).value.rest)
    ensures !IsSuccess(r) ==> r == NotParsed("No suitable variant to parse")
  {
    BranchesChoice(injects, ps, s);
    AlternativeN(Branches(injects, ps), s)
  }

  /** Ordered choice over the wrapped branches, in terms of the branches. */
  lemma BranchesChoice<V, W>(injects: seq<V -> W>, ps: seq<Parser<V>>, s: seq<char>)
    requires |ps| >= 2 && |injects| == |ps|
    ensures var r := AlternativeN(Branches(injects, ps), s);
      && (IsSuccess(r) <==> exists i :: 0 <= i < |ps| && IsSuccess(ps[i](s)))
      && (IsSuccess(r) ==>
            exists i :: 0 <= i < |ps| && IsSuccess(ps[i](s)) &&
                        r == ParsedResult(injects[i](ps[i](s).value.value), ps[i](s).value.rest))
      && (!IsSuccess(r) ==> r == NotParsed("No suitable variant to parse"))
  {
    var bs := Branches(injects, ps);
    var r := AlternativeN(bs, s);
    assert forall i :: 0 <= i < |ps| ==> (IsSuccess(bs[i](s)) <==> IsSuccess(ps[i](s)));
    if IsSuccess(r) {
      var i :| 0 <= i < |bs| && r == bs[i](s);
      assert r == ParsedResult(injects[i](ps[i](s).value.value), ps[i](s).value.rest);
    }
  }

  /** `as_sum` keeps the suffix contract. */
  lemma AsSumSuffix<V, W>(inject: V -> W, p: Parser<V>)
    requires SuffixParser(p)
    ensures SuffixParser((s: seq<char>) => AsSum(inject, p, s))
  {
  }

  /** A sum of suffix parsers is a suffix parser. */
  lemma SumSuffix<V, W>(injects: seq<V -> W>, ps: seq<Parser<V>>)
    requires |ps| >= 2 && |injects| == |ps|
    requires forall i :: 0 <= i < |ps| ==> SuffixParser(ps[i])
    ensures SuffixParser((s: seq<char>) => Sum(injects, ps, s))
  {
    forall s | IsSuccess(Sum(injects, ps, s))
      ensures IsSuffix(Sum(injects, ps, s).value.rest, s)
    {
      var i :| 0 <= i < |ps| && IsSuccess(ps[i](s)) &&
        Sum(injects, ps, s) == ParsedResult(injects[i](ps[i](s).value.value), ps[i](s).value.rest);
      assert SuffixParser(ps[i]);
    }
  }

  /** The first branch that succeeds selects the alternative. */
  lemma SumFirstSuccess<V, W>(injects: seq<V -> W>, ps: seq<Parser<V>>, s: seq<char>, i: int)
    requires |ps| >= 2 && |injects| == |ps|
    requires FirstSuccessAt(ps, s, i)
    ensures Sum(injects, ps, s) == ParsedResult(injects[i](ps[i](s).value.value), ps[i](s).value.rest)
  {
    AlternativeNFirstSuccess(Branches(injects, ps), s, i);
  }

  /** When no branch succeeds, the failure carries the fixed message, whatever
      the branches reported. */
  lemma SumAllFail<V, W>(injects: seq<V -> W>, ps: seq<Parser<V>>, s: seq<char>)
    requires |ps| >= 2 && |injects| == |ps|
    requires AllFail(ps, s)
    ensures Sum(injects, ps, s) == NotParsed("No suitable variant to parse")
  {
    AlternativeNAllFail(Branches(injects, ps), s);
  }

  /** The least index whose parser succeeds on `s`. */
  lemma {:induction false} FirstSucceeding<V>(ps: seq<Parser<V>>, s: seq<char>) returns (i: int)
    requires exists k :: 0 <= k < |ps| && IsSuccess(ps[k](s))
    ensures FirstSuccessAt(ps, s, i)
    decreases |ps|
  {
    if IsSuccess(ps[0](s)) {
      i := 0;
    } else {
      var k :| 0 <= k < |ps| && IsSuccess(ps[k](s));
      assert 0 <= k - 1 < |ps[1..]| && IsSuccess(ps[1..][k - 1](s));
      var j := FirstSucceeding(ps[1..], s);
      i := j + 1;
      forall m | 0 <= m < i ensures !IsSuccess(ps[m](s)) {
        if m > 0 {
          assert ps[m] == ps[1..][m - 1];
        }
      }
    }
  }
}
