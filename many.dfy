/** Model of pcc/sequence/many.hpp: apply a parser repeatedly, each time on the
    previous remainder, until it fails; collect the values in order. */
module Repetition {
  import opened Results
  import opened ParseResults
  import opened Parsers
  import BasicParsers

  /** What `many0(p)` computes on `s`: the values of the successive successes
      of `p` and the remainder on which `p` first fails. Defined for parsers
      that consume on every success; for any other parser the loop of `many0`
      need not end. */
  function Repeat<V>(p: Parser<V>, s: seq<char>): (r: Parsed<seq<V>>)
    requires ConsumingParser(p)
    ensures IsSuffix(r.rest, s)
    ensures !IsSuccess(p(r.rest))
    ensures |r.value| <= |s| - |r.rest|
    decreases |s|
  {
    var res := p(s);
    if !IsSuccess(res) then
      assert s[|s| - |s|..] == s;
      Parsed([], s)
    else
      var more := Repeat(p, res.value.rest);
      SuffixTransitive(more.rest, res.value.rest, s);
      Parsed([res.value.value] + more.value, more.rest)
  }

  /** `many0(p)`: the loop over a shrinking view; it never fails. */
  method Many0<V>(p: Parser<V>, src: seq<char>) returns (r: ParseResult<seq<V>>)
    requires ConsumingParser(p)
    ensures r == Success(Repeat(p, src))
  {
    var vec: seq<V> := [];
    var rest := src;
    assert vec + Repeat(p, src).value == Repeat(p, src).value;
    while true
      invariant Repeat(p, src) == Parsed(vec + Repeat(p, rest).value, Repeat(p, rest).rest)
      decreases |rest|
    {
      var res := p(rest);
      if !IsSuccess(res) {
        break;
      }
      assert vec + Repeat(p, rest).value == (vec + [res.value.value]) + Repeat(p, res.value.rest).value;
      vec := vec + [res.value.value];
      rest := res.value.rest;
    }
    assert vec + [] == vec;
    r := ParsedResult(vec, rest);
  }

  /** `many(at_least<N>(), p)`: `many0(p)` rejected when it collected fewer than
      `n` values. */
  function Many<V>(n: nat, p: Parser<V>, s: seq<char>): (r: ParseResult<seq<V>>)
    requires ConsumingParser(p)
    ensures IsSuccess(r) <==> |Repeat(p, s).value| >= n
    ensures IsSuccess(r) ==> r.value == Repeat(p, s)
    ensures !IsSuccess(r) ==> r.error == "Failed to apply many combinator"
  {
    AndThen(Success(Repeat(p, s)), (pr: Parsed<seq<V>>) =>
      if |pr.value| < n then NotParsed("Failed to apply many combinator")
      else ParsedResult(pr.value, pr.rest))
  }

  /** The values are exactly the values of `p`'s successive successes: the
      repetition starts with `p` on `s` and continues on its remainder. */
  lemma RepeatUnfold<V>(p: Parser<V>, s: seq<char>)
    requires ConsumingParser(p)
    ensures !IsSuccess(p(s)) ==> Repeat(p, s) == Parsed([], s)
    ensures IsSuccess(p(s)) ==> Repeat(p, s).value == [p(s).value.value] + Repeat(p, p(s).value.rest).value
    ensures IsSuccess(p(s)) ==> Repeat(p, s).rest == Repeat(p, p(s).value.rest).rest
  {
  }

  /** A success of `p` that leaves `more` contributes its value ahead of the
      repetition from `more`. */
  lemma RepeatStep<V>(p: Parser<V>, s: seq<char>, v: V, more: seq<char>)
    requires ConsumingParser(p)
    requires p(s) == ParsedResult(v, more)
    ensures Repeat(p, s) == Parsed([v] + Repeat(p, more).value, Repeat(p, more).rest)
  {
  }

  /** Every collected value is one `p` can produce: if each success of `p`
      yields `c`, the repetition yields only `c`. */
  lemma {:induction false} RepeatConstant<V>(p: Parser<V>, c: V, s: seq<char>)
    requires ConsumingParser(p)
    requires forall s' :: IsSuccess(p(s')) ==> p(s').value.value == c
    ensures forall i :: 0 <= i < |Repeat(p, s).value| ==> Repeat(p, s).value[i] == c
    decreases |s|
  {
    if IsSuccess(p(s)) {
      RepeatConstant(p, c, p(s).value.rest);
    }
  }

  /** With a minimum of zero, `many` never fails. */
  lemma ManyZeroNeverFails<V>(p: Parser<V>, s: seq<char>)
    requires ConsumingParser(p)
    ensures Many(0, p, s) == Success(Repeat(p, s))
  {
  }

  /** `many(at_least<3>(), tag("a"))` fails on "aa" and yields three tags on "aaa". */
  lemma ManyTagExamples()
    ensures ConsumingParser((s: seq<char>) => BasicParsers.Tag("a", s))
    ensures Many(3, (s: seq<char>) => BasicParsers.Tag("a", s), "aa") == NotParsed("Failed to apply many combinator")
    ensures Many(3, (s: seq<char>) => BasicParsers.Tag("a", s), "aaa") == ParsedResult(["a", "a", "a"], [])
  {
    var a := (s: seq<char>) => BasicParsers.Tag("a", s);
    BasicParsers.TagConsuming("a");
    assert a("aaa") == ParsedResult("a", "aa");
    assert a("aa") == ParsedResult("a", "a");
    assert a("a") == ParsedResult("a", []);
    assert a([]) == NotParsed("Tag not found");
    assert Repeat(a, []) == Parsed([], []);
    RepeatUnfold(a, "a");
    assert ["a"] + [] == ["a"];
    assert Repeat(a, "a") == Parsed(["a"], []);
    RepeatUnfold(a, "aa");
    assert ["a"] + ["a"] == ["a", "a"];
    assert Repeat(a, "aa") == Parsed(["a", "a"], []);
    RepeatUnfold(a, "aaa");
    assert ["a"] + ["a", "a"] == ["a", "a", "a"];
    assert Repeat(a, "aaa") == Parsed(["a", "a", "a"], []);
  }
}
