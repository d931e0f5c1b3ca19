/** Model of pcc/parsers/take.hpp: `take_while(pred)` takes the longest prefix
    whose elements satisfy `pred`, `take(exactly<N>)` takes exactly `N`
    elements. */
module TakeParsers {
  import opened Results
  import opened ParseResults
  import opened Parsers

  /** `std::find_if_not`: the index of the first element that fails `pred`,
      or `|s|` when every element satisfies it. */
  function FindIfNot(pred: char -> bool, s: seq<char>): (pos: nat)
    ensures pos <= |s|
    ensures forall i :: 0 <= i < pos ==> pred(s[i])
    ensures pos < |s| ==> !pred(s[pos])
    decreases |s|
  {
    if |s| == 0 || !pred(s[0]) then 0 else 1 + FindIfNot(pred, s[1..])
  }

  /** The first failing index of `front + back` is `|front|` when every element
      of `front` satisfies `pred` and `back` does not start with one that does. */
  lemma {:induction false} FindIfNotOfSplit(pred: char -> bool, front: seq<char>, back: seq<char>)
    requires forall i :: 0 <= i < |front| ==> pred(front[i])
    requires back == [] || !pred(back[0])
    ensures FindIfNot(pred, front + back) == |front|
    decreases |front|
  {
    if front != [] {
      assert (front + back)[1..] == front[1..] + back;
      FindIfNotOfSplit(pred, front[1..], back);
    }
  }

  /** `take_while(pred)`: fails only on empty input; otherwise splits the input
      into its longest `pred` prefix (possibly empty) and the rest. */
  function TakeWhile(pred: char -> bool, s: seq<char>): (r: ParseResult<seq<char>>)
    ensures !IsSuccess(r) <==> |s| == 0
    ensures !IsSuccess(r) ==> r.error == "Can not take from empty string"
    ensures IsSuccess(r) ==> r.value.value + r.value.rest == s
    ensures IsSuccess(r) ==> forall i :: 0 <= i < |r.value.value| ==> pred(r.value.value[i])
    ensures IsSuccess(r) ==> r.value.rest == [] || !pred(r.value.rest[0])
  {
    if |s| == 0 then NotParsed("Can not take from empty string")
    else
      var pos := FindIfNot(pred, s);
      assert s[..pos] + s[pos..] == s;
      ParsedResult(s[..pos], s[pos..])
  }

  /** The split `take_while` makes is the only one with both of its properties:
      an all-`pred` front and a back that does not start with a `pred` element. */
  lemma TakeWhileUnique(pred: char -> bool, s: seq<char>, front: seq<char>, back: seq<char>)
    requires |s| > 0 && front + back == s
    requires forall i :: 0 <= i < |front| ==> pred(front[i])
    requires back == [] || !pred(back[0])
    ensures TakeWhile(pred, s) == ParsedResult(front, back)
  {
    FindIfNotOfSplit(pred, front, back);
    assert s[..|front|] == front;
  }

  /** `take_while` keeps the suffix contract. */
  lemma TakeWhileSuffix(pred: char -> bool)
    ensures SuffixParser((s: seq<char>) => TakeWhile(pred, s))
  {
    forall s | IsSuccess(TakeWhile(pred, s))
      ensures IsSuffix(TakeWhile(pred, s).value.rest, s)
    {
      var pr := TakeWhile(pred, s).value;
      assert s[|s| - |pr.rest|..] == (pr.value + pr.rest)[|pr.value|..];
    }
  }

  /** `take(exactly<N>)`: fails on empty input and on inputs shorter than `n`;
      otherwise yields the first `n` elements. `exactly<N>` rejects `N == 0`. */
  function Take(n: nat, s: seq<char>): (r: ParseResult<seq<char>>)
    requires n > 0
    ensures IsSuccess(r) <==> |s| >= n
    ensures IsSuccess(r) ==> |r.value.value| == n && r.value.value + r.value.rest == s
    ensures |s| == 0 ==> r == NotParsed("Can not take from empty string")
    ensures 0 < |s| < n ==> r == NotParsed("Can not take from string which is less N")
  {
    if |s| == 0 then NotParsed("Can not take from empty string")
    else if |s| < n then NotParsed("Can not take from string which is less N")
    else
      assert s[..n] + s[n..] == s;
      ParsedResult(s[..n], s[n..])
  }

  /** `take(exactly<N>)` consumes `n > 0` elements whenever it succeeds. */
  lemma TakeConsuming(n: nat)
    requires n > 0
    ensures ConsumingParser((s: seq<char>) => Take(n, s))
  {
    forall s | IsSuccess(Take(n, s))
      ensures IsSuffix(Take(n, s).value.rest, s) && |Take(n, s).value.rest| < |s|
    {
      var pr := Take(n, s).value;
      assert s[|s| - |pr.rest|..] == (pr.value + pr.rest)[|pr.value|..];
    }
  }
}
