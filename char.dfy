/** Model of pcc/parsers/char.hpp: runs of whitespace and of alphanumerics,
    with an optional minimum length. Character classes are those of the "C"
    locale. */
module CharParsers {
  import opened Results
  import opened ParseResults
  import opened Parsers
  import opened TakeParsers

  /** `std::isspace` in the "C" locale: space, \t, \n, \v, \f, \r. */
  predicate IsSpace(c: char)
  {
    c == ' ' || '\t' <= c <= '\r'
  }

  /** `std::isalnum` in the "C" locale. */
  predicate IsAlnum(c: char)
  {
    '0' <= c <= '9' || 'a' <= c <= 'z' || 'A' <= c <= 'Z'
  }

  /** The shared body of `spaces(at_least<N>)` and `alphanumeric(at_least<N>)`:
      the `take_while` run, rejected when it is shorter than `n`. */
  function RunAtLeast(pred: char -> bool, n: nat, s: seq<char>): (r: ParseResult<seq<char>>)
    ensures |s| == 0 ==> r == NotParsed("Can not take from empty string")
    ensures |s| > 0 && |TakeWhile(pred, s).value.value| < n ==> r == NotParsed("Do not enough symbols")
    ensures IsSuccess(r) <==> |s| > 0 && |TakeWhile(pred, s).value.value| >= n
    ensures IsSuccess(r) ==> r == TakeWhile(pred, s)
  {
    AndThen(TakeWhile(pred, s), (res: Parsed<seq<char>>) =>
      if |res.value| < n then NotParsed("Do not enough symbols")
      else ParsedResult(res.value, res.rest))
  }

  /** `spaces0`: the longest whitespace prefix; fails only on empty input. */
  function Spaces0(s: seq<char>): (r: ParseResult<seq<char>>)
    ensures IsSuccess(r) <==> |s| > 0
    ensures IsSuccess(r) ==> r.value.value + r.value.rest == s
    ensures IsSuccess(r) ==> forall i :: 0 <= i < |r.value.value| ==> IsSpace(r.value.value[i])
    ensures IsSuccess(r) ==> r.value.rest == [] || !IsSpace(r.value.rest[0])
  {
    TakeWhile(IsSpace, s)
  }

  /** `spaces(at_least<N>)`. */
  function Spaces(n: nat, s: seq<char>): (r: ParseResult<seq<char>>)
    ensures IsSuccess(r) <==> |s| > 0 && |Spaces0(s).value.value| >= n
    ensures IsSuccess(r) ==> r == Spaces0(s)
    ensures |s| > 0 && |Spaces0(s).value.value| < n ==> r == NotParsed("Do not enough symbols")
    ensures |s| == 0 ==> r == NotParsed("Can not take from empty string")
  {
    RunAtLeast(IsSpace, n, s)
  }

  /** `spaces1`: succeeds exactly when the input starts with whitespace. */
  function Spaces1(s: seq<char>): (r: ParseResult<seq<char>>)
    ensures IsSuccess(r) <==> |s| > 0 && IsSpace(s[0])
    ensures IsSuccess(r) ==> r == Spaces0(s)
  {
    Spaces(1, s)
  }

  /** `alphanumeric0`: the longest alphanumeric prefix; fails only on empty input. */
  function Alphanumeric0(s: seq<char>): (r: ParseResult<seq<char>>)
    ensures IsSuccess(r) <==> |s| > 0
    ensures IsSuccess(r) ==> r.value.value + r.value.rest == s
    ensures IsSuccess(r) ==> forall i :: 0 <= i < |r.value.value| ==> IsAlnum(r.value.value[i])
    ensures IsSuccess(r) ==> r.value.rest == [] || !IsAlnum(r.value.rest[0])
  {
    TakeWhile(IsAlnum, s)
  }

  /** `alphanumeric(at_least<N>)`. */
  function Alphanumeric(n: nat, s: seq<char>): (r: ParseResult<seq<char>>)
    ensures IsSuccess(r) <==> |s| > 0 && |Alphanumeric0(s).value.value| >= n
    ensures IsSuccess(r) ==> r == Alphanumeric0(s)
    ensures |s| > 0 && |Alphanumeric0(s).value.value| < n ==> r == NotParsed("Do not enough symbols")
    ensures |s| == 0 ==> r == NotParsed("Can not take from empty string")
  {
    RunAtLeast(IsAlnum, n, s)
  }

  /** `alphanumeric1`: succeeds exactly when the input starts with an alphanumeric. */
  function Alphanumeric1(s: seq<char>): (r: ParseResult<seq<char>>)
    ensures IsSuccess(r) <==> |s| > 0 && IsAlnum(s[0])
    ensures IsSuccess(r) ==> r == Alphanumeric0(s)
  {
    Alphanumeric(1, s)
  }

  /** A run parser with a minimum keeps the suffix contract. */
  lemma RunAtLeastSuffix(pred: char -> bool, n: nat)
    ensures SuffixParser((s: seq<char>) => RunAtLeast(pred, n, s))
  {
    TakeWhileSuffix(pred);
    assert forall s :: IsSuccess(RunAtLeast(pred, n, s)) ==> RunAtLeast(pred, n, s) == TakeWhile(pred, s);
  }

  /** `alphanumeric1` keeps the suffix contract. */
  lemma Alphanumeric1Suffix()
    ensures SuffixParser(Alphanumeric1)
  {
    RunAtLeastSuffix(IsAlnum, 1);
    assert forall s :: Alphanumeric1(s) == RunAtLeast(IsAlnum, 1, s);
  }

  /** `spaces0` succeeds without consuming on an input that does not start with
      whitespace: repeating it never makes progress. */
  lemma Spaces0ZeroWidth(s: seq<char>)
    requires |s| > 0 && !IsSpace(s[0])
    ensures Spaces0(s) == ParsedResult([], s)
  {
    TakeWhileUnique(IsSpace, s, [], s);
  }
}
