/** Model of pcc/parsers/one_of.hpp: `one_of(charset)` matches one element
    that belongs to `charset`. */
module OneOfParsers {
  import opened Results
  import opened ParseResults
  import opened Parsers

  /** `one_of(charset)` with the empty-input guard its test expects: fails
      with the same message on empty input as on a non-member. */
  function OneOf(charset: seq<char>, s: seq<char>): (r: ParseResult<char>)
    ensures IsSuccess(r) <==> |s| > 0 && s[0] in charset
    ensures IsSuccess(r) ==> r.value.value == s[0] && [s[0]] + r.value.rest == s
    ensures !IsSuccess(r) ==> r.error == "A character is not in the input"
  {
    if |s| > 0 && s[0] in charset then ParsedResult(s[0], s[1..])
    else NotParsed("A character is not in the input")
  }

  /** `one_of` never consumes more than one element, and exactly one on success. */
  lemma OneOfConsuming(charset: seq<char>)
    ensures ConsumingParser((s: seq<char>) => OneOf(charset, s))
  {
    forall s | IsSuccess(OneOf(charset, s))
      ensures IsSuffix(OneOf(charset, s).value.rest, s) && |OneOf(charset, s).value.rest| < |s|
    {
      assert s[1..] == OneOf(charset, s).value.rest;
    }
  }

  /** What the unguarded code can do: return a parse outcome, or throw
      `std::out_of_range` from `substr(1)` on an empty view. */
  datatype Unguarded<V> = Returned(result: ParseResult<V>) | OutOfRange

  /** `one_of` as written: `front()` is read without checking for an empty view.
      On an empty view it reads `past`, the element stored right after the view
      (the NUL of a string literal, or the next element of a larger buffer). */
  function OneOfAsWritten(charset: seq<char>, s: seq<char>, past: char): (u: Unguarded<char>)
    ensures |s| > 0 ==> u == Returned(OneOf(charset, s))
    ensures |s| == 0 ==> (u == OutOfRange <==> past in charset)
    ensures |s| == 0 && past !in charset ==> u == Returned(OneOf(charset, s))
  {
    var front := if |s| > 0 then s[0] else past;
    if front in charset then
      if |s| == 0 then OutOfRange else Returned(ParsedResult(front, s[1..]))
    else Returned(NotParsed("A character is not in the input"))
  }

  /** test/parsers/one_of.test.cpp: the empty input fails with the ordinary
      message. The unguarded code passes that test only because the element
      after the empty literal is its NUL terminator; an empty view whose next
      stored element is in the set makes it throw instead. */
  lemma OneOfEmptyView()
    ensures OneOf("123", []) == NotParsed("A character is not in the input")
    ensures OneOfAsWritten("123", [], '\0') == Returned(NotParsed("A character is not in the input"))
    ensures OneOfAsWritten("123", [], '1') == OutOfRange
  {
  }

  /** test/parsers/one_of.test.cpp: "1" and "123" yield '1'; "4" fails. */
  lemma OneOfExamples()
    ensures OneOf("123", "1") == ParsedResult('1', [])
    ensures OneOf("123", "123") == ParsedResult('1', "23")
    ensures OneOf("123", "4") == NotParsed("A character is not in the input")
  {
  }
}
