/** Model of pcc/parsers/basic.hpp: `symbol(ch)` matches one given element and
    `tag(text)` matches a given literal prefix. */
module BasicParsers {
  import opened Results
  import opened ParseResults
  import opened Parsers

  /** `std::basic_string_view::npos`: the value `find` returns when `t` does not occur. */
  const NPOS: int := -1

  /** `t` occurs in `s` at position `j`. */
  predicate OccursAt(s: seq<char>, t: seq<char>, j: int)
  {
    0 <= j && j + |t| <= |s| && s[j..j + |t|] == t
  }

  lemma OccursAtShift(s: seq<char>, t: seq<char>, j: int)
    requires 1 <= j && |s| > 0
    ensures OccursAt(s, t, j) <==> OccursAt(s[1..], t, j - 1)
  {
    if j + |t| <= |s| {
      assert s[1..][j - 1..] == s[j..];
      assert s[1..][j - 1..j - 1 + |t|] == s[j..][..|t|];
    }
  }

  /** `s.find(t)`: the position of the first occurrence of `t` in `s`, or `NPOS`. */
  function Find(s: seq<char>, t: seq<char>): (i: int)
    ensures i == NPOS || OccursAt(s, t, i)
    ensures i == NPOS ==> forall j :: 0 <= j <= |s| - |t| ==> !OccursAt(s, t, j)
    ensures i != NPOS ==> forall j :: 0 <= j < i ==> !OccursAt(s, t, j)
    decreases |s|
  {
    if |t| > |s| then NPOS
    else if s[..|t|] == t then 0
    else
      var k := Find(s[1..], t);
      forall j | 1 <= j <= |s| - |t|
        ensures OccursAt(s, t, j) <==> OccursAt(s[1..], t, j - 1)
      {
        OccursAtShift(s, t, j);
      }
      if k == NPOS then NPOS else k + 1
  }

  /** `find(t) == 0` holds exactly when `t` is a prefix of `s`. */
  lemma FindZeroIffPrefix(s: seq<char>, t: seq<char>)
    ensures Find(s, t) == 0 <==> t <= s
  {
    if t <= s {
      assert OccursAt(s, t, 0);
    }
  }

  /** `symbol(ch)`: matches exactly the element `ch` at the front of the input. */
  function Symbol(ch: char, s: seq<char>): (r: ParseResult<char>)
    ensures IsSuccess(r) <==> |s| > 0 && s[0] == ch
    ensures IsSuccess(r) ==> r.value.value == ch && s == [ch] + r.value.rest
    ensures |s| == 0 ==> r == NotParsed("Can not parse value")
    ensures |s| > 0 && s[0] != ch ==> r == NotParsed("Can not match symbol")
  {
    if |s| == 0 then NotParsed("Can not parse value")
    else if s[0] == ch then ParsedResult(ch, s[1..])
    else NotParsed("Can not match symbol")
  }

  /** `tag(t)`: matches the literal `t` at the front of the input; an empty
      literal is rejected on every input. */
  function Tag(t: seq<char>, s: seq<char>): (r: ParseResult<seq<char>>)
    ensures |t| == 0 ==> r == NotParsed("Tag can not be empty string")
    ensures IsSuccess(r) <==> |t| > 0 && t <= s
    ensures IsSuccess(r) ==> r.value.value == t && s == t + r.value.rest
    ensures |t| > 0 && !(t <= s) ==> r == NotParsed("Tag not found")
  {
    if |t| == 0 then NotParsed("Tag can not be empty string")
    else
      FindZeroIffPrefix(s, t);
      if Find(s, t) == 0 then ParsedResult(t, s[|t|..])
      else NotParsed("Tag not found")
  }

  /** `symbol(ch)` consumes exactly one element whenever it succeeds. */
  lemma SymbolConsuming(ch: char)
    ensures ConsumingParser((s: seq<char>) => Symbol(ch, s))
  {
    forall s | IsSuccess(Symbol(ch, s))
      ensures IsSuffix(Symbol(ch, s).value.rest, s) && |Symbol(ch, s).value.rest| < |s|
    {
      assert s[1..] == Symbol(ch, s).value.rest;
    }
  }

  /** `tag(t)` consumes `|t| > 0` elements whenever it succeeds. */
  lemma TagConsuming(t: seq<char>)
    ensures ConsumingParser((s: seq<char>) => Tag(t, s))
  {
    forall s | IsSuccess(Tag(t, s))
      ensures IsSuffix(Tag(t, s).value.rest, s) && |Tag(t, s).value.rest| < |s|
    {
      assert s[|t|..] == Tag(t, s).value.rest;
    }
  }

  /** test/parsers/map.test.cpp: a tag is not found in the empty input. */
  lemma TagOnEmptyInput(t: seq<char>)
    requires |t| > 0
    ensures Tag(t, []) == NotParsed("Tag not found")
  {
  }
}
