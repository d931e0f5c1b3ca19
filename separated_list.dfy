/** Model of pcc/sequence/separated_list.hpp: `separated_list(sep, p)`, meant
    to parse elements `p` separated by the element `sep`. As written it
    repeats "an element, then a separator" and keeps the separators; the
    corrected form keeps the elements. */
module SeparatedLists {
  import opened Results
  import opened ParseResults
  import opened Parsers
  import opened BasicParsers
  import opened OneOfParsers
  import opened Repetition

  /** `p <<= symbol(sep)`: an element followed by a separator, valued by the
      separator. */
  function ElementThenSep<V>(sep: char, p: Parser<V>): Parser<char>
  {
    (s: seq<char>) => KeepRight(p, (s': seq<char>) => Symbol(sep, s'), s)
  }

  lemma ElementThenSepConsuming<V>(sep: char, p: Parser<V>)
    requires SuffixParser(p)
    ensures ConsumingParser(ElementThenSep(sep, p))
  {
    SymbolConsuming(sep);
    KeepRightConsuming(p, (s': seq<char>) => Symbol(sep, s'));
  }

  /** `separated_list(sep, p)` as written: `many0(p <<= symbol(sep))`. It never
      fails, and it collects one separator per "element, separator" pair. */
  function SeparatedList<V>(sep: char, p: Parser<V>, s: seq<char>): (r: ParseResult<seq<char>>)
    requires SuffixParser(p)
    ensures IsSuccess(r)
    ensures ConsumingParser(ElementThenSep(sep, p)) && r.value == Repeat(ElementThenSep(sep, p), s)
  {
    ElementThenSepConsuming(sep, p);
    Success(Repeat(ElementThenSep(sep, p), s))
  }

  /** The values the written form collects are all the separator, never an
      element. */
  lemma SeparatedListKeepsSeparators<V>(sep: char, p: Parser<V>, s: seq<char>)
    requires SuffixParser(p)
    ensures forall i :: 0 <= i < |SeparatedList(sep, p, s).value.value| ==> SeparatedList(sep, p, s).value.value[i] == sep
  {
    ElementThenSepConsuming(sep, p);
    RepeatConstant(ElementThenSep(sep, p), sep, s);
  }

  /** One element of `cs`. */
  function CharIn(cs: seq<char>): Parser<char>
  {
    (s: seq<char>) => OneOf(cs, s)
  }

  lemma CharInConsuming(cs: seq<char>)
    ensures ConsumingParser(CharIn(cs))
  {
    OneOfConsuming(cs);
  }

  /** One "element, separator" pair of the written form. */
  lemma ElementThenSepStep(sep: char, cs: seq<char>, d: char, more: seq<char>)
    requires d in cs
    ensures ElementThenSep(sep, CharIn(cs))([d, sep] + more) == ParsedResult(sep, more)
  {
    var s := [d, sep] + more;
    assert s[1..] == [sep] + more;
    assert s[1..][1..] == more;
  }

  /** `e, sep` for every `e` of `es`: the input on which the written form
      keeps going. */
  function Terminate(sep: char, es: seq<char>): (r: seq<char>)
    ensures |r| == 2 * |es|
  {
    if es == [] then [] else [es[0], sep] + Terminate(sep, es[1..])
  }

  /** `n` copies of `c`. */
  function Copies(c: char, n: nat): (r: seq<char>)
    ensures |r| == n
    ensures forall i :: 0 <= i < n ==> r[i] == c
  {
    if n == 0 then [] else [c] + Copies(c, n - 1)
  }

  /** A tail that does not begin with an element of `cs` followed by a separator. */
  predicate StopsPairs(sep: char, cs: seq<char>, tail: seq<char>)
  {
    !(|tail| >= 2 && tail[0] in cs && tail[1] == sep)
  }

  /** The written form's repetition stops on a tail that `StopsPairs`. */
  lemma ElementThenSepStopsOn(sep: char, cs: seq<char>, tail: seq<char>)
    requires StopsPairs(sep, cs, tail)
    ensures !IsSuccess(ElementThenSep(sep, CharIn(cs))(tail))
  {
  }

  /** The written form over "element, separator" pairs yields one separator
      per pair and stops before the tail. */
  lemma {:induction false} RepeatElementThenSep(sep: char, cs: seq<char>, es: seq<char>, tail: seq<char>)
    requires ConsumingParser(ElementThenSep(sep, CharIn(cs)))
    requires forall i :: 0 <= i < |es| ==> es[i] in cs
    requires StopsPairs(sep, cs, tail)
    ensures Repeat(ElementThenSep(sep, CharIn(cs)), Terminate(sep, es) + tail) == Parsed(Copies(sep, |es|), tail)
    decreases |es|
  {
    var pair := ElementThenSep(sep, CharIn(cs));
    if es == [] {
      assert Terminate(sep, es) + tail == tail;
      ElementThenSepStopsOn(sep, cs, tail);
      RepeatUnfold(pair, tail);
    } else {
      var more := Terminate(sep, es[1..]) + tail;
      assert Terminate(sep, es) + tail == [es[0], sep] + more;
      ElementThenSepStep(sep, cs, es[0], more);
      RepeatElementThenSep(sep, cs, es[1..], tail);
      RepeatStep(pair, [es[0], sep] + more, sep, more);
    }
  }

  /** The written form on elements each followed by a separator: it yields
      only the separators, one per element, and leaves the tail. */
  lemma SeparatedListAsWrittenPairs(sep: char, cs: seq<char>, es: seq<char>, tail: seq<char>)
    requires forall i :: 0 <= i < |es| ==> es[i] in cs
    requires StopsPairs(sep, cs, tail)
    ensures SuffixParser(CharIn(cs))
    ensures SeparatedList(sep, CharIn(cs), Terminate(sep, es) + tail) == ParsedResult(Copies(sep, |es|), tail)
  {
    CharInConsuming(cs);
    ElementThenSepConsuming(sep, CharIn(cs));
    RepeatElementThenSep(sep, cs, es, tail);
  }

  /** On "1,2,3" the written form yields the two commas and leaves the last
      element "3" unparsed; on "1,2," it yields the commas and no digit; on
      the empty input it succeeds with nothing. */
  lemma SeparatedListAsWrittenExamples()
    ensures SeparatedList(',', CharIn("0123456789"), "1,2,3") == ParsedResult(",,", "3")
    ensures SeparatedList(',', CharIn("0123456789"), "1,2,") == ParsedResult(",,", [])
    ensures SeparatedList(',', CharIn("0123456789"), []) == ParsedResult([], [])
  {
    var cs := "0123456789";
    assert '1' in cs && '2' in cs;
    assert Terminate(',', "12") == "1,2," by {
      assert Terminate(',', "2") == "2,";
    }
    assert Copies(',', 2) == ",,";
    SeparatedListAsWrittenPairs(',', cs, "12", "3");
    assert "1,2," + "3" == "1,2,3";
    SeparatedListAsWrittenPairs(',', cs, "12", []);
    assert "1,2," + [] == "1,2,";
    SeparatedListAsWrittenPairs(',', cs, [], []);
  }

  /** `symbol(sep) <<= p`: a separator followed by an element, valued by the
      element. */
  function SepThenElement<V>(sep: char, p: Parser<V>): Parser<V>
  {
    (s: seq<char>) => KeepRight((s': seq<char>) => Symbol(sep, s'), p, s)
  }

  lemma SepThenElementConsuming<V>(sep: char, p: Parser<V>)
    requires SuffixParser(p)
    ensures ConsumingParser(SepThenElement(sep, p))
  {
    SymbolConsuming(sep);
    KeepRightConsumingLeft((s': seq<char>) => Symbol(sep, s'), p);
  }

  /** The evidently intended `separated_list(sep, p)`: zero or more elements,
      like the `many0` it is built on; when there is a first element, any
      number of "separator, element" pairs follow it, and the values are the
      elements. A separator not followed by an element is left in the
      remainder. */
  function SeparatedListIntended<V>(sep: char, p: Parser<V>, s: seq<char>): (r: ParseResult<seq<V>>)
    requires SuffixParser(p)
    ensures IsSuccess(r)
    ensures ConsumingParser(SepThenElement(sep, p))
    ensures !IsSuccess(p(s)) ==> r.value == Parsed([], s)
    ensures IsSuccess(p(s)) ==>
      r.value == Parsed([p(s).value.value] + Repeat(SepThenElement(sep, p), p(s).value.rest).value,
                        Repeat(SepThenElement(sep, p), p(s).value.rest).rest)
    ensures IsSuffix(r.value.rest, s)
    ensures IsSuccess(p(s)) ==> !IsSuccess(SepThenElement(sep, p)(r.value.rest))
  {
    SepThenElementConsuming(sep, p);
    match p(s)
    case Error(_) => ParsedResult([], s)
    case Success(first) =>
      var others := Repeat(SepThenElement(sep, p), first.rest);
      SuffixTransitive(others.rest, first.rest, s);
      ParsedResult([first.value] + others.value, others.rest)
  }

  /** `sep, e` for every `e` of `es`. */
  function Interleave(sep: char, es: seq<char>): (r: seq<char>)
    ensures |r| == 2 * |es|
  {
    if es == [] then [] else [sep, es[0]] + Interleave(sep, es[1..])
  }

  /** The separated rendering of a non-empty list of elements. */
  function Join(sep: char, ds: seq<char>): seq<char>
    requires |ds| > 0
  {
    [ds[0]] + Interleave(sep, ds[1..])
  }

  /** A tail that does not begin with a separator followed by an element of `cs`. */
  predicate StopsList(sep: char, cs: seq<char>, tail: seq<char>)
  {
    !(|tail| >= 2 && tail[0] == sep && tail[1] in cs)
  }

  /** One "separator, element" pair of the corrected form. */
  lemma SepThenElementStep(sep: char, cs: seq<char>, e: char, more: seq<char>)
    requires e in cs
    ensures SepThenElement(sep, CharIn(cs))([sep, e] + more) == ParsedResult(e, more)
  {
    var s := [sep, e] + more;
    assert s[1..] == [e] + more;
    assert s[1..][1..] == more;
  }

  /** The corrected form's repetition stops on a tail that `StopsList`. */
  lemma SepThenElementStops(sep: char, cs: seq<char>, tail: seq<char>)
    requires StopsList(sep, cs, tail)
    ensures !IsSuccess(SepThenElement(sep, CharIn(cs))(tail))
  {
  }

  /** One more "separator, element" pair ahead of a repetition adds its
      element in front. */
  lemma RepeatSepThenElementStep(sep: char, cs: seq<char>, e: char, more: seq<char>, es: seq<char>, tail: seq<char>)
    requires ConsumingParser(SepThenElement(sep, CharIn(cs)))
    requires e in cs
    requires Repeat(SepThenElement(sep, CharIn(cs)), more) == Parsed(es, tail)
    ensures Repeat(SepThenElement(sep, CharIn(cs)), [sep, e] + more) == Parsed([e] + es, tail)
  {
    SepThenElementStep(sep, cs, e, more);
    RepeatStep(SepThenElement(sep, CharIn(cs)), [sep, e] + more, e, more);
  }

  lemma {:induction false} RepeatSepThenElement(sep: char, cs: seq<char>, es: seq<char>, tail: seq<char>)
    requires ConsumingParser(SepThenElement(sep, CharIn(cs)))
    requires forall i :: 0 <= i < |es| ==> es[i] in cs
    requires StopsList(sep, cs, tail)
    ensures Repeat(SepThenElement(sep, CharIn(cs)), Interleave(sep, es) + tail) == Parsed(es, tail)
    decreases |es|
  {
    var pair := SepThenElement(sep, CharIn(cs));
    if es == [] {
      assert Interleave(sep, es) + tail == tail;
      SepThenElementStops(sep, cs, tail);
      RepeatUnfold(pair, tail);
    } else {
      var more := Interleave(sep, es[1..]) + tail;
      assert Interleave(sep, es) + tail == [sep, es[0]] + more;
      RepeatSepThenElement(sep, cs, es[1..], tail);
      RepeatSepThenElementStep(sep, cs, es[0], more, es[1..], tail);
      assert [es[0]] + es[1..] == es;
    }
  }

  /** Round trip of the corrected form: a separated rendering of elements
      parses back to the elements, leaving the tail. */
  lemma SeparatedListIntendedRoundTrip(sep: char, cs: seq<char>, ds: seq<char>, tail: seq<char>)
    requires |ds| > 0 && forall i :: 0 <= i < |ds| ==> ds[i] in cs
    requires StopsList(sep, cs, tail)
    ensures SuffixParser(CharIn(cs))
    ensures SeparatedListIntended(sep, CharIn(cs), Join(sep, ds) + tail) == ParsedResult(ds, tail)
  {
    CharInConsuming(cs);
    var s := Join(sep, ds) + tail;
    assert s == [ds[0]] + (Interleave(sep, ds[1..]) + tail);
    assert s[1..] == Interleave(sep, ds[1..]) + tail;
    SepThenElementConsuming(sep, CharIn(cs));
    RepeatSepThenElement(sep, cs, ds[1..], tail);
    assert [ds[0]] + ds[1..] == ds;
  }

  /** Round trip of the corrected form for the empty list: nothing is
      parsed and the whole input is left, as long as it does not begin with
      an element. */
  lemma SeparatedListIntendedEmptyRoundTrip(sep: char, cs: seq<char>, tail: seq<char>)
    requires tail == [] || tail[0] !in cs
    ensures SuffixParser(CharIn(cs))
    ensures SeparatedListIntended(sep, CharIn(cs), tail) == ParsedResult([], tail)
  {
    CharInConsuming(cs);
  }

  /** The corrected form on "1,2,3" yields all three digits. */
  lemma SeparatedListIntendedOf123()
    ensures SuffixParser(CharIn("0123456789"))
    ensures SeparatedListIntended(',', CharIn("0123456789"), "1,2,3") == ParsedResult("123", [])
  {
    var cs := "0123456789";
    assert '1' in cs && '2' in cs && '3' in cs;
    assert Join(',', "123") == "1,2,3" by {
      assert Interleave(',', "3") == ",3";
      assert Interleave(',', "23") == ",2,3";
    }
    SeparatedListIntendedRoundTrip(',', cs, "123", []);
    assert "1,2,3" + [] == "1,2,3";
  }

  /** The corrected form on the inputs of the written form's counterexample:
      a trailing separator is left unparsed, and the empty input is the empty
      list. */
  lemma SeparatedListIntendedExamples()
    ensures SuffixParser(CharIn("0123456789"))
    ensures SeparatedListIntended(',', CharIn("0123456789"), "1,2,") == ParsedResult("12", ",")
    ensures SeparatedListIntended(',', CharIn("0123456789"), []) == ParsedResult([], [])
  {
    var cs := "0123456789";
    assert '1' in cs && '2' in cs;
    assert Join(',', "12") == "1,2" by {
      assert Interleave(',', "2") == ",2";
    }
    SeparatedListIntendedRoundTrip(',', cs, "12", ",");
    assert "1,2" + "," == "1,2,";
    SeparatedListIntendedEmptyRoundTrip(',', cs, []);
  }
}
