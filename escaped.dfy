/** Model of pcc/parsers/escaped.hpp: `escaped(normal, control, escape)` scans
    runs accepted by `normal`, and `control` elements each followed by content
    accepted by `escape`; the value is the scanned prefix of the input. */
module EscapedParsers {
  import opened Results
  import opened ParseResults
  import opened Parsers
  import BasicParsers
  import CharParsers
  import TakeParsers

  /** What the scan returns when it resumes at `local`, a suffix of the input
      `src`: one iteration of the loop of `escaped`, then the rest of the loop. */
  function EscapedScan<N, E>(normal: Parser<N>, control: char, escape: Parser<E>, src: seq<char>, local: seq<char>)
    : (r: ParseResult<seq<char>>)
    requires SuffixParser(normal) && SuffixParser(escape) && IsSuffix(local, src)
    ensures IsSuccess(r) ==> r.value.value + r.value.rest == src
    ensures IsSuccess(r) ==> |r.value.rest| <= |local|
    decreases |local|
  {
    if |local| == 0 then
      ParsedResult(src, src[|src|..])
    else
      match normal(local)
      case Success(nr) =>
        if |nr.rest| == 0 then
          assert src + nr.rest == src;
          ParsedResult(src, nr.rest)
        else if |nr.rest| == |local| then
          var distance := |src| - |nr.rest|;
          assert src[..distance] + src[distance..] == src;
          ParsedResult(src[..distance], src[distance..])
        else
          SuffixTransitive(nr.rest, local, src);
          EscapedScan(normal, control, escape, src, nr.rest)
      case Error(_) =>
        if local[0] == control then
          if |local| == 1 then
            NotParsed("End with control symbol")
          else
            match escape(local[1..])
            case Success(er) =>
              if |er.rest| == 0 then
                assert src + er.rest == src;
                ParsedResult(src, er.rest)
              else
                assert IsSuffix(local[1..], local) by {
                  assert local[|local| - |local[1..]|..] == local[1..];
                }
                SuffixTransitive(er.rest, local[1..], local);
                SuffixTransitive(er.rest, local, src);
                EscapedScan(normal, control, escape, src, er.rest)
            case Error(_) =>
              NotParsed("Not escapable symbol")
        else
          var distance := |src| - |local|;
          if distance == 0 then
            NotParsed("Non normal or control symbol")
          else
            assert src[..distance] + src[distance..] == src;
            ParsedResult(src[..distance], src[distance..])
  }

  /** `escaped(normal, control, escape)`: the loop over a shrinking view of the
      input. */
  method Escaped<N, E>(normal: Parser<N>, control: char, escape: Parser<E>, src: seq<char>)
    returns (r: ParseResult<seq<char>>)
    requires SuffixParser(normal) && SuffixParser(escape)
    ensures r == EscapedScan(normal, control, escape, src, src)
  {
    var localView := src;
    assert src[|src| - |src|..] == src;
    while |localView| > 0
      invariant IsSuffix(localView, src)
      invariant EscapedScan(normal, control, escape, src, src) == EscapedScan(normal, control, escape, src, localView)
      decreases |localView|
    {
      var res := normal(localView);
      if IsSuccess(res) {
        var rest := res.value.rest;
        if |rest| == 0 {
          return ParsedResult(src, rest);
        }
        if |rest| == |localView| {
          var distance := |src| - |rest|;
          return ParsedResult(src[..distance], src[distance..]);
        }
        SuffixTransitive(rest, localView, src);
        localView := rest;
      } else if localView[0] == control {
        if |localView| == 1 {
          return NotParsed("End with control symbol");
        }
        var aux := localView[1..];
        var resEsc := escape(aux);
        if !IsSuccess(resEsc) {
          return NotParsed("Not escapable symbol");
        }
        var rest := resEsc.value.rest;
        if |rest| == 0 {
          return ParsedResult(src, rest);
        }
        assert localView[|localView| - |aux|..] == aux;
        SuffixTransitive(rest, aux, localView);
        SuffixTransitive(rest, localView, src);
        localView := rest;
      } else {
        var distance := |src| - |localView|;
        if distance == 0 {
          return NotParsed("Non normal or control symbol");
        }
        return ParsedResult(src[..distance], src[distance..]);
      }
    }
    r := ParsedResult(src, src[|src|..]);
  }

  /** The parser as a function of the input. */
  function EscapedParse<N, E>(normal: Parser<N>, control: char, escape: Parser<E>, src: seq<char>)
    : (r: ParseResult<seq<char>>)
    requires SuffixParser(normal) && SuffixParser(escape)
    ensures IsSuccess(r) ==> r.value.value + r.value.rest == src
  {
    assert src[|src| - |src|..] == src;
    EscapedScan(normal, control, escape, src, src)
  }

  /** The empty input yields an empty value and an empty remainder. */
  lemma EscapedEmpty<N, E>(normal: Parser<N>, control: char, escape: Parser<E>)
    requires SuffixParser(normal) && SuffixParser(escape)
    ensures EscapedParse(normal, control, escape, []) == ParsedResult([], [])
  {
  }

  /** When `normal` consumes the whole input, the whole input is the value. */
  lemma EscapedAllNormal<N, E>(normal: Parser<N>, control: char, escape: Parser<E>, src: seq<char>)
    requires SuffixParser(normal) && SuffixParser(escape)
    requires IsSuccess(normal(src)) && normal(src).value.rest == []
    ensures EscapedParse(normal, control, escape, src) == ParsedResult(src, [])
  {
  }

  /** Where a successful scan stops: at the end of the input, at an element that
      is neither accepted by `normal` nor `control`, or where `normal` matches
      without consuming. */
  ghost predicate StopsAt<N>(normal: Parser<N>, control: char, rest: seq<char>)
  {
    rest == []
    || (!IsSuccess(normal(rest)) && rest[0] != control)
    || (IsSuccess(normal(rest)) && normal(rest).value.rest == rest)
  }

  lemma {:induction false} EscapedScanStops<N, E>(normal: Parser<N>, control: char, escape: Parser<E>, src: seq<char>, local: seq<char>)
    requires SuffixParser(normal) && SuffixParser(escape) && IsSuffix(local, src)
    ensures IsSuccess(EscapedScan(normal, control, escape, src, local)) ==>
      StopsAt(normal, control, EscapedScan(normal, control, escape, src, local).value.rest)
    decreases |local|
  {
    if |local| > 0 {
      match normal(local)
      case Success(nr) =>
        if 0 < |nr.rest| {
          if |nr.rest| == |local| {
            assert nr.rest == local;
            assert src[|src| - |nr.rest|..] == local;
          } else {
            SuffixTransitive(nr.rest, local, src);
            EscapedScanStops(normal, control, escape, src, nr.rest);
          }
        }
      case Error(_) =>
        if local[0] == control {
          if |local| > 1 && IsSuccess(escape(local[1..])) && |escape(local[1..]).value.rest| > 0 {
            var er := escape(local[1..]).value;
            assert local[|local| - |local[1..]|..] == local[1..];
            SuffixTransitive(er.rest, local[1..], local);
            SuffixTransitive(er.rest, local, src);
            EscapedScanStops(normal, control, escape, src, er.rest);
          }
        } else {
          assert src[|src| - |local|..] == local;
        }
    }
  }

  /** A successful scan stops only where the loop of `escaped` leaves. */
  lemma EscapedStops<N, E>(normal: Parser<N>, control: char, escape: Parser<E>, src: seq<char>)
    requires SuffixParser(normal) && SuffixParser(escape)
    ensures IsSuccess(EscapedParse(normal, control, escape, src)) ==>
      StopsAt(normal, control, EscapedParse(normal, control, escape, src).value.rest)
  {
    assert src[|src| - |src|..] == src;
    EscapedScanStops(normal, control, escape, src, src);
  }

  lemma {:induction false} EscapedScanNonNormalLater<N, E>(normal: Parser<N>, control: char, escape: Parser<E>, src: seq<char>, local: seq<char>)
    requires SuffixParser(normal) && SuffixParser(escape) && IsSuffix(local, src)
    requires |local| < |src|
    ensures EscapedScan(normal, control, escape, src, local) != NotParsed("Non normal or control symbol")
    decreases |local|
  {
    if |local| > 0 {
      match normal(local)
      case Success(nr) =>
        if 0 < |nr.rest| < |local| {
          SuffixTransitive(nr.rest, local, src);
          EscapedScanNonNormalLater(normal, control, escape, src, nr.rest);
        }
      case Error(_) =>
        if local[0] == control && |local| > 1 && IsSuccess(escape(local[1..])) && |escape(local[1..]).value.rest| > 0 {
          var er := escape(local[1..]).value;
          assert local[|local| - |local[1..]|..] == local[1..];
          SuffixTransitive(er.rest, local[1..], local);
          SuffixTransitive(er.rest, local, src);
          EscapedScanNonNormalLater(normal, control, escape, src, er.rest);
        }
    }
  }

  /** "Non normal or control symbol" is reported exactly when the very first
      element is neither accepted by `normal` nor `control`; later such
      elements end the scan successfully. */
  lemma EscapedNonNormalIffAtStart<N, E>(normal: Parser<N>, control: char, escape: Parser<E>, src: seq<char>)
    requires SuffixParser(normal) && SuffixParser(escape)
    ensures EscapedParse(normal, control, escape, src) == NotParsed("Non normal or control symbol")
        <==> |src| > 0 && !IsSuccess(normal(src)) && src[0] != control
  {
    if |src| > 0 {
      match normal(src)
      case Success(nr) =>
        if 0 < |nr.rest| < |src| {
          SuffixTransitive(nr.rest, src, src);
          EscapedScanNonNormalLater(normal, control, escape, src, nr.rest);
        }
      case Error(_) =>
        if src[0] == control && |src| > 1 && IsSuccess(escape(src[1..])) && |escape(src[1..]).value.rest| > 0 {
          var er := escape(src[1..]).value;
          assert src[|src| - |src[1..]|..] == src[1..];
          SuffixTransitive(er.rest, src[1..], src);
          EscapedScanNonNormalLater(normal, control, escape, src, er.rest);
        }
    }
  }

  /** The parsers of test/parsers/escaped.test.cpp: `alphanumeric1()` as
      `normal`, '\\' as `control` and `tag(";")` as `escape`. */
  function Semicolon(s: seq<char>): ParseResult<seq<char>>
  {
    BasicParsers.Tag(";", s)
  }

  lemma TestParsersSuffix()
    ensures SuffixParser(CharParsers.Alphanumeric1) && SuffixParser(Semicolon)
  {
    CharParsers.Alphanumeric1Suffix();
    BasicParsers.TagConsuming(";");
    assert forall s :: Semicolon(s) == BasicParsers.Tag(";", s);
  }

  /** `alphanumeric1` on an alphanumeric run followed by something else. */
  lemma Alnum1Split(front: seq<char>, back: seq<char>)
    requires |front| > 0 && forall i :: 0 <= i < |front| ==> CharParsers.IsAlnum(front[i])
    requires back == [] || !CharParsers.IsAlnum(back[0])
    ensures CharParsers.Alphanumeric1(front + back) == ParsedResult(front, back)
  {
    TakeParsers.TakeWhileUnique(CharParsers.IsAlnum, front + back, front, back);
  }

  /** `alphanumeric1` fails on an input that does not start alphanumeric. */
  lemma Alnum1Fails(s: seq<char>)
    requires |s| > 0 && !CharParsers.IsAlnum(s[0])
    ensures !IsSuccess(CharParsers.Alphanumeric1(s))
  {
  }

  /** `tag(";")` consumes a leading ';'. */
  lemma SemicolonThen(rest: seq<char>)
    ensures Semicolon([';'] + rest) == ParsedResult(";", rest)
  {
    assert ";" <= [';'] + rest;
  }

  lemma DropFirst(c: char, s: seq<char>)
    ensures ([c] + s)[1..] == s
  {
  }

  /** A run accepted by `normal` that leaves something to scan is part of
      the value; scanning resumes after it. */
  lemma ScanNormalStep<N, E>(normal: Parser<N>, control: char, escape: Parser<E>, src: seq<char>, local: seq<char>)
    requires SuffixParser(normal) && SuffixParser(escape) && IsSuffix(local, src)
    requires IsSuccess(normal(local)) && 0 < |normal(local).value.rest| < |local|
    ensures IsSuffix(normal(local).value.rest, src)
    ensures EscapedScan(normal, control, escape, src, local) == EscapedScan(normal, control, escape, src, normal(local).value.rest)
  {
    SuffixTransitive(normal(local).value.rest, local, src);
  }

  /** `control` followed by content accepted by `escape` is part of the value;
      scanning resumes after that content. */
  lemma ScanEscapeStep<N, E>(normal: Parser<N>, control: char, escape: Parser<E>, src: seq<char>, local: seq<char>)
    requires SuffixParser(normal) && SuffixParser(escape) && IsSuffix(local, src)
    requires !IsSuccess(normal(local)) && |local| > 1 && local[0] == control
    requires IsSuccess(escape(local[1..])) && 0 < |escape(local[1..]).value.rest|
    ensures IsSuffix(escape(local[1..]).value.rest, src)
    ensures EscapedScan(normal, control, escape, src, local) == EscapedScan(normal, control, escape, src, escape(local[1..]).value.rest)
  {
    assert local[|local| - |local[1..]|..] == local[1..];
    SuffixTransitive(escape(local[1..]).value.rest, local[1..], local);
    SuffixTransitive(escape(local[1..]).value.rest, local, src);
  }

  /** After some progress, an element neither accepted by `normal` nor
      `control` ends the scan successfully and stays in the remainder. */
  lemma ScanStopStep<N, E>(normal: Parser<N>, control: char, escape: Parser<E>, src: seq<char>, local: seq<char>)
    requires SuffixParser(normal) && SuffixParser(escape) && IsSuffix(local, src)
    requires 0 < |local| < |src| && !IsSuccess(normal(local)) && local[0] != control
    ensures EscapedScan(normal, control, escape, src, local) == ParsedResult(src[..|src| - |local|], local)
  {
  }

  /** A `normal` match that consumes nothing ends the scan successfully: the
      value is what was scanned before it, and the loop does not spin. */
  lemma ScanZeroWidthStep<N, E>(normal: Parser<N>, control: char, escape: Parser<E>, src: seq<char>, local: seq<char>)
    requires SuffixParser(normal) && SuffixParser(escape) && IsSuffix(local, src)
    requires |local| > 0 && IsSuccess(normal(local)) && normal(local).value.rest == local
    ensures EscapedScan(normal, control, escape, src, local) == ParsedResult(src[..|src| - |local|], local)
  {
    assert src[|src| - |local|..] == local;
  }

  /** A `control` that is the last element fails the scan. */
  lemma ScanControlAtEnd<N, E>(normal: Parser<N>, control: char, escape: Parser<E>, src: seq<char>, local: seq<char>)
    requires SuffixParser(normal) && SuffixParser(escape) && IsSuffix(local, src)
    requires local == [control] && !IsSuccess(normal(local))
    ensures EscapedScan(normal, control, escape, src, local) == NotParsed("End with control symbol")
  {
  }

  /** A `control` followed by content `escape` rejects fails the scan. */
  lemma ScanNotEscapable<N, E>(normal: Parser<N>, control: char, escape: Parser<E>, src: seq<char>, local: seq<char>)
    requires SuffixParser(normal) && SuffixParser(escape) && IsSuffix(local, src)
    requires |local| > 1 && local[0] == control && !IsSuccess(normal(local)) && !IsSuccess(escape(local[1..]))
    ensures EscapedScan(normal, control, escape, src, local) == NotParsed("Not escapable symbol")
  {
  }

  /** A run, an escape, a run, then an element neither `normal` nor
      `control`: the value is everything before that element. */
  lemma EscapedRunEscapeRunStop<N, E>(normal: Parser<N>, control: char, escape: Parser<E>,
                                      src: seq<char>, l1: seq<char>, l2: seq<char>, l3: seq<char>, v: seq<char>)
    requires SuffixParser(normal) && SuffixParser(escape)
    requires IsSuccess(normal(src)) && normal(src).value.rest == l1 && 0 < |l1| < |src|
    requires !IsSuccess(normal(l1)) && |l1| > 1 && l1[0] == control
    requires IsSuccess(escape(l1[1..])) && escape(l1[1..]).value.rest == l2 && 0 < |l2|
    requires IsSuccess(normal(l2)) && normal(l2).value.rest == l3 && 0 < |l3| < |l2|
    requires !IsSuccess(normal(l3)) && l3[0] != control
    requires src == v + l3
    ensures EscapedParse(normal, control, escape, src) == ParsedResult(v, l3)
  {
    assert IsSuffix(src, src) by { assert src[|src| - |src|..] == src; }
    ScanNormalStep(normal, control, escape, src, src);
    ScanEscapeStep(normal, control, escape, src, l1);
    ScanNormalStep(normal, control, escape, src, l2);
    ScanStopStep(normal, control, escape, src, l3);
    assert src[..|src| - |l3|] == v;
  }

  /** With the parsers of the tests: an alphanumeric run, the escaped ';',
      another alphanumeric run, then either the end of the input or an
      element that is neither alphanumeric nor '\\'. The value is everything
      before that element. */
  lemma EscapedAlnumEscapeAlnum(a: seq<char>, b: seq<char>, tail: seq<char>)
    requires |a| > 0 && forall i :: 0 <= i < |a| ==> CharParsers.IsAlnum(a[i])
    requires |b| > 0 && forall i :: 0 <= i < |b| ==> CharParsers.IsAlnum(b[i])
    requires tail == [] || (!CharParsers.IsAlnum(tail[0]) && tail[0] != '\\')
    ensures SuffixParser(CharParsers.Alphanumeric1) && SuffixParser(Semicolon)
    ensures EscapedParse(CharParsers.Alphanumeric1, '\\', Semicolon, a + ['\\', ';'] + b + tail)
         == ParsedResult(a + ['\\', ';'] + b, tail)
  {
    TestParsersSuffix();
    var l2 := b + tail;
    var l1 := ['\\'] + ([';'] + l2);
    AlnumEscapeAlnumSteps(a, b, tail);
    EscapedInputShape(a, b, tail);
    if tail == [] {
      EscapedRunEscapeRunEnd(CharParsers.Alphanumeric1, '\\', Semicolon, a + l1, l1, l2);
    } else {
      Alnum1Fails(tail);
      EscapedRunEscapeRunStop(CharParsers.Alphanumeric1, '\\', Semicolon, a + l1, l1, l2, tail, a + ['\\', ';'] + b);
    }
  }

  /** The input of `EscapedAlnumEscapeAlnum` as the scan splits it. */
  lemma EscapedInputShape(a: seq<char>, b: seq<char>, tail: seq<char>)
    ensures a + ['\\', ';'] + b + tail == a + (['\\'] + ([';'] + (b + tail)))
  {
    assert ['\\', ';'] + b == ['\\'] + ([';'] + b);
    assert a + ['\\', ';'] + b == a + (['\\'] + ([';'] + b));
  }

  /** The steps of the scan in `EscapedAlnumEscapeAlnum`, one parser call each. */
  lemma AlnumEscapeAlnumSteps(a: seq<char>, b: seq<char>, tail: seq<char>)
    requires |a| > 0 && forall i :: 0 <= i < |a| ==> CharParsers.IsAlnum(a[i])
    requires |b| > 0 && forall i :: 0 <= i < |b| ==> CharParsers.IsAlnum(b[i])
    requires tail == [] || !CharParsers.IsAlnum(tail[0])
    ensures CharParsers.Alphanumeric1(a + (['\\'] + ([';'] + (b + tail)))) == ParsedResult(a, ['\\'] + ([';'] + (b + tail)))
    ensures !IsSuccess(CharParsers.Alphanumeric1(['\\'] + ([';'] + (b + tail))))
    ensures Semicolon((['\\'] + ([';'] + (b + tail)))[1..]) == ParsedResult(";", b + tail)
    ensures CharParsers.Alphanumeric1(b + tail) == ParsedResult(b, tail)
  {
    var l2 := b + tail;
    var l1 := ['\\'] + ([';'] + l2);
    Alnum1Split(a, l1);
    Alnum1Fails(l1);
    DropFirst('\\', [';'] + l2);
    SemicolonThen(l2);
    Alnum1Split(b, tail);
  }


  /** A run, an escape, then a run to the end of the input: the whole input
      is the value. */
  lemma EscapedRunEscapeRunEnd<N, E>(normal: Parser<N>, control: char, escape: Parser<E>,
                                     src: seq<char>, l1: seq<char>, l2: seq<char>)
    requires SuffixParser(normal) && SuffixParser(escape)
    requires IsSuccess(normal(src)) && normal(src).value.rest == l1 && 0 < |l1| < |src|
    requires !IsSuccess(normal(l1)) && |l1| > 1 && l1[0] == control
    requires IsSuccess(escape(l1[1..])) && escape(l1[1..]).value.rest == l2 && 0 < |l2|
    requires IsSuccess(normal(l2)) && normal(l2).value.rest == []
    ensures EscapedParse(normal, control, escape, src) == ParsedResult(src, [])
  {
    assert IsSuffix(src, src) by { assert src[|src| - |src|..] == src; }
    ScanNormalStep(normal, control, escape, src, src);
    ScanEscapeStep(normal, control, escape, src, l1);
  }

  /** test/parsers/escaped.test.cpp: "123\\;abc:" scans "123", the escaped
      ";", then "abc", and stops before ':'. */
  lemma EscapedStopsBeforeColon()
    ensures SuffixParser(CharParsers.Alphanumeric1) && SuffixParser(Semicolon)
    ensures EscapedParse(CharParsers.Alphanumeric1, '\\', Semicolon, "123\\;abc:") == ParsedResult("123\\;abc", ":")
  {
    EscapedAlnumEscapeAlnum("123", "abc", ":");
    assert "123" + ['\\', ';'] + "abc" == "123\\;abc";
    assert "123\\;abc" + ":" == "123\\;abc:";
  }

  /** A run, then an escape that reaches the end of the input: the whole
      input is the value. */
  lemma EscapedRunEscapeEnd<N, E>(normal: Parser<N>, control: char, escape: Parser<E>, src: seq<char>, l1: seq<char>)
    requires SuffixParser(normal) && SuffixParser(escape)
    requires IsSuccess(normal(src)) && normal(src).value.rest == l1 && 0 < |l1| < |src|
    requires !IsSuccess(normal(l1)) && |l1| > 1 && l1[0] == control
    requires IsSuccess(escape(l1[1..])) && escape(l1[1..]).value.rest == []
    ensures EscapedParse(normal, control, escape, src) == ParsedResult(src, [])
  {
    assert IsSuffix(src, src) by { assert src[|src| - |src|..] == src; }
    ScanNormalStep(normal, control, escape, src, src);
  }

  /** test/parsers/escaped.test.cpp: "123\\;" is scanned whole. */
  lemma EscapedEndsWithEscape()
    ensures SuffixParser(CharParsers.Alphanumeric1) && SuffixParser(Semicolon)
    ensures EscapedParse(CharParsers.Alphanumeric1, '\\', Semicolon, "123\\;") == ParsedResult("123\\;", [])
  {
    TestParsersSuffix();
    var l1 := ['\\'] + [';'];
    assert "123\\;" == "123" + l1;
    Alnum1Split("123", l1);
    Alnum1Fails(l1);
    DropFirst('\\', [';']);
    SemicolonThen([]);
    assert [';'] + [] == [';'];
    EscapedRunEscapeEnd(CharParsers.Alphanumeric1, '\\', Semicolon, "123\\;", l1);
  }

  /** A run, then a failing control sequence: the scan fails as that control
      sequence does. */
  lemma EscapedRunThenControl<N, E>(normal: Parser<N>, control: char, escape: Parser<E>, src: seq<char>, l1: seq<char>)
    requires SuffixParser(normal) && SuffixParser(escape)
    requires IsSuccess(normal(src)) && normal(src).value.rest == l1 && 0 < |l1| < |src|
    requires !IsSuccess(normal(l1)) && l1[0] == control
    ensures |l1| == 1 ==> EscapedParse(normal, control, escape, src) == NotParsed("End with control symbol")
    ensures |l1| > 1 && !IsSuccess(escape(l1[1..])) ==>
      EscapedParse(normal, control, escape, src) == NotParsed("Not escapable symbol")
  {
    assert IsSuffix(src, src) by { assert src[|src| - |src|..] == src; }
    ScanNormalStep(normal, control, escape, src, src);
  }

  /** test/parsers/escaped.test.cpp: "123\\:abc" fails with "Not escapable
      symbol". */
  lemma EscapedNotEscapableExample()
    ensures SuffixParser(CharParsers.Alphanumeric1) && SuffixParser(Semicolon)
    ensures EscapedParse(CharParsers.Alphanumeric1, '\\', Semicolon, "123\\:abc") == NotParsed("Not escapable symbol")
  {
    TestParsersSuffix();
    var src, l1 := "123\\:abc", "\\:abc";
    assert src == "123" + l1 && l1[1..] == ":abc";
    assert !IsSuccess(Semicolon(":abc")) by { assert ":abc"[0] != ";"[0]; }
    Alnum1Split("123", l1);
    EscapedRunThenControl(CharParsers.Alphanumeric1, '\\', Semicolon, src, l1);
  }

  /** test/parsers/escaped.test.cpp: "123\\" fails with "End with control symbol". */
  lemma EscapedControlAtEndExample()
    ensures SuffixParser(CharParsers.Alphanumeric1) && SuffixParser(Semicolon)
    ensures EscapedParse(CharParsers.Alphanumeric1, '\\', Semicolon, "123\\") == NotParsed("End with control symbol")
  {
    TestParsersSuffix();
    var src, l1 := "123\\", "\\";
    assert src == "123" + l1;
    Alnum1Split("123", l1);
    EscapedRunThenControl(CharParsers.Alphanumeric1, '\\', Semicolon, src, l1);
  }

  /** test/parsers/escaped.test.cpp: "#123" fails with "Non normal or control symbol". */
  lemma EscapedNonNormalExample()
    ensures SuffixParser(CharParsers.Alphanumeric1) && SuffixParser(Semicolon)
    ensures EscapedParse(CharParsers.Alphanumeric1, '\\', Semicolon, "#123") == NotParsed("Non normal or control symbol")
  {
    TestParsersSuffix();
    EscapedNonNormalIffAtStart(CharParsers.Alphanumeric1, '\\', Semicolon, "#123");
  }

  /** test/parsers/escaped.test.cpp: "123" is scanned whole. */
  lemma EscapedWholeRun()
    ensures SuffixParser(CharParsers.Alphanumeric1) && SuffixParser(Semicolon)
    ensures EscapedParse(CharParsers.Alphanumeric1, '\\', Semicolon, "123") == ParsedResult("123", [])
  {
    TestParsersSuffix();
    assert "123" == "123" + [];
    Alnum1Split("123", []);
    EscapedAllNormal(CharParsers.Alphanumeric1, '\\', Semicolon, "123");
  }

  /** test/parsers/escaped.test.cpp: "123\\;abc" is scanned whole. */
  lemma EscapedWholeWithEscape()
    ensures SuffixParser(CharParsers.Alphanumeric1) && SuffixParser(Semicolon)
    ensures EscapedParse(CharParsers.Alphanumeric1, '\\', Semicolon, "123\\;abc") == ParsedResult("123\\;abc", [])
  {
    EscapedAlnumEscapeAlnum("123", "abc", []);
    assert "123" + ['\\', ';'] + "abc" == "123\\;abc";
    assert "123\\;abc" + [] == "123\\;abc";
  }
}
