/** Model of the integer path of pcc/parsers/arithmetic.hpp: `integral<T>(base)`
    and `arithmetic<T>` for an integral `T`, both built on the integer
    `std::from_chars` of the C++ standard library. */
module ArithmeticParsers {
  import opened Results
  import opened ParseResults
  import opened Parsers
  import opened TakeParsers
  import CharParsers
  import BasicParsers
  import Alternatives

  /** The values of an integral type `T`. */
  datatype IntRange = IntRange(min: int, max: int)

  /** `T` is signed exactly when it has negative values. */
  predicate Signed(t: IntRange)
  {
    t.min < 0
  }

  /** `int` on the platforms the library targets. */
  const Int32: IntRange := IntRange(-0x8000_0000, 0x7fff_ffff)

  /** The digit value of `c` in bases up to 36: `0`-`9`, then `a`-`z` and
      `A`-`Z` for 10 to 35; 36 for anything that is not a digit in any base. */
  function DigitValue(c: char): (d: nat)
    ensures d <= 36
  {
    if '0' <= c <= '9' then c as int - '0' as int
    else if 'a' <= c <= 'z' then c as int - 'a' as int + 10
    else if 'A' <= c <= 'Z' then c as int - 'A' as int + 10
    else 36
  }

  /** `c` is a digit of `base`. */
  predicate IsDigitIn(c: char, base: nat)
  {
    DigitValue(c) < base
  }

  /** No digit is a minus sign or a space. */
  lemma DigitIsNotSignOrSpace(c: char, base: nat)
    requires base <= 36 && IsDigitIn(c, base)
    ensures c != '-' && !CharParsers.IsSpace(c)
  {
  }

  /** The length of the run of `base` digits at the front of `s`. */
  function DigitRun(s: seq<char>, base: nat): (n: nat)
    ensures n <= |s|
    ensures forall i :: 0 <= i < n ==> IsDigitIn(s[i], base)
    ensures n < |s| ==> !IsDigitIn(s[n], base)
  {
    FindIfNot((c: char) => IsDigitIn(c, base), s)
  }

  /** The digit run of `ds + tail` is `ds` when `tail` does not start with a digit. */
  lemma DigitRunOfSplit(ds: seq<char>, tail: seq<char>, base: nat)
    requires forall i :: 0 <= i < |ds| ==> IsDigitIn(ds[i], base)
    requires tail == [] || !IsDigitIn(tail[0], base)
    ensures DigitRun(ds + tail, base) == |ds|
  {
    FindIfNotOfSplit((c: char) => IsDigitIn(c, base), ds, tail);
  }

  /** The number a digit string denotes in `base`, most significant digit first. */
  function DigitsValue(ds: seq<char>, base: nat): nat
    decreases |ds|
  {
    if ds == [] then 0 else DigitsValue(ds[..|ds| - 1], base) * base + DigitValue(ds[|ds| - 1])
  }

  /** What `std::from_chars` reports: a value and the end of the pattern, no
      pattern at all, or a pattern whose value `T` cannot hold. */
  datatype Conversion = Converted(value: int, end: nat) | InvalidArgument | OutOfRange(end: nat)

  /** Length of the minus sign the pattern may start with: signed types only. */
  function SignLength(s: seq<char>, t: IntRange): (n: nat)
    ensures n <= |s|
    ensures n == 1 <==> Signed(t) && |s| > 0 && s[0] == '-'
  {
    if Signed(t) && |s| > 0 && s[0] == '-' then 1 else 0
  }

  /** The integer `std::from_chars(first, last, value, base)`: an optional `-`
      (signed types only) followed by the longest run of `base` digits; no `+`
      and no `0x` prefix; a value outside `T` is an error. */
  function FromChars(s: seq<char>, base: nat, t: IntRange): (c: Conversion)
    requires 2 <= base <= 36
    ensures c.InvalidArgument? <==> DigitRun(s[SignLength(s, t)..], base) == 0
    ensures !c.InvalidArgument? ==> c.end == SignLength(s, t) + DigitRun(s[SignLength(s, t)..], base)
    ensures !c.InvalidArgument? ==> SignLength(s, t) < c.end <= |s|
    ensures !c.InvalidArgument? ==> forall i :: SignLength(s, t) <= i < c.end ==> IsDigitIn(s[i], base)
    ensures !c.InvalidArgument? ==> c.end == |s| || !IsDigitIn(s[c.end], base)
    ensures c.Converted? ==> t.min <= c.value <= t.max
    ensures c.Converted? ==>
      c.value == (if SignLength(s, t) == 1 then -1 else 1) * DigitsValue(s[SignLength(s, t)..c.end], base)
    ensures c.OutOfRange? ==>
      var v := (if SignLength(s, t) == 1 then -1 else 1) * DigitsValue(s[SignLength(s, t)..c.end], base);
      v < t.min || t.max < v
  {
    var start := SignLength(s, t);
    var n := DigitRun(s[start..], base);
    if n == 0 then InvalidArgument
    else
      var magnitude: int := DigitsValue(s[start..start + n], base);
      var v: int := if start == 1 then -magnitude else magnitude;
      if t.min <= v <= t.max then Converted(v, start + n) else OutOfRange(start + n)
  }

  /** `integral<T>(base)`: rejects the empty input and a leading space, then
      converts with `std::from_chars`; the remainder starts after the pattern. */
  function Integral(t: IntRange, base: nat, s: seq<char>): (r: ParseResult<int>)
    requires 2 <= base <= 36
    ensures |s| == 0 ==> r == NotParsed("Can not parse integral value form empty string")
    ensures |s| > 0 && CharParsers.IsSpace(s[0]) ==> r == NotParsed("Source string should not start from space")
    ensures IsSuccess(r) <==> |s| > 0 && !CharParsers.IsSpace(s[0]) && FromChars(s, base, t).Converted?
    ensures IsSuccess(r) ==> r.value == Parsed(FromChars(s, base, t).value, s[FromChars(s, base, t).end..])
    ensures |s| > 0 && !CharParsers.IsSpace(s[0]) && !FromChars(s, base, t).Converted? ==>
      r == NotParsed("Can not parse integral value")
  {
    if |s| == 0 then NotParsed("Can not parse integral value form empty string")
    else if CharParsers.IsSpace(s[0]) then NotParsed("Source string should not start from space")
    else
      match FromChars(s, base, t)
      case Converted(value, end) => ParsedResult(value, s[end..])
      case _ => NotParsed("Can not parse integral value")
  }

  /** `arithmetic<T>` for an integral `T`: the same checks and the base-10
      conversion, with its own failure texts. */
  function Arithmetic(t: IntRange, s: seq<char>): (r: ParseResult<int>)
    ensures |s| == 0 ==> r == NotParsed("Can not parse arithmetic value form empty string")
    ensures |s| > 0 && CharParsers.IsSpace(s[0]) ==> r == NotParsed("Source string should not start from space")
    ensures |s| > 0 && !CharParsers.IsSpace(s[0]) && !FromChars(s, 10, t).Converted? ==>
      r == NotParsed("Can not parse double value")
  {
    if |s| == 0 then NotParsed("Can not parse arithmetic value form empty string")
    else if CharParsers.IsSpace(s[0]) then NotParsed("Source string should not start from space")
    else
      match FromChars(s, 10, t)
      case Converted(value, end) => ParsedResult(value, s[end..])
      case _ => NotParsed("Can not parse double value")
  }

  /** `arithmetic<T>` succeeds exactly where `integral<T>()` does, with the same
      value and remainder; only the failure texts differ. */
  lemma ArithmeticIsIntegralBase10(t: IntRange, s: seq<char>)
    ensures IsSuccess(Arithmetic(t, s)) <==> IsSuccess(Integral(t, 10, s))
    ensures IsSuccess(Arithmetic(t, s)) ==> Arithmetic(t, s).value == Integral(t, 10, s).value
  {
  }

  /** `integral` consumes at least one digit whenever it succeeds. */
  lemma IntegralConsuming(t: IntRange, base: nat)
    requires 2 <= base <= 36
    ensures ConsumingParser((s: seq<char>) => Integral(t, base, s))
  {
    forall s | IsSuccess(Integral(t, base, s))
      ensures IsSuffix(Integral(t, base, s).value.rest, s) && |Integral(t, base, s).value.rest| < |s|
    {
      var e := FromChars(s, base, t).end;
      assert s[|s| - |s[e..]|..] == s[e..];
    }
  }
  /** `arithmetic` consumes at least one digit whenever it succeeds. */
  lemma ArithmeticConsuming(t: IntRange)
    ensures ConsumingParser((s: seq<char>) => Arithmetic(t, s))
  {
    IntegralConsuming(t, 10);
    forall s | IsSuccess(Arithmetic(t, s))
      ensures IsSuffix(Arithmetic(t, s).value.rest, s) && |Arithmetic(t, s).value.rest| < |s|
    {
      ArithmeticIsIntegralBase10(t, s);
    }
  }


  /** The character of digit value `d`, lower case beyond 9. */
  function DigitChar(d: nat): (c: char)
    requires d < 36
    ensures DigitValue(c) == d
  {
    if d < 10 then ('0' as int + d) as char else ('a' as int + d - 10) as char
  }

  /** Euclidean division by a base. */
  lemma DivModBase(n: nat, base: nat)
    requires 2 <= base
    ensures n / base * base + n % base == n && n % base < base
    ensures n >= base ==> 0 < n / base < n
  {
  }

  /** The digits of `n` in `base`, most significant first, without leading zeros. */
  function Digits(n: nat, base: nat): (ds: seq<char>)
    requires 2 <= base <= 36
    ensures |ds| > 0
    ensures forall i :: 0 <= i < |ds| ==> IsDigitIn(ds[i], base)
    decreases n
  {
    DivModBase(n, base);
    if n < base then [DigitChar(n)] else Digits(n / base, base) + [DigitChar(n % base)]
  }

  /** `Digits` denotes `n`. */
  lemma {:induction false} DigitsValueOfDigits(n: nat, base: nat)
    requires 2 <= base <= 36
    ensures DigitsValue(Digits(n, base), base) == n
    decreases n
  {
    var ds := Digits(n, base);
    DivModBase(n, base);
    if n < base {
      assert ds[..0] == [];
    } else {
      DigitsValueOfDigits(n / base, base);
      assert ds[..|ds| - 1] == Digits(n / base, base);
    }
  }

  /** The text of `v` in `base`: a minus sign for negative values, then the digits. */
  function ToChars(v: int, base: nat): seq<char>
    requires 2 <= base <= 36
  {
    if v < 0 then ['-'] + Digits(-v, base) else Digits(v, base)
  }

  /** `from_chars` on an input whose digits after the optional sign are `ds`,
      followed by a tail that does not continue them. */
  lemma FromCharsOfSplit(t: IntRange, base: nat, s: seq<char>, ds: seq<char>, tail: seq<char>)
    requires 2 <= base <= 36
    requires |ds| > 0 && forall i :: 0 <= i < |ds| ==> IsDigitIn(ds[i], base)
    requires tail == [] || !IsDigitIn(tail[0], base)
    requires s[SignLength(s, t)..] == ds + tail
    ensures FromChars(s, base, t) ==
      var v := (if SignLength(s, t) == 1 then -1 else 1) * DigitsValue(ds, base);
      if t.min <= v <= t.max then Converted(v, SignLength(s, t) + |ds|) else OutOfRange(SignLength(s, t) + |ds|)
  {
    var start := SignLength(s, t);
    DigitRunOfSplit(ds, tail, base);
    assert s[start..start + |ds|] == ds;
  }

  /** `integral` on such an input, when the value fits the type: the value,
      with the tail as the remainder. */
  lemma IntegralOfSplit(t: IntRange, base: nat, s: seq<char>, ds: seq<char>, tail: seq<char>, v: int)
    requires 2 <= base <= 36
    requires |ds| > 0 && forall i :: 0 <= i < |ds| ==> IsDigitIn(ds[i], base)
    requires tail == [] || !IsDigitIn(tail[0], base)
    requires s[SignLength(s, t)..] == ds + tail
    requires v == (if SignLength(s, t) == 1 then -1 else 1) * DigitsValue(ds, base)
    requires t.min <= v <= t.max
    ensures Integral(t, base, s) == ParsedResult(v, tail)
  {
    var start := SignLength(s, t);
    FromCharsOfSplit(t, base, s, ds, tail);
    assert FromChars(s, base, t) == Converted(v, start + |ds|);
    assert s[start + |ds|..] == tail;
    assert !CharParsers.IsSpace(s[0]) by {
      assert s[start] == ds[0];
      DigitIsNotSignOrSpace(ds[0], base);
    }
  }

  /** Round trip: `integral` reads back every value of `T` from its text, and
      leaves the tail when the tail does not continue the digits. */
  lemma IntegralRoundTrip(t: IntRange, base: nat, v: int, tail: seq<char>)
    requires 2 <= base <= 36
    requires t.min <= v <= t.max
    requires tail == [] || !IsDigitIn(tail[0], base)
    ensures Integral(t, base, ToChars(v, base) + tail) == ParsedResult(v, tail)
  {
    var ds := Digits(if v < 0 then -v else v, base);
    var s := ToChars(v, base) + tail;
    DigitsValueOfDigits(if v < 0 then -v else v, base);
    DigitIsNotSignOrSpace(ds[0], base);
    if v < 0 {
      assert s == ['-'] + (ds + tail);
      assert SignLength(s, t) == 1;
      assert s[1..] == ds + tail;
    } else {
      assert s == ds + tail;
      assert SignLength(s, t) == 0;
    }
    IntegralOfSplit(t, base, s, ds, tail, v);
  }

  /** `integral<int>(2)` followed by a `b` or `B`; the sequencing keeps the
      number, as keep-left `>>=` does. */
  function BinaryWithSuffix(s: seq<char>): ParseResult<int>
  {
    KeepLeft((s': seq<char>) => Integral(Int32, 2, s'), (s': seq<char>) => SuffixLetter('b', 'B', s'), s)
  }

  /** `integral<int>(16)` followed by an `h` or `H`, kept as keep-left `>>=`
      does. */
  function HexWithSuffix(s: seq<char>): ParseResult<int>
  {
    KeepLeft((s': seq<char>) => Integral(Int32, 16, s'), (s': seq<char>) => SuffixLetter('h', 'H', s'), s)
  }

  /** `integral<int>()`. */
  function Decimal(s: seq<char>): ParseResult<int>
  {
    Integral(Int32, 10, s)
  }

  /** The ordered choice of test/core.test.cpp: binary with a `b` suffix, hex
      with an `h` suffix, or decimal. */
  function IntegralCoolParser(s: seq<char>): ParseResult<int>
  {
    Alternatives.AlternativeN([BinaryWithSuffix, HexWithSuffix, Decimal], s)
  }

  /** `alternative(symbol(lower), symbol(upper))`. */
  function SuffixLetter(lower: char, upper: char, s: seq<char>): ParseResult<char>
  {
    Alternatives.Alternative((s': seq<char>) => BasicParsers.Symbol(lower, s'), (s': seq<char>) => BasicParsers.Symbol(upper, s'), s)
  }

  /** Appending a digit multiplies by the base and adds the digit. */
  lemma DigitsValueSnoc(ds: seq<char>, c: char, base: nat)
    ensures DigitsValue(ds + [c], base) == DigitsValue(ds, base) * base + DigitValue(c)
  {
    assert (ds + [c])[..|ds|] == ds;
  }

  /** Leading zeros denote zero in every base. */
  lemma DigitsValueOfZeros(base: nat)
    ensures DigitsValue("000", base) == 0
  {
    assert "000" == [] + ['0'] + ['0'] + ['0'];
    DigitsValueSnoc([], '0', base);
    DigitsValueSnoc(['0'], '0', base);
    DigitsValueSnoc(['0', '0'], '0', base);
  }

  /** The value of the digit string "000718". */
  lemma DigitsValueOf000718(base: nat)
    ensures DigitsValue("000718", base) == (7 * base + 1) * base + 8
  {
    DigitsValueOfZeros(base);
    assert "000718" == "000" + ['7'] + ['1'] + ['8'];
    DigitsValueSnoc("000", '7', base);
    DigitsValueSnoc("0007", '1', base);
    DigitsValueSnoc("00071", '8', base);
  }

  /** In base 2, "000718" holds the pattern "000" followed by '7'. */
  lemma IntegralBinaryOf000718()
    ensures Integral(Int32, 2, "000718") == ParsedResult(0, "718")
  {
    var s := "000718";
    assert SignLength(s, Int32) == 0;
    assert s[0..] == "000" + "718";
    DigitsValueOfZeros(2);
    IntegralOfSplit(Int32, 2, s, "000", "718", 0);
  }

  /** In bases 10 and 16, all of "000718" is the pattern. */
  lemma IntegralWholeOf000718(base: nat)
    requires base == 10 || base == 16
    ensures Integral(Int32, base, "000718") == ParsedResult((7 * base + 1) * base + 8, [])
  {
    var s := "000718";
    assert SignLength(s, Int32) == 0;
    assert s[0..] == s + [];
    DigitsValueOf000718(base);
    IntegralOfSplit(Int32, base, s, s, [], (7 * base + 1) * base + 8);
  }

  /** The binary branch fails on "000718": '7' is no `b` suffix. */
  lemma BinaryWithSuffixOf000718()
    ensures !IsSuccess(BinaryWithSuffix("000718"))
  {
    IntegralBinaryOf000718();
    assert !IsSuccess(SuffixLetter('b', 'B', "718"));
  }

  /** The hex branch fails on "000718": nothing is left for an `h` suffix. */
  lemma HexWithSuffixOf000718()
    ensures !IsSuccess(HexWithSuffix("000718"))
  {
    IntegralWholeOf000718(16);
    assert !IsSuccess(SuffixLetter('h', 'H', []));
  }

  /** test/core.test.cpp: "000718" is binary "000" without a `b` suffix, is
      hex 0x718 without an `h` suffix, and so is read as the decimal 718. */
  lemma IntegralCoolParserExample()
    ensures IntegralCoolParser("000718") == ParsedResult(718, [])
  {
    BinaryWithSuffixOf000718();
    HexWithSuffixOf000718();
    IntegralWholeOf000718(10);
    Alternatives.Alternative3(BinaryWithSuffix, HexWithSuffix, Decimal, "000718");
  }
}
