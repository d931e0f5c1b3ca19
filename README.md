# pcc parser combinators in Dafny

A model of the pcc C++ parser-combinator library. A parser is a function
from an input view to a parse outcome. The outcome is either a success,
which carries a value and the unconsumed rest of the input, or a failure,
which carries only a message. The model covers:

- the outcome algebra (`result`, `option`, `parse_result`);
- the primitive parsers: `symbol`, `tag`, `take_while`, `take`, the
  whitespace and alphanumeric runs, `one_of`, `integral` / `arithmetic` for
  integer types, and the escape-aware scanner `escaped`;
- the combinators: keep-right `<<=`, keep-left `>>=`, `map`, `constant`,
  `alternative`, `optional`, `product`, `sum`, `many0`, `many` and
  `separated_list`.

A parser is modelled as a total function `seq<char> -> ParseResult<V>`.
Combinators are written applied to their input, as `F(args..., s)`. A
composed parser is a lambda over such an application.

The library's global contract is that a success leaves a suffix of its
input. Here that is the predicate `Parsers.SuffixParser`. It is proved for
every primitive and shown to be preserved by every combinator
(`Parsers.KeepRightSuffix`, `Parsers.KeepLeftSuffix`, `MapParsers.MapSuffix`,
`MapParsers.ConstantSuffix`, `Alternatives.AlternativeNSuffix`,
`Products.ProductSuffix`, `Products.ProductWithSuffix`,
`Sums.AsSumSuffix`, `Sums.SumSuffix`, `Optionals.OptionalSuffix`, and the
contract of `Repetition.Repeat`, on which `many0`, `many` and
`separated_list` are built). The stronger
`Parsers.ConsumingParser` says every success is a proper suffix. The loops of
`many0` need it to terminate.

There is one module per source file. Two pieces of the library work by
updating a cursor in a loop, and both are methods with `while` loops:

- `EscapedParsers.Escaped` is proved equal to the specification function
  `EscapedParsers.EscapedScan`.
- `Repetition.Many0` is proved equal to `Success(Repetition.Repeat(...))`.

Everything else is modelled by functions and lemmas. All of it is pure in
the source except `map` and `constant`, whose parser is a `mutable` closure
that moves its stored function out on each call; the model treats each call
as a call of the function stored when the parser was built (see
"## Left out").

Tuples and variants are modelled with one value type. A product yields a
`seq<V>` with one value per parser. A sum injects each branch's value with a
function `V -> W`, which stands for the conversion `Variant{value}`.

Integer types are modelled as an `IntRange(min, max)`; `Int32` is C++ `int`.
`std::from_chars` for integers is the function `ArithmeticParsers.FromChars`.
It accepts an optional `-` for signed types only, then the longest run of
digits in the base. It accepts no `+` and no `0x` prefix. A value outside
the type is an error.

Three places need a word on how the code as written is treated:

- `sum` is modelled as written: it replaces every branch failure by "No
  suitable variant to parse", where ordered choice alone would report the
  last branch's own message.
- `separated_list` and `one_of` are given in both forms, as written and as
  evidently intended; the intended form of `one_of` is the one
  test/parsers/one_of.test.cpp:45-56 expects. See "## Findings".
- The remainder after `integral` and `arithmetic` follows the intended
  suffix of the view rather than the NUL-terminated read of the code; see
  "## Left out".

## Model

| member | source | states |
|---|---|---|
| Options.ValueUnsafe | pcc/core/option.hpp:55-57 | the value returned is the one held: `Some(v)` is the option |
| Options.Map | pcc/core/option.hpp:79-82 | the result is `Some` iff the input is, holding `op` of the held value |
| Options.AndThen | pcc/core/option.hpp:100-103 | on `Some(v)` the result is `op(v)` itself, not nested; on `None` it is `None` |
| Options.UnwrapOrElse | pcc/core/option.hpp:106-112 | the held value when present, `def()` only when absent |
| Options.MapIsAndThenSome | pcc/core/option.hpp:59-104 | `map` equals `and_then` followed by wrapping in `some` |
| Options.MapCompose | pcc/core/option.hpp:79-82 | mapping twice equals mapping once with the composition |
| Options.AndThenAssociative | pcc/core/option.hpp:100-103 | chains of `and_then` associate |
| Results.ValueUnsafe | pcc/core/result.hpp:81-83 | the value returned is the success value of the result |
| Results.ErrorUnsafe | pcc/core/result.hpp:85-87 | the value returned is the error value of the result |
| Results.AsOption | pcc/core/result.hpp:70-75 | `Some` iff the result is a success, carrying the same value |
| Results.Map | pcc/core/result.hpp:110-113 | success iff the input is; `op` of the value on success; the error unchanged on failure |
| Results.MapError | pcc/core/result.hpp:132-135 | success iff the input is; the success value unchanged; `op` of the error on failure |
| Results.AndThen | pcc/core/result.hpp:159-162 | exactly `op(value)` on success, flattened; the original error on failure |
| Results.MapOrElse | pcc/core/result.hpp:165-171 | `def()` on failure, `op(value)` on success |
| Results.MapIsAndThenSuccess | pcc/core/result.hpp:89-163 | `map` equals `and_then` followed by wrapping in `success` |
| Results.AndThenAssociative | pcc/core/result.hpp:159-162 | chains of `and_then` associate |
| Results.AsOptionOfMap | pcc/core/result.hpp:70-75 | `as_option` of a mapped result is the mapped option |
| Results.AsOptionOfMapError | pcc/core/result.hpp:116-136 | `map_error` is invisible to `as_option` |
| Results.MapOrElseViaOption | pcc/core/result.hpp:165-171 | `map_or_else` equals `unwrap_or_else` of the mapped `as_option` |
| ParseResults.ParsedResult | pcc/core/parse_result.hpp:26-30 | a success whose value and rest are the arguments |
| ParseResults.NotParsed | pcc/core/parse_result.hpp:32-36 | a failure whose only payload is the message |
| Parsers.SuffixTransitive | pcc/parsers/parser.hpp:34-50 | a suffix of a suffix of the input is a suffix of the input |
| Parsers.ConsumingIsSuffix | pcc/parsers/parser.hpp:34-50 | helper: a parser that consumes on every success keeps the suffix contract |
| Parsers.KeepRight | pcc/parsers/parser.hpp:34-39 | `l <<= r` fails with `l`'s error when `l` fails; otherwise it is exactly `r` on `l`'s rest, so `l`'s value is dropped |
| Parsers.KeepLeft | pcc/parsers/parser.hpp:41-50 | `l >>= r` succeeds iff `l` and then `r` on its rest do; the value is `l`'s and the rest is `r`'s; it fails with `l`'s error, else with `r`'s |
| Parsers.KeepRightSuffix | pcc/parsers/parser.hpp:34-39 | `<<=` of suffix parsers is a suffix parser |
| Parsers.KeepRightConsuming | pcc/parsers/parser.hpp:34-39 | `<<=` consumes on every success when its right operand does |
| Parsers.KeepRightConsumingLeft | pcc/parsers/parser.hpp:34-39 | `<<=` consumes on every success when its left operand does |
| Parsers.KeepLeftSuffix | pcc/parsers/parser.hpp:41-50 | `>>=` of suffix parsers is a suffix parser |
| BasicParsers.OccursAtShift | pcc/parsers/basic.hpp:40 | an occurrence at `j` is an occurrence at `j - 1` of the input without its head |
| BasicParsers.Find | pcc/parsers/basic.hpp:40 | `find` returns the first position where `t` occurs, or `npos` when it occurs nowhere |
| BasicParsers.FindZeroIffPrefix | pcc/parsers/basic.hpp:40 | `find(t) == 0` iff `t` is a prefix of the input |
| BasicParsers.Symbol | pcc/parsers/basic.hpp:11-27 | success iff the input starts with `ch`; the value is `ch` and exactly one element is consumed; "Can not parse value" on empty input, "Can not match symbol" otherwise |
| BasicParsers.Tag | pcc/parsers/basic.hpp:29-45 | an empty tag always fails with "Tag can not be empty string"; success iff `t` is a prefix, with value `t` and the length of `t` dropped; otherwise "Tag not found" |
| BasicParsers.SymbolConsuming | pcc/parsers/basic.hpp:22-23 | `symbol` consumes on every success |
| BasicParsers.TagConsuming | pcc/parsers/basic.hpp:39-41 | `tag` consumes on every success |
| BasicParsers.TagOnEmptyInput | test/parsers/map.test.cpp:37-42 | a non-empty tag is not found in the empty input |
| TakeParsers.FindIfNot | pcc/parsers/take.hpp:26 | the index of the first element failing `pred`, or the length when there is none |
| TakeParsers.FindIfNotOfSplit | pcc/parsers/take.hpp:26 | `find_if_not` over an all-`pred` front followed by a non-`pred` element is the front's length |
| TakeParsers.TakeWhile | pcc/parsers/take.hpp:13-32 | fails iff the input is empty, with "Can not take from empty string"; otherwise value ++ rest is the input, every value element satisfies `pred`, and the rest is empty or starts with a failing element |
| TakeParsers.TakeWhileUnique | pcc/parsers/take.hpp:23-30 | the split is the only one with an all-`pred` front and a back not starting with a `pred` element |
| TakeParsers.TakeWhileSuffix | pcc/parsers/take.hpp:13-32 | `take_while` is a suffix parser |
| TakeParsers.Take | pcc/parsers/take.hpp:37-54 | success iff at least `n` elements remain, yielding exactly the first `n`; the two failure messages for empty and for short input |
| TakeParsers.TakeConsuming | pcc/parsers/take.hpp:37-54 | `take(exactly<N>)` consumes on every success |
| CharParsers.RunAtLeast | pcc/parsers/char.hpp:14-26 | success iff the input is non-empty and the greedy run has at least `n` elements, and then it is the run; "Do not enough symbols" when the run is shorter; the empty-input message even for `n = 0` |
| CharParsers.Spaces0 | pcc/parsers/char.hpp:7-9 | success iff the input is non-empty; the value is the longest whitespace prefix and the rest is what follows it |
| CharParsers.Spaces | pcc/parsers/char.hpp:14-26 | success iff the input is non-empty and its whitespace run has at least `n` elements, and then it is `spaces0`'s outcome; "Do not enough symbols" on a shorter run; the empty-input failure on empty input |
| CharParsers.Spaces1 | pcc/parsers/char.hpp:29 | success iff the input starts with whitespace, and then it is `spaces0` |
| CharParsers.Alphanumeric0 | pcc/parsers/char.hpp:32-34 | success iff the input is non-empty; the value is the longest alphanumeric prefix and the rest is what follows it |
| CharParsers.Alphanumeric | pcc/parsers/char.hpp:39-51 | success iff the input is non-empty and its alphanumeric run has at least `n` elements, and then it is `alphanumeric0`'s outcome; "Do not enough symbols" on a shorter run; the empty-input failure on empty input |
| CharParsers.Alphanumeric1 | pcc/parsers/char.hpp:55 | success iff the input starts with an alphanumeric, and then it is `alphanumeric0` |
| CharParsers.RunAtLeastSuffix | pcc/parsers/char.hpp:14-26 | the runs with a minimum are suffix parsers |
| CharParsers.Alphanumeric1Suffix | pcc/parsers/char.hpp:55 | `alphanumeric1` is a suffix parser |
| CharParsers.Spaces0ZeroWidth | pcc/parsers/char.hpp:7-9 | on non-empty input not starting with whitespace, `spaces0` succeeds consuming nothing |
| OneOfParsers.OneOf | pcc/parsers/one_of.hpp:10-25 | success iff the first element is in the set; the value is that element and exactly one element is consumed; otherwise "A character is not in the input", including on empty input |
| OneOfParsers.OneOfConsuming | pcc/parsers/one_of.hpp:20 | `one_of` consumes exactly one element on every success |
| OneOfParsers.OneOfAsWritten | pcc/parsers/one_of.hpp:17-23 | the unguarded code agrees with `OneOf` on non-empty input; on an empty view it throws iff the element stored past the view is in the set |
| OneOfParsers.OneOfEmptyView | test/parsers/one_of.test.cpp:45-56 | the empty input fails with the ordinary message; the unguarded code does so past a NUL and throws past a set member |
| OneOfParsers.OneOfExamples | test/parsers/one_of.test.cpp:5-44 | "1" and "123" yield '1' with rests "" and "23"; "4" fails with the ordinary message |
| ArithmeticParsers.DigitIsNotSignOrSpace | pcc/parsers/arithmetic.hpp:73-79 | no digit is a minus sign or whitespace |
| ArithmeticParsers.DigitRun | pcc/parsers/arithmetic.hpp:78-79 | the length of the longest run of base digits at the front |
| ArithmeticParsers.DigitRunOfSplit | pcc/parsers/arithmetic.hpp:78-79 | the run of digits followed by a non-digit is exactly those digits |
| ArithmeticParsers.SignLength | pcc/parsers/arithmetic.hpp:78-79 | a leading `-` is part of the pattern exactly for signed types |
| ArithmeticParsers.FromChars | pcc/parsers/arithmetic.hpp:9-12 | invalid iff there is no digit after the optional sign; otherwise the pattern ends after the longest digit run; a converted value lies in the type's range and is the signed value of the digits; an out-of-range value is outside the range |
| ArithmeticParsers.FromCharsOfSplit | pcc/parsers/arithmetic.hpp:9-12 | after the optional sign, a non-empty digit run followed by a non-digit or the end converts to the signed value of the run and ends the pattern after it, or is out of range |
| ArithmeticParsers.Integral | pcc/parsers/arithmetic.hpp:63-86 | the empty-input and leading-space failures; success iff `from_chars` converts, with its value and the rest right after the pattern; "Can not parse integral value" otherwise |
| ArithmeticParsers.IntegralOfSplit | pcc/parsers/arithmetic.hpp:63-86 | on a sign, a digit run and a tail that does not continue it, with the signed value in range, `integral` yields that value and leaves exactly the tail |
| ArithmeticParsers.Arithmetic | pcc/parsers/arithmetic.hpp:38-61 | the same checks with "Can not parse arithmetic value form empty string" and "Can not parse double value" as its messages |
| ArithmeticParsers.ArithmeticIsIntegralBase10 | pcc/parsers/arithmetic.hpp:38-86 | `arithmetic<T>` succeeds exactly where `integral<T>(10)` does, with the same value and rest |
| ArithmeticParsers.IntegralConsuming | pcc/parsers/arithmetic.hpp:63-86 | `integral` consumes on every success |
| ArithmeticParsers.ArithmeticConsuming | pcc/parsers/arithmetic.hpp:38-61 | `arithmetic` consumes on every success, so it keeps the suffix contract |
| ArithmeticParsers.Digits | pcc/parsers/arithmetic.hpp:9-12 | helper: the digits of `n` form a non-empty string of base digits |
| ArithmeticParsers.DigitsValueOfDigits | pcc/parsers/arithmetic.hpp:9-12 | the digit string of `n` denotes `n` |
| ArithmeticParsers.IntegralRoundTrip | pcc/parsers/arithmetic.hpp:63-86 | `integral` reads back every in-range value from its text in the base, leaving a tail that does not continue the digits |
| ArithmeticParsers.IntegralBinaryOf000718 | test/core.test.cpp:64-68 | in base 2, "000718" parses as 0 with rest "718" |
| ArithmeticParsers.IntegralWholeOf000718 | test/core.test.cpp:64-68 | in bases 10 and 16, all of "000718" is the number, with nothing left |
| ArithmeticParsers.BinaryWithSuffixOf000718 | test/core.test.cpp:65 | binary `integral` followed by `b` or `B` fails on "000718": the binary number stops before "718" |
| ArithmeticParsers.HexWithSuffixOf000718 | test/core.test.cpp:66 | hex `integral` followed by `h` or `H` fails on "000718": the number takes the whole input and no suffix letter is left |
| ArithmeticParsers.IntegralCoolParserExample | test/core.test.cpp:62-70 | the choice of binary-with-`b`, hex-with-`h` and decimal parses "000718" as the decimal 718 |
| EscapedParsers.EscapedScan | pcc/parsers/escaped.hpp:19-63 | every success splits the input into value ++ rest, and the rest is no longer than the window being scanned |
| EscapedParsers.Escaped | pcc/parsers/escaped.hpp:11-68 | the cursor loop returns what the scan from the whole input specifies |
| EscapedParsers.EscapedParse | pcc/parsers/escaped.hpp:11-68 | every success splits the input into value ++ rest |
| EscapedParsers.EscapedEmpty | pcc/parsers/escaped.hpp:65-66 | empty input yields an empty value and an empty rest |
| EscapedParsers.EscapedAllNormal | pcc/parsers/escaped.hpp:24-25 | when `normal` reaches the end, the whole input is the value |
| EscapedParsers.EscapedScanStops | pcc/parsers/escaped.hpp:19-63 | a successful scan stops only at the end, at an element neither normal nor control, or at a zero-width normal match |
| EscapedParsers.EscapedStops | pcc/parsers/escaped.hpp:19-63 | the same for the parser on its whole input |
| EscapedParsers.EscapedScanNonNormalLater | pcc/parsers/escaped.hpp:51-61 | after any progress the scan never reports "Non normal or control symbol" |
| EscapedParsers.EscapedNonNormalIffAtStart | pcc/parsers/escaped.hpp:51-61 | "Non normal or control symbol" is reported iff the first element is neither normal nor control |
| EscapedParsers.ScanNormalStep | pcc/parsers/escaped.hpp:22-32 | a consuming normal match that leaves input resumes the scan after it |
| EscapedParsers.ScanEscapeStep | pcc/parsers/escaped.hpp:39-46 | control followed by escapable content resumes the scan after that content |
| EscapedParsers.ScanStopStep | pcc/parsers/escaped.hpp:51-61 | after progress, an element neither normal nor control ends the scan, staying in the rest |
| EscapedParsers.ScanZeroWidthStep | pcc/parsers/escaped.hpp:26-30 | a zero-width normal match ends the scan with the prefix scanned so far |
| EscapedParsers.ScanControlAtEnd | pcc/parsers/escaped.hpp:34-37 | a control as the last element fails with "End with control symbol" |
| EscapedParsers.ScanNotEscapable | pcc/parsers/escaped.hpp:47-49 | a control followed by content `escape` rejects fails with "Not escapable symbol" |
| EscapedParsers.EscapedRunEscapeRunStop | pcc/parsers/escaped.hpp:19-63 | a run, an escape, a run, then a stop element: the value is everything before the stop element, which stays in the rest |
| EscapedParsers.EscapedRunEscapeRunEnd | pcc/parsers/escaped.hpp:19-63 | a run, an escape, then a run to the end of the input: the whole input is the value and the rest is empty |
| EscapedParsers.EscapedAlnumEscapeAlnum | test/parsers/escaped.test.cpp:25-41 | with `alphanumeric1`, '\\' and `tag(";")`: any run, the escaped ";", any run, then the end or an element neither alphanumeric nor '\\' yields everything before that element, leaving the tail |
| EscapedParsers.EscapedRunThenControl | pcc/parsers/escaped.hpp:34-50 | a run followed by a failing control sequence fails as that control sequence does |
| EscapedParsers.EscapedStopsBeforeColon | test/parsers/escaped.test.cpp:34-41 | "123\\;abc:" yields "123\\;abc" with rest ":" |
| EscapedParsers.EscapedNotEscapableExample | test/parsers/escaped.test.cpp:54-61 | "123\\:abc" fails with "Not escapable symbol" |
| EscapedParsers.EscapedControlAtEndExample | test/parsers/escaped.test.cpp:63-70 | "123\\" fails with "End with control symbol" |
| EscapedParsers.EscapedNonNormalExample | test/parsers/escaped.test.cpp:72-79 | "#123" fails with "Non normal or control symbol" |
| EscapedParsers.EscapedWholeRun | test/parsers/escaped.test.cpp:7-13 | with `alphanumeric1` as `normal`, "123" is scanned whole; the escape parser takes no part |
| EscapedParsers.EscapedRunEscapeEnd | pcc/parsers/escaped.hpp:19-46 | a run, then an escape whose content reaches the end of the input: the whole input is the value and the rest is empty |
| EscapedParsers.EscapedEndsWithEscape | test/parsers/escaped.test.cpp:16-22 | "123\\;" is scanned whole |
| EscapedParsers.EscapedWholeWithEscape | test/parsers/escaped.test.cpp:25-32 | "123\\;abc" is scanned whole |
| MapParsers.Map | pcc/parsers/map.hpp:11-19 | success iff `p` succeeds, with `fn` of its value and its rest unchanged; `p`'s failure message otherwise |
| MapParsers.Constant | pcc/parsers/map.hpp:25-28 | success iff `p` succeeds, with `c` and `p`'s rest; `p`'s failure message otherwise |
| MapParsers.MapSuffix | pcc/parsers/map.hpp:11-19 | `map` keeps the suffix contract |
| MapParsers.ConstantSuffix | pcc/parsers/map.hpp:25-28 | `constant` keeps the suffix contract, and consumes on every success when `p` does |
| MapParsers.MapTagExamples | test/parsers/map.test.cpp:6-75 | the mapped and constant tags of the tests: `true` with empty rest, and "Tag not found" on "true" for `tag("false")`, on "" and on "nethier" |
| Alternatives.Alternative | pcc/combinators/alternative.hpp:6-15 | `p1`'s success is returned unchanged; otherwise the outcome is `p2` on the same input |
| Alternatives.AlternativeN | pcc/combinators/alternative.hpp:17-20 | success iff some parser succeeds on the input, and then the outcome is one of theirs; on failure it is the last parser's outcome |
| Alternatives.AlternativeNFirstSuccess | pcc/combinators/alternative.hpp:17-20 | the first parser in declaration order that succeeds gives the outcome, and later ones do not matter |
| Alternatives.AlternativeNAllFail | pcc/combinators/alternative.hpp:13-19 | when all fail, the outcome is the last parser's failure |
| Alternatives.Alternative3 | pcc/combinators/alternative.hpp:17-20 | a choice of three is the first success among them in order, else the third's outcome |
| Alternatives.AlternativeNSuffix | pcc/combinators/alternative.hpp:6-20 | ordered choice of suffix parsers is a suffix parser |
| Alternatives.ChoiceIsOrdered | pcc/combinators/alternative.hpp:9-11 | `alternative(tag("true"), tag("true2"))` on "true2" takes "true" and leaves "2" |
| Optionals.Optional | pcc/combinators/optional.hpp:6-15 | never fails; the value is `Some` iff `p` succeeds; `Some(value)` with `p`'s rest, or `None` with the input unchanged |
| Optionals.OptionalSuffix | pcc/combinators/optional.hpp:6-15 | `optional` keeps the suffix contract |
| Products.Product1 | pcc/combinators/product.hpp:6-12 | success iff `p` succeeds, with its value as a 1-tuple and its rest; `p`'s message otherwise |
| Products.Extend | pcc/combinators/product.hpp:14-23 | the left tuple's failure as is; otherwise success iff `p` succeeds on its rest, the tuples concatenated and `p`'s rest; `p`'s failure otherwise |
| Products.Chain | pcc/combinators/product.hpp:14-28 | a success has one value per parser and starts with the first parser's value; the first parser's failure is the chain's failure |
| Products.Product | pcc/combinators/product.hpp:6-28 | the tuple has one value per parser |
| Products.Chain1 | pcc/combinators/product.hpp:6-12 | a chain of one parser is the unary product |
| Products.ChainSnoc | pcc/combinators/product.hpp:14-23 | appending a parser runs it on the chain's rest and appends its value |
| Products.ProductIsChain | pcc/combinators/product.hpp:25-28 | the left fold computes the chain: values in declaration order, each parser on its predecessor's rest, the first failure wins |
| Products.ChainAppend | pcc/combinators/product.hpp:17-18 | when the front parsers fail, the product fails with their error and the back parsers are not run; otherwise the back ones run on the front's rest |
| Products.ChainSuffix | pcc/combinators/product.hpp:6-28 | a product of suffix parsers is a suffix parser |
| Products.ProductSuffix | pcc/combinators/product.hpp:25-28 | `product` of suffix parsers is a suffix parser |
| Products.ProductWith | pcc/combinators/product.hpp:44-50 | success iff the product succeeds; `fn` of the values with the product's rest; the product's failure otherwise |
| Products.ProductWithSuffix | pcc/combinators/product.hpp:44-50 | the builder form of suffix parsers is a suffix parser |
| Products.ProductPoint3d | pcc/combinators/product.hpp:52-55 | success iff the chain of the three parsers succeeds; then the fields in order are its values and the rest is its rest; its failure otherwise |
| Products.ProductPoint3dFields | pcc/combinators/product.hpp:52-55 | the struct's fields are the parsed values in order, each parser on its predecessor's rest |
| Sums.AsSum | pcc/combinators/sum.hpp:13-24 | success iff `p` succeeds, with the injected value and `p`'s rest; otherwise "No suitable variant to parse" |
| Sums.AsSumSuffix | pcc/combinators/sum.hpp:13-24 | `as_sum` of a suffix parser is a suffix parser |
| Sums.Sum | pcc/combinators/sum.hpp:26-37 | success iff some branch succeeds, with some succeeding branch's value injected and its rest; otherwise "No suitable variant to parse" |
| Sums.SumSuffix | pcc/combinators/sum.hpp:26-37 | `sum` of suffix parsers is a suffix parser |
| Sums.Branches | pcc/combinators/sum.hpp:26-29 | one wrapped branch per parser |
| Sums.SumFirstSuccess | pcc/combinators/sum.hpp:26-37 | the first succeeding branch gives the value, injected, and its rest |
| Sums.SumAllFail | pcc/combinators/sum.hpp:22-29 | when all branches fail, the failure is "No suitable variant to parse" whatever the branches reported |
| Sums.FirstSucceeding | pcc/combinators/alternative.hpp:17-20 | when some parser succeeds, there is a first one |
| Repetition.Repeat | pcc/sequence/many.hpp:17-24 | the rest is a suffix of the input and `p` fails on it; at most one value per consumed element |
| Repetition.Many0 | pcc/sequence/many.hpp:9-28 | the loop never fails and returns exactly the repetition of `p` from the input |
| Repetition.Many | pcc/sequence/many.hpp:30-44 | fails with "Failed to apply many combinator" iff fewer than `n` values were collected; otherwise exactly `many0`'s value and rest |
| Repetition.RepeatUnfold | pcc/sequence/many.hpp:17-24 | when `p` fails the value is empty and nothing is consumed; otherwise `p`'s value is followed by the repetition from its rest |
| Repetition.RepeatStep | pcc/sequence/many.hpp:17-24 | a success of `p` contributes its value ahead of the repetition from its rest |
| Repetition.RepeatConstant | pcc/sequence/many.hpp:17-24 | when every success of `p` yields the value `c`, every collected value is `c` |
| Repetition.ManyZeroNeverFails | test/core.test.cpp:55-58 | with minimum 0, `many` never fails |
| Repetition.ManyTagExamples | pcc/sequence/many.hpp:30-44 | `many(at_least<3>, tag("a"))` fails on "aa" and yields three "a" on "aaa" |
| SeparatedLists.ElementThenSepConsuming | pcc/sequence/separated_list.hpp:12 | `p <<= symbol(sep)` consumes on every success |
| SeparatedLists.SeparatedList | pcc/sequence/separated_list.hpp:9-13 | never fails; the value is the repetition of "element, then separator" |
| SeparatedLists.SeparatedListKeepsSeparators | pcc/sequence/separated_list.hpp:12 | every collected value is the separator |
| SeparatedLists.ElementThenSepStep | pcc/sequence/separated_list.hpp:12 | one element and a separator yield the separator |
| SeparatedLists.Terminate | pcc/sequence/separated_list.hpp:9-13 | helper: the rendering of "element, separator" pairs has two elements per list element |
| SeparatedLists.ElementThenSepStopsOn | pcc/sequence/separated_list.hpp:12 | a tail not starting with an element and a separator ends the repetition |
| SeparatedLists.RepeatElementThenSep | pcc/sequence/separated_list.hpp:9-13 | the written form over "element, separator" pairs yields one separator per pair and leaves the tail |
| SeparatedLists.SeparatedListAsWrittenPairs | pcc/sequence/separated_list.hpp:9-13 | on elements each followed by a separator, the written form yields only the separators, one per element, and leaves the tail |
| SeparatedLists.SeparatedListAsWrittenExamples | pcc/sequence/separated_list.hpp:9-13 | on "1,2,3" the result is ",," with "3" left; on "1,2," it is ",," with nothing left; "" succeeds with no value |
| SeparatedLists.SepThenElementConsuming | pcc/sequence/separated_list.hpp:12 | `symbol(sep) <<= p` consumes on every success |
| SeparatedLists.SeparatedListIntended | pcc/sequence/separated_list.hpp:9-13 | corrected form: never fails, like `many0`; with no first element the value is empty and nothing is consumed; otherwise the value is that element then the elements of the "separator, element" pairs, and the rest is a suffix where no further pair parses |
| SeparatedLists.Interleave | pcc/sequence/separated_list.hpp:9-13 | helper: the rendering of the pairs has two elements per list element |
| SeparatedLists.SepThenElementStep | pcc/sequence/separated_list.hpp:12 | a separator and an element yield the element |
| SeparatedLists.SepThenElementStops | pcc/sequence/separated_list.hpp:12 | a tail not starting with a separator and an element ends the repetition |
| SeparatedLists.RepeatSepThenElementStep | pcc/sequence/separated_list.hpp:12 | one more "separator, element" pair ahead of a repetition puts its element in front |
| SeparatedLists.RepeatSepThenElement | pcc/sequence/separated_list.hpp:9-13 | the pairs' rendering of a list parses back to the list, leaving the tail |
| SeparatedLists.SeparatedListIntendedRoundTrip | pcc/sequence/separated_list.hpp:9-13 | corrected form: the separated rendering of a non-empty list parses back to the list, leaving the tail |
| SeparatedLists.SeparatedListIntendedEmptyRoundTrip | pcc/sequence/separated_list.hpp:9-13 | corrected form: the empty list round-trips, leaving any tail that does not start with an element |
| SeparatedLists.SeparatedListIntendedOf123 | pcc/sequence/separated_list.hpp:9-13 | corrected form: "1,2,3" gives "123" with nothing left |
| SeparatedLists.SeparatedListIntendedExamples | pcc/sequence/separated_list.hpp:9-13 | corrected form: "1,2," gives "12" with "," left, and "" gives the empty list with nothing consumed |

## Left out

- `pcc::lazy` and the stream operators `<<` / `>>` are not part of this model, because they are not defined in the library sources modelled. Recursive grammars are therefore not modelled.
- ArithmeticParsers.BinaryWithSuffixOf000718: the test's `integral<int>(2) >> alternative(...)` is read as the keep-left sequence `>>=` (`Parsers.KeepLeft`, pcc/parsers/parser.hpp:41-50), because the definition of `>>` is not part of this model.
- ArithmeticParsers.HexWithSuffixOf000718: the test's `>>` is read as keep-left `>>=` in the same way.
- ArithmeticParsers.IntegralCoolParserExample: its binary and hex branches read the test's `>>` as keep-left `>>=` in the same way.
- The example programs (examples/json.cpp, examples/obj.cpp) are not modelled: they do file and console I/O and use `double` payloads.
- The floating-point path of `arithmetic<T>` (`strtod` / `strtof`) is not modelled: the model has no floating-point arithmetic.
- `std::isspace` and `std::isalnum` are the fixed sets of the "C" locale, because locales are not modelled.
- Wide-character inputs are not modelled: every input is a `seq<char>`.
- MapParsers.Map: each call applies the `fn` stored when the parser was built. The source's outer closure is `mutable` and its inner init-capture `std::forward<Map>(fn)` moves the stored `fn` out on every call when `Map` is not a reference, so later calls use a moved-from `fn`; this matters only when moving `fn` is not a copy, and moved-from state is not modelled.
- MapParsers.Constant: built on `map` with a lambda that captures `c` by value and is passed as a prvalue, so the same per-call move applies; the model returns `c` on every call, which the source does only while moving the lambda copies `c`.
- pcc/core/common.hpp is not part of this model. It holds type-level helpers. Its `at_least<N>` and `exactly<N>` tags become natural-number parameters, and `exactly<N>`'s rejection of `N == 0` becomes the requirement `n > 0` of `TakeParsers.Take`.
- The `static_assert` checks in result.hpp and option.hpp are not modelled: they reject programs at compile time and have no run-time behaviour.
- Heterogeneous tuples and `std::variant` are not modelled. A product's values share one type and are a sequence, and a sum's cases are injections into one result type.
- ArithmeticParsers.Integral: the code builds the remainder with `std::string_view(ptr)`, which runs to the next NUL rather than to the end of the view. The model returns the intended remainder, the suffix of the view after the pattern. The NUL-terminated read depends on memory past the view, which is not modelled.
- ArithmeticParsers.Arithmetic: the remainder is modelled the same way as for `Integral`.
- Repetition.Many0: modelled only for parsers that consume on every success. On a parser that succeeds without consuming, the loop of `many0` never ends, and the model does not describe that run.
- Repetition.Repeat: defined under the same consuming requirement, for the same reason.
- Exceptions are not modelled. The one exception the code can raise is `std::out_of_range` from `one_of` on an empty view; it appears only as the `OutOfRange` outcome of `OneOfParsers.OneOfAsWritten`.
- The `parser` wrapper type and its deduction guides are not modelled: a parser is a plain function.

## Findings

| source | as written | input that shows it | evidently intended | confidence | as-written member | corrected member |
|---|---|---|---|---|---|---|
| pcc/sequence/separated_list.hpp:12 | `many0(p <<= symbol(sep))` keeps the separators, needs a separator after every element, and never fails | "1,2,3" with digit elements and ',' gives ",," and leaves "3"; "" succeeds with no value | zero or more elements, as `many0` allows and the JSON arrays and objects of examples/json.cpp:201 and :237 need ("[]", "{}"): one element, then "separator, element" pairs; the elements are the value; a dangling separator stays in the remainder. Those callers pass the element first and `tag(",")` second, against the `(sep, p)` order of separated_list.hpp:10, which could not compile with `symbol(element)`: further sign that the elements are what is meant to be kept | not executed; high | SeparatedLists.SeparatedListAsWrittenExamples | SeparatedLists.SeparatedListIntendedRoundTrip |
| pcc/parsers/one_of.hpp:18 | `front()` is read with no check for an empty view, then `substr(1)` | an empty view whose next stored element is in the set, such as `one_of("123")` on the empty view just before a "1" in a buffer: `substr(1)` throws `std::out_of_range` | the empty input fails with "A character is not in the input", as test/parsers/one_of.test.cpp:45-56 expects | not executed; high | OneOfParsers.OneOfEmptyView | OneOfParsers.OneOf |
