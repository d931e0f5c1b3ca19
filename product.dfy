/** Model of pcc/combinators/product.hpp: run parsers one after another, each on
    the previous remainder, and collect their values positionally; optionally
    hand the collected values to a builder function or a structure.
    Tuples are modelled as sequences over one value type `V`. */
module Products {
  import opened Results
  import opened ParseResults
  import opened Parsers

  /** Unary `product(p)`: `p`'s value as a one-element tuple, `p`'s remainder. */
  function Product1<V>(p: Parser<V>, s: seq<char>): (r: ParseResult<seq<V>>)
    ensures IsSuccess(r) <==> IsSuccess(p(s))
    ensures IsSuccess(r) ==> r.value == Parsed([p(s).value.value], p(s).value.rest)
    ensures !IsSuccess(r) ==> r.error == p(s).error
  {
    AndThen(p(s), (v: Parsed<V>) => ParsedResult([v.value], v.rest))
  }

  /** Binary `product(t, p)` whose left operand already yields a tuple: `t`
      first, then `p` on `t`'s remainder; the tuples are concatenated
      (`tuple_cat`) and the remainder is `p`'s. `product(t)` of a tuple-valued
      `t` is `t` itself, because `std::tuple(v)` of a tuple `v` copies it. */
  function Extend<V>(t: Parser<seq<V>>, p: Parser<V>, s: seq<char>): (r: ParseResult<seq<V>>)
    ensures !IsSuccess(t(s)) ==> r == Error(t(s).error)
    ensures IsSuccess(t(s)) ==> (IsSuccess(r) <==> IsSuccess(p(t(s).value.rest)))
    ensures IsSuccess(t(s)) && !IsSuccess(p(t(s).value.rest)) ==> r == Error(p(t(s).value.rest).error)
    ensures IsSuccess(r) ==>
      r.value == Parsed(t(s).value.value + [p(t(s).value.rest).value.value], p(t(s).value.rest).value.rest)
  {
    AndThen(t(s), (v: Parsed<seq<V>>) =>
      AndThen(Product1(p, v.rest), (u: Parsed<seq<V>>) => ParsedResult(v.value + u.value, u.rest)))
  }

  /** `product(p1, ..., pn)`: the unary form for one parser, the binary form for
      two, and the left fold `product(product(p1, p2), rest...)` beyond. Its
      values and rest are those of the reference `Chain`, by `ProductIsChain`. */
  function Product<V>(ps: seq<Parser<V>>, s: seq<char>): (r: ParseResult<seq<V>>)
    requires |ps| >= 1
    ensures IsSuccess(r) ==> |r.value.value| == |ps|
    decreases |ps|
  {
    if |ps| == 1 then Product1(ps[0], s)
    else
      var init := (s': seq<char>) => Product(ps[..|ps| - 1], s');
      Extend(if |ps| == 2 then (s': seq<char>) => Product1(ps[0], s') else init, ps[|ps| - 1], s)
  }

  /** Reference semantics: the first parser on `s`, the others on its
      remainder; the first failure is the outcome. */
  function Chain<V>(ps: seq<Parser<V>>, s: seq<char>): (r: ParseResult<seq<V>>)
    ensures IsSuccess(r) ==> |r.value.value| == |ps|
    ensures |ps| > 0 && !IsSuccess(ps[0](s)) ==> r == Error(ps[0](s).error)
    ensures |ps| > 0 && IsSuccess(r) ==> IsSuccess(ps[0](s)) && r.value.value[0] == ps[0](s).value.value
    decreases |ps|
  {
    if |ps| == 0 then ParsedResult([], s)
    else
      match ps[0](s)
      case Error(e) => Error(e)
      case Success(first) =>
        match Chain(ps[1..], first.rest)
        case Error(e) => Error(e)
        case Success(others) => ParsedResult([first.value] + others.value, others.rest)
  }

  /** A chain of one parser is its unary product. */
  lemma Chain1<V>(p: Parser<V>, s: seq<char>)
    ensures Chain([p], s) == Product1(p, s)
  {
    assert [p][1..] == [];
    match p(s)
    case Error(e) =>
    case Success(first) =>
      assert [first.value] + [] == [first.value];
  }

  /** Appending a parser to a chain runs it on the chain's remainder. */
  lemma {:induction false} ChainSnoc<V>(ps: seq<Parser<V>>, q: Parser<V>, s: seq<char>)
    ensures Chain(ps + [q], s) == Extend((s': seq<char>) => Chain(ps, s'), q, s)
    decreases |ps|
  {
    if |ps| == 0 {
      assert ps + [q] == [q];
      Chain1(q, s);
      match q(s)
      case Error(e) =>
      case Success(first) =>
        assert [] + [first.value] == [first.value];
    } else {
      assert (ps + [q])[0] == ps[0];
      assert (ps + [q])[1..] == ps[1..] + [q];
      match ps[0](s)
      case Error(e) =>
      case Success(first) =>
        ChainSnoc(ps[1..], q, first.rest);
        match Chain(ps[1..], first.rest)
        case Error(e) =>
        case Success(others) =>
          match q(others.rest)
          case Error(e) =>
          case Success(last) =>
            assert [first.value] + (others.value + [last.value]) == ([first.value] + others.value) + [last.value];
    }
  }

  /** The left fold computes the reference semantics: values in declaration
      order, each parser on its predecessor's remainder, first failure wins. */
  lemma {:induction false} ProductIsChain<V>(ps: seq<Parser<V>>, s: seq<char>)
    requires |ps| >= 1
    ensures Product(ps, s) == Chain(ps, s)
    decreases |ps|
  {
    var n := |ps|;
    if n == 1 {
      assert ps == [ps[0]];
      Chain1(ps[0], s);
    } else {
      var init := ps[..n - 1];
      assert ps == init + [ps[n - 1]];
      ChainSnoc(init, ps[n - 1], s);
      if n == 2 {
        assert init == [ps[0]];
        Chain1(ps[0], s);
      } else {
        ProductIsChain(init, s);
      }
    }
  }

  /** Splitting a product: the front parsers run first; when they fail the
      product fails with their error and the back parsers are not run,
      otherwise the back parsers run on the front's remainder. */
  lemma {:induction false} ChainAppend<V>(ps: seq<Parser<V>>, qs: seq<Parser<V>>, s: seq<char>)
    ensures !IsSuccess(Chain(ps, s)) ==> Chain(ps + qs, s) == Error(Chain(ps, s).error)
    ensures IsSuccess(Chain(ps, s)) ==>
      Chain(ps + qs, s) == match Chain(qs, Chain(ps, s).value.rest)
        case Error(e) => Error(e)
        case Success(back) => ParsedResult(Chain(ps, s).value.value + back.value, back.rest)
    decreases |ps|
  {
    if |ps| == 0 {
      assert ps + qs == qs;
      match Chain(qs, s)
      case Error(e) =>
      case Success(back) =>
        assert [] + back.value == back.value;
    } else {
      assert (ps + qs)[0] == ps[0];
      assert (ps + qs)[1..] == ps[1..] + qs;
      match ps[0](s)
      case Error(e) =>
      case Success(first) =>
        ChainAppend(ps[1..], qs, first.rest);
        match Chain(ps[1..], first.rest)
        case Error(e) =>
        case Success(others) =>
          match Chain(qs, others.rest)
          case Error(e) =>
          case Success(back) =>
            assert [first.value] + (others.value + back.value) == ([first.value] + others.value) + back.value;
    }
  }

  /** A product of suffix parsers is a suffix parser. */
  lemma {:induction false} ChainSuffix<V>(ps: seq<Parser<V>>, s: seq<char>)
    requires forall i :: 0 <= i < |ps| ==> SuffixParser(ps[i])
    ensures IsSuccess(Chain(ps, s)) ==> IsSuffix(Chain(ps, s).value.rest, s)
    decreases |ps|
  {
    if |ps| == 0 {
      assert s[|s| - |s|..] == s;
    } else {
      assert SuffixParser(ps[0]);
      match ps[0](s)
      case Error(e) =>
      case Success(first) =>
        ChainSuffix(ps[1..], first.rest);
        if IsSuccess(Chain(ps, s)) {
          SuffixTransitive(Chain(ps, s).value.rest, first.rest, s);
        }
    }
  }

  /** A product of suffix parsers is a suffix parser. */
  lemma ProductSuffix<V>(ps: seq<Parser<V>>)
    requires |ps| >= 1
    requires forall i :: 0 <= i < |ps| ==> SuffixParser(ps[i])
    ensures SuffixParser((s: seq<char>) => Product(ps, s))
  {
    forall s | IsSuccess(Product(ps, s))
      ensures IsSuffix(Product(ps, s).value.rest, s)
    {
      ProductIsChain(ps, s);
      ChainSuffix(ps, s);
    }
  }

  /** Builder form `product(fn, p1, ..., pn)`: `fn` applied to the values in
      declaration order, with the product's remainder. */
  function ProductWith<V(!new), W>(fn: seq<V> --> W, ps: seq<Parser<V>>, s: seq<char>): (r: ParseResult<W>)
    requires |ps| >= 1
    requires forall t: seq<V> :: |t| == |ps| ==> fn.requires(t)
    ensures IsSuccess(r) <==> IsSuccess(Product(ps, s))
    ensures IsSuccess(r) ==> r.value == Parsed(fn(Product(ps, s).value.value), Product(ps, s).value.rest)
    ensures !IsSuccess(r) ==> r.error == Product(ps, s).error
  {
    match Product(ps, s)
    case Error(e) => Error(e)
    case Success(t) => ParsedResult(fn(t.value), t.rest)
  }

  /** The builder form keeps the suffix contract. */
  lemma ProductWithSuffix<V(!new), W>(fn: seq<V> --> W, ps: seq<Parser<V>>)
    requires |ps| >= 1
    requires forall t: seq<V> :: |t| == |ps| ==> fn.requires(t)
    requires forall i :: 0 <= i < |ps| ==> SuffixParser(ps[i])
    ensures SuffixParser((s: seq<char>) => ProductWith(fn, ps, s))
  {
    ProductSuffix(ps);
    forall s | IsSuccess(ProductWith(fn, ps, s))
      ensures IsSuffix(ProductWith(fn, ps, s).value.rest, s)
    {
      var q := (s': seq<char>) => Product(ps, s');
      assert q(s) == Product(ps, s) && IsSuccess(q(s));
      assert ProductWith(fn, ps, s).value.rest == q(s).value.rest;
    }
  }

  /** The `point3d` structure of test/core.test.cpp. */
  datatype Point3d = Point3d(x: int, y: int, z: int)

  /** Struct form `product<point3d>(px, py, pz)`: the builder that
      initialises the fields positionally. */
  function ProductPoint3d(px: Parser<int>, py: Parser<int>, pz: Parser<int>, s: seq<char>): (r: ParseResult<Point3d>)
    ensures IsSuccess(r) <==> IsSuccess(Chain([px, py, pz], s))
    ensures IsSuccess(r) ==>
              [r.value.value.x, r.value.value.y, r.value.value.z] == Chain([px, py, pz], s).value.value &&
              r.value.rest == Chain([px, py, pz], s).value.rest
    ensures !IsSuccess(r) ==> r.error == Chain([px, py, pz], s).error
  {
    ProductIsChain([px, py, pz], s);
    ProductWith((t: seq<int>) requires |t| == 3 => Point3d(t[0], t[1], t[2]), [px, py, pz], s)
  }

  /** The fields of the built structure are the parsed values in declaration
      order, each parser running on its predecessor's remainder. */
  lemma ProductPoint3dFields(px: Parser<int>, py: Parser<int>, pz: Parser<int>, s: seq<char>)
    requires IsSuccess(px(s))
    requires IsSuccess(py(px(s).value.rest))
    requires IsSuccess(pz(py(px(s).value.rest).value.rest))
    ensures ProductPoint3d(px, py, pz, s) == ParsedResult(
      Point3d(px(s).value.value, py(px(s).value.rest).value.value, pz(py(px(s).value.rest).value.rest).value.value),
      pz(py(px(s).value.rest).value.rest).value.rest)
  {
    var ps := [px, py, pz];
    ProductIsChain(ps, s);
    assert ps[1..] == [py, pz] && ps[1..][1..] == [pz] && ps[1..][1..][1..] == [];
  }
}
