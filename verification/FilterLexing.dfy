/** The literals of the filter language as written, and what the lexical readers make of them. */
module FilterLexing {
  import opened Wrappers
  import opened Json
  import opened Filter
  import opened FilterParser

  predicate QuoteFree(s: string) { forall i | 0 <= i < |s| :: NotQuote(s[i]) }

  // ---- written literals -------------------------------------------------

  /** A literal as a text spells it: a keyword, a quoted string, or an optional minus with digits and a fraction. */
  datatype Literal =
    | Word(v: Value)
    | Quoted(s: string)
    | Numeral(neg: bool, whole: string, frac: Option<string>)

  predicate Decimals(s: string) { forall k | 0 <= k < |s| :: 48 <= s[k] as int <= 57 }

  predicate LiteralOk(l: Literal) {
    match l
    case Word(v) => v.Null? || v.Bool?
    case Quoted(s) => '"' !in s
    case Numeral(_, whole, frac) => whole != "" && Decimals(whole) && (frac.Some? ==> Decimals(frac.value))
  }

  function WordText(v: Value): string
    requires v.Null? || v.Bool?
  {
    if v.Null? then "null" else if v.b then "true" else "false"
  }

  /** The literal's text followed by `rest`. */
  function LiteralThen(l: Literal, rest: string): string
    requires LiteralOk(l)
  {
    match l
    case Word(v) => WordText(v) + rest
    case Quoted(s) => "\"" + (s + ("\"" + rest))
    case Numeral(neg, whole, frac) =>
      var digits := whole + (if frac.Some? then "." + (frac.value + rest) else rest);
      if neg then "-" + digits else digits
  }

  function Pow10(n: nat): (p: nat)
    ensures p > 0
  {
    if n == 0 then 1 else 10 * Pow10(n - 1)
  }

  /** Digits by their place values. */
  function Weighted(ds: string): nat
    requires Decimals(ds)
  {
    if ds == "" then 0 else (ds[0] as int - 48) * Pow10(|ds| - 1) + Weighted(ds[1..])
  }

  /** Whole numbers below 2^63 are integers, everything else is a float of the written value. */
  function NumberOf(neg: bool, whole: string, frac: string): Number
    requires Decimals(whole) && Decimals(frac)
  {
    var w: int, f: int := Weighted(whole), Weighted(frac);
    var size := w as real + f as real / Pow10(|frac|) as real;
    if f == 0 && w < 9_223_372_036_854_775_808 then Int(if neg then -w else w)
    else Float(if neg then -size else size)
  }

  function ValueOf(l: Literal): Value
    requires LiteralOk(l)
  {
    match l
    case Word(v) => v
    case Quoted(s) => Str(s)
    case Numeral(neg, whole, frac) => Num(NumberOf(neg, whole, if frac.Some? then frac.value else ""))
  }

  // ---- numbers ------------------------------------------------------------

  lemma DecimalsAreDigits(s: string)
    ensures Decimals(s) <==> forall k | 0 <= k < |s| :: IsDigit(s[k])
  {
    if Decimals(s) { forall k | 0 <= k < |s| ensures IsDigit(s[k]) {} }
  }

  lemma PlaceValue(d: int, p: int, rest: int)
    ensures d * (10 * p) + 10 * rest == 10 * (d * p + rest)
  {
  }

  lemma {:induction false} WeightedSnoc(ds: string, c: char)
    requires Decimals(ds) && Decimals(ds + [c])
    ensures Weighted(ds + [c]) == 10 * Weighted(ds) + (c as int - 48)
  {
    if ds == "" {
      assert ds + [c] == [c] && [c][1..] == "" && Pow10(0) == 1;
    } else {
      assert (ds + [c])[1..] == ds[1..] + [c];
      WeightedSnoc(ds[1..], c);
      PlaceValue(ds[0] as int - 48, Pow10(|ds| - 1), Weighted(ds[1..]));
    }
  }

  lemma {:induction false} NatOfIsWeighted(ds: string)
    requires Decimals(ds) && forall k | 0 <= k < |ds| :: IsDigit(ds[k])
    ensures NatOf(ds) == Weighted(ds)
  {
    if ds != "" {
      var init, last := ds[..|ds| - 1], ds[|ds| - 1];
      assert ds == init + [last];
      NatOfIsWeighted(init);
      WeightedSnoc(init, last);
    }
  }

  lemma TenfoldQuotient(r: real, p: real)
    requires p > 0.0
    ensures r / p / 10.0 == r / (10.0 * p)
  {
    var q := r / p;
    assert q * p == r;
    assert q / 10.0 * (10.0 * p) == r;
  }

  lemma {:induction false} ShiftedIsQuotient(r: real, places: nat)
    ensures Shifted(r, places) == r / Pow10(places) as real
  {
    if places > 0 {
      ShiftedIsQuotient(r, places - 1);
      TenfoldQuotient(r, Pow10(places - 1) as real);
      assert Pow10(places) as real == 10.0 * Pow10(places - 1) as real;
    }
  }

  lemma SignedIsNumber(neg: bool, whole: string, frac: string)
    requires Decimals(whole) && Decimals(frac)
    requires (forall k | 0 <= k < |whole| :: IsDigit(whole[k])) && (forall k | 0 <= k < |frac| :: IsDigit(frac[k]))
    ensures Signed(neg, Decimal(NatOf(whole), NatOf(frac), |frac|)) == NumberOf(neg, whole, frac)
  {
    NatOfIsWeighted(whole);
    NatOfIsWeighted(frac);
    ShiftedIsQuotient(NatOf(frac) as real, |frac|);
  }

  // ---- written literals are read ---------------------------------------------

  lemma {:induction false} SpanPrefix(p: CharClass, a: string, b: string)
    requires forall k | 0 <= k < |a| :: p.Has(a[k])
    requires b == "" || !p.Has(b[0])
    ensures Span(p, a + b) == |a| && (a + b)[|a|..] == b && (a + b)[..|a|] == a
  {
    if a == "" { assert a + b == b; }
    else { SpanPrefix(p, a[1..], b); assert (a + b)[1..] == a[1..] + b; }
  }

  /** A string literal is a quote, quote-free content and a quote. */
  lemma StringShape(i: string)
    requires StringLiteral(i).Done?
    ensures var c := StringLiteral(i).out; var k := |c| + 2;
            && QuoteFree(c) && k <= |i| && i[0] == '"' && i[k - 1] == '"' && c == i[1..k - 1]
            && StringLiteral(i).rest == i[k..] && i[..k] == "\"" + c + "\""
  {
    var n := Span(NonQuote, i[1..]);
    assert !NotQuote(i[1..][n]);
    var c := i[1..n + 1];
    assert forall k | 0 <= k < n :: c[k] == i[1..][k];
  }

  lemma StringRead(s: string, rest: string)
    requires QuoteFree(s)
    ensures StringLiteral("\"" + s + "\"" + rest) == Done(rest, s)
  {
    var i := "\"" + s + "\"" + rest;
    SpanPrefix(NonQuote, s, "\"" + rest);
    assert i[1..] == s + ("\"" + rest);
    assert i[|s| + 2..] == rest && i[1..|s| + 1] == s;
  }

  lemma WordRead(v: Value, rest: string)
    requires v.Null? || v.Bool?
    ensures JsonValue(WordText(v) + rest) == Done(rest, v)
  {
    var k := WordText(v);
    var i := k + rest;
    assert k <= i && i[|k|..] == rest && i[0] == k[0];
  }

  lemma NotWord(i: string)
    requires i != "" && i[0] !in {'n', 't', 'f'}
    ensures StringLiteral(i).Done? ==> JsonValue(i) == Done(StringLiteral(i).rest, Str(StringLiteral(i).out))
    ensures StringLiteral(i).Fail? && NumberLiteral(i).Done? ==>
              JsonValue(i) == Done(NumberLiteral(i).rest, Num(NumberLiteral(i).out))
  {}

  /** What may follow a number without becoming part of it. */
  predicate Detached(rest: string) { rest == "" || !(IsDigit(rest[0]) || rest[0] == '.') }

  predicate Solid(x: string) { x != "" && !IsSpace(x[0]) }

  /** The digits and the fraction of a numeral, as one magnitude. */
  lemma MagnitudeRead(whole: string, frac: Option<string>, rest: string)
    requires LiteralOk(Numeral(false, whole, frac)) && Detached(rest)
    ensures var f := if frac.Some? then frac.value else "";
            && (forall k | 0 <= k < |whole| :: IsDigit(whole[k])) && (forall k | 0 <= k < |f| :: IsDigit(f[k]))
            && Magnitude(LiteralThen(Numeral(false, whole, frac), rest)) ==
               Done(rest, Decimal(NatOf(whole), NatOf(f), |f|))
  {
    DecimalsAreDigits(whole);
    if frac.Some? {
      var f := frac.value;
      DecimalsAreDigits(f);
      SpanPrefix(Digit, whole, "." + (f + rest));
      SpanPrefix(Digit, f, rest);
      assert ("." + (f + rest))[1..] == f + rest;
    } else {
      SpanPrefix(Digit, whole, rest);
    }
  }

  lemma NumeralRead(l: Literal, rest: string)
    requires l.Numeral? && LiteralOk(l) && Detached(rest)
    ensures JsonValue(LiteralThen(l, rest)) == Done(rest, ValueOf(l))
    ensures Solid(LiteralThen(l, rest))
  {
    var digits := LiteralThen(Numeral(false, l.whole, l.frac), rest);
    MagnitudeRead(l.whole, l.frac, rest);
    SignedIsNumber(l.neg, l.whole, if l.frac.Some? then l.frac.value else "");
    assert digits[0] == l.whole[0] && IsDigit(digits[0]);
    MinusRead(l.neg, digits);
    NotWord(LiteralThen(l, rest));
  }

  lemma MinusRead(neg: bool, digits: string)
    requires digits != "" && IsDigit(digits[0])
    ensures var i := if neg then "-" + digits else digits;
            && Solid(i) && StringLiteral(i).Fail? && i[0] !in {'n', 't', 'f'}
            && NumberLiteral(i) ==
               match Magnitude(digits) case Fail => Fail case Done(rest, d) => Done(rest, Signed(neg, d))
  {
    if neg { assert ("-" + digits)[1..] == digits; }
  }

  lemma QuotedRead(s: string, rest: string)
    requires '"' !in s
    ensures StringLiteral("\"" + (s + ("\"" + rest))) == Done(rest, s)
  {
    StringRead(s, rest);
    assert "\"" + (s + ("\"" + rest)) == "\"" + s + "\"" + rest;
  }

  lemma LiteralRead(l: Literal, rest: string)
    requires LiteralOk(l) && Detached(rest)
    ensures JsonValue(LiteralThen(l, rest)) == Done(rest, ValueOf(l))
    ensures Solid(LiteralThen(l, rest))
  {
    match l
    case Word(v) => WordRead(v, rest);
    case Quoted(s) =>
      QuotedRead(s, rest);
      NotWord(LiteralThen(l, rest));
    case Numeral(_, _, _) => NumeralRead(l, rest);
  }

  // ---- read literals were written ----------------------------------------------

  lemma QuotedIs(i: string) returns (s: string)
    requires StringLiteral(i).Done?
    ensures '"' !in s && i == "\"" + (s + ("\"" + StringLiteral(i).rest)) && StringLiteral(i).out == s
  {
    StringShape(i);
    s := StringLiteral(i).out;
    assert forall c | c in s :: NotQuote(c);
    assert i == i[..|s| + 2] + i[|s| + 2..];
  }

  lemma MagnitudeIs(i: string) returns (whole: string, frac: Option<string>)
    requires Magnitude(i).Done?
    ensures LiteralOk(Numeral(false, whole, frac))
    ensures i == LiteralThen(Numeral(false, whole, frac), Magnitude(i).rest)
    ensures var f := if frac.Some? then frac.value else "";
            && (forall k | 0 <= k < |whole| :: IsDigit(whole[k])) && (forall k | 0 <= k < |f| :: IsDigit(f[k]))
            && Magnitude(i).out == Decimal(NatOf(whole), NatOf(f), |f|)
  {
    var d, tail := DigitRun(i);
    whole := d;
    if "." <= tail {
      var f, rest := DigitRun(tail[1..]);
      frac := Some(f);
      PointAndRest(tail, f, rest);
    } else {
      frac := None;
      assert NatOf("") == 0;
    }
  }

  lemma PointAndRest(tail: string, f: string, rest: string)
    requires "." <= tail && tail[1..] == f + rest
    ensures tail == "." + (f + rest)
  {
  }

  lemma DigitRun(i: string) returns (ds: string, rest: string)
    ensures ds == i[..Span(Digit, i)] && rest == i[Span(Digit, i)..] && i == ds + rest
    ensures Decimals(ds) && forall k | 0 <= k < |ds| :: IsDigit(ds[k])
  {
    var d := Span(Digit, i);
    ds, rest := i[..d], i[d..];
    assert forall k | 0 <= k < d :: Digit.Has(i[k]);
    DecimalsAreDigits(ds);
  }

  lemma NumeralIs(i: string) returns (l: Literal)
    requires NumberLiteral(i).Done?
    ensures LiteralOk(l) && i == LiteralThen(l, NumberLiteral(i).rest) && ValueOf(l) == Num(NumberLiteral(i).out)
  {
    var neg := "-" <= i;
    var whole, frac := MagnitudeIs(if neg then i[1..] else i);
    SignedIsNumber(neg, whole, if frac.Some? then frac.value else "");
    l := Numeral(neg, whole, frac);
    if neg { assert i == "-" + i[1..]; }
  }

  lemma LiteralIs(i: string) returns (l: Literal)
    requires JsonValue(i).Done?
    ensures LiteralOk(l) && i == LiteralThen(l, JsonValue(i).rest) && ValueOf(l) == JsonValue(i).out
  {
    var v := JsonValue(i).out;
    if v.Str? {
      var s := QuotedIs(i);
      l := Quoted(s);
    } else if v.Num? {
      l := NumeralIs(i);
    } else {
      l := Word(v);
    }
  }
}
