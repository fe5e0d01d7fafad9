/** Printing a filter with parentheses only where the grammar needs them, and the proof that parsing undoes it. */
module FilterPrinter {
  import opened Wrappers
  import opened Json
  import opened Filter
  import opened FilterParser
  import opened FilterLexing
  import opened FilterGrammar

  const MAX_EXACT: int := 0x20_0000_0000_0000  // 2^53: integers every f64 represents exactly

  predicate PrintableValue(v: Value) {
    match v
    case Num(Int(i)) => -MAX_EXACT <= i <= MAX_EXACT
    case Str(s) => '"' !in s
    case _ => v.Null? || v.Bool?
  }

  /** Trees the grammar can express: `In` has no syntax and strings have no escapes. */
  predicate Printable(n: FilterNode) {
    match n
    case And(l, r) => Printable(l) && Printable(r)
    case Or(l, r) => Printable(l) && Printable(r)
    case Not(x) => Printable(x)
    case Compare(_, f, v) => FieldName(f) && PrintableValue(v)
    case Like(f, p) => FieldName(f) && '"' !in p
    case In(_, _) => false
  }

  function DigitsOf(n: nat): string {
    var last := ('0' as int + n % 10) as char;
    if n < 10 then [last] else DigitsOf(n / 10) + [last]
  }

  function LiteralFor(v: Value): Literal
    requires PrintableValue(v)
  {
    match v
    case Num(n) => Numeral(n.i < 0, DigitsOf(if n.i < 0 then -n.i else n.i), None)
    case Str(s) => Quoted(s)
    case _ => Word(v)
  }

  /** Grammar level at which a tree needs no parentheses: `||` 0, `&&` 1, `!` 2, comparison 3. */
  function Prec(n: FilterNode): (p: nat)
    ensures p <= 3
  {
    match n case Or(_, _) => 0 case And(_, _) => 1 case Not(_) => 2 case _ => 3
  }

  function Bare(n: FilterNode): Text
    requires Printable(n)
    decreases n, 0
  {
    match n
    case Or(l, r) => Pair(false, TextFor(l, 0), " ", " ", TextFor(r, 1))
    case And(l, r) => Pair(true, TextFor(l, 1), " ", " ", TextFor(r, 2))
    case Not(x) => Negated("", TextFor(x, 3))
    case Compare(op, f, v) => Leaf(f, " ", Some(op), " ", LiteralFor(v))
    case Like(f, p) => Leaf(f, " ", None, " ", Quoted(p))
  }

  /** The text of `n` where the grammar expects an expression of `level`. */
  function TextFor(n: FilterNode, level: nat): Text
    requires Printable(n)
    decreases n, 1
  {
    if Prec(n) >= level then Bare(n) else Grouped("", Bare(n), "")
  }

  lemma {:induction false} DigitsWeigh(n: nat)
    ensures DigitsOf(n) != "" && Decimals(DigitsOf(n)) && Weighted(DigitsOf(n)) == n
  {
    var last := ('0' as int + n % 10) as char;
    if n < 10 {
      assert DigitsOf(n) == [last] && [last][1..] == "" && Pow10(0) == 1;
    } else {
      DigitsWeigh(n / 10);
      WeightedSnoc(DigitsOf(n / 10), last);
    }
  }

  lemma LiteralWeighs(v: Value)
    requires PrintableValue(v)
    ensures LiteralOk(LiteralFor(v)) && ValueOf(LiteralFor(v)) == v
  {
    if v.Num? { DigitsWeigh(if v.n.i < 0 then -v.n.i else v.n.i); }
  }

  /** The minimal text is a text of the grammar, written for its tree. */
  lemma {:induction false} TextIsWritten(n: FilterNode, level: nat)
    requires Printable(n) && level <= 3
    ensures var x := TextFor(n, level); Written(x) && Level(x) >= level && TreeOf(x) == n
    decreases n
  {
    match n
    case Or(l, r) => TextIsWritten(l, 0); TextIsWritten(r, 1);
    case And(l, r) => TextIsWritten(l, 1); TextIsWritten(r, 2);
    case Not(x) => TextIsWritten(x, 3);
    case Compare(op, f, v) => LiteralWeighs(v);
    case Like(f, p) =>
  }

  function Print(n: FilterNode): string
    requires Printable(n)
  {
    TextIsWritten(n, 0);
    Then(TextFor(n, 0), "")
  }

  /** Every expressible tree is the parse of its own minimal text: precedence and left association are exactly those
      the printer relies on. */
  lemma ParseUndoesPrint(n: FilterNode)
    requires Printable(n)
    ensures ParseFilter(Print(n)) == Ok(n)
  {
    TextIsWritten(n, 0);
    var x := TextFor(n, 0);
    assert "" + Then(x, "") == Then(x, "");
    SpelledIsParsed(Print(n), n, "", x, "");
  }

  /** Distinct trees have distinct texts. */
  lemma PrintInjective(m: FilterNode, n: FilterNode)
    requires Printable(m) && Printable(n) && Print(m) == Print(n)
    ensures m == n
  {
    ParseUndoesPrint(m);
    ParseUndoesPrint(n);
  }
}
