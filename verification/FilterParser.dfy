/** The filter grammar as recursive descent over the remaining input. The grammar is one function family over a pair
    of operand readers, so that `ParseFilter` (plain literals) and rule templates (literals or placeholders) are two
    instances of the same parser. */
module FilterParser {
  import opened Wrappers
  import opened Json
  import opened Filter

  datatype Parsed<+T> = Fail | Done(rest: string, out: T)

  datatype ReaderPair<V, P> = Readers(value: string -> Parsed<V>, pattern: string -> Parsed<P>)

  ghost predicate Consumes<T>(read: string -> Parsed<T>) {
    forall i :: read(i).Done? ==> |read(i).rest| < |i|
  }

  /** Operand readers that never succeed without consuming input. */
  type Readers<V, P> = r: ReaderPair<V, P> | Consumes(r.value) && Consumes(r.pattern)
    witness Readers((i: string) => Fail, (i: string) => Fail)

  // ---- lexical helpers -------------------------------------------------

  predicate IsSpace(c: char) { c == ' ' || c == '\t' || c == '\r' || c == '\n' }

  /** Unicode White_Space, the class removed by string trimming. */
  predicate IsWhite(c: char) {
    var n := c as int;
    || 0x09 <= n <= 0x0D || n == 0x20 || n == 0x85 || n == 0xA0 || n == 0x1680
    || 0x2000 <= n <= 0x200A || n == 0x2028 || n == 0x2029 || n == 0x202F || n == 0x205F || n == 0x3000
  }

  predicate Blank(s: string) { forall i | 0 <= i < |s| :: IsWhite(s[i]) }

  predicate IsDigit(c: char) { '0' <= c <= '9' }
  predicate IsIdentStart(c: char) { 'a' <= c <= 'z' || 'A' <= c <= 'Z' || c == '_' }
  predicate IsIdentChar(c: char) { IsIdentStart(c) || IsDigit(c) || c == '.' }
  predicate NotQuote(c: char) { c != '"' }

  function SkipWs(i: string): (r: string)
    ensures |r| <= |i|
  {
    if i != "" && IsSpace(i[0]) then SkipWs(i[1..]) else i
  }

  datatype CharClass = IdentChar | Digit | NonQuote {
    predicate Has(c: char) {
      match this
      case IdentChar => IsIdentChar(c)
      case Digit => IsDigit(c)
      case NonQuote => NotQuote(c)
    }
  }

  /** Length of the longest prefix whose characters are all in the class. */
  function Span(p: CharClass, i: string): (n: nat)
    ensures n <= |i|
    ensures forall k | 0 <= k < n :: p.Has(i[k])
    ensures n < |i| ==> !p.Has(i[n])
  {
    if i != "" && p.Has(i[0]) then 1 + Span(p, i[1..]) else 0
  }

  function Tag(t: string, i: string): (r: Option<string>)
    ensures r.Some? ==> |r.value| == |i| - |t|
  {
    if t <= i then Some(i[|t|..]) else None
  }

  function WsTag(t: string, i: string): (r: Option<string>)
    ensures r.Some? ==> |r.value| + |t| <= |i|
  {
    match Tag(t, SkipWs(i))
    case Some(rest) => Some(SkipWs(rest))
    case None => None
  }

  // ---- grammar ---------------------------------------------------------

  function OrExpr<V, P>(r: Readers<V, P>, i: string): (p: Parsed<Node<V, P>>)
    ensures p.Done? ==> |p.rest| < |i|
    decreases |i|, 4
  {
    match AndExpr(r, i)
    case Fail => Fail
    case Done(i', n) => OrRest(r, n, i')
  }

  /** Folds `( '||' and_expr )*` onto `acc`, stopping where the repetition stops. */
  function OrRest<V, P>(r: Readers<V, P>, acc: Node<V, P>, i: string): (p: Parsed<Node<V, P>>)
    ensures p.Done? && |p.rest| <= |i|
    decreases |i|, 4
  {
    match WsTag("||", i)
    case None => Done(i, acc)
    case Some(i') =>
      match AndExpr(r, i')
      case Fail => Done(i, acc)
      case Done(i'', n) => OrRest(r, Or(acc, n), i'')
  }

  function AndExpr<V, P>(r: Readers<V, P>, i: string): (p: Parsed<Node<V, P>>)
    ensures p.Done? ==> |p.rest| < |i|
    decreases |i|, 3
  {
    match NotExpr(r, i)
    case Fail => Fail
    case Done(i', n) => AndRest(r, n, i')
  }

  function AndRest<V, P>(r: Readers<V, P>, acc: Node<V, P>, i: string): (p: Parsed<Node<V, P>>)
    ensures p.Done? && |p.rest| <= |i|
    decreases |i|, 3
  {
    match WsTag("&&", i)
    case None => Done(i, acc)
    case Some(i') =>
      match NotExpr(r, i')
      case Fail => Done(i, acc)
      case Done(i'', n) => AndRest(r, And(acc, n), i'')
  }

  function NotExpr<V, P>(r: Readers<V, P>, i: string): (p: Parsed<Node<V, P>>)
    ensures p.Done? ==> |p.rest| < |i|
    decreases |i|, 2
  {
    match WsTag("!", i)
    case None => Atom(r, i)
    case Some(i') =>
      match Atom(r, i')
      case Done(i'', n) => Done(i'', Not(n))
      case Fail => Atom(r, i)
  }

  function Atom<V, P>(r: Readers<V, P>, i: string): (p: Parsed<Node<V, P>>)
    ensures p.Done? ==> |p.rest| < |i|
    decreases |i|, 1
  {
    var group := match WsTag("(", i)
      case None => Fail
      case Some(i') =>
        match OrExpr(r, i')
        case Fail => Fail
        case Done(i'', n) =>
          match WsTag(")", i'')
          case None => Fail
          case Some(i''') => Done(i''', n);
    if group.Done? then group else Comparison(r, i)
  }

  function Comparison<V, P>(r: Readers<V, P>, i: string): (p: Parsed<Node<V, P>>)
    ensures p.Done? ==> |p.rest| < |i|
    decreases |i|, 0
  {
    match SubjectOf(i)
    case Fail => Fail
    case Done(i', Subject(field, None)) =>
      (match r.pattern(i')
       case Fail => Fail
       case Done(rest, pat) => Done(rest, Like(field, pat)))
    case Done(i', Subject(field, Some(op))) =>
      (match r.value(i')
       case Fail => Fail
       case Done(rest, v) => Done(rest, Compare(op, field, v)))
  }

  /** The part of a comparison before its operand; no operator stands for `~`. */
  datatype Subject = Subject(field: string, op: Option<CmpOp>)

  function SubjectOf(i: string): (p: Parsed<Subject>)
    ensures p.Done? ==> |p.rest| < |i|
  {
    match Ident(SkipWs(i))
    case Fail => Fail
    case Done(i', field) =>
      match Operator(SkipWs(i'))
      case Fail => Fail
      case Done(i'', op) => Done(SkipWs(i''), Subject(field, op))
  }

  /** One or more letters or `_`, then letters, digits, `_` and `.`: a single run. */
  function Ident(i: string): (p: Parsed<string>)
    ensures p.Done? ==> |p.rest| < |i|
  {
    if i == "" || !IsIdentStart(i[0]) then Fail
    else
      var n := Span(IdentChar, i);
      Done(i[n..], i[..n])
  }

  /** The operators in the order they are tried; `None` stands for `~`. */
  function Operator(i: string): (p: Parsed<Option<CmpOp>>)
    ensures p.Done? ==> |p.rest| < |i|
  {
    if ">=" <= i then Done(i[2..], Some(Gte))
    else if "<=" <= i then Done(i[2..], Some(Lte))
    else if "!=" <= i then Done(i[2..], Some(Ne))
    else if "=" <= i then Done(i[1..], Some(Eq))
    else if ">" <= i then Done(i[1..], Some(Gt))
    else if "<" <= i then Done(i[1..], Some(Lt))
    else if "~" <= i then Done(i[1..], None)
    else Fail
  }

  // ---- literals --------------------------------------------------------

  function StringLiteral(i: string): (p: Parsed<string>)
    ensures p.Done? ==> |p.rest| < |i|
  {
    if !("\"" <= i) then Fail
    else
      var n := Span(NonQuote, i[1..]);
      if n == |i| - 1 then Fail else Done(i[n + 2..], i[1..n + 1])
  }

  function NatOf(ds: string): nat
    requires forall k | 0 <= k < |ds| :: IsDigit(ds[k])
  {
    if ds == "" then 0
    else
      assert IsDigit(ds[|ds| - 1]);
      10 * NatOf(ds[..|ds| - 1]) + (ds[|ds| - 1] as int - '0' as int)
  }

  /** `r` moved `places` decimal places to the right of the point. */
  function Shifted(r: real, places: nat): real {
    if places == 0 then r else Shifted(r, places - 1) / 10.0
  }

  const TWO_POW_63: int := 0x8000_0000_0000_0000

  /** Decimal digits with an optional fraction. */
  datatype Decimal = Decimal(whole: nat, frac: nat, places: nat) {
    function Size(): real { whole as real + Shifted(frac as real, places) }
  }

  function Magnitude(j: string): (p: Parsed<Decimal>)
    ensures p.Done? ==> |p.rest| < |j|
  {
    var d := Span(Digit, j);
    var tail := j[d..];
    if d == 0 then Fail
    else if "." <= tail then
      var f := Span(Digit, tail[1..]);
      Done(tail[1..][f..], Decimal(NatOf(j[..d]), NatOf(tail[1..][..f]), f))
    else Done(tail, Decimal(NatOf(j[..d]), 0, 0))
  }

  /** Whole numbers in the 64-bit range become integers, everything else a float. */
  function Signed(neg: bool, d: Decimal): Number {
    var whole: int := d.whole;
    if d.frac == 0 && whole < TWO_POW_63 then Int(if neg then -whole else whole)
    else Float(if neg then -d.Size() else d.Size())
  }

  function NumberLiteral(i: string): (p: Parsed<Number>)
    ensures p.Done? ==> |p.rest| < |i|
  {
    var neg := "-" <= i;
    match Magnitude(if neg then i[1..] else i)
    case Fail => Fail
    case Done(rest, d) => Done(rest, Signed(neg, d))
  }

  function JsonValue(i: string): (p: Parsed<Value>)
    ensures p.Done? ==> |p.rest| < |i|
  {
    if "null" <= i then Done(i[4..], Null)
    else if "true" <= i then Done(i[4..], Bool(true))
    else if "false" <= i then Done(i[5..], Bool(false))
    else match StringLiteral(i)
      case Done(rest, s) => Done(rest, Str(s))
      case Fail =>
        match NumberLiteral(i)
        case Done(rest, n) => Done(rest, Num(n))
        case Fail => Fail
  }

  function Plain(): Readers<Value, string> {
    Readers(JsonValue, StringLiteral)
  }

  // ---- entry point -----------------------------------------------------

  datatype ParseError = EmptyFilter | TrailingInput(rest: string) | SyntaxError

  function ParseWith<V, P>(r: Readers<V, P>, input: string): Result<Node<V, P>, ParseError> {
    if Blank(input) then Err(EmptyFilter)
    else match OrExpr(r, input)
      case Fail => Err(SyntaxError)
      case Done(rest, n) => if Blank(rest) then Ok(n) else Err(TrailingInput(rest))
  }

  function ParseFilter(input: string): Result<FilterNode, ParseError> {
    ParseWith(Plain(), input)
  }
}
