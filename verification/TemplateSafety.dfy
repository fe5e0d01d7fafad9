/** Why no context value can change the shape of a rule: a scanner for the quoting structure of filter text, kept by
    the grammar and broken by every spliced quote. */
module TemplateSafety {
  import opened Wrappers
  import opened Json
  import opened Filter
  import opened FilterParser
  import opened FilterLexing
  import opened RuleTemplate
  import opened TemplateMeaning

  // ---- the scanner -----------------------------------------------------------

  /** Outside string literals, inside one, or outside and just after `~`. */
  datatype Mode = Outside | Inside | Tilde

  /** Backslashes stand only inside literals, and `~` is followed by a literal. */
  function Advance(c: char, m: Mode): Option<Mode> {
    match m
    case Inside => Some(if c == '"' then Outside else Inside)
    case Outside => if c == '\\' then None else Some(if c == '"' then Inside else if c == '~' then Tilde else Outside)
    case Tilde => if c == '"' then Some(Inside) else if IsSpace(c) then Some(Tilde) else None
  }

  function Scan(s: string, m: Mode): Option<Mode> {
    if s == "" then Some(m)
    else match Advance(s[0], m) case None => None case Some(m') => Scan(s[1..], m')
  }

  lemma {:induction false} ScanConcat(a: string, b: string, m: Mode)
    ensures Scan(a + b, m) == match Scan(a, m) case None => None case Some(m') => Scan(b, m')
  {
    if a == "" { assert a + b == b; }
    else {
      assert (a + b)[1..] == a[1..] + b;
      if Advance(a[0], m).Some? { ScanConcat(a[1..], b, Advance(a[0], m).value); }
    }
  }

  /** Characters that never change the mode outside a literal or inside one. */
  predicate Token(t: string) { forall j | 0 <= j < |t| :: t[j] !in {'"', '\\', '~', '{'} }

  lemma {:induction false} TokenScan(t: string, m: Mode)
    requires Token(t) && !m.Tilde?
    ensures Scan(t, m) == Some(m)
  {
    if t != "" {
      assert t[0] !in {'"', '\\', '~', '{'};
      assert Token(t[1..]) by { assert forall j | 1 <= j < |t| :: t[j] !in {'"', '\\', '~', '{'}; }
      TokenScan(t[1..], m);
    }
  }

  lemma {:induction false} LiteralScan(c: string, m: Mode)
    requires QuoteFree(c)
    ensures m.Inside? ==> Scan(c, m) == Some(Inside)
    ensures !m.Inside? ==> Scan(c, m) in {None, Some(Outside), Some(Tilde)}
  {
    if c != "" {
      assert NotQuote(c[0]);
      assert QuoteFree(c[1..]) by { assert forall k | 1 <= k < |c| :: NotQuote(c[k]); }
      if Advance(c[0], m).Some? { LiteralScan(c[1..], Advance(c[0], m).value); }
    }
  }

  /** Escaped text read outside a literal stops at the first escape. */
  lemma {:induction false} EscapedOutside(v: string, m: Mode)
    requires !m.Inside?
    ensures Scan(Escaped(v), m) in {None, Some(Outside), Some(Tilde)}
    ensures !QuoteFree(v) ==> Scan(Escaped(v), m) == None
  {
    if v != "" {
      ScanConcat(EscapeChar(v[0]), Escaped(v[1..]), m);
      if !NeedsEscape(v[0]) && Advance(v[0], m).Some? {
        EscapedOutside(v[1..], Advance(v[0], m).value);
        if QuoteFree(v[1..]) { assert forall k | 1 <= k < |v| :: v[k] == v[1..][k - 1]; }
      }
    }
  }

  /** Escaped text read inside a literal leaves it exactly when the value has a quote. */
  lemma {:induction false} EscapedInside(v: string)
    ensures QuoteFree(v) ==> Scan(Escaped(v), Inside) == Some(Inside)
    ensures !QuoteFree(v) ==> Scan(Escaped(v), Inside) in {None, Some(Outside), Some(Tilde)}
  {
    if v != "" {
      ScanConcat(EscapeChar(v[0]), Escaped(v[1..]), Inside);
      if v[0] == '"' {
        assert Scan("\\\"", Inside) == Some(Outside) by { assert "\\\""[1..] == "\""; }
        EscapedOutside(v[1..], Outside);
      } else {
        LiteralScan(EscapeChar(v[0]), Inside);
        EscapedInside(v[1..]);
        if QuoteFree(v[1..]) { assert forall k | 1 <= k < |v| :: v[k] == v[1..][k - 1]; }
        if QuoteFree(v) { assert forall k | 0 <= k < |v[1..]| :: v[1..][k] == v[k + 1]; }
      }
    }
  }

  /** How a stretch of text moves the scanner: never from inside to outside, and from outside back to outside unless
      the stretch is `bad`. */
  predicate Moves(x: string, m: Mode, bad: bool) {
    && Scan(x, Inside) in {None, Some(Inside)}
    && (if bad then Scan(x, m) in {None, Some(Inside)} else Scan(x, m) == Some(Outside))
  }

  lemma QuotedMoves(e: string, m: Mode, bad: bool)
    requires !m.Inside?
    requires Scan(e, Outside) in {None, Some(Outside), Some(Tilde)}
    requires if bad then Scan(e, Inside) in {None, Some(Outside), Some(Tilde)} else Scan(e, Inside) == Some(Inside)
    ensures Moves("\"" + e + "\"", m, bad)
  {
    var x := "\"" + e + "\"";
    assert x[1..] == e + "\"";
    ScanConcat(e, "\"", Inside);
    ScanConcat(e, "\"", Outside);
    assert "\""[1..] == "";
  }

  lemma SplicedMoves(v: Option<string>, m: Mode)
    requires !m.Inside?
    ensures var bad := if v.None? then m.Tilde? else !QuoteFree(v.value);
            Moves(ValueText(v), m, bad)
  {
    match v
    case None =>
      TokenScan("null", Inside);
      TokenScan("null", Outside);
    case Some(s) =>
      EscapedInside(s);
      EscapedOutside(s, Outside);
      QuotedMoves(Escaped(s), m, !QuoteFree(s));
  }

  // ---- what parsing a stretch of text does to the scanner -----------------------

  /** Filter text read as it stands, or rule text read after substitution. */
  datatype Side = Direct | Substituted(ctx: RuleContext)

  function TextOf(side: Side, i: string): Result<string, TemplateError> {
    match side case Direct => Ok(i) case Substituted(ctx) => Subst(i, ctx)
  }

  predicate Transfer(w: string, w': string, bad: bool) {
    && Scan(w, Inside) in {None, Scan(w', Inside)}
    && (if bad then Scan(w, Outside) in {None, Scan(w', Inside)} else Scan(w, Outside) == Scan(w', Outside))
  }

  /** From position `i` to the later position `i'` of the same text. */
  predicate Rel(side: Side, i: string, i': string, bad: bool) {
    TextOf(side, i').Ok? ==> TextOf(side, i).Ok? && Transfer(TextOf(side, i).value, TextOf(side, i').value, bad)
  }

  lemma RelTrans(side: Side, a: string, b: string, c: string, p: bool, q: bool)
    requires Rel(side, a, b, p) && Rel(side, b, c, q)
    ensures Rel(side, a, c, p || q)
  {}

  lemma RelPiece(side: Side, x: string, i: string, i': string, bad: bool)
    requires TextOf(side, i').Ok? ==> TextOf(side, i) == Ok(x + TextOf(side, i').value)
    requires Moves(x, Outside, bad)
    ensures Rel(side, i, i', bad)
  {
    if TextOf(side, i').Ok? {
      ScanConcat(x, TextOf(side, i').value, Inside);
      ScanConcat(x, TextOf(side, i').value, Outside);
    }
  }

  /** Text without placeholders is the same on both sides. */
  lemma Unchanged(side: Side, k: nat, i: string)
    requires k <= |i| && forall j | 0 <= j < k :: i[j] == '{' ==> j + 1 < |i| && i[j + 1] != '{'
    ensures TextOf(side, i[k..]).Ok? ==> TextOf(side, i) == Ok(i[..k] + TextOf(side, i[k..]).value)
  {
    if side.Substituted? { Copies(k, i, side.ctx); } else { assert i[..k] + i[k..] == i; }
  }

  lemma RelToken(side: Side, k: nat, i: string)
    requires k <= |i| && Token(i[..k])
    ensures Rel(side, i, i[k..], false)
  {
    assert forall j | 0 <= j < k :: i[j] == i[..k][j];
    Unchanged(side, k, i);
    TokenScan(i[..k], Outside);
    TokenScan(i[..k], Inside);
    RelPiece(side, i[..k], i, i[k..], false);
  }

  lemma {:induction false} RelSkip(side: Side, i: string)
    ensures Rel(side, i, SkipWs(i), false)
  {
    if i != "" && IsSpace(i[0]) {
      assert i[..1][0] == i[0];
      RelToken(side, 1, i);
      RelSkip(side, i[1..]);
    }
  }

  lemma RelWsTag(side: Side, t: string, i: string)
    requires Token(t) && WsTag(t, i).Some?
    ensures Rel(side, i, WsTag(t, i).value, false)
  {
    var j := SkipWs(i);
    RelSkip(side, i);
    assert j[..|t|] == t;
    RelToken(side, |t|, j);
    RelSkip(side, j[|t|..]);
  }

  /** Operand readers whose stretches move the scanner as their operands say. */
  ghost predicate Steps<V, P>(r: Readers<V, P>, side: Side, badV: V -> bool, badP: P -> bool) {
    && (forall i :: r.value(i).Done? ==> Rel(side, i, r.value(i).rest, badV(r.value(i).out)))
    && (forall i :: "~" <= i && r.pattern(SkipWs(i[1..])).Done? ==>
          Rel(side, i, r.pattern(SkipWs(i[1..])).rest, badP(r.pattern(SkipWs(i[1..])).out)))
  }

  predicate Bad<V, P>(n: Node<V, P>, badV: V -> bool, badP: P -> bool) {
    match n
    case And(l, r) => Bad(l, badV, badP) || Bad(r, badV, badP)
    case Or(l, r) => Bad(l, badV, badP) || Bad(r, badV, badP)
    case Not(x) => Bad(x, badV, badP)
    case Compare(_, _, v) => badV(v)
    case Like(_, p) => badP(p)
    case In(_, vs) => exists i | 0 <= i < |vs| :: badV(vs[i])
  }

  /** Up to the operand, or up to the `~` in front of a pattern. */
  lemma SubjectRel(side: Side, i: string) returns (j: string)
    requires SubjectOf(i).Done?
    ensures Rel(side, i, j, false)
    ensures SubjectOf(i).out.op.Some? ==> j == SubjectOf(i).rest
    ensures SubjectOf(i).out.op.None? ==> "~" <= j && SubjectOf(i).rest == SkipWs(j[1..])
  {
    var i1 := SkipWs(i);
    var i2 := Ident(i1).rest;
    RelSkip(side, i);
    IdentToken(i1);
    RelToken(side, |i1| - |i2|, i1);
    RelTrans(side, i, i1, i2, false, false);
    j := SkipWs(i2);
    RelSkip(side, i2);
    RelTrans(side, i, i2, j, false, false);
    if SubjectOf(i).out.op.Some? { j := OperatorRel(side, i, j); }
  }

  lemma OperatorRel(side: Side, i: string, j: string) returns (k: string)
    requires Rel(side, i, j, false) && Operator(j).Done? && Operator(j).out.Some?
    ensures k == SkipWs(Operator(j).rest) && Rel(side, i, k, false)
  {
    var j' := Operator(j).rest;
    OperatorToken(j);
    RelToken(side, |j| - |j'|, j);
    RelSkip(side, j');
    k := SkipWs(j');
    RelTrans(side, i, j, j', false, false);
    RelTrans(side, i, j', k, false, false);
  }

  lemma ComparisonRel<V, P>(r: Readers<V, P>, side: Side, badV: V -> bool, badP: P -> bool, i: string)
    requires Steps(r, side, badV, badP) && Comparison(r, i).Done?
    ensures Rel(side, i, Comparison(r, i).rest, Bad(Comparison(r, i).out, badV, badP))
  {
    var j := SubjectRel(side, i);
    var t := Comparison(r, i);
    RelTrans(side, i, j, t.rest, false, Bad(t.out, badV, badP));
  }

  lemma IdentToken(i: string)
    requires Ident(i).Done?
    ensures var k := |i| - |Ident(i).rest|; Ident(i).rest == i[k..] && Token(i[..k])
  {
    forall j | 0 <= j < Span(IdentChar, i) ensures i[j] !in {'"', '\\', '~', '{'} {
      assert IdentChar.Has(i[j]);
    }
  }

  lemma OperatorToken(i: string)
    requires Operator(i).Done? && Operator(i).out.Some?
    ensures var k := |i| - |Operator(i).rest|; Operator(i).rest == i[k..] && Token(i[..k])
  {}

  lemma {:induction false} AtomRel<V, P>(r: Readers<V, P>, side: Side, badV: V -> bool, badP: P -> bool, i: string)
    requires Steps(r, side, badV, badP) && Atom(r, i).Done?
    ensures Rel(side, i, Atom(r, i).rest, Bad(Atom(r, i).out, badV, badP))
    decreases |i|, 1
  {
    if WsTag("(", i).Some? && OrExpr(r, WsTag("(", i).value).Done?
      && WsTag(")", OrExpr(r, WsTag("(", i).value).rest).Some? {
      var i' := WsTag("(", i).value;
      RelWsTag(side, "(", i);
      OrRel(r, side, badV, badP, i');
      RelWsTag(side, ")", OrExpr(r, i').rest);
    } else {
      ComparisonRel(r, side, badV, badP, i);
    }
  }

  lemma {:induction false} NotRel<V, P>(r: Readers<V, P>, side: Side, badV: V -> bool, badP: P -> bool, i: string)
    requires Steps(r, side, badV, badP) && NotExpr(r, i).Done?
    ensures Rel(side, i, NotExpr(r, i).rest, Bad(NotExpr(r, i).out, badV, badP))
    decreases |i|, 2
  {
    if WsTag("!", i).Some? && Atom(r, WsTag("!", i).value).Done? {
      RelWsTag(side, "!", i);
      AtomRel(r, side, badV, badP, WsTag("!", i).value);
    } else {
      AtomRel(r, side, badV, badP, i);
    }
  }

  lemma {:induction false} AndRestRel<V, P>(
    r: Readers<V, P>, side: Side, badV: V -> bool, badP: P -> bool, start: string, acc: Node<V, P>, i: string)
    requires Steps(r, side, badV, badP) && Rel(side, start, i, Bad(acc, badV, badP))
    ensures Rel(side, start, AndRest(r, acc, i).rest, Bad(AndRest(r, acc, i).out, badV, badP))
    decreases |i|, 3
  {
    if WsTag("&&", i).Some? && NotExpr(r, WsTag("&&", i).value).Done? {
      var i' := WsTag("&&", i).value;
      RelWsTag(side, "&&", i);
      NotRel(r, side, badV, badP, i');
      AndRestRel(r, side, badV, badP, start, And(acc, NotExpr(r, i').out), NotExpr(r, i').rest);
    }
  }

  lemma {:induction false} AndRel<V, P>(r: Readers<V, P>, side: Side, badV: V -> bool, badP: P -> bool, i: string)
    requires Steps(r, side, badV, badP) && AndExpr(r, i).Done?
    ensures Rel(side, i, AndExpr(r, i).rest, Bad(AndExpr(r, i).out, badV, badP))
    decreases |i|, 4
  {
    NotRel(r, side, badV, badP, i);
    AndRestRel(r, side, badV, badP, i, NotExpr(r, i).out, NotExpr(r, i).rest);
  }

  lemma {:induction false} OrRestRel<V, P>(
    r: Readers<V, P>, side: Side, badV: V -> bool, badP: P -> bool, start: string, acc: Node<V, P>, i: string)
    requires Steps(r, side, badV, badP) && Rel(side, start, i, Bad(acc, badV, badP))
    ensures Rel(side, start, OrRest(r, acc, i).rest, Bad(OrRest(r, acc, i).out, badV, badP))
    decreases |i|, 5
  {
    if WsTag("||", i).Some? && AndExpr(r, WsTag("||", i).value).Done? {
      var i' := WsTag("||", i).value;
      RelWsTag(side, "||", i);
      AndRel(r, side, badV, badP, i');
      OrRestRel(r, side, badV, badP, start, Or(acc, AndExpr(r, i').out), AndExpr(r, i').rest);
    }
  }

  lemma {:induction false} OrRel<V, P>(r: Readers<V, P>, side: Side, badV: V -> bool, badP: P -> bool, i: string)
    requires Steps(r, side, badV, badP) && OrExpr(r, i).Done?
    ensures Rel(side, i, OrExpr(r, i).rest, Bad(OrExpr(r, i).out, badV, badP))
    decreases |i|, 6
  {
    AndRel(r, side, badV, badP, i);
    OrRestRel(r, side, badV, badP, i, AndExpr(r, i).out, AndExpr(r, i).rest);
  }

  // ---- the two readers -------------------------------------------------------

  /** A literal reads to the same place on both sides and leaves the scanner outside. */
  lemma LiteralRel(side: Side, i: string)
    requires JsonValue(i).Done? && (side.Direct? || !JsonValue(i).out.Str? || !HasHoleOpening(JsonValue(i).out.s))
    ensures Rel(side, i, JsonValue(i).rest, false)
  {
    var v := JsonValue(i).out;
    if v.Str? {
      StringPiece(side, i);
      RelPiece(side, "\"" + v.s + "\"", i, JsonValue(i).rest, false);
    } else {
      var k := ScalarToken(i);
      RelToken(side, k, i);
    }
  }

  lemma StringPiece(side: Side, i: string)
    requires StringLiteral(i).Done? && (side.Direct? || !HasHoleOpening(StringLiteral(i).out))
    ensures var c := StringLiteral(i).out; var i' := StringLiteral(i).rest;
            && Moves("\"" + c + "\"", Outside, false) && Moves("\"" + c + "\"", Tilde, false)
            && (TextOf(side, i').Ok? ==> TextOf(side, i) == Ok("\"" + c + "\"" + TextOf(side, i').value))
  {
    var c := StringLiteral(i).out;
    var k := |c| + 2;
    StringShape(i);
    LiteralScan(c, Inside);
    LiteralScan(c, Outside);
    QuotedMoves(c, Outside, false);
    QuotedMoves(c, Tilde, false);
    if side.Direct? {
      assert i[..k] + i[k..] == i;
    } else {
      forall j | 0 <= j < k && i[j] == '{' ensures j + 1 < |i| && i[j + 1] != '{' {
        assert i[j] == c[j - 1];
        if j < |c| { assert i[j + 1] == c[j]; }
      }
      Unchanged(side, k, i);
    }
  }

  lemma ScalarToken(i: string) returns (k: nat)
    requires JsonValue(i).Done? && !JsonValue(i).out.Str?
    ensures k <= |i| && JsonValue(i).rest == i[k..] && Token(i[..k])
  {
    ScalarShape(i);
    var v := JsonValue(i).out;
    if v.Num? {
      k := NumberToken(i);
    } else {
      k := |WordText(v)|;
      KeywordToken(v);
    }
  }

  lemma KeywordToken(v: Value)
    requires v.Null? || v.Bool?
    ensures Token(WordText(v))
  {}

  lemma NumberToken(i: string) returns (k: nat)
    requires NumberLiteral(i).Done?
    ensures k <= |i| && NumberLiteral(i).rest == i[k..] && Token(i[..k])
  {
    if "-" <= i {
      k := MagnitudeToken(i[1..]);
      MinusToken(i, k);
      k := k + 1;
    } else {
      k := MagnitudeToken(i);
    }
  }

  lemma MinusToken(i: string, k: nat)
    requires "-" <= i && k < |i| && Token(i[1..][..k])
    ensures i[1..][k..] == i[k + 1..] && Token(i[..k + 1])
  {
    assert i[..k + 1] == "-" + i[1..][..k];
  }

  lemma MagnitudeToken(j: string) returns (k: nat)
    requires Magnitude(j).Done?
    ensures k <= |j| && Magnitude(j).rest == j[k..] && Token(j[..k])
  {
    var d := Span(Digit, j);
    var tail := j[d..];
    k := d;
    assert forall x | 0 <= x < d :: Digit.Has(j[x]);
    if "." <= tail {
      var f := Span(Digit, tail[1..]);
      k := d + 1 + f;
      assert tail[1..][f..] == j[k..];
      forall x | 0 <= x < k ensures j[x] !in {'"', '\\', '~', '{'} {
        if x > d { assert Digit.Has(tail[1..][x - d - 1]); }
      }
    }
  }

  predicate Never<T>(x: T) { false }

  lemma PlainSteps()
    ensures Steps(Plain(), Direct, Never<Value>, Never<string>)
  {
    forall i | JsonValue(i).Done? ensures Rel(Direct, i, JsonValue(i).rest, false) { LiteralRel(Direct, i); }
    forall i | "~" <= i && StringLiteral(SkipWs(i[1..])).Done?
      ensures Rel(Direct, i, StringLiteral(SkipWs(i[1..])).rest, false)
    {
      var j := SkipWs(i[1..]);
      StringPiece(Direct, j);
      PatternPiece(Direct, i, "\"" + StringLiteral(j).out + "\"", StringLiteral(j).rest, false);
    }
  }

  /** A `~`, spaces and the pattern text `x`. */
  lemma PatternPiece(side: Side, i: string, x: string, i': string, bad: bool)
    requires "~" <= i && Moves(x, Tilde, bad)
    requires TextOf(side, i').Ok? ==> TextOf(side, SkipWs(i[1..])) == Ok(x + TextOf(side, i').value)
    ensures Rel(side, i, i', bad)
  {
    var k := TildePrefix(i);
    Unchanged(side, k, i);
    ScanConcat(i[..k], x, Outside);
    ScanConcat(i[..k], x, Inside);
    if TextOf(side, i').Ok? { Assoc(i[..k], x, TextOf(side, i').value); }
    RelPiece(side, i[..k] + x, i, i', bad);
  }

  lemma Assoc(a: string, b: string, c: string)
    ensures a + (b + c) == a + b + c
  {
  }

  lemma TildePrefix(i: string) returns (k: nat)
    requires "~" <= i
    ensures k <= |i| && i[k..] == SkipWs(i[1..])
    ensures forall j | 0 <= j < k :: i[j] != '{'
    ensures Scan(i[..k], Outside) == Some(Tilde) && Scan(i[..k], Inside) == Some(Inside)
  {
    var rest := i[1..];
    SpacesAre(rest);
    var n := |rest| - |SkipWs(rest)|;
    k := n + 1;
    assert i[k..] == rest[n..];
    forall j | 0 <= j < k ensures i[j] != '{' { if j > 0 { assert IsSpace(rest[j - 1]); } }
    assert i[..k] == "~" + rest[..n];
    assert i[..k][1..] == rest[..n];
    TildeScan(rest[..n]);
  }

  lemma {:induction false} SpacesAre(i: string)
    ensures var k := |i| - |SkipWs(i)|; SkipWs(i) == i[k..] && forall j | 0 <= j < k :: IsSpace(i[j])
  {
    if i != "" && IsSpace(i[0]) {
      SpacesAre(i[1..]);
      assert forall j | 1 <= j < |i| :: i[j] == i[1..][j - 1];
    }
  }

  lemma {:induction false} TildeScan(s: string)
    requires forall j | 0 <= j < |s| :: IsSpace(s[j])
    ensures Scan(s, Tilde) == Some(Tilde) && Scan(s, Inside) == Some(Inside)
  {
    if s != "" { TildeScan(s[1..]); }
  }

  predicate BadOperand(ctx: RuleContext, pattern: bool, o: Operand) { !OperandOk(o, pattern, ctx, QuoteFree) }

  lemma HoleSteps(ctx: RuleContext)
    ensures Steps(Holes(), Substituted(ctx), o => BadOperand(ctx, false, o), o => BadOperand(ctx, true, o))
  {
    var side := Substituted(ctx);
    forall i | OperandReader(i).Done?
      ensures Rel(side, i, OperandReader(i).rest, BadOperand(ctx, false, OperandReader(i).out))
    {
      OperandRel(ctx, i);
    }
    forall i | "~" <= i && PatternReader(SkipWs(i[1..])).Done?
      ensures Rel(side, i, PatternReader(SkipWs(i[1..])).rest, BadOperand(ctx, true, PatternReader(SkipWs(i[1..])).out))
    {
      PatternRel(ctx, i);
    }
  }

  lemma OperandRel(ctx: RuleContext, i: string)
    requires OperandReader(i).Done?
    ensures Rel(Substituted(ctx), i, OperandReader(i).rest, BadOperand(ctx, false, OperandReader(i).out))
  {
    var side := Substituted(ctx);
    if HoleReader(i).Done? {
      var v := ctx.Get(HoleReader(i).out);
      SplicedMoves(v, Outside);
      RelPiece(side, ValueText(v), i, HoleReader(i).rest, v.Some? && !QuoteFree(v.value));
    } else {
      LiteralRel(side, i);
    }
  }

  lemma PatternRel(ctx: RuleContext, i: string)
    requires "~" <= i && PatternReader(SkipWs(i[1..])).Done?
    ensures var p := PatternReader(SkipWs(i[1..]));
            Rel(Substituted(ctx), i, p.rest, BadOperand(ctx, true, p.out))
  {
    var side := Substituted(ctx);
    var j := SkipWs(i[1..]);
    if HoleReader(j).Done? {
      var v := ctx.Get(HoleReader(j).out);
      SplicedMoves(v, Tilde);
      PatternPiece(side, i, ValueText(v), HoleReader(j).rest, v.None? || !QuoteFree(v.value));
    } else {
      StringPiece(side, j);
      PatternPiece(side, i, "\"" + StringLiteral(j).out + "\"", StringLiteral(j).rest, false);
    }
  }

  lemma {:induction false} BadIsNotOk(n: Template, ctx: RuleContext)
    ensures Bad(n, o => BadOperand(ctx, false, o), o => BadOperand(ctx, true, o)) <==> !HolesOk(n, ctx, QuoteFree)
  {
    match n
    case And(l, r) => BadIsNotOk(l, ctx); BadIsNotOk(r, ctx);
    case Or(l, r) => BadIsNotOk(l, ctx); BadIsNotOk(r, ctx);
    case Not(x) => BadIsNotOk(x, ctx);
    case _ =>
  }

  // ---- the theorems ------------------------------------------------------------

  lemma {:induction false} BlankScan(s: string, m: Mode)
    requires Blank(s) && !m.Tilde?
    ensures Scan(s, m) == Some(m)
  {
    if s != "" {
      assert IsWhite(s[0]);
      assert Blank(s[1..]) by { assert forall k | 1 <= k < |s| :: IsWhite(s[k]); }
      BlankScan(s[1..], m);
    }
  }

  lemma BlankRest(s: string, ctx: RuleContext)
    requires Blank(s)
    ensures Subst(s, ctx) == Ok(s) && OrEnds(s)
  {
    forall j | 0 <= j < |s| ensures s[j] != '{' { assert IsWhite(s[j]); }
    Copies(|s|, s, ctx);
    assert s[..|s|] == s && s[|s|..] == "" && s + "" == s;
    SpacesAre(s);
    var j := SkipWs(s);
    if j != "" { assert IsWhite(s[|s| - |j|]); }
  }

  /** The text begins, after its spaces, as an expression must. */
  predicate Opens(i: string) {
    var j := SkipWs(i);
    j != "" && (j[0] == '!' || j[0] == '(' || IsIdentStart(j[0]))
  }

  lemma AtomOpens<V, P>(r: Readers<V, P>, i: string)
    requires Atom(r, i).Done?
    ensures Opens(i)
  {
    if WsTag("(", i).Some? { TagHead("(", i); } else { assert Comparison(r, i).Done?; }
  }

  lemma NotOpens<V, P>(r: Readers<V, P>, i: string)
    requires NotExpr(r, i).Done?
    ensures Opens(i)
  {
    if WsTag("!", i).Some? { TagHead("!", i); } else { AtomOpens(r, i); }
  }

  lemma FirstOperand<V, P>(r: Readers<V, P>, i: string)
    requires OrExpr(r, i).Done?
    ensures NotExpr(r, i).Done?
  {
    assert AndExpr(r, i).Done?;
  }

  lemma ParsedIsNotBlank<V, P>(r: Readers<V, P>, i: string)
    requires OrExpr(r, i).Done?
    ensures !Blank(i)
  {
    FirstOperand(r, i);
    NotOpens(r, i);
    OpensIsNotBlank(i);
  }

  lemma OpensIsNotBlank(i: string)
    requires Opens(i)
    ensures !Blank(i)
  {
    SpacesAre(i);
    var j := SkipWs(i);
    assert i[|i| - |j|] == j[0];
  }

  /** Filter text that parses has a well-quoted structure. */
  lemma ParsedIsQuoted(s: string)
    requires ParseFilter(s).Ok?
    ensures Scan(s, Outside) == Some(Outside)
  {
    PlainSteps();
    OrRel(Plain(), Direct, Never<Value>, Never<string>, s);
    NeverBad(OrExpr(Plain(), s).out);
    BlankScan(OrExpr(Plain(), s).rest, Outside);
  }

  lemma {:induction false} NeverBad(n: FilterNode)
    ensures !Bad(n, Never<Value>, Never<string>)
  {
    match n
    case And(l, r) => NeverBad(l); NeverBad(r);
    case Or(l, r) => NeverBad(l); NeverBad(r);
    case Not(x) => NeverBad(x);
    case _ =>
  }

  /** Whatever the context holds, the substituted rule either keeps the rule's own tree, with each placeholder read as
      the JSON escape of its value, or is rejected. It is rejected exactly when a referenced value contains a quote or
      a pattern has no value. */
  lemma RuleShapeIsFixed(t: string, ctx: RuleContext)
    requires ParseTemplate(t).Ok?
    ensures Subst(t, ctx).Ok?
    ensures var n := ParseTemplate(t).value;
            && (HolesOk(n, ctx, QuoteFree) ==>
                  && HolesOk(n, EscapedContext(ctx), Anything)
                  && ParseFilter(Subst(t, ctx).value) == Ok(Fill(n, EscapedContext(ctx))))
            && (!HolesOk(n, ctx, QuoteFree) ==> ParseFilter(Subst(t, ctx).value).Err?)
  {
    var p := OrExpr(Holes(), t);
    var side := Substituted(ctx);
    BlankRest(p.rest, ctx);
    HoleSteps(ctx);
    OrRel(Holes(), side, o => BadOperand(ctx, false, o), o => BadOperand(ctx, true, o), t);
    BadIsNotOk(p.out, ctx);
    if HolesOk(p.out, ctx, QuoteFree) {
      OrCommutes(t, ctx);
      ParsedIsNotBlank(Plain(), S(t, ctx));
    } else if ParseFilter(S(t, ctx)).Ok? {
      BlankScan(p.rest, Inside);
      ParsedIsQuoted(S(t, ctx));
      assert false;
    }
  }

  lemma {:induction false} EscapeFreeText(s: string)
    ensures NoEscape(s) <==> Escaped(s) == s
    ensures |Escaped(s)| >= |s|
  {
    if s != "" {
      EscapeFreeText(s[1..]);
      assert s == s[..1] + s[1..];
      assert NoEscape(s) <==> !NeedsEscape(s[0]) && NoEscape(s[1..]) by {
        assert forall k | 0 <= k < |s[1..]| :: s[1..][k] == s[k + 1];
        assert forall k | 1 <= k < |s| :: s[k] == s[1..][k - 1];
      }
      if !NeedsEscape(s[0]) && Escaped(s) == s { assert Escaped(s)[1..] == Escaped(s[1..]); }
    }
  }

  /** Filling with the escaped context is filling with the context exactly when nothing is escaped. */
  lemma {:induction false} FillEscaped(n: Template, ctx: RuleContext)
    requires HolesOk(n, ctx, Anything) && HolesOk(n, EscapedContext(ctx), Anything)
    ensures Fill(n, EscapedContext(ctx)) == Fill(n, ctx) <==> HolesOk(n, ctx, NoEscape)
  {
    match n
    case And(l, r) => FillEscaped(l, ctx); FillEscaped(r, ctx);
    case Or(l, r) => FillEscaped(l, ctx); FillEscaped(r, ctx);
    case Not(x) => FillEscaped(x, ctx);
    case Compare(_, _, o) => OperandEscaped(o, false, ctx);
    case Like(_, o) => OperandEscaped(o, true, ctx);
    case In(_, os) =>
      forall i | 0 <= i < |os|
        ensures Meant(os[i], EscapedContext(ctx)) == Meant(os[i], ctx) <==> OperandOk(os[i], false, ctx, NoEscape)
      {
        OperandEscaped(os[i], false, ctx);
      }
      var a := Fill(n, EscapedContext(ctx)).values;
      var b := Fill(n, ctx).values;
      assert forall i | 0 <= i < |os| :: a[i] == Meant(os[i], EscapedContext(ctx)) && b[i] == Meant(os[i], ctx);
      assert HolesOk(n, ctx, NoEscape) ==> a == b;
  }

  lemma OperandEscaped(o: Operand, pattern: bool, ctx: RuleContext)
    requires OperandOk(o, pattern, ctx, Anything)
    ensures Meant(o, EscapedContext(ctx)) == Meant(o, ctx) <==> OperandOk(o, pattern, ctx, NoEscape)
  {
    if o.Hole? && ctx.Get(o.path).Some? { EscapeFreeText(ctx.Get(o.path).value); }
  }

  lemma {:induction false} NoEscapeIsQuoteFree(n: Template, ctx: RuleContext)
    requires HolesOk(n, ctx, NoEscape)
    ensures HolesOk(n, ctx, QuoteFree)
  {
    match n
    case And(l, r) => NoEscapeIsQuoteFree(l, ctx); NoEscapeIsQuoteFree(r, ctx);
    case Or(l, r) => NoEscapeIsQuoteFree(l, ctx); NoEscapeIsQuoteFree(r, ctx);
    case Not(x) => NoEscapeIsQuoteFree(x, ctx);
    case _ =>
  }

  /** Substituting and then parsing is parsing and then filling, exactly when every referenced context value needs no
      JSON escape and every pattern has a value. */
  lemma SubstitutionCommutes(t: string, ctx: RuleContext)
    requires ParseTemplate(t).Ok?
    ensures var n := ParseTemplate(t).value;
            && Subst(t, ctx).Ok?
            && (HolesOk(n, ctx, NoEscape)
                <==> HolesOk(n, ctx, Anything) && ParseFilter(Subst(t, ctx).value) == Ok(Fill(n, ctx)))
  {
    var n := ParseTemplate(t).value;
    RuleShapeIsFixed(t, ctx);
    if HolesOk(n, ctx, NoEscape) { NoEscapeIsQuoteFree(n, ctx); }
    if HolesOk(n, ctx, QuoteFree) {
      HolesWeaken(n, ctx, QuoteFree);
      FillEscaped(n, ctx);
    }
  }
}
