/** Rules with placeholders as syntax trees, and the theorem that splicing text and then parsing is the same as
    parsing the rule and then filling the placeholders. */
module TemplateMeaning {
  import opened Wrappers
  import opened Json
  import opened Filter
  import opened FilterParser
  import opened FilterLexing
  import opened RuleTemplate

  /** An operand of a rule: a literal, or a placeholder in value position. */
  datatype Operand = Lit(v: Value) | Hole(path: Path)

  type Template = Node<Operand, Operand>

  predicate HasHoleOpening(s: string) { exists i | 0 <= i < |s| - 1 :: s[i] == '{' && s[i + 1] == '{' }

  function HoleReader(i: string): (p: Parsed<Path>)
    ensures p.Done? ==> |p.rest| < |i|
  {
    if !("{{" <= i) then Fail
    else match CloseAt(i, 2)
      case None => Fail
      case Some(k) =>
        match PathOf(Trim(i[2..k]))
        case None => Fail
        case Some(path) => Done(i[k + 2..], path)
  }

  /** A literal, or a placeholder; string literals must not contain `{{`. */
  function OperandReader(i: string): (p: Parsed<Operand>)
    ensures p.Done? ==> |p.rest| < |i|
  {
    match HoleReader(i)
    case Done(rest, path) => Done(rest, Hole(path))
    case Fail =>
      match JsonValue(i)
      case Fail => Fail
      case Done(rest, v) => if v.Str? && HasHoleOpening(v.s) then Fail else Done(rest, Lit(v))
  }

  function PatternReader(i: string): (p: Parsed<Operand>)
    ensures p.Done? ==> |p.rest| < |i|
  {
    match OperandReader(i)
    case Fail => Fail
    case Done(rest, o) => if o.Hole? || o.v.Str? then Done(rest, o) else Fail
  }

  function Holes(): Readers<Operand, Operand> { Readers(OperandReader, PatternReader) }

  /** Rules whose placeholders all stand in value position. */
  function ParseTemplate(t: string): Result<Template, ParseError> { ParseWith(Holes(), t) }

  // ---- filling placeholders ----------------------------------------------

  function Meant(o: Operand, ctx: RuleContext): Value {
    match o
    case Lit(v) => v
    case Hole(p) => match ctx.Get(p) case None => Null case Some(s) => Str(s)
  }

  /** An operand is well placed: literals and bound holes in patterns are strings, and the context value behind a hole
      satisfies `ok`. */
  predicate OperandOk(o: Operand, pattern: bool, ctx: RuleContext, ok: string -> bool) {
    match o
    case Lit(v) => pattern ==> v.Str?
    case Hole(p) => match ctx.Get(p) case None => !pattern case Some(s) => ok(s)
  }

  predicate HolesOk(n: Template, ctx: RuleContext, ok: string -> bool) {
    match n
    case And(l, r) => HolesOk(l, ctx, ok) && HolesOk(r, ctx, ok)
    case Or(l, r) => HolesOk(l, ctx, ok) && HolesOk(r, ctx, ok)
    case Not(x) => HolesOk(x, ctx, ok)
    case Compare(_, _, o) => OperandOk(o, false, ctx, ok)
    case Like(_, o) => OperandOk(o, true, ctx, ok)
    case In(_, os) => forall i | 0 <= i < |os| :: OperandOk(os[i], false, ctx, ok)
  }

  predicate Anything(s: string) { true }
  predicate NoEscape(s: string) { forall i | 0 <= i < |s| :: !NeedsEscape(s[i]) }

  /** The rule with each placeholder replaced by its context value, or null if absent. */
  function Fill(n: Template, ctx: RuleContext): FilterNode
    requires HolesOk(n, ctx, Anything)
  {
    match n
    case And(l, r) => And(Fill(l, ctx), Fill(r, ctx))
    case Or(l, r) => Or(Fill(l, ctx), Fill(r, ctx))
    case Not(x) => Not(Fill(x, ctx))
    case Compare(op, k, o) => Compare(op, k, Meant(o, ctx))
    case Like(k, o) => Like(k, Meant(o, ctx).s)
    case In(k, os) => In(k, seq(|os|, i requires 0 <= i < |os| => Meant(os[i], ctx)))
  }

  function EscapedOption(v: Option<string>): Option<string> {
    match v case None => None case Some(s) => Some(Escaped(s))
  }

  function EscapedContext(ctx: RuleContext): RuleContext {
    RuleContext(EscapedOption(ctx.id), EscapedOption(ctx.email), EscapedOption(ctx.workspace))
  }

  lemma {:induction false} HolesWeaken(n: Template, ctx: RuleContext, ok: string -> bool)
    requires HolesOk(n, ctx, ok)
    ensures HolesOk(n, ctx, Anything) && HolesOk(n, EscapedContext(ctx), Anything)
  {
    match n
    case And(l, r) => HolesWeaken(l, ctx, ok); HolesWeaken(r, ctx, ok);
    case Or(l, r) => HolesWeaken(l, ctx, ok); HolesWeaken(r, ctx, ok);
    case Not(x) => HolesWeaken(x, ctx, ok);
    case _ =>
  }

  // ---- substitution against the lexical functions --------------------------

  /** The substituted text of a suffix of the rule. */
  function S(i: string, ctx: RuleContext): string
    requires Subst(i, ctx).Ok?
  {
    Subst(i, ctx).value
  }

  /** Text in which no placeholder opens is copied. */
  lemma {:induction false} Copies(k: nat, i: string, ctx: RuleContext)
    requires k <= |i| && forall j | 0 <= j < k :: i[j] == '{' ==> j + 1 < |i| && i[j + 1] != '{'
    ensures Subst(i, ctx) == Prepend(i[..k], Subst(i[k..], ctx))
  {
    if k == 0 {
      PrependNone(Subst(i, ctx));
      assert i[0..] == i;
    } else {
      Copies(k - 1, i, ctx);
      CharAt(i, ctx, k - 1);
      PrependTwice(i[..k - 1], [i[k - 1]], Subst(i[k..], ctx));
      assert i[..k - 1] + [i[k - 1]] == i[..k];
    }
  }

  /** The first character of the output is the first of the input, unless a value was spliced. */
  lemma Head(i: string, ctx: RuleContext)
    requires i != "" && Subst(i, ctx).Ok?
    ensures S(i, ctx) != ""
    ensures S(i, ctx)[0] == i[0] || (i[0] == '{' && S(i, ctx)[0] in {'"', 'n'})
    ensures i[0] != '{' ==> Subst(i[1..], ctx).Ok? && S(i, ctx) == i[..1] + S(i[1..], ctx)
  {}

  lemma {:induction false} SkipCommutes(i: string, ctx: RuleContext)
    ensures Subst(i, ctx).Ok? <==> Subst(SkipWs(i), ctx).Ok?
    ensures Subst(i, ctx).Ok? ==> SkipWs(S(i, ctx)) == S(SkipWs(i), ctx)
  {
    if i != "" && IsSpace(i[0]) {
      SkipCommutes(i[1..], ctx);
      if Subst(i, ctx).Ok? {
        Head(i, ctx);
        assert S(i, ctx)[1..] == S(i[1..], ctx);
      }
    } else if i != "" && Subst(i, ctx).Ok? {
      Head(i, ctx);
    }
  }

  predicate PlainTag(t: string) { forall j | 0 <= j < |t| :: t[j] !in {'{', '"', 'n'} }

  lemma {:induction false} TagCommutes(t: string, i: string, ctx: RuleContext)
    requires PlainTag(t)
    ensures t <= i && Subst(i[|t|..], ctx).Ok? ==> Subst(i, ctx).Ok?
    ensures Subst(i, ctx).Ok? ==> (t <= i <==> t <= S(i, ctx))
    ensures Subst(i, ctx).Ok? && t <= i ==> Subst(i[|t|..], ctx).Ok? && S(i, ctx)[|t|..] == S(i[|t|..], ctx)
  {
    if t <= i {
      assert forall j | 0 <= j < |t| :: i[j] == t[j];
      Copies(|t|, i, ctx);
    } else if Subst(i, ctx).Ok? && i != "" {
      Head(i, ctx);
      if i[0] == t[0] {
        TagCommutes(t[1..], i[1..], ctx);
        PrefixTail(t, i);
        PrefixTail(t, S(i, ctx));
        assert S(i, ctx)[1..] == S(i[1..], ctx);
      }
    }
  }

  lemma PrefixTail(t: string, s: string)
    requires t != "" && s != "" && t[0] == s[0]
    ensures t <= s <==> t[1..] <= s[1..]
  {
    assert t == [t[0]] + t[1..] && s == [s[0]] + s[1..];
  }

  lemma WsTagCommutes(t: string, i: string, ctx: RuleContext)
    requires PlainTag(t)
    ensures WsTag(t, i).Some? && Subst(WsTag(t, i).value, ctx).Ok? ==>
              Subst(i, ctx).Ok? && WsTag(t, S(i, ctx)) == Some(S(WsTag(t, i).value, ctx))
    ensures WsTag(t, i).None? && Subst(i, ctx).Ok? ==> WsTag(t, S(i, ctx)).None?
  {
    SkipCommutes(i, ctx);
    TagCommutes(t, SkipWs(i), ctx);
    if t <= SkipWs(i) { SkipCommutes(SkipWs(i)[|t|..], ctx); }
  }

  /** A run of characters ends in the same place, unless it abuts a spliced `null`. */
  lemma {:induction false} SpanCommutes(p: CharClass, i: string, ctx: RuleContext)
    requires !p.Has('{') && !p.Has('"')
    requires p.Has('n') ==> Span(p, i) == |i| || i[Span(p, i)] != '{'
    requires Subst(i[Span(p, i)..], ctx).Ok?
    ensures Subst(i, ctx).Ok? && Span(p, S(i, ctx)) == Span(p, i)
    ensures S(i, ctx)[..Span(p, i)] == i[..Span(p, i)] && S(i, ctx)[Span(p, i)..] == S(i[Span(p, i)..], ctx)
  {
    var n := Span(p, i);
    Copies(n, i, ctx);
    var s' := S(i[n..], ctx);
    assert S(i, ctx) == i[..n] + s';
    if n < |i| { Head(i[n..], ctx); assert !p.Has(s'[0]); }
    SpanPrefix(p, i[..n], s');
  }

  lemma OperatorCommutes(i: string, ctx: RuleContext)
    requires Operator(i).Done? && Subst(Operator(i).rest, ctx).Ok?
    ensures Subst(i, ctx).Ok? && Operator(S(i, ctx)) == Done(S(Operator(i).rest, ctx), Operator(i).out)
    ensures i[0] != '{'
  {
    TagCommutes(">=", i, ctx);
    TagCommutes("<=", i, ctx);
    TagCommutes("!=", i, ctx);
    TagCommutes("=", i, ctx);
    TagCommutes(">", i, ctx);
    TagCommutes("<", i, ctx);
    TagCommutes("~", i, ctx);
  }

  lemma IdentCommutes(i: string, ctx: RuleContext)
    requires Ident(i).Done? && Subst(Ident(i).rest, ctx).Ok?
    requires Ident(i).rest != "" && Ident(i).rest[0] != '{'
    ensures Subst(i, ctx).Ok? && Ident(S(i, ctx)) == Done(S(Ident(i).rest, ctx), Ident(i).out)
  {
    SpanCommutes(IdentChar, i, ctx);
    Head(i, ctx);
  }

  // ---- operands ------------------------------------------------------------

  lemma {:induction false} EscapedQuoteFree(s: string)
    requires QuoteFree(s)
    ensures QuoteFree(Escaped(s))
  {
    if s != "" {
      assert NotQuote(s[0]);
      assert QuoteFree(EscapeChar(s[0]));
      assert QuoteFree(s[1..]) by { assert forall k | 1 <= k < |s| :: NotQuote(s[k]); }
      EscapedQuoteFree(s[1..]);
    }
  }

  lemma HoleCommutes(i: string, ctx: RuleContext)
    requires HoleReader(i).Done? && Subst(HoleReader(i).rest, ctx).Ok?
    ensures Subst(i, ctx).Ok?
    ensures S(i, ctx) == ValueText(ctx.Get(HoleReader(i).out)) + S(HoleReader(i).rest, ctx)
  {}

  lemma SplicedRead(v: Option<string>, rest: string)
    requires v.Some? ==> QuoteFree(v.value)
    ensures JsonValue(ValueText(v) + rest) ==
            Done(rest, match v case None => Null case Some(s) => Str(Escaped(s)))
    ensures v.Some? ==> StringLiteral(ValueText(v) + rest) == Done(rest, Escaped(v.value))
  {
    match v
    case None => WordRead(Null, rest);
    case Some(s) =>
      EscapedQuoteFree(s);
      StringRead(Escaped(s), rest);
      NotWord("\"" + Escaped(s) + "\"" + rest);
  }

  lemma StringCommutes(i: string, ctx: RuleContext)
    requires StringLiteral(i).Done? && !HasHoleOpening(StringLiteral(i).out)
    requires Subst(StringLiteral(i).rest, ctx).Ok?
    ensures Subst(i, ctx).Ok? && StringLiteral(S(i, ctx)) == Done(S(StringLiteral(i).rest, ctx), StringLiteral(i).out)
    ensures S(i, ctx) != "" && S(i, ctx)[0] == '"'
  {
    var c := StringLiteral(i).out;
    var k := |c| + 2;
    StringShape(i);
    forall j | 0 <= j < k && i[j] == '{' ensures j + 1 < |i| && i[j + 1] != '{' {
      assert i[j] == c[j - 1];
      if j < |c| { assert i[j + 1] == c[j]; }
    }
    Copies(k, i, ctx);
    StringRead(c, S(i[k..], ctx));
  }

  lemma MagnitudeCommutes(i: string, ctx: RuleContext)
    requires Magnitude(i).Done? && Subst(Magnitude(i).rest, ctx).Ok?
    ensures Subst(i, ctx).Ok? && Magnitude(S(i, ctx)) == Done(S(Magnitude(i).rest, ctx), Magnitude(i).out)
  {
    var d := Span(Digit, i);
    var tail := i[d..];
    if "." <= tail { SpanCommutes(Digit, tail[1..], ctx); }
    TagCommutes(".", tail, ctx);
    SpanCommutes(Digit, i, ctx);
  }

  lemma NumberCommutes(i: string, ctx: RuleContext)
    requires NumberLiteral(i).Done? && Subst(NumberLiteral(i).rest, ctx).Ok?
    ensures Subst(i, ctx).Ok? && NumberLiteral(S(i, ctx)) == Done(S(NumberLiteral(i).rest, ctx), NumberLiteral(i).out)
    ensures S(i, ctx) != "" && (S(i, ctx)[0] == '-' || IsDigit(S(i, ctx)[0]))
  {
    MagnitudeCommutes(if "-" <= i then i[1..] else i, ctx);
    TagCommutes("-", i, ctx);
    Head(i, ctx);
  }

  lemma KeywordCommutes(v: Value, i: string, ctx: RuleContext)
    requires v.Null? || v.Bool?
    requires WordText(v) <= i && Subst(i[|WordText(v)|..], ctx).Ok?
    ensures Subst(i, ctx).Ok? && JsonValue(S(i, ctx)) == Done(S(i[|WordText(v)|..], ctx), v)
  {
    var k := |WordText(v)|;
    Copies(k, i, ctx);
    WordRead(v, S(i[k..], ctx));
  }

  lemma ScalarShape(i: string)
    requires JsonValue(i).Done? && !JsonValue(i).out.Str?
    ensures var v := JsonValue(i).out;
            if v.Num? then NumberLiteral(i).Done? && NumberLiteral(i).rest == JsonValue(i).rest
            else
              && (v.Null? || v.Bool?)
              && var k := |WordText(v)|; k <= |i| && i[..k] == WordText(v) && JsonValue(i).rest == i[k..]
  {}

  lemma LiteralCommutes(i: string, ctx: RuleContext)
    requires JsonValue(i).Done? && Subst(JsonValue(i).rest, ctx).Ok?
    requires JsonValue(i).out.Str? ==> !HasHoleOpening(JsonValue(i).out.s)
    ensures Subst(i, ctx).Ok? && JsonValue(S(i, ctx)) == Done(S(JsonValue(i).rest, ctx), JsonValue(i).out)
  {
    var v := JsonValue(i).out;
    if v.Str? {
      StringCommutes(i, ctx);
      NotWord(S(i, ctx));
      return;
    }
    ScalarShape(i);
    if !v.Num? {
      KeywordCommutes(v, i, ctx);
    } else {
      NumberCommutes(i, ctx);
      NotWord(S(i, ctx));
    }
  }

  lemma OperandCommutes(i: string, ctx: RuleContext)
    requires OperandReader(i).Done? && Subst(OperandReader(i).rest, ctx).Ok?
    requires OperandOk(OperandReader(i).out, false, ctx, QuoteFree)
    ensures Subst(i, ctx).Ok?
    ensures JsonValue(S(i, ctx)) ==
            Done(S(OperandReader(i).rest, ctx), Meant(OperandReader(i).out, EscapedContext(ctx)))
  {
    if HoleReader(i).Done? {
      HoleCommutes(i, ctx);
      SplicedRead(ctx.Get(HoleReader(i).out), S(HoleReader(i).rest, ctx));
    } else {
      LiteralCommutes(i, ctx);
    }
  }

  lemma PatternCommutes(i: string, ctx: RuleContext)
    requires PatternReader(i).Done? && Subst(PatternReader(i).rest, ctx).Ok?
    requires OperandOk(PatternReader(i).out, true, ctx, QuoteFree)
    ensures Subst(i, ctx).Ok? && Meant(PatternReader(i).out, EscapedContext(ctx)).Str?
    ensures StringLiteral(S(i, ctx)) ==
            Done(S(PatternReader(i).rest, ctx), Meant(PatternReader(i).out, EscapedContext(ctx)).s)
  {
    if HoleReader(i).Done? {
      HoleCommutes(i, ctx);
      SplicedRead(ctx.Get(HoleReader(i).out), S(HoleReader(i).rest, ctx));
    } else {
      StringCommutes(i, ctx);
    }
  }

  // ---- the grammar -----------------------------------------------------------

  /** Positions where a conjunction, or a whole expression, really ended. */
  predicate AndEnds(i: string) { WsTag("&&", i).None? }
  predicate OrEnds(i: string) { WsTag("||", i).None? && AndEnds(i) }

  predicate Commutes(t: Parsed<Template>, p: Parsed<FilterNode>, ctx: RuleContext)
    requires t.Done? && Subst(t.rest, ctx).Ok? && HolesOk(t.out, EscapedContext(ctx), Anything)
  {
    p == Done(S(t.rest, ctx), Fill(t.out, EscapedContext(ctx)))
  }

  lemma SubjectCommutes(i: string, ctx: RuleContext)
    requires SubjectOf(i).Done? && Subst(SubjectOf(i).rest, ctx).Ok?
    ensures Subst(i, ctx).Ok? && SubjectOf(S(i, ctx)) == Done(S(SubjectOf(i).rest, ctx), SubjectOf(i).out)
  {
    var i1 := SkipWs(i);
    var i2 := Ident(i1).rest;
    var i3 := SkipWs(i2);
    var i4 := Operator(i3).rest;
    SkipCommutes(i4, ctx);
    OperatorCommutes(i3, ctx);
    SkipCommutes(i2, ctx);
    IdentCommutes(i1, ctx);
    SkipCommutes(i, ctx);
  }

  lemma ComparisonCommutes(i: string, ctx: RuleContext)
    requires var t := Comparison(Holes(), i); t.Done? && Subst(t.rest, ctx).Ok? && HolesOk(t.out, ctx, QuoteFree)
    ensures Subst(i, ctx).Ok? && HolesOk(Comparison(Holes(), i).out, EscapedContext(ctx), Anything)
    ensures Commutes(Comparison(Holes(), i), Comparison(Plain(), S(i, ctx)), ctx)
  {
    var t := Comparison(Holes(), i);
    HolesWeaken(t.out, ctx, QuoteFree);
    var i' := SubjectOf(i).rest;
    if t.out.Like? { PatternCommutes(i', ctx); } else { OperandCommutes(i', ctx); }
    SubjectCommutes(i, ctx);
  }

  lemma TagHead(t: string, i: string)
    requires t != "" && WsTag(t, i).Some?
    ensures SkipWs(i) != "" && SkipWs(i)[0] == t[0]
  {}

  lemma OneOperator(i: string)
    ensures WsTag("&&", i).Some? ==> WsTag("||", i).None?
    ensures WsTag(")", i).Some? ==> OrEnds(i)
    ensures WsTag("!", i).Some? || WsTag("(", i).Some? ==> Comparison(Holes(), i).Fail?
    ensures WsTag("!", i).Some? ==> WsTag("(", i).None?
  {
    if WsTag("&&", i).Some? { TagHead("&&", i); }
    if WsTag("||", i).Some? { TagHead("||", i); }
    if WsTag(")", i).Some? { TagHead(")", i); }
    if WsTag("!", i).Some? { TagHead("!", i); }
    if WsTag("(", i).Some? { TagHead("(", i); }
  }

  lemma BareCommutes(i: string, ctx: RuleContext)
    requires var t := Atom(Holes(), i); t.Done? && Subst(t.rest, ctx).Ok? && HolesOk(t.out, ctx, QuoteFree)
    requires WsTag("(", i).None?
    ensures Subst(i, ctx).Ok? && HolesOk(Atom(Holes(), i).out, EscapedContext(ctx), Anything)
    ensures Commutes(Atom(Holes(), i), Atom(Plain(), S(i, ctx)), ctx)
  {
    assert Atom(Holes(), i) == Comparison(Holes(), i);
    ComparisonCommutes(i, ctx);
    WsTagCommutes("(", i, ctx);
  }

  /** A group, once its inner expression commutes. */
  lemma GroupCommutes(i: string, inner: string, after: string, rest: string, ctx: RuleContext)
    requires WsTag("(", i) == Some(inner) && OrExpr(Holes(), inner).Done? && OrExpr(Holes(), inner).rest == after
    requires WsTag(")", after) == Some(rest) && Subst(rest, ctx).Ok?
    requires Subst(after, ctx).Ok? && WsTag(")", S(after, ctx)) == Some(S(rest, ctx))
    requires Subst(inner, ctx).Ok? && HolesOk(OrExpr(Holes(), inner).out, EscapedContext(ctx), Anything)
    requires Commutes(OrExpr(Holes(), inner), OrExpr(Plain(), S(inner, ctx)), ctx)
    ensures Subst(i, ctx).Ok? && HolesOk(Atom(Holes(), i).out, EscapedContext(ctx), Anything)
    ensures Commutes(Atom(Holes(), i), Atom(Plain(), S(i, ctx)), ctx)
  {
    WsTagCommutes("(", i, ctx);
  }

  lemma {:induction false} AtomCommutes(i: string, ctx: RuleContext)
    requires var t := Atom(Holes(), i); t.Done? && Subst(t.rest, ctx).Ok? && HolesOk(t.out, ctx, QuoteFree)
    ensures Subst(i, ctx).Ok? && HolesOk(Atom(Holes(), i).out, EscapedContext(ctx), Anything)
    ensures Commutes(Atom(Holes(), i), Atom(Plain(), S(i, ctx)), ctx)
    decreases |i|, 1
  {
    OneOperator(i);
    if WsTag("(", i).Some? {
      var inner := WsTag("(", i).value;
      var after := OrExpr(Holes(), inner).rest;
      OneOperator(after);
      WsTagCommutes(")", after, ctx);
      OrCommutes(inner, ctx);
      GroupCommutes(i, inner, after, WsTag(")", after).value, ctx);
    } else {
      BareCommutes(i, ctx);
    }
  }

  lemma {:induction false} NotCommutes(i: string, ctx: RuleContext)
    requires var t := NotExpr(Holes(), i); t.Done? && Subst(t.rest, ctx).Ok? && HolesOk(t.out, ctx, QuoteFree)
    ensures Subst(i, ctx).Ok? && HolesOk(NotExpr(Holes(), i).out, EscapedContext(ctx), Anything)
    ensures Commutes(NotExpr(Holes(), i), NotExpr(Plain(), S(i, ctx)), ctx)
    decreases |i|, 2
  {
    OneOperator(i);
    if WsTag("!", i).Some? {
      AtomCommutes(WsTag("!", i).value, ctx);
    } else {
      AtomCommutes(i, ctx);
    }
    WsTagCommutes("!", i, ctx);
  }

  lemma {:induction false} AndRestCommutes(acc: Template, i: string, ctx: RuleContext)
    requires var t := AndRest(Holes(), acc, i);
             Subst(t.rest, ctx).Ok? && HolesOk(t.out, ctx, QuoteFree) && AndEnds(t.rest)
    ensures Subst(i, ctx).Ok? && HolesOk(acc, ctx, QuoteFree)
    ensures HolesOk(acc, EscapedContext(ctx), Anything)
    ensures HolesOk(AndRest(Holes(), acc, i).out, EscapedContext(ctx), Anything)
    ensures Commutes(AndRest(Holes(), acc, i), AndRest(Plain(), Fill(acc, EscapedContext(ctx)), S(i, ctx)), ctx)
    decreases |i|, 3
  {
    HolesWeaken(AndRest(Holes(), acc, i).out, ctx, QuoteFree);
    if WsTag("&&", i).Some? {
      var i' := WsTag("&&", i).value;
      var t := NotExpr(Holes(), i');
      AndRestCommutes(And(acc, t.out), t.rest, ctx);
      NotCommutes(i', ctx);
    }
    WsTagCommutes("&&", i, ctx);
  }

  lemma {:induction false} AndCommutes(i: string, ctx: RuleContext)
    requires var t := AndExpr(Holes(), i);
             t.Done? && Subst(t.rest, ctx).Ok? && HolesOk(t.out, ctx, QuoteFree) && AndEnds(t.rest)
    ensures Subst(i, ctx).Ok? && HolesOk(AndExpr(Holes(), i).out, EscapedContext(ctx), Anything)
    ensures Commutes(AndExpr(Holes(), i), AndExpr(Plain(), S(i, ctx)), ctx)
    decreases |i|, 4
  {
    var t := NotExpr(Holes(), i);
    AndRestCommutes(t.out, t.rest, ctx);
    NotCommutes(i, ctx);
  }

  lemma {:induction false} OrRestCommutes(acc: Template, i: string, ctx: RuleContext)
    requires var t := OrRest(Holes(), acc, i);
             Subst(t.rest, ctx).Ok? && HolesOk(t.out, ctx, QuoteFree) && OrEnds(t.rest)
    ensures Subst(i, ctx).Ok? && HolesOk(acc, ctx, QuoteFree) && AndEnds(i)
    ensures HolesOk(acc, EscapedContext(ctx), Anything)
    ensures HolesOk(OrRest(Holes(), acc, i).out, EscapedContext(ctx), Anything)
    ensures Commutes(OrRest(Holes(), acc, i), OrRest(Plain(), Fill(acc, EscapedContext(ctx)), S(i, ctx)), ctx)
    decreases |i|, 5
  {
    OneOperator(i);
    if WsTag("||", i).None? {
      HolesWeaken(acc, ctx, QuoteFree);
      WsTagCommutes("||", i, ctx);
    } else {
      var i' := WsTag("||", i).value;
      var t := AndExpr(Holes(), i');
      assert t.Done?;
      OrRestCommutes(Or(acc, t.out), t.rest, ctx);
      AndCommutes(i', ctx);
      WsTagCommutes("||", i, ctx);
    }
  }

  lemma {:induction false} OrCommutes(i: string, ctx: RuleContext)
    requires var t := OrExpr(Holes(), i);
             t.Done? && Subst(t.rest, ctx).Ok? && HolesOk(t.out, ctx, QuoteFree) && OrEnds(t.rest)
    ensures Subst(i, ctx).Ok? && HolesOk(OrExpr(Holes(), i).out, EscapedContext(ctx), Anything)
    ensures Commutes(OrExpr(Holes(), i), OrExpr(Plain(), S(i, ctx)), ctx)
    decreases |i|, 6
  {
    var t := AndExpr(Holes(), i);
    OrRestCommutes(t.out, t.rest, ctx);
    AndCommutes(i, ctx);
  }
}
