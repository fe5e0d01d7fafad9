/** The filter grammar as written texts, with every space and parenthesis shown, and the proof that the parser accepts
    exactly those texts and reads each as the tree it is written for. */
module FilterGrammar {
  import opened Wrappers
  import opened Json
  import opened Filter
  import opened FilterParser
  import opened FilterLexing

  /** A filter as it stands in a text. The gaps are the spaces before and after each token. */
  datatype Text =
    | Pair(conj: bool, l: Text, before: string, after: string, r: Text)
    | Negated(gap: string, x: Text)
    | Grouped(open: string, x: Text, close: string)
    | Leaf(field: string, before: string, op: Option<CmpOp>, after: string, operand: Literal)

  predicate Spaces(s: string) { forall k | 0 <= k < |s| :: s[k] == ' ' || s[k] == '\t' || s[k] == '\r' || s[k] == '\n' }

  predicate NameStart(c: char) { 65 <= c as int <= 90 || 97 <= c as int <= 122 || c == '_' }

  /** A letter or `_`, then letters, digits, `_` and `.`. */
  predicate FieldName(s: string) {
    && s != "" && NameStart(s[0])
    && forall k | 0 <= k < |s| :: NameStart(s[k]) || 48 <= s[k] as int <= 57 || s[k] == '.'
  }

  /** No operator stands for `~`. */
  function OpText(op: Option<CmpOp>): string {
    match op
    case None => "~"
    case Some(Eq) => "=" case Some(Ne) => "!=" case Some(Gt) => ">" case Some(Gte) => ">="
    case Some(Lt) => "<" case Some(Lte) => "<="
  }

  function Connective(conj: bool): string { if conj then "&&" else "||" }

  /** The grammar level of a text: `||` 0, `&&` 1, `!` 2, a comparison or parentheses 3. */
  function Level(x: Text): nat {
    match x case Pair(conj, _, _, _, _) => if conj then 1 else 0 case Negated(_, _) => 2 case _ => 3
  }

  /** Every operand is of a level that the grammar expects in its place: a left operand of the same one or higher, a
      right one of a higher one. */
  predicate Written(x: Text) {
    match x
    case Pair(_, l, before, after, r) =>
      Written(l) && Level(l) >= Level(x) && Written(r) && Level(r) > Level(x) && Spaces(before) && Spaces(after)
    case Negated(gap, y) => Written(y) && Level(y) == 3 && Spaces(gap)
    case Grouped(open, y, close) => Written(y) && Spaces(open) && Spaces(close)
    case Leaf(field, before, op, after, operand) =>
      && FieldName(field) && Spaces(before) && Spaces(after) && LiteralOk(operand)
      && (op.None? ==> operand.Quoted?)
  }

  /** The text of `x` followed by `rest`. */
  function Then(x: Text, rest: string): string
    requires Written(x)
  {
    match x
    case Pair(conj, l, before, after, r) => Then(l, before + (Connective(conj) + (after + Then(r, rest))))
    case Negated(gap, y) => "!" + (gap + Then(y, rest))
    case Grouped(open, y, close) => "(" + (open + Then(y, close + (")" + rest)))
    case Leaf(field, before, op, after, operand) =>
      field + (before + (OpText(op) + (after + LiteralThen(operand, rest))))
  }

  /** The tree that `x` is written for. */
  function TreeOf(x: Text): FilterNode
    requires Written(x)
  {
    match x
    case Pair(conj, l, _, _, r) => if conj then And(TreeOf(l), TreeOf(r)) else Or(TreeOf(l), TreeOf(r))
    case Negated(_, y) => Not(TreeOf(y))
    case Grouped(_, y, _) => TreeOf(y)
    case Leaf(field, _, op, _, operand) =>
      if op.None? then Like(field, operand.s) else Compare(op.value, field, ValueOf(operand))
  }

  // ---- spaces -----------------------------------------------------------------

  /** Two remainders that differ only in leading spaces parse alike. */
  predicate Same(a: string, b: string) { SkipWs(a) == SkipWs(b) }

  lemma {:induction false} SkipGap(g: string, x: string)
    requires Spaces(g)
    ensures SkipWs(g + x) == SkipWs(x)
    ensures Solid(x) ==> SkipWs(x) == x
  {
    if g == "" {
      assert g + x == x;
    } else {
      assert (g + x)[1..] == g[1..] + x && IsSpace(g[0]);
      SkipGap(g[1..], x);
    }
  }

  lemma GapGrows(c: char, g: string, x: string)
    requires Spaces(g) && IsSpace(c)
    ensures Spaces([c] + g) && [c] + (g + x) == [c] + g + x
  {
  }

  lemma {:induction false} SkipSplits(i: string) returns (g: string)
    ensures Spaces(g) && i == g + SkipWs(i)
  {
    g := "";
    if i != "" && IsSpace(i[0]) {
      var tail := SkipSplits(i[1..]);
      GapGrows(i[0], tail, SkipWs(i));
      g := [i[0]] + tail;
    }
  }

  lemma {:induction false} SkipTwice(i: string)
    ensures SkipWs(SkipWs(i)) == SkipWs(i)
  {
    if i != "" && IsSpace(i[0]) { SkipTwice(i[1..]); }
  }

  /** A token after a gap. */
  lemma TagAfter(t: string, g: string, y: string)
    requires Solid(t) && Spaces(g)
    ensures WsTag(t, g + (t + y)) == Some(SkipWs(y))
  {
    SkipGap(g, t + y);
    assert Solid(t + y) && (t + y)[|t|..] == y;
    SkipGap("", t + y);
  }

  lemma TagIs(t: string, i: string) returns (a: string, b: string)
    requires WsTag(t, i).Some?
    ensures Spaces(a) && Spaces(b) && i == a + (t + (b + WsTag(t, i).value))
  {
    a := SkipSplits(i);
    var y := SkipWs(i)[|t|..];
    assert SkipWs(i) == t + y;
    b := SkipSplits(y);
  }

  lemma TagSame(t: string, a: string, b: string)
    requires Same(a, b)
    ensures WsTag(t, a) == WsTag(t, b)
  {
  }

  /** A text that begins, after its spaces, with another character than the token does. */
  lemma NoTag(t: string, g: string, y: string)
    requires t != "" && Spaces(g) && Solid(y) && y[0] != t[0]
    ensures WsTag(t, g + y).None?
  {
    SkipGap(g, y);
  }

  // ---- written texts are read ----------------------------------------------------

  lemma OperatorRead(op: Option<CmpOp>, y: string)
    requires y != "" && y[0] != '='
    ensures Operator(OpText(op) + y) == Done(y, op)
  {
    var t := OpText(op);
    var i := t + y;
    assert i[|t|..] == y && i[0] == t[0] && |i| >= 2;
    if |t| == 1 { assert i[1] == y[0]; } else { assert i[1] == t[1]; }
  }

  lemma OpSolid(op: Option<CmpOp>)
    ensures Solid(OpText(op)) && !IsIdentChar(OpText(op)[0])
  {
  }

  lemma NameRead(f: string, g: string, y: string)
    requires FieldName(f) && Spaces(g) && y != "" && !IsIdentChar(y[0])
    ensures Ident(f + (g + y)) == Done(g + y, f) && Solid(f + (g + y))
    ensures f[0] != '!' && f[0] != '('
  {
    forall k | 0 <= k < |f| ensures IdentChar.Has(f[k]) {}
    if g != "" { assert !IsIdentChar(g[0]); }
    SpanPrefix(IdentChar, f, g + y);
  }

  lemma LiteralHead(l: Literal, rest: string)
    requires LiteralOk(l)
    ensures Solid(LiteralThen(l, rest)) && LiteralThen(l, rest)[0] != '='
  {
  }

  lemma SubjectRead(f: string, b: string, op: Option<CmpOp>, a: string, y: string)
    requires FieldName(f) && Spaces(b) && Spaces(a) && Solid(y) && y[0] != '='
    ensures var i := f + (b + (OpText(op) + (a + y)));
            SubjectOf(i) == Done(y, Subject(f, op)) && Solid(i) && i[0] == f[0]
  {
    var t := OpText(op) + (a + y);
    OpSolid(op);
    NameRead(f, b, t);
    SkipGap("", f + (b + t));
    SkipGap(b, t);
    SkipGap("", t);
    if a != "" { assert (a + y)[0] == a[0]; } else { assert a + y == y; }
    OperatorRead(op, a + y);
    SkipGap(a, y);
    SkipGap("", y);
  }

  lemma LeafRead(x: Text, rest: string)
    requires x.Leaf? && Written(x) && Level(x) >= 3 && Detached(rest)
    ensures Comparison(Plain(), Then(x, rest)) == Done(rest, TreeOf(x))
  {
    LiteralHead(x.operand, rest);
    LiteralRead(x.operand, rest);
    if x.op.None? { QuotedRead(x.operand.s, rest); }
    SubjectRead(x.field, x.before, x.op, x.after, LiteralThen(x.operand, rest));
  }

  lemma {:induction false} Head(x: Text, rest: string)
    requires Written(x)
    ensures Solid(Then(x, rest))
    ensures Written(x) && Level(x) >= 2 && !x.Negated? ==> Then(x, rest)[0] != '!'
    ensures x.Leaf? ==> Then(x, rest)[0] != '('
  {
    match x
    case Pair(conj, l, before, after, r) =>
      Head(l, before + (Connective(conj) + (after + Then(r, rest))));
    case Leaf(field, before, op, after, operand) =>
      LiteralHead(operand, rest);
      SubjectRead(field, before, op, after, LiteralThen(operand, rest));
    case _ =>
  }

  lemma GapDetached(g: string, y: string)
    requires Spaces(g) && Detached(y)
    ensures Detached(g + y)
  {
    if g == "" { assert g + y == y; }
  }

  lemma {:induction false} AtomRead(x: Text, rest: string)
    requires Written(x) && Level(x) >= 3 && Detached(rest)
    ensures var p := Atom(Plain(), Then(x, rest)); p.Done? && p.out == TreeOf(x) && Same(p.rest, rest)
    decreases x, 0
  {
    var i := Then(x, rest);
    if x.Leaf? {
      LeafRead(x, rest);
      Head(x, rest);
      NoTag("(", "", i);
      assert "" + i == i;
    } else {
      var tail := x.close + (")" + rest);
      var y := Then(x.x, tail);
      GapDetached(x.close, ")" + rest);
      NoTag("&&", x.close, ")" + rest);
      NoTag("||", x.close, ")" + rest);
      OrRead(x.x, tail);
      Head(x.x, tail);
      TagAfter("(", "", x.open + y);
      assert "" + ("(" + (x.open + y)) == i;
      SkipGap(x.open, y);
      SkipGap("", y);
      TagAfter(")", x.close, rest);
      TagSame(")", OrExpr(Plain(), y).rest, tail);
      SkipTwice(rest);
    }
  }

  lemma {:induction false} NotRead(x: Text, rest: string)
    requires Written(x) && Level(x) >= 2 && Detached(rest)
    ensures var p := NotExpr(Plain(), Then(x, rest)); p.Done? && p.out == TreeOf(x) && Same(p.rest, rest)
    decreases x, 1
  {
    var i := Then(x, rest);
    if x.Negated? {
      var y := Then(x.x, rest);
      AtomRead(x.x, rest);
      Head(x.x, rest);
      TagAfter("!", "", x.gap + y);
      assert "" + ("!" + (x.gap + y)) == i;
      SkipGap(x.gap, y);
      SkipGap("", y);
    } else {
      AtomRead(x, rest);
      Head(x, rest);
      NoTag("!", "", i);
      assert "" + i == i;
    }
  }

  /** What the parser sees behind a left operand. */
  lemma BehindLeft(conj: bool, before: string, after: string, y: string, left: string)
    requires Spaces(before) && Spaces(after) && Solid(y)
    requires Same(left, before + (Connective(conj) + (after + y)))
    ensures Detached(before + (Connective(conj) + (after + y)))
    ensures WsTag(Connective(conj), left) == Some(y)
    ensures !conj ==> WsTag("&&", before + (Connective(conj) + (after + y))).None?
  {
    var sep := before + (Connective(conj) + (after + y));
    GapDetached(before, Connective(conj) + (after + y));
    TagAfter(Connective(conj), before, after + y);
    TagSame(Connective(conj), left, sep);
    SkipGap(after, y);
    SkipGap("", y);
    if !conj { NoTag("&&", before, Connective(conj) + (after + y)); }
  }

  /** A written conjunction is handed over as its whole left-nested tree, before the rest of the text is looked at. */
  lemma {:induction false} AndChain(x: Text, rest: string) returns (left: string)
    requires Written(x) && Level(x) >= 1 && Detached(rest)
    ensures AndExpr(Plain(), Then(x, rest)) == AndRest(Plain(), TreeOf(x), left) && Same(left, rest)
    decreases x, 2
  {
    if x.Pair? {
      var y := Then(x.r, rest);
      var sep := x.before + ("&&" + (x.after + y));
      Head(x.r, rest);
      BehindLeft(true, x.before, x.after, y, sep);
      left := AndChain(x.l, sep);
      BehindLeft(true, x.before, x.after, y, left);
      NotRead(x.r, rest);
      left := NotExpr(Plain(), y).rest;
    } else {
      NotRead(x, rest);
      left := NotExpr(Plain(), Then(x, rest)).rest;
    }
  }

  lemma {:induction false} AndRead(x: Text, rest: string)
    requires Written(x) && Level(x) >= 1 && Detached(rest) && WsTag("&&", rest).None?
    ensures var p := AndExpr(Plain(), Then(x, rest)); p.Done? && p.out == TreeOf(x) && Same(p.rest, rest)
    decreases x, 3
  {
    var left := AndChain(x, rest);
    TagSame("&&", left, rest);
  }

  lemma {:induction false} OrChain(x: Text, rest: string) returns (left: string)
    requires Written(x) && Detached(rest) && WsTag("&&", rest).None?
    ensures OrExpr(Plain(), Then(x, rest)) == OrRest(Plain(), TreeOf(x), left) && Same(left, rest)
    decreases x, 4
  {
    if x.Pair? && !x.conj {
      var y := Then(x.r, rest);
      var sep := x.before + ("||" + (x.after + y));
      Head(x.r, rest);
      BehindLeft(false, x.before, x.after, y, sep);
      left := OrChain(x.l, sep);
      BehindLeft(false, x.before, x.after, y, left);
      AndRead(x.r, rest);
      left := AndExpr(Plain(), y).rest;
    } else {
      AndRead(x, rest);
      left := AndExpr(Plain(), Then(x, rest)).rest;
    }
  }

  lemma {:induction false} OrRead(x: Text, rest: string)
    requires Written(x) && Detached(rest) && WsTag("&&", rest).None? && WsTag("||", rest).None?
    ensures var p := OrExpr(Plain(), Then(x, rest)); p.Done? && p.out == TreeOf(x) && Same(p.rest, rest)
    decreases x, 5
  {
    var left := OrChain(x, rest);
    TagSame("||", left, rest);
  }

  // ---- read texts were written ------------------------------------------------------

  lemma NameIs(i: string)
    requires Ident(i).Done?
    ensures FieldName(Ident(i).out) && i == Ident(i).out + Ident(i).rest
  {
    var n := Span(IdentChar, i);
    assert forall k | 0 <= k < n :: IdentChar.Has(i[k]);
    assert i == i[..n] + i[n..];
  }

  lemma OperatorIs(i: string)
    requires Operator(i).Done?
    ensures i == OpText(Operator(i).out) + Operator(i).rest
  {
  }

  lemma SubjectIs(i: string) returns (lead: string, b: string, a: string)
    requires SubjectOf(i).Done?
    ensures var p := SubjectOf(i);
            && Spaces(lead) && FieldName(p.out.field) && Spaces(b) && Spaces(a)
            && i == lead + (p.out.field + (b + (OpText(p.out.op) + (a + p.rest))))
  {
    lead := SkipSplits(i);
    NameIs(SkipWs(i));
    var i' := Ident(SkipWs(i)).rest;
    b := SkipSplits(i');
    OperatorIs(SkipWs(i'));
    a := SkipSplits(Operator(SkipWs(i')).rest);
  }

  lemma LeafIs(i: string) returns (lead: string, x: Text)
    requires Comparison(Plain(), i).Done?
    ensures var p := Comparison(Plain(), i);
            Spaces(lead) && x.Leaf? && Written(x) && i == lead + Then(x, p.rest) && TreeOf(x) == p.out
  {
    var b, a;
    lead, b, a := SubjectIs(i);
    var p := SubjectOf(i);
    if p.out.op.None? {
      var s := QuotedIs(p.rest);
      x := Leaf(p.out.field, b, None, a, Quoted(s));
    } else {
      var l := LiteralIs(p.rest);
      x := Leaf(p.out.field, b, p.out.op, a, l);
    }
  }

  /** The parser stopped at `rest` having read the text `x` as `n`. */
  ghost predicate Covers(i: string, lead: string, x: Text, level: nat, gap: string, rest: string, n: FilterNode)
  {
    && Spaces(lead) && Spaces(gap) && Written(x) && Level(x) >= level
    && i == lead + Then(x, gap + rest) && TreeOf(x) == n
  }

  lemma Regroup(a: string, b: string, c: string)
    ensures a + (b + c) == (a + b) + c
    ensures Spaces(a) && Spaces(b) ==> Spaces(a + b)
  {
  }

  lemma {:induction false} AtomIs(i: string) returns (lead: string, x: Text, gap: string)
    requires Atom(Plain(), i).Done?
    ensures var p := Atom(Plain(), i); Covers(i, lead, x, 3, gap, p.rest, p.out)
    decreases |i|, 1
  {
    var p := Atom(Plain(), i);
    var inner := WsTag("(", i);
    if inner.Some? && OrExpr(Plain(), inner.value).Done? && WsTag(")", OrExpr(Plain(), inner.value).rest).Some? {
      var q := OrExpr(Plain(), inner.value);
      var l1, o := TagIs("(", i);
      var lead', y, gap' := OrIs(inner.value);
      var c, g := TagIs(")", q.rest);
      lead, gap := l1, g;
      x := Grouped(o + lead', y, gap' + c);
      Regroup(gap', c, ")" + (g + p.rest));
      Regroup(o, lead', Then(y, (gap' + c) + (")" + (g + p.rest))));
    } else {
      lead, x := LeafIs(i);
      gap := "";
      assert "" + p.rest == p.rest;
    }
  }

  lemma {:induction false} NotIs(i: string) returns (lead: string, x: Text, gap: string)
    requires NotExpr(Plain(), i).Done?
    ensures var p := NotExpr(Plain(), i); Covers(i, lead, x, 2, gap, p.rest, p.out)
    decreases |i|, 2
  {
    var p := NotExpr(Plain(), i);
    var inner := WsTag("!", i);
    if inner.Some? && Atom(Plain(), inner.value).Done? {
      var l1, g := TagIs("!", i);
      var lead', y, gap' := AtomIs(inner.value);
      lead, x, gap := l1, Negated(g + lead', y), gap';
      Regroup(g, lead', Then(y, gap' + p.rest));
    } else {
      lead, x, gap := AtomIs(i);
    }
  }

  /** One more operand of a chain, appended to the text read so far. */
  lemma Appended(whole: string, lead: string, x: Text, gap: string, i: string, conj: bool,
      b: string, a: string, i': string, lead': string, y: Text, gap': string, rest: string, n: FilterNode,
      m: FilterNode)
    returns (z: Text)
    requires Covers(whole, lead, x, if conj then 1 else 0, gap, i, n)
    requires Spaces(b) && Spaces(a) && i == b + (Connective(conj) + (a + i'))
    requires Covers(i', lead', y, if conj then 2 else 1, gap', rest, m)
    ensures z == Pair(conj, x, gap + b, a + lead', y)
    ensures Covers(whole, lead, z, if conj then 1 else 0, gap', rest,
                   if conj then And(n, m) else Or(n, m))
  {
    z := Pair(conj, x, gap + b, a + lead', y);
    var t := Then(y, gap' + rest);
    Regroup(a, lead', t);
    Regroup(gap, b, Connective(conj) + (a + i'));
  }

  lemma {:induction false} AndRestIs(whole: string, lead: string, x: Text, gap: string, i: string,
      n: FilterNode)
    returns (z: Text, gap': string)
    requires Covers(whole, lead, x, 1, gap, i, n)
    ensures var p := AndRest(Plain(), n, i); Covers(whole, lead, z, 1, gap', p.rest, p.out)
    decreases |i|, 3
  {
    var next := WsTag("&&", i);
    if next.Some? && NotExpr(Plain(), next.value).Done? {
      var q := NotExpr(Plain(), next.value);
      var b, a := TagIs("&&", i);
      var lead', y, g := NotIs(next.value);
      z := Appended(whole, lead, x, gap, i, true, b, a, next.value, lead', y, g, q.rest, n, q.out);
      z, gap' := AndRestIs(whole, lead, z, g, q.rest, And(n, q.out));
    } else {
      z, gap' := x, gap;
    }
  }

  lemma {:induction false} AndIs(i: string) returns (lead: string, x: Text, gap: string)
    requires AndExpr(Plain(), i).Done?
    ensures var p := AndExpr(Plain(), i); Covers(i, lead, x, 1, gap, p.rest, p.out)
    decreases |i|, 4
  {
    lead, x, gap := NotIs(i);
    x, gap := AndRestIs(i, lead, x, gap, NotExpr(Plain(), i).rest, NotExpr(Plain(), i).out);
  }

  lemma {:induction false} OrRestIs(whole: string, lead: string, x: Text, gap: string, i: string,
      n: FilterNode)
    returns (z: Text, gap': string)
    requires Covers(whole, lead, x, 0, gap, i, n)
    ensures var p := OrRest(Plain(), n, i); Covers(whole, lead, z, 0, gap', p.rest, p.out)
    decreases |i|, 5
  {
    var next := WsTag("||", i);
    if next.Some? && AndExpr(Plain(), next.value).Done? {
      var q := AndExpr(Plain(), next.value);
      var b, a := TagIs("||", i);
      var lead', y, g := AndIs(next.value);
      z := Appended(whole, lead, x, gap, i, false, b, a, next.value, lead', y, g, q.rest, n, q.out);
      z, gap' := OrRestIs(whole, lead, z, g, q.rest, Or(n, q.out));
    } else {
      z, gap' := x, gap;
    }
  }

  lemma {:induction false} OrIs(i: string) returns (lead: string, x: Text, gap: string)
    requires OrExpr(Plain(), i).Done?
    ensures var p := OrExpr(Plain(), i); Covers(i, lead, x, 0, gap, p.rest, p.out)
    decreases |i|, 6
  {
    lead, x, gap := AndIs(i);
    x, gap := OrRestIs(i, lead, x, gap, AndExpr(Plain(), i).rest, AndExpr(Plain(), i).out);
  }

  // ---- whole texts ------------------------------------------------------------------

  /** `t` is the text `x`, written for `n`, after spaces and before white space. */
  ghost predicate Spells(t: string, n: FilterNode, lead: string, x: Text, trail: string) {
    Spaces(lead) && Blank(trail) && Written(x) && TreeOf(x) == n && t == lead + Then(x, trail)
  }

  lemma LeadSkipped(i: string)
    ensures OrExpr(Plain(), i) == OrExpr(Plain(), SkipWs(i))
  {
    SkipTwice(i);
    TagSame("!", i, SkipWs(i));
    TagSame("(", i, SkipWs(i));
    assert Comparison(Plain(), i) == Comparison(Plain(), SkipWs(i));
    assert Atom(Plain(), i) == Atom(Plain(), SkipWs(i));
    assert NotExpr(Plain(), i) == NotExpr(Plain(), SkipWs(i));
    assert AndExpr(Plain(), i) == AndExpr(Plain(), SkipWs(i));
  }

  lemma {:induction false} BlankSkip(i: string)
    ensures Blank(i) <==> Blank(SkipWs(i))
  {
    if i != "" && IsSpace(i[0]) {
      BlankSkip(i[1..]);
      assert Blank(i) <==> Blank(i[1..]) by {
        assert forall k | 1 <= k < |i| :: i[k] == i[1..][k - 1];
        assert forall k | 0 <= k < |i| - 1 :: i[1..][k] == i[k + 1];
      }
    }
  }

  lemma BlankEnds(trail: string)
    requires Blank(trail)
    ensures Detached(trail) && WsTag("&&", trail).None? && WsTag("||", trail).None?
  {
    BlankSkip(trail);
    var y := SkipWs(trail);
    if y != "" { assert IsWhite(y[0]); }
    if trail != "" { assert IsWhite(trail[0]); }
  }

  lemma SpelledIsParsed(t: string, n: FilterNode, lead: string, x: Text, trail: string)
    requires Spells(t, n, lead, x, trail)
    ensures ParseFilter(t) == Ok(n)
  {
    var y := Then(x, trail);
    Head(x, trail);
    LeadSkipped(t);
    SkipGap(lead, y);
    SkipGap("", y);
    BlankEnds(trail);
    OrRead(x, trail);
    BlankSkip(trail);
    BlankSkip(OrExpr(Plain(), y).rest);
    SolidHead(x, trail);
    BlankSkip(t);
  }

  lemma {:induction false} SolidHead(x: Text, rest: string)
    requires Written(x)
    ensures !Blank(Then(x, rest))
  {
    match x
    case Pair(conj, l, before, after, r) =>
      SolidHead(l, before + (Connective(conj) + (after + Then(r, rest))));
    case Leaf(_, _, _, _, _) => assert Then(x, rest)[0] == x.field[0];
    case Negated(_, y) => assert Then(x, rest)[0] == '!';
    case Grouped(_, _, _) => assert Then(x, rest)[0] == '(';
  }

  /** A text that begins as a written one is read at least that far. */
  lemma {:induction false} Begins(x: Text, rest: string)
    requires Written(x) && Detached(rest)
    ensures OrExpr(Plain(), Then(x, rest)).Done?
  {
    if x.Pair? {
      var y := Then(x.r, rest);
      Head(x.r, rest);
      BehindLeft(x.conj, x.before, x.after, y, x.before + (Connective(x.conj) + (x.after + y)));
      Begins(x.l, x.before + (Connective(x.conj) + (x.after + y)));
    } else {
      NotRead(x, rest);
    }
  }

  /** The parser is the grammar: it accepts exactly the written texts and reads each as its own tree. A text refused as
      having something left over begins with an expression; one refused as none does not. */
  lemma ParserIsGrammar(t: string)
    ensures forall n :: ParseFilter(t) == Ok(n) <==> exists lead, x, trail :: Spells(t, n, lead, x, trail)
    ensures ParseFilter(t) == Err(EmptyFilter) <==> Blank(t)
    ensures ParseFilter(t).Err? && ParseFilter(t).error.TrailingInput? ==>
              var rest := ParseFilter(t).error.rest;
              !Blank(rest) && exists lead, x, gap, n :: Covers(t, lead, x, 0, gap, rest, n)
    ensures ParseFilter(t) == Err(SyntaxError) ==>
              forall lead, x, rest | Spaces(lead) && Written(x) && Detached(rest) :: t != lead + Then(x, rest)
  {
    forall n, lead, x, trail | Spells(t, n, lead, x, trail) ensures ParseFilter(t) == Ok(n) {
      SpelledIsParsed(t, n, lead, x, trail);
    }
    forall lead, x, rest | Spaces(lead) && Written(x) && Detached(rest) && t == lead + Then(x, rest)
      ensures OrExpr(Plain(), t).Done?
    {
      Begins(x, rest);
      Head(x, rest);
      LeadSkipped(t);
      SkipGap(lead, Then(x, rest));
      SkipGap("", Then(x, rest));
    }
    if OrExpr(Plain(), t).Done? {
      var lead, x, gap := OrIs(t);
      var p := OrExpr(Plain(), t);
      assert Covers(t, lead, x, 0, gap, p.rest, p.out);
      if ParseFilter(t).Ok? {
        assert Blank(gap + p.rest);
        assert Spells(t, p.out, lead, x, gap + p.rest);
      }
    }
  }
}
