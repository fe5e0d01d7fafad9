/** Reading the emitted SQL by its own grammar, taking one binding for each `?`. */
module FilterSqlReader {
  import opened Wrappers
  import opened Json
  import opened Filter
  import opened FilterParser
  import opened FilterLexing
  import opened FilterSql

  datatype Reading<+T> = Stuck | Read(text: string, bound: seq<Value>, out: T)

  function ReadExpr(s: string, bs: seq<Value>): (r: Reading<FilterNode>)
    ensures r.Read? ==> |r.text| < |s|
    decreases |s|, 1
  {
    if |s| < 2 || s[0] != '(' then Stuck
    else if s[1] == '"' then ReadLeaf(s[2..], bs)
    else if s[1] == '(' then ReadPair(ReadExpr(s[1..], bs))
    else if "(NOT " <= s then ReadNot(ReadExpr(s[5..], bs))
    else Stuck
  }

  function ReadNot(x: Reading<FilterNode>): (r: Reading<FilterNode>)
    ensures r.Read? ==> x.Read? && |r.text| < |x.text|
  {
    if x.Read? && ")" <= x.text then Read(x.text[1..], x.bound, Not(x.out)) else Stuck
  }

  /** The operator and right operand after a left operand. */
  function ReadPair(l: Reading<FilterNode>): (r: Reading<FilterNode>)
    ensures r.Read? ==> l.Read? && |r.text| < |l.text|
    decreases if l.Read? then |l.text| else 0, 2
  {
    if l.Stuck? then Stuck
    else if " AND " <= l.text then Joined(l.out, true, ReadExpr(l.text[5..], l.bound))
    else if " OR " <= l.text then Joined(l.out, false, ReadExpr(l.text[4..], l.bound))
    else Stuck
  }

  function Joined(l: FilterNode, conj: bool, r: Reading<FilterNode>): (q: Reading<FilterNode>)
    ensures q.Read? ==> r.Read? && |q.text| < |r.text|
  {
    if r.Read? && ")" <= r.text then Read(r.text[1..], r.bound, if conj then And(l, r.out) else Or(l, r.out))
    else Stuck
  }

  /** A column name up to its closing quote, then an operator with its placeholders. */
  function ReadLeaf(s: string, bs: seq<Value>): (r: Reading<FilterNode>)
    ensures r.Read? ==> |r.text| < |s|
  {
    var n := Span(NonQuote, s);
    if n == |s| then Stuck else ReadTail(s[..n], s[n + 1..], bs)
  }

  function ReadTail(col: string, t: string, bs: seq<Value>): (r: Reading<FilterNode>)
    ensures r.Read? ==> |r.text| < |t|
  {
    if " IN (" <= t then
      match ReadMarks(t[5..], bs, true)
      case Stuck => Stuck
      case Read(t', bs', vs) => Read(t', bs', In(col, vs))
    else if bs == [] then Stuck
    else if " LIKE ?)" <= t then (if bs[0].Str? then Read(t[8..], bs[1..], Like(col, bs[0].s)) else Stuck)
    else if " = ?)" <= t then Read(t[5..], bs[1..], Compare(Eq, col, bs[0]))
    else if " <> ?)" <= t then Read(t[6..], bs[1..], Compare(Ne, col, bs[0]))
    else if " > ?)" <= t then Read(t[5..], bs[1..], Compare(Gt, col, bs[0]))
    else if " >= ?)" <= t then Read(t[6..], bs[1..], Compare(Gte, col, bs[0]))
    else if " < ?)" <= t then Read(t[5..], bs[1..], Compare(Lt, col, bs[0]))
    else if " <= ?)" <= t then Read(t[6..], bs[1..], Compare(Lte, col, bs[0]))
    else Stuck
  }

  function ReadMarks(t: string, bs: seq<Value>, first: bool): (r: Reading<seq<Value>>)
    ensures r.Read? ==> |r.text| <= |t|
    decreases |t|
  {
    var sep := if first then "?" else ", ?";
    if "))" <= t then Read(t[2..], bs, [])
    else if bs == [] || !(sep <= t) then Stuck
    else match ReadMarks(t[|sep|..], bs[1..], false)
      case Stuck => Stuck
      case Read(t', bs', vs) => Read(t', bs', [bs[0]] + vs)
  }

  /** The tree as SQL sees it: `~` patterns are searched for, not anchored. */
  function Wrapped(n: FilterNode): FilterNode {
    match n
    case And(l, r) => And(Wrapped(l), Wrapped(r))
    case Or(l, r) => Or(Wrapped(l), Wrapped(r))
    case Not(x) => Not(Wrapped(x))
    case Like(f, p) => Like(f, "%" + p + "%")
    case _ => n
  }

  lemma Eats(t: string, x: string)
    ensures t <= t + x && (t + x)[|t|..] == x
  {}

  lemma MarksSplit(k: nat, first: bool, close: string)
    ensures var marks := if first then Marks(k) else MarksTail(k);
            marks + close == if k == 0 then close else (if first then "?" else ", ?") + (MarksTail(k - 1) + close)
  {}

  lemma MarksDone(rest: string, more: seq<Value>, first: bool)
    ensures ReadMarks("))" + rest, more, first) == Read(rest, more, [])
  {
    Eats("))", rest);
  }

  lemma ConsOf(vs: seq<Value>, more: seq<Value>)
    requires vs != []
    ensures vs + more != [] && (vs + more)[1..] == vs[1..] + more && [(vs + more)[0]] + vs[1..] == vs
  {
  }

  lemma {:induction false} MarksRead(vs: seq<Value>, first: bool, rest: string, more: seq<Value>)
    ensures var marks := if first then Marks(|vs|) else MarksTail(|vs|);
            ReadMarks(marks + ("))" + rest), vs + more, first) == Read(rest, more, vs)
  {
    MarksSplit(|vs|, first, "))" + rest);
    if vs == [] {
      assert vs + more == more;
      MarksDone(rest, more, first);
    } else {
      ConsOf(vs, more);
      MarksRead(vs[1..], false, rest, more);
      var tail := MarksTail(|vs| - 1) + ("))" + rest);
      MarkRead((if first then "?" else ", ?") + tail, tail, vs + more, first, rest, more, vs[1..]);
    }
  }

  lemma MarkRead(text: string, tail: string, bs: seq<Value>, first: bool, rest: string, more: seq<Value>,
      vs: seq<Value>)
    requires text == (if first then "?" else ", ?") + tail
    requires bs != [] && ReadMarks(tail, bs[1..], false) == Read(rest, more, vs)
    ensures ReadMarks(text, bs, first) == Read(rest, more, [bs[0]] + vs)
  {
    var sep := if first then "?" else ", ?";
    Eats(sep, tail);
    assert text[0] == sep[0];
  }

  lemma ColumnRead(f: string, tail: string, bs: seq<Value>)
    requires LegalColumn(f)
    ensures ReadExpr("(\"" + (f + ("\"" + tail)), bs) == ReadTail(f, tail, bs)
  {
    var s := f + ("\"" + tail);
    Eats("(\"", s);
    forall i | 0 <= i < |f| ensures NonQuote.Has(f[i]) { assert IsColumnChar(f[i]); }
    SpanPrefix(NonQuote, f, "\"" + tail);
    assert s[|f| + 1..] == tail;
  }

  lemma TailRead(op: CmpOp, f: string, v: Value, rest: string, more: seq<Value>)
    ensures ReadTail(f, CompareTail(op) + rest, [v] + more) == Read(rest, more, Compare(op, f, v))
  {
    var t := CompareTail(op);
    Eats(t, rest);
    assert ([v] + more)[1..] == more;
    var i := t + rest;
    assert i[1] == t[1] && i[2] == t[2];
  }

  lemma LikeRead(f: string, p: string, rest: string, more: seq<Value>)
    ensures ReadTail(f, " LIKE ?)" + rest, [Str(p)] + more) == Read(rest, more, Like(f, p))
  {
    Eats(" LIKE ?)", rest);
    assert ([Str(p)] + more)[1..] == more;
    assert (" LIKE ?)" + rest)[1] == 'L';
  }

  lemma LeafRead(n: FilterNode, rest: string, more: seq<Value>)
    requires (n.Compare? || n.Like? || n.In?) && LegalColumn(n.field)
    ensures ReadExpr(SqlThen(n, rest), Bindings(n) + more) == Read(rest, more, Wrapped(n))
  {
    ColumnRead(n.field, LeafTail(n, rest), Bindings(n) + more);
    match n
    case Compare(op, f, v) => TailRead(op, f, v, rest, more);
    case Like(f, p) => LikeRead(f, "%" + p + "%", rest, more);
    case In(f, vs) =>
      var marks := Marks(|vs|) + ("))" + rest);
      Eats(" IN (", marks);
      MarksRead(vs, true, rest, more);
  }

  lemma NotRead(s: string, bs: seq<Value>)
    ensures ReadExpr("(NOT " + s, bs) == ReadNot(ReadExpr(s, bs))
  {
    Eats("(NOT ", s);
    assert ("(NOT " + s)[1] == 'N';
  }

  lemma PairRead(s: string, bs: seq<Value>)
    requires "(" <= s
    ensures ReadExpr("(" + s, bs) == ReadPair(ReadExpr(s, bs))
  {
    Eats("(", s);
    assert ("(" + s)[1] == '(';
  }

  lemma JoinRead(l: FilterNode, conj: bool, t: string, bs: seq<Value>)
    ensures ReadPair(Read((if conj then " AND " else " OR ") + t, bs, l)) == Joined(l, conj, ReadExpr(t, bs))
  {
    var op := if conj then " AND " else " OR ";
    Eats(op, t);
    if !conj { assert (op + t)[1] == 'O'; }
  }

  lemma CloseRead(l: FilterNode, conj: bool, r: FilterNode, rest: string, bs: seq<Value>)
    ensures Joined(l, conj, Read(")" + rest, bs, r)) == Read(rest, bs, if conj then And(l, r) else Or(l, r))
    ensures ReadNot(Read(")" + rest, bs, r)) == Read(rest, bs, Not(r))
  {
    Eats(")", rest);
  }

  lemma OpensParen(n: FilterNode, rest: string)
    ensures "(" <= SqlThen(n, rest)
  {}

  /** Reading the emitted text consumes exactly the text and the bindings of `n` and gives back its tree. */
  lemma {:induction false} ReadBack(n: FilterNode, rest: string, more: seq<Value>)
    requires FirstIllegal(n) == None
    ensures ReadExpr(SqlThen(n, rest), Bindings(n) + more) == Read(rest, more, Wrapped(n))
    decreases n, 1
  {
    match n
    case And(l, r) =>
      BothBack(n, true, " AND ", l, r, rest, more);
      BindingsAssoc(Bindings(l), Bindings(r), more);
    case Or(l, r) =>
      BothBack(n, false, " OR ", l, r, rest, more);
      BindingsAssoc(Bindings(l), Bindings(r), more);
    case Not(x) =>
      ReadBack(x, ")" + rest, more);
      NotRead(SqlThen(x, ")" + rest), Bindings(x) + more);
      CloseRead(Wrapped(x), true, Wrapped(x), rest, more);
    case _ => LeafRead(n, rest, more);
  }

  lemma {:induction false} BothBack(n: FilterNode, conj: bool, op: string, l: FilterNode, r: FilterNode, rest: string,
      more: seq<Value>)
    requires n == (if conj then And(l, r) else Or(l, r)) && op == if conj then " AND " else " OR "
    requires FirstIllegal(l) == None && FirstIllegal(r) == None
    ensures ReadExpr("(" + SqlThen(l, op + SqlThen(r, ")" + rest)), Bindings(l) + (Bindings(r) + more)) ==
            Read(rest, more, if conj then And(Wrapped(l), Wrapped(r)) else Or(Wrapped(l), Wrapped(r)))
    decreases n, 0
  {
    var t := SqlThen(r, ")" + rest);
    var cs := Bindings(r) + more;
    ReadBack(l, op + t, cs);
    ReadBack(r, ")" + rest, more);
    OpensParen(l, op + t);
    BothStep(SqlThen(l, op + t), t, Bindings(l) + cs, cs, conj, Wrapped(l), Wrapped(r), rest, more);
  }

  lemma BothStep(s: string, t: string, bs: seq<Value>, cs: seq<Value>, conj: bool,
                 l: FilterNode, r: FilterNode, rest: string, more: seq<Value>)
    requires "(" <= s && ReadExpr(s, bs) == Read((if conj then " AND " else " OR ") + t, cs, l)
    requires ReadExpr(t, cs) == Read(")" + rest, more, r)
    ensures ReadExpr("(" + s, bs) == Read(rest, more, if conj then And(l, r) else Or(l, r))
  {
    PairRead(s, bs);
    JoinRead(l, conj, t, cs);
    CloseRead(l, conj, r, rest, more);
  }

  /** The generator is faithful: text and bindings together determine the filter. */
  lemma SqlIsFaithful(n: FilterNode)
    requires FirstIllegal(n) == None
    ensures ReadExpr(SqlText(n), Bindings(n)) == Read("", [], Wrapped(n))
  {
    ReadBack(n, "", []);
    assert Bindings(n) + [] == Bindings(n);
  }

  /** Two filters that differ only in their literals. */
  predicate SameShape(m: FilterNode, n: FilterNode) {
    match (m, n)
    case (And(a, b), And(c, d)) => SameShape(a, c) && SameShape(b, d)
    case (Or(a, b), Or(c, d)) => SameShape(a, c) && SameShape(b, d)
    case (Not(a), Not(c)) => SameShape(a, c)
    case (Compare(o, f, _), Compare(p, g, _)) => o == p && f == g
    case (Like(f, _), Like(g, _)) => f == g
    case (In(f, vs), In(g, ws)) => f == g && |vs| == |ws|
    case _ => false
  }

  lemma {:induction false} ShapeText(m: FilterNode, n: FilterNode, rest: string)
    requires SameShape(m, n)
    ensures SqlThen(m, rest) == SqlThen(n, rest) && FirstIllegal(m) == FirstIllegal(n)
  {
    match m
    case And(a, b) => ShapeText(b, n.r, ")" + rest); ShapeText(a, n.l, " AND " + SqlThen(b, ")" + rest));
    case Or(a, b) => ShapeText(b, n.r, ")" + rest); ShapeText(a, n.l, " OR " + SqlThen(b, ")" + rest));
    case Not(a) => ShapeText(a, n.inner, ")" + rest);
    case _ =>
  }

  /** Every literal and pattern replaced so that each binding is the same string. */
  function Blanked(n: FilterNode): FilterNode {
    match n
    case And(l, r) => And(Blanked(l), Blanked(r))
    case Or(l, r) => Or(Blanked(l), Blanked(r))
    case Not(x) => Not(Blanked(x))
    case Compare(op, f, _) => Compare(op, f, Str("%%"))
    case Like(f, _) => Like(f, "")
    case In(f, vs) => In(f, Blanks(|vs|))
  }

  function Blanks(k: nat): seq<Value> { seq(k, _ => Str("%%")) }

  lemma {:induction false} BlankedShape(n: FilterNode)
    ensures SameShape(n, Blanked(n))
    ensures Bindings(Blanked(n)) == Blanks(|Bindings(n)|)
  {
    match n
    case And(l, r) => BlankedShape(l); BlankedShape(r);
    case Or(l, r) => BlankedShape(l); BlankedShape(r);
    case Not(x) => BlankedShape(x);
    case Like(_, _) => assert "%" + "" + "%" == "%%";
    case _ =>
  }

  lemma {:induction false} WrappedShape(m: FilterNode, n: FilterNode)
    requires Wrapped(Blanked(m)) == Wrapped(Blanked(n))
    ensures SameShape(m, n)
  {
    match (m, n)
    case (And(a, b), And(c, d)) => WrappedShape(a, c); WrappedShape(b, d);
    case (Or(a, b), Or(c, d)) => WrappedShape(a, c); WrappedShape(b, d);
    case (Not(a), Not(c)) => WrappedShape(a, c);
    case (In(_, vs), In(_, ws)) => assert |Blanks(|vs|)| == |vs| && |Blanks(|ws|)| == |ws|;
    case _ =>
  }

  /** No literal reaches the SQL text: it is the same for two filters exactly when they differ in literals only. */
  lemma TextIsShape(m: FilterNode, n: FilterNode)
    requires FirstIllegal(m) == None && FirstIllegal(n) == None
    ensures SqlText(m) == SqlText(n) <==> SameShape(m, n)
  {
    if SameShape(m, n) { ShapeText(m, n, ""); }
    if SqlText(m) == SqlText(n) {
      BlankedText(m);
      BlankedText(n);
      SameTextSameTree(Blanked(m), |Bindings(m)|, Blanked(n), |Bindings(n)|);
      WrappedShape(m, n);
    }
  }

  lemma BlankedText(n: FilterNode)
    requires FirstIllegal(n) == None
    ensures SqlText(Blanked(n)) == SqlText(n) && Bindings(Blanked(n)) == Blanks(|Bindings(n)|)
    ensures FirstIllegal(Blanked(n)) == None
  {
    BlankedShape(n);
    ShapeText(n, Blanked(n), "");
  }

  /** Read with the same supply of blanks, equal texts give equal trees. */
  lemma SameTextSameTree(a: FilterNode, j: nat, b: FilterNode, k: nat)
    requires FirstIllegal(a) == None && FirstIllegal(b) == None && SqlText(a) == SqlText(b)
    requires Bindings(a) == Blanks(j) && Bindings(b) == Blanks(k)
    ensures Wrapped(a) == Wrapped(b)
  {
    ReadBack(a, "", Blanks(k));
    ReadBack(b, "", Blanks(j));
    assert Blanks(j) + Blanks(k) == Blanks(k) + Blanks(j);
  }
}
