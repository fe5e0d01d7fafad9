/** Three-valued meaning of the emitted SQL on a stored row, against the in-memory evaluation of its document. */
module SqlSemantics {
  import opened Wrappers
  import opened Filter
  import opened LikeMeaning
  import opened FilterSql
  import opened FilterSqlReader
  import S = Schemas
  import D = DocumentStore
  import R = DocumentRefinement
  import DocumentRuns
  import J = Json

  datatype Tri = True | False | Unknown

  function Truth(b: bool): Tri { if b then True else False }

  function Not3(a: Tri): Tri { match a case True => False case False => True case Unknown => Unknown }

  function And3(a: Tri, b: Tri): Tri {
    if a.False? || b.False? then False else if a.True? && b.True? then True else Unknown
  }

  function Or3(a: Tri, b: Tri): Tri { Not3(And3(Not3(a), Not3(b))) }

  function Rank(a: Tri): nat { match a case False => 0 case Unknown => 1 case True => 2 }

  /** With unknown between false and true, conjunction is the smaller and disjunction the larger, and negation turns the
      order round. */
  lemma Kleene(a: Tri, b: Tri)
    ensures Rank(And3(a, b)) == (if Rank(a) < Rank(b) then Rank(a) else Rank(b))
    ensures Rank(Or3(a, b)) == (if Rank(a) < Rank(b) then Rank(b) else Rank(a))
    ensures Rank(Not3(a)) == 2 - Rank(a)
  {
  }

  // ---- cells in SQL ----------------------------------------------------------------

  /** SQLite's conversions: a number as text, a text as a number if it is one, and a stored time as text. */
  datatype Engine = Engine(textOf: D.Cell -> string, numberOf: string -> Option<real>, timeText: int -> string)

  /** The parameter bound for a literal. */
  function Bound(codec: D.Codec, v: J.Value): D.Cell {
    match v
    case Null => D.NullCell
    case Bool(b) => D.IntCell(if b then 1 else 0)
    case Num(n) => if n.Int? then D.IntCell(n.i) else D.RealCell(n.r)
    case Str(s) => D.TextCell(s)
    case _ => D.TextCell(codec.render(v))
  }

  /** A parameter takes on the affinity of the column it is compared with. */
  function Converted(e: Engine, ty: D.SqlType, c: D.Cell): D.Cell {
    if ty.TEXT? then (if c.IntCell? || c.RealCell? then D.TextCell(e.textOf(c)) else c)
    else if c.TextCell? && e.numberOf(c.s).Some? then D.RealCell(e.numberOf(c.s).value)
    else c
  }

  function Number(c: D.Cell): real
    requires c.IntCell? || c.RealCell?
  {
    if c.IntCell? then c.i as real else c.r
  }

  /** Numbers by value, texts by code point, and every number before every text. */
  function CellOrder(c: D.Cell, d: D.Cell): Ordering
    requires !c.NullCell? && !d.NullCell?
  {
    if c.TextCell? && d.TextCell? then CompareStrings(c.s, d.s)
    else if c.TextCell? then Greater
    else if d.TextCell? then Less
    else CompareReals(Number(c), Number(d))
  }

  function CompareSql(op: CmpOp, c: D.Cell, d: D.Cell): Tri {
    if c.NullCell? || d.NullCell? then Unknown else Truth(OrderHolds(op, CellOrder(c, d)))
  }

  /** Nothing is known about NULL; numbers are in order by value, and all of them below every text. */
  lemma CellsInOrder(c: D.Cell, d: D.Cell)
    ensures c.NullCell? || d.NullCell? ==> forall op :: CompareSql(op, c, d) == Unknown
    ensures (c.IntCell? || c.RealCell?) && d.TextCell? ==>
              CompareSql(Lt, c, d) == True && CompareSql(Gt, d, c) == True && CompareSql(Eq, c, d) == False
    ensures (c.IntCell? || c.RealCell?) && (d.IntCell? || d.RealCell?) ==>
              CompareSql(Lt, c, d) == Truth(Number(c) < Number(d)) &&
              CompareSql(Eq, c, d) == Truth(Number(c) == Number(d))
  {
  }

  /** A row of a collection's table, under the collection's fields. */
  datatype Site = Site(engine: Engine, codec: D.Codec, defs: map<string, S.Field>, id: string, row: D.Row) {
    function Cell(k: string): D.Cell {
      if k in defs then D.CellAt(row, k)
      else if k == "id" then D.TextCell(id)
      else if k == "created_at" then D.TextCell(engine.timeText(row.created))
      else if k == "updated_at" then D.TextCell(engine.timeText(row.updated))
      else D.NullCell
    }

    function Operand(k: string, v: J.Value): D.Cell {
      Converted(engine, if k in defs then D.SqlTypeOf(defs[k].ty) else D.TEXT, Bound(codec, v))
    }

    /** The document that the row is read as; it has no entry for the id and the times. */
    function Fields(): map<string, J.Value> { D.Read(codec, defs, row).fields }

    predicate Valid() { R.CellsFit(defs, row.cells) }
  }

  function InSql(w: Site, k: string, vs: seq<J.Value>): Tri {
    if vs == [] then False else Or3(CompareSql(Eq, w.Cell(k), w.Operand(k, vs[0])), InSql(w, k, vs[1..]))
  }

  function LikeText(w: Site, c: D.Cell): string { if c.TextCell? then c.s else w.engine.textOf(c) }

  /** The WHERE clause on one row. */
  function EvalSql(n: FilterNode, w: Site): Tri {
    match n
    case And(l, r) => And3(EvalSql(l, w), EvalSql(r, w))
    case Or(l, r) => Or3(EvalSql(l, w), EvalSql(r, w))
    case Not(x) => Not3(EvalSql(x, w))
    case Compare(op, k, v) => CompareSql(op, w.Cell(k), w.Operand(k, v))
    case Like(k, p) => if w.Cell(k).NullCell? then Unknown else Truth(LikeMatch(LikeText(w, w.Cell(k)), p))
    case In(k, vs) => InSql(w, k, vs)
  }

  // ---- where the two evaluations agree ------------------------------------------

  /** SQL finds two values apart that memory cannot compare. */
  predicate Apart(op: CmpOp, o: Ordering) { if op.Eq? || op.Ne? then !o.Equal? else !OrderHolds(op, o) }

  /** A JSON column is compared by its text: the text must stand to the literal as the value does. */
  predicate TextStandsFor(op: CmpOp, a: J.Value, v: J.Value, o: Ordering) {
    if op.Eq? || op.Ne? then o.Equal? <==> a == v
    else match CompareValues(a, v)
      case None => !OrderHolds(op, o)
      case Some(m) => OrderHolds(op, o) <==> OrderHolds(op, m)
  }

  /**
   * What a single comparison needs for both evaluations to agree. Nulls never do. A literal of the field's own kind
   * does, except that integers are never equal to stored floats in memory. Any other literal, and any literal on the
   * id and the times, which documents lack, must be told apart by SQL after conversion.
   */
  predicate Agreeable(w: Site, op: CmpOp, k: string, v: J.Value) {
    var c, d := w.Cell(k), w.Operand(k, v);
    && !c.NullCell? && !d.NullCell?
    && if k !in w.defs then Apart(op, CellOrder(c, d))
       else match w.defs[k].ty
         case Bool => v.Bool? || Apart(op, CellOrder(c, d))
         case Number => (v.Num? && (v.n.Float? || !(op.Eq? || op.Ne?))) || Apart(op, CellOrder(c, d))
         case Json => TextStandsFor(op, FieldOf(w.Fields(), k), v, CellOrder(c, d))
         case _ => v.Str? || Apart(op, CellOrder(c, d))
  }

  predicate PatternAgreeable(w: Site, k: string, p: string) {
    var c, wrapped := w.Cell(k), "%" + p + "%";
    && !c.NullCell?
    && if k in w.defs && D.SqlTypeOf(w.defs[k].ty).TEXT? then
         var a := FieldOf(w.Fields(), k);
         if w.defs[k].ty.Json? then a.Str? && LikeMatch(a.s, p) <==> LikeMatch(LikeText(w, c), wrapped)
         else LikeMatch(LikeText(w, c), wrapped) ==> LikeMatch(LikeText(w, c), p)
       else !LikeMatch(LikeText(w, c), wrapped)
  }

  predicate Comparable(n: FilterNode, w: Site) {
    match n
    case And(l, r) => Comparable(l, w) && Comparable(r, w)
    case Or(l, r) => Comparable(l, w) && Comparable(r, w)
    case Not(x) => Comparable(x, w)
    case Compare(op, k, v) => Agreeable(w, op, k, v)
    case Like(k, p) => PatternAgreeable(w, k, p)
    case In(k, vs) => forall i | 0 <= i < |vs| :: Agreeable(w, Eq, k, vs[i])
  }

  lemma {:induction false} OrderOfStrings(x: string, y: string)
    ensures CompareStrings(x, y).Equal? <==> x == y
  {
    if x != "" && y != "" {
      OrderOfStrings(x[1..], y[1..]);
      assert x == x[..1] + x[1..] && y == y[..1] + y[1..];
    }
  }

  lemma NullBound(w: Site, k: string, v: J.Value)
    ensures w.Operand(k, v).NullCell? <==> v.Null?
  {
  }

  lemma ImplicitAgrees(w: Site, op: CmpOp, k: string, v: J.Value)
    requires k !in w.defs && !v.Null? && !w.Cell(k).NullCell?
    ensures CompareSql(op, w.Cell(k), w.Operand(k, v)) == Truth(CompareMatches(op, J.Null, v)) <==>
            Agreeable(w, op, k, v)
  {
    NullBound(w, k, v);
  }

  lemma BoolAgrees(w: Site, op: CmpOp, k: string, v: J.Value)
    requires k in w.defs && w.defs[k].ty.Bool? && !v.Null? && (w.Cell(k) == D.IntCell(0) || w.Cell(k) == D.IntCell(1))
    ensures CompareSql(op, w.Cell(k), w.Operand(k, v)) ==
              Truth(CompareMatches(op, J.Bool(w.Cell(k) != D.IntCell(0)), v))
            <==> Agreeable(w, op, k, v)
  {
    NullBound(w, k, v);
  }

  lemma NumberAgrees(w: Site, op: CmpOp, k: string, v: J.Value)
    requires k in w.defs && w.defs[k].ty.Number? && !v.Null? && w.Cell(k).RealCell?
    ensures CompareSql(op, w.Cell(k), w.Operand(k, v)) ==
              Truth(CompareMatches(op, J.Num(J.Float(w.Cell(k).r)), v))
            <==> Agreeable(w, op, k, v)
  {
    NullBound(w, k, v);
  }

  lemma TextAgrees(w: Site, op: CmpOp, k: string, v: J.Value)
    requires k in w.defs && !w.defs[k].ty.Bool? && !w.defs[k].ty.Number? && !v.Null? && w.Cell(k).TextCell?
    ensures CompareSql(op, w.Cell(k), w.Operand(k, v)) == Truth(CompareMatches(op, FieldOf(w.Fields(), k), v)) <==>
            Agreeable(w, op, k, v)
  {
    NullBound(w, k, v);
    var d := w.Operand(k, v);
    if d.TextCell? { OrderOfStrings(w.Cell(k).s, d.s); }
  }

  /** On every stored row, the two evaluations of a comparison agree exactly on the agreeable operands. */
  lemma CompareAgrees(w: Site, op: CmpOp, k: string, v: J.Value)
    requires w.Valid()
    ensures CompareSql(op, w.Cell(k), w.Operand(k, v)) == Truth(CompareMatches(op, FieldOf(w.Fields(), k), v)) <==>
            Agreeable(w, op, k, v)
  {
    NullBound(w, k, v);
    if !w.Cell(k).NullCell? && !v.Null? {
      if k !in w.defs {
        ImplicitAgrees(w, op, k, v);
      } else {
        assert R.ClassFits(w.defs[k].ty, w.Cell(k));
        match w.defs[k].ty
        case Bool => BoolAgrees(w, op, k, v);
        case Number => NumberAgrees(w, op, k, v);
        case _ => TextAgrees(w, op, k, v);
      }
    }
  }

  /** Likewise for a pattern, which memory anchors and SQL searches for. */
  lemma PatternAgrees(w: Site, k: string, p: string)
    requires w.Valid()
    ensures EvalSql(Like(k, "%" + p + "%"), w) == Truth(Matches(Like(k, p), w.Fields())) <==> PatternAgreeable(w, k, p)
  {
    var c := w.Cell(k);
    if k in w.defs { assert R.ClassFits(w.defs[k].ty, c); }
    if c.TextCell? && LikeMatch(c.s, p) {
      WrappedIsSubstring(c.s, p);
      assert c.s[0..|c.s|] == c.s;
    }
  }

  lemma {:induction false} InAgrees(w: Site, k: string, vs: seq<J.Value>)
    requires w.Valid() && forall i | 0 <= i < |vs| :: Agreeable(w, Eq, k, vs[i])
    ensures InSql(w, k, vs) == Truth(exists i | 0 <= i < |vs| :: FieldOf(w.Fields(), k) == vs[i])
  {
    if vs != [] {
      CompareAgrees(w, Eq, k, vs[0]);
      InAgrees(w, k, vs[1..]);
      if i :| 0 <= i < |vs| && FieldOf(w.Fields(), k) == vs[i] {
        assert i > 0 ==> vs[1..][i - 1] == vs[i];
      }
    }
  }

  /** On comparable rows the SQL meaning is never unknown and is the in-memory one. */
  lemma {:induction false} MeaningsAgree(n: FilterNode, w: Site)
    requires w.Valid() && Comparable(n, w)
    ensures EvalSql(Wrapped(n), w) == Truth(Matches(n, w.Fields()))
  {
    match n
    case And(l, r) => MeaningsAgree(l, w); MeaningsAgree(r, w);
    case Or(l, r) => MeaningsAgree(l, w); MeaningsAgree(r, w);
    case Not(x) => MeaningsAgree(x, w);
    case Compare(op, k, v) => CompareAgrees(w, op, k, v);
    case Like(k, p) => PatternAgrees(w, k, p);
    case In(k, vs) => InAgrees(w, k, vs);
  }

  /** Non-null, same JSON kind, and numbers written the same way. */
  predicate SameRepresentation(a: J.Value, v: J.Value) {
    match (a, v)
    case (Bool(_), Bool(_)) => true
    case (Str(_), Str(_)) => true
    case (Num(x), Num(y)) => x.Int? == y.Int?
    case _ => false
  }

  /** Comparisons of declared fields that are not JSON with literals of the stored value's own representation. */
  predicate Plain(n: FilterNode, w: Site) {
    match n
    case And(l, r) => Plain(l, w) && Plain(r, w)
    case Or(l, r) => Plain(l, w) && Plain(r, w)
    case Not(x) => Plain(x, w)
    case Compare(_, k, v) => PlainLeaf(w, k, v)
    case Like(_, _) => false
    case In(k, vs) => forall i | 0 <= i < |vs| :: PlainLeaf(w, k, vs[i])
  }

  predicate PlainLeaf(w: Site, k: string, v: J.Value) {
    k in w.defs && !w.defs[k].ty.Json? && SameRepresentation(FieldOf(w.Fields(), k), v)
  }

  lemma {:induction false} PlainIsComparable(n: FilterNode, w: Site)
    requires w.Valid() && Plain(n, w)
    ensures Comparable(n, w)
  {
    match n
    case And(l, r) => PlainIsComparable(l, w); PlainIsComparable(r, w);
    case Or(l, r) => PlainIsComparable(l, w); PlainIsComparable(r, w);
    case Not(x) => PlainIsComparable(x, w);
    case Compare(op, k, v) => assert R.ClassFits(w.defs[k].ty, w.Cell(k));
    case In(k, vs) =>
      forall i | 0 <= i < |vs| ensures Agreeable(w, Eq, k, vs[i]) {
        assert PlainLeaf(w, k, vs[i]);
        assert R.ClassFits(w.defs[k].ty, w.Cell(k));
      }
  }

  /** The pattern's leading and trailing runs of wildcards contain a `%`. */
  predicate LeadsOpen(p: string) { p != "" && (p[0] == '%' || (p[0] == '_' && LeadsOpen(p[1..]))) }

  predicate TrailsOpen(p: string) {
    p != "" && (p[|p| - 1] == '%' || (p[|p| - 1] == '_' && TrailsOpen(p[..|p| - 1])))
  }

  // ---- patterns: the memory form is anchored, the SQL form searches ---------------

  lemma {:induction false} ExtendLeft(c: char, s: string, p: string)
    requires LikeMatch(s, p) && LeadsOpen(p)
    ensures LikeMatch([c] + s, p)
    decreases |p|
  {
    assert ([c] + s)[1..] == s;
    if p[0] == '_' {
      ExtendLeft(s[0], s[1..], p[1..]);
      assert [s[0]] + s[1..] == s;
    }
  }

  lemma {:induction false} ExtendRight(s: string, c: char, p: string)
    requires LikeMatch(s, p) && TrailsOpen(p)
    ensures LikeMatch(s + [c], p)
  {
    var q, last := p[..|p| - 1], p[|p| - 1..];
    assert p == q + last;
    var k := SplitConcat(s, q, last);
    if last == "%" {
      PercentMatchesAll(s[k..] + [c]);
      JoinConcat(s[..k], q, s[k..] + [c], last);
      assert s[..k] + (s[k..] + [c]) == s + [c];
    } else {
      OneChar(s[k..], '_');
      ExtendRight(s[..k], s[k], q);
      assert s[..k] + [s[k]] == s;
      assert [c][1..] == "" && "_"[1..] == "";
      JoinConcat(s, q, [c], last);
    }
  }

  lemma OneChar(b: string, c: char)
    requires c != '%' && LikeMatch(b, [c])
    ensures |b| == 1 && (c == '_' || b[0] == c)
  {
    assert [c][1..] == "";
  }

  lemma {:induction false} ExtendBy(a: string, s: string, b: string, p: string)
    requires LikeMatch(s, p) && LeadsOpen(p) && TrailsOpen(p)
    ensures LikeMatch(a + s + b, p)
    decreases |a| + |b|
  {
    if a != "" {
      ExtendBy(a[1..], s, b, p);
      ExtendLeft(a[0], a[1..] + s + b, p);
      assert [a[0]] + (a[1..] + s + b) == a + s + b;
    } else if b != "" {
      var b' := b[..|b| - 1];
      ExtendBy(a, s, b', p);
      ExtendRight(a + s + b', b[|b| - 1], p);
      assert a + s + b' + [b[|b| - 1]] == a + s + b;
    } else {
      assert a + s + b == s;
    }
  }

  lemma OpenPatterns(p: string, v: string)
    requires LeadsOpen(p) && TrailsOpen(p)
    ensures LikeMatch(v, "%" + p + "%") <==> LikeMatch(v, p)
  {
    WrappedIsSubstring(v, p);
    if LikeMatch(v, p) { assert v[0..|v|] == v; }
    if LikeMatch(v, "%" + p + "%") {
      var i, j :| 0 <= i <= j <= |v| && LikeMatch(v[i..j], p);
      ExtendBy(v[..i], v[i..j], v[j..], p);
      assert v[..i] + v[i..j] + v[j..] == v;
    }
  }

  /** A shortest value matching `p`. */
  function Sample(p: string): string {
    if p == "" then "" else (if p[0] == '%' then "" else if p[0] == '_' then "a" else p[..1]) + Sample(p[1..])
  }

  lemma {:induction false} SampleMatches(p: string)
    ensures LikeMatch(Sample(p), p)
  {
    if p != "" {
      SampleMatches(p[1..]);
      if p[0] == '%' { assert Sample(p) == Sample(p[1..]); }
      else { assert Sample(p)[1..] == Sample(p[1..]); }
    }
  }

  function Repeat(c: char, k: nat): string { seq(k, _ => c) }

  /** The pattern character next to the leading, or trailing, run of `_`. */
  function FirstAfter(p: string): Option<char> {
    if p == "" then None else if p[0] == '_' then FirstAfter(p[1..]) else Some(p[0])
  }

  function LastBefore(p: string): Option<char> {
    if p == "" then None else if p[|p| - 1] == '_' then LastBefore(p[..|p| - 1]) else Some(p[|p| - 1])
  }

  /** Too many copies of a character that differs from the one the pattern needs there. */
  lemma {:induction false} BlocksLeft(p: string, c: char, k: nat, x: string)
    requires !LeadsOpen(p) && k >= |p| + 1 && FirstAfter(p) != Some(c)
    ensures !LikeMatch(Repeat(c, k) + x, p)
  {
    var v := Repeat(c, k) + x;
    assert v[0] == c && v[1..] == Repeat(c, k - 1) + x;
    if p != "" && p[0] == '_' { BlocksLeft(p[1..], c, k - 1, x); }
  }

  lemma {:induction false} BlocksRight(p: string, c: char, k: nat, x: string)
    requires !TrailsOpen(p) && k >= |p| + 1 && LastBefore(p) != Some(c)
    ensures !LikeMatch(x + Repeat(c, k), p)
  {
    var v := x + Repeat(c, k);
    if p == "" {
      assert |v| >= k;
    } else if LikeMatch(v, p) {
      var q, last := p[..|p| - 1], p[|p| - 1];
      assert p == q + [last];
      var j := SplitConcat(v, q, [last]);
      OneChar(v[j..], last);
      assert v[j] == c && v[..j] == x + Repeat(c, k - 1);
      BlocksRight(q, c, k - 1, x);
    }
  }

  /** The two forms of `~` accept the same values exactly when the pattern is open on both sides; otherwise SQL finds
      a value that the in-memory form rejects. */
  lemma PatternFormsAgree(p: string)
    ensures (forall v :: LikeMatch(v, "%" + p + "%") <==> LikeMatch(v, p)) <==> LeadsOpen(p) && TrailsOpen(p)
  {
    if LeadsOpen(p) && TrailsOpen(p) {
      forall v ensures LikeMatch(v, "%" + p + "%") <==> LikeMatch(v, p) { OpenPatterns(p, v); }
    } else {
      var v := Counterexample(p);
    }
  }

  lemma PadSlices(pad: string, s: string)
    ensures (pad + s)[|pad|..|pad + s|] == s && (s + pad)[0..|s|] == s
  {
  }

  lemma Counterexample(p: string) returns (v: string)
    requires !(LeadsOpen(p) && TrailsOpen(p))
    ensures LikeMatch(v, "%" + p + "%") && !LikeMatch(v, p)
  {
    var s := Sample(p);
    SampleMatches(p);
    if !LeadsOpen(p) {
      var pad := Repeat(if FirstAfter(p) == Some('a') then 'b' else 'a', |p| + 1);
      v := pad + s;
      BlocksLeft(p, pad[0], |p| + 1, s);
      PadSlices(pad, s);
    } else {
      var pad := Repeat(if LastBefore(p) == Some('a') then 'b' else 'a', |p| + 1);
      v := s + pad;
      BlocksRight(p, pad[0], |p| + 1, s);
      PadSlices(pad, s);
    }
    WrappedIsSubstring(v, p);
  }

  // ---- what lies outside -----------------------------------------------------------

  /** A null field, and a null literal, are unknown to SQL and decided in memory. */
  lemma NullsDiffer(w: Site, k: string, v: J.Value)
    requires w.Valid() && k in w.defs && w.Cell(k).NullCell? && !v.Null?
    ensures Matches(Compare(Ne, k, v), w.Fields()) && EvalSql(Compare(Ne, k, v), w).Unknown?
    ensures Matches(Compare(Eq, k, J.Null), w.Fields()) && EvalSql(Compare(Eq, k, J.Null), w).Unknown?
  {
  }

  /** An integer literal equals the stored float for SQL and not in memory. */
  lemma UnlikeNumbersDiffer(w: Site, k: string, i: int)
    requires k in w.defs && w.defs[k].ty.Number? && w.Cell(k) == D.RealCell(i as real)
    ensures !Matches(Compare(Eq, k, J.Num(J.Int(i))), w.Fields()) && EvalSql(Compare(Eq, k, J.Num(J.Int(i))), w).True?
  {
  }

  /** A string in a JSON column is stored with its quotes, so SQL never finds it by its value. */
  lemma JsonStringsDiffer(w: Site, k: string, s: string)
    requires R.Lawful(w.codec) && w.codec.parse(w.codec.render(J.Str(s))) == Some(J.Str(s))
    requires k in w.defs && w.defs[k].ty.Json?
    requires D.CellAt(w.row, k) == D.Encode(w.codec, S.Json, Some(J.Str(s)))
    ensures Matches(Compare(Eq, k, J.Str(s)), w.Fields()) && EvalSql(Compare(Eq, k, J.Str(s)), w).False?
  {
    var text := w.codec.render(J.Str(s));
    assert w.codec.parse(text) == Some(J.Str(s)) && w.codec.parse(s) != Some(J.Str(s));
    OrderOfStrings(text, s);
  }

  /** The id is a column but no entry of the document. */
  lemma IdsDiffer(w: Site)
    requires "id" !in w.defs
    ensures !Matches(Compare(Eq, "id", J.Str(w.id)), w.Fields()) && EvalSql(Compare(Eq, "id", J.Str(w.id)), w).True?
  {
    OrderOfStrings(w.id, w.id);
  }

  /** The record echoed on creation keeps a number given to a boolean field, whose column is null. */
  lemma IllTypedEchoDiffers(w: Site, echo: map<string, J.Value>, k: string, n: J.Number)
    requires k in w.defs && w.defs[k].ty.Bool? && k in echo && echo[k] == J.Num(n)
    requires w.row.cells == D.Encoded(w.codec, w.defs, echo)
    ensures Matches(Compare(Eq, k, J.Num(n)), echo) && EvalSql(Compare(Eq, k, J.Num(n)), w).Unknown?
  {
  }

  lemma EchoIsDocument(w: Site, echo: map<string, J.Value>)
    requires w.row.cells == D.Encoded(w.codec, w.defs, echo) && echo.Keys == w.defs.Keys
    requires forall k | k in echo :: R.WellTyped(w.codec, w.defs[k].ty, echo[k])
    ensures w.Valid() && w.Fields() == echo
  {
    R.InsertCells(w.codec, w.defs, echo);
    forall k | k in w.defs ensures w.Fields()[k] == echo[k] {
      R.CellRoundTrip(w.codec, w.defs[k].ty, Some(echo[k]));
      R.CanonExact(w.codec, w.defs[k].ty, echo[k]);
    }
  }

  /** A well-typed echo is judged like the row stored for it. */
  lemma EchoAgrees(w: Site, echo: map<string, J.Value>, n: FilterNode)
    requires w.row.cells == D.Encoded(w.codec, w.defs, echo) && echo.Keys == w.defs.Keys
    requires (forall k | k in echo :: R.WellTyped(w.codec, w.defs[k].ty, echo[k])) && Comparable(n, w)
    ensures EvalSql(Wrapped(n), w) == Truth(Matches(n, echo))
  {
    EchoIsDocument(w, echo);
    MeaningsAgree(n, w);
  }

  /** A text that merely contains the pattern is found by SQL alone: for every pattern not open on both sides there is
      one. */
  lemma AnchoredPatternsDiffer(w: Site, k: string, p: string) returns (v: string)
    requires k in w.defs && w.defs[k].ty.Text? && !(LeadsOpen(p) && TrailsOpen(p))
    ensures w.row.cells == map[k := D.TextCell(v)] ==>
              !Matches(Like(k, p), w.Fields()) && EvalSql(Wrapped(Like(k, p)), w).True?
  {
    v := Counterexample(p);
  }

  // ---- rows a caller may see ----------------------------------------------------------

  /** The filter a list request runs: the access rule and the caller's filter together. */
  function Combined(rule: Option<FilterNode>, user: Option<FilterNode>): Option<FilterNode> {
    match (rule, user)
    case (Some(r), Some(u)) => Some(And(r, u))
    case (Some(r), None) => rule
    case (None, _) => user
  }

  predicate Selects(n: Option<FilterNode>, w: Site) { n.None? || EvalSql(Wrapped(n.value), w).True? }

  /** The SQL of a list request selects a row exactly when both the access rule and the caller's filter select it: no
      caller filter, however written, widens the rule. */
  lemma RuleScopesRows(rule: Option<FilterNode>, user: Option<FilterNode>, w: Site)
    requires rule.Some? ==> FirstIllegal(rule.value) == None
    requires user.Some? ==> FirstIllegal(user.value) == None
    requires rule.Some? || user.Some?
    ensures var n := Combined(rule, user).value;
            var query := ReadExpr(SqlText(n), Bindings(n));
            && query.Read? && query.text == "" && query.bound == []
            && (EvalSql(query.out, w).True? <==> Selects(rule, w) && Selects(user, w))
  {
    SqlIsFaithful(Combined(rule, user).value);
  }

  /** The row called `id` of a collection in the database. */
  ghost predicate At(w: Site, db: D.Db, coll: string) {
    && coll in db.meta && coll in db.tables && w.id in db.tables[coll].rows
    && w.row == db.tables[coll].rows[w.id] && w.defs == S.ByName(db.meta[coll].fields)
  }

  lemma StoredRowsFit(codec: D.Codec, rs: seq<D.Request>, db: D.Db, coll: string, w: Site)
    requires db == DocumentRuns.Run(codec, rs) && At(w, db, coll)
    ensures w.Valid()
  {
    DocumentRuns.RunInv(codec, rs);
    assert R.TableOk(db.meta[coll], db.tables[coll]);
    assert R.RowOk(w.defs, db.tables[coll], w.id);
  }

  /** After any run of requests, on every stored row: the query's SQL is true exactly when the document that a find
      answers passes the filter in memory, if the filter is comparable there. */
  lemma QueryAgreesWithFind(rs: seq<D.Request>, db: D.Db, coll: string, w: Site, n: FilterNode)
    requires db == DocumentRuns.Run(w.codec, rs) && DocumentRuns.WholeRun(w.codec, rs)
    requires At(w, db, coll) && FirstIllegal(n) == None && Comparable(n, w)
    ensures var found, query := D.Step(w.codec, db, D.FindRecord(coll, w.id)).1, ReadExpr(SqlText(n), Bindings(n));
            && found.Stored? && query.Read? && EvalSql(query.out, w) == Truth(Matches(n, found.doc.fields))
  {
    StoredRowsFit(w.codec, rs, db, coll, w);
    DocumentRuns.FindAnswers(w.codec, db, coll, w.id);
    SqlIsFaithful(n);
    MeaningsAgree(n, w);
  }
}
