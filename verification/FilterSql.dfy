/** Translating a filter to a parameterised SQL fragment, and reading it back. */
module FilterSql {
  import opened Wrappers
  import opened Json
  import opened Filter
  import opened FilterParser

  datatype DbError = InvalidIdentifier(name: string)

  predicate IsColumnChar(c: char) { IsIdentStart(c) || IsDigit(c) }

  /** `[A-Za-z_][A-Za-z0-9_]*`: dotted paths are not columns. */
  predicate LegalColumn(s: string) {
    s != "" && IsIdentStart(s[0]) && forall i | 0 <= i < |s| :: IsColumnChar(s[i])
  }

  function Quoted(field: string): string { "\"" + field + "\"" }

  method QuoteIdent(field: string) returns (r: Result<string, DbError>)
    ensures r == if LegalColumn(field) then Ok(Quoted(field)) else Err(InvalidIdentifier(field))
  {
    if field == "" || !IsIdentStart(field[0]) {
      return Err(InvalidIdentifier(field));
    }
    for i := 1 to |field|
      invariant forall j | 0 <= j < i :: IsColumnChar(field[j])
    {
      if !IsColumnChar(field[i]) {
        return Err(InvalidIdentifier(field));
      }
    }
    return Ok(Quoted(field));
  }

  // ---- the fragment as a function of the filter ------------------------------

  function SqlOp(op: CmpOp): string {
    match op
    case Eq => "=" case Ne => "<>" case Gt => ">" case Gte => ">=" case Lt => "<" case Lte => "<="
  }

  function MarksTail(k: nat): string { if k == 0 then "" else ", ?" + MarksTail(k - 1) }

  function Marks(k: nat): string { if k == 0 then "" else "?" + MarksTail(k - 1) }

  function CompareTail(op: CmpOp): string {
    match op
    case Eq => " = ?)" case Ne => " <> ?)" case Gt => " > ?)"
    case Gte => " >= ?)" case Lt => " < ?)" case Lte => " <= ?)"
  }

  /** What follows the column name in a leaf. */
  function LeafTail(n: FilterNode, rest: string): string
    requires n.Compare? || n.Like? || n.In?
  {
    match n
    case Compare(op, _, _) => CompareTail(op) + rest
    case Like(_, _) => " LIKE ?)" + rest
    case In(_, vs) => " IN (" + (Marks(|vs|) + ("))" + rest))
  }

  /** The text of `n` followed by `rest`. */
  function SqlThen(n: FilterNode, rest: string): string {
    match n
    case And(l, r) => "(" + SqlThen(l, " AND " + SqlThen(r, ")" + rest))
    case Or(l, r) => "(" + SqlThen(l, " OR " + SqlThen(r, ")" + rest))
    case Not(x) => "(NOT " + SqlThen(x, ")" + rest)
    case _ => "(\"" + (n.field + ("\"" + LeafTail(n, rest)))
  }

  function SqlText(n: FilterNode): string { SqlThen(n, "") }

  function Bindings(n: FilterNode): seq<Value> {
    match n
    case And(l, r) => Bindings(l) + Bindings(r)
    case Or(l, r) => Bindings(l) + Bindings(r)
    case Not(x) => Bindings(x)
    case Compare(_, _, v) => [v]
    case Like(_, p) => [Str("%" + p + "%")]
    case In(_, vs) => vs
  }

  /** The leftmost identifier that is not a column name. */
  function FirstIllegal(n: FilterNode): Option<string> {
    match n
    case And(l, r) => if FirstIllegal(l).Some? then FirstIllegal(l) else FirstIllegal(r)
    case Or(l, r) => if FirstIllegal(l).Some? then FirstIllegal(l) else FirstIllegal(r)
    case Not(x) => FirstIllegal(x)
    case _ => if LegalColumn(n.field) then None else Some(n.field)
  }

  datatype Outcome = Pass | Reject(error: DbError)

  function Verdict(n: FilterNode): Outcome {
    match FirstIllegal(n) case None => Pass case Some(f) => Reject(InvalidIdentifier(f))
  }

  class SqlFragment {
    var sql: string
    var bindings: seq<Value>

    constructor ()
      ensures sql == "" && bindings == []
    {
      sql, bindings := "", [];
    }

    /** Appends the translation of `n`; what was there before stays a prefix even on failure. */
    method Translate(n: FilterNode) returns (o: Outcome)
      modifies this
      ensures o == Verdict(n)
      ensures old(sql) <= sql && old(bindings) <= bindings
      ensures o.Pass? ==> sql == old(sql) + SqlText(n) && bindings == old(bindings) + Bindings(n)
      decreases n, 1
    {
      match n
      case And(l, r) => o := Binary(n, l, "AND", r);
      case Or(l, r) => o := Binary(n, l, "OR", r);
      case Not(x) =>
        sql := sql + "(NOT ";
        o := Translate(x);
        if o.Pass? {
          sql := sql + ")";
          NotText(old(sql), x);
        }
      case Compare(op, f, v) => o := CompareTo(f, op, v);
      case Like(f, p) =>
        var col := QuoteIdent(f);
        if col.Err? { return Reject(col.error); }
        sql := sql + "(";
        sql := sql + col.value;
        sql := sql + " LIKE ?)";
        bindings := bindings + [Str("%" + p + "%")];
        o := Pass;
        LikeText(old(sql), f, p);
      case In(f, vs) => o := Member(f, vs);
    }

    method Binary(ghost n: FilterNode, l: FilterNode, op: string, r: FilterNode) returns (o: Outcome)
      requires (op == "AND" && n == And(l, r)) || (op == "OR" && n == Or(l, r))
      modifies this
      ensures o == Verdict(n)
      ensures old(sql) <= sql && old(bindings) <= bindings
      ensures o.Pass? ==> sql == old(sql) + SqlText(n) && bindings == old(bindings) + Bindings(n)
      decreases n, 0
    {
      ghost var s0, b0 := sql, bindings;
      sql := sql + "(";
      ghost var s1 := sql;
      o := Translate(l);
      ghost var s2, b2 := sql, bindings;
      Between(s0, "(", s1, s2);
      if o.Reject? { return; }
      sql := sql + (" " + op + " ");
      ghost var s3 := sql;
      Between(s2, " " + op + " ", s3, s3);
      o := Translate(r);
      Prefixes(s2, s3, sql);
      Prefixes(s0, s2, sql);
      Prefixes(b0, b2, bindings);
      if o.Reject? { return; }
      Between(sql, ")", sql + ")", sql + ")");
      Prefixes(s0, sql, sql + ")");
      sql := sql + ")";
      BinaryText(s0, n, l, op, r);
      BindingsAssoc(b0, Bindings(l), Bindings(r));
    }

    method CompareTo(field: string, op: CmpOp, v: Value) returns (o: Outcome)
      modifies this
      ensures o == Verdict(Compare(op, field, v))
      ensures old(sql) <= sql && old(bindings) <= bindings
      ensures o.Pass? ==> sql == old(sql) + SqlText(Compare(op, field, v)) && bindings == old(bindings) + [v]
    {
      var col := QuoteIdent(field);
      if col.Err? { return Reject(col.error); }
      sql := sql + "(";
      sql := sql + col.value;
      sql := sql + " ";
      sql := sql + SqlOp(op);
      sql := sql + " ?)";
      bindings := bindings + [v];
      o := Pass;
      CompareText(old(sql), field, op, v);
    }

    method Member(field: string, vs: seq<Value>) returns (o: Outcome)
      modifies this
      ensures o == Verdict(In(field, vs))
      ensures old(sql) <= sql && old(bindings) <= bindings
      ensures o.Pass? ==> sql == old(sql) + SqlText(In(field, vs)) && bindings == old(bindings) + vs
    {
      var col := QuoteIdent(field);
      if col.Err? { return Reject(col.error); }
      sql := sql + "(";
      sql := sql + col.value;
      sql := sql + " IN (";
      assert sql == old(sql) + "(" + Quoted(field) + " IN (";
      PushMarks(vs);
      sql := sql + "))";
      o := Pass;
      MemberText(old(sql), field, vs);
    }

    /** One mark and one binding per value. */
    method PushMarks(vs: seq<Value>)
      modifies this
      ensures sql == old(sql) + Marks(|vs|) && bindings == old(bindings) + vs
    {
      ghost var head, bound := sql, bindings;
      for i := 0 to |vs|
        invariant sql == head + Marks(i) && bindings == bound + vs[..i]
      {
        MarksGrow(head, i);
        BindingsGrow(bound, vs, i);
        if i > 0 { sql := sql + ", "; }
        sql := sql + "?";
        bindings := bindings + [vs[i]];
      }
      assert vs[..|vs|] == vs;
    }
  }

  // ---- the pushes add up -----------------------------------------------------

  lemma Prefixes<T>(a: seq<T>, b: seq<T>, c: seq<T>)
    requires a <= b && b <= c
    ensures a <= c
  {
  }

  /** A push, and whatever is appended after it. */
  lemma Between(a: string, b: string, c: string, d: string)
    requires c == a + b && c <= d
    ensures a <= d
  {
  }

  lemma BindingsAssoc(a: seq<Value>, b: seq<Value>, c: seq<Value>)
    ensures a + b + c == a + (b + c)
  {
  }

  lemma Chain4(a: string, b: string, c: string, d: string)
    ensures a + b + c + d == a + (b + (c + d))
  {}

  lemma CompareText(before: string, f: string, op: CmpOp, v: Value)
    ensures before + "(" + Quoted(f) + " " + SqlOp(op) + " ?)" == before + SqlText(Compare(op, f, v))
    ensures before <= before + "(" + Quoted(f) + " " + SqlOp(op) + " ?)"
  {
    assert " " + SqlOp(op) + " ?)" == CompareTail(op);
    var x := before + "(" + Quoted(f);
    Chain4(x, " ", SqlOp(op), " ?)");
    assert x + " " + SqlOp(op) + " ?)" == x + CompareTail(op);
    LeafText(before, f, CompareTail(op));
    assert CompareTail(op) + "" == CompareTail(op);
  }

  lemma LeafText(before: string, f: string, tail: string)
    ensures before + "(" + Quoted(f) + tail == before + ("(\"" + (f + ("\"" + tail)))
  {
    assert "(" + Quoted(f) == "(\"" + f + "\"";
    assert before + "(" + Quoted(f) == before + ("(" + Quoted(f));
  }

  lemma LikeText(before: string, f: string, p: string)
    ensures before + "(" + Quoted(f) + " LIKE ?)" == before + SqlText(Like(f, p))
    ensures before <= before + "(" + Quoted(f) + " LIKE ?)"
  {
    LeafText(before, f, " LIKE ?)");
    assert " LIKE ?)" + "" == " LIKE ?)";
  }

  lemma NotText(before: string, x: FilterNode)
    ensures before + "(NOT " + SqlText(x) + ")" == before + SqlText(Not(x))
  {
    ThenAppends(x, ")" + "");
    assert ")" + "" == ")";
    Chain4(before, "(NOT ", SqlText(x), ")");
  }

  lemma MemberText(before: string, f: string, vs: seq<Value>)
    ensures before + "(" + Quoted(f) + " IN (" + Marks(|vs|) + "))" == before + SqlText(In(f, vs))
    ensures before <= before + "(" + Quoted(f) + " IN (" + Marks(|vs|) + "))"
  {
    var x := before + "(" + Quoted(f);
    var tail := " IN (" + (Marks(|vs|) + "))");
    Chain4(x, " IN (", Marks(|vs|), "))");
    LeafText(before, f, tail);
    assert "))" + "" == "))";
  }

  lemma {:induction false} ThenAppends(n: FilterNode, rest: string)
    ensures SqlThen(n, rest) == SqlText(n) + rest
    decreases n, 1
  {
    match n
    case And(l, r) => PairAppends(n, l, " AND ", r, rest);
    case Or(l, r) => PairAppends(n, l, " OR ", r, rest);
    case Not(x) =>
      ThenAppends(x, ")" + rest);
      ThenAppends(x, ")" + "");
      assert "(NOT " + (SqlText(x) + (")" + rest)) == "(NOT " + (SqlText(x) + (")" + "")) + rest;
    case _ => TailAppends(n, rest);
  }

  lemma {:induction false} PairAppends(n: FilterNode, l: FilterNode, op: string, r: FilterNode, rest: string)
    requires n == And(l, r) || n == Or(l, r)
    ensures "(" + SqlThen(l, op + SqlThen(r, ")" + rest)) == "(" + SqlThen(l, op + SqlThen(r, ")" + "")) + rest
    decreases n, 0
  {
    ThenAppends(r, ")" + rest);
    ThenAppends(r, ")" + "");
    ThenAppends(l, op + SqlThen(r, ")" + rest));
    ThenAppends(l, op + SqlThen(r, ")" + ""));
    PairAssoc(SqlText(l), op, SqlText(r), rest);
  }

  lemma PairAssoc(s: string, op: string, t: string, rest: string)
    ensures "(" + (s + (op + (t + (")" + rest)))) == "(" + (s + (op + (t + (")" + "")))) + rest
  {}

  lemma ListAppends(marks: string, rest: string)
    ensures " IN (" + (marks + ("))" + rest)) == " IN (" + (marks + ("))" + "")) + rest
  {
  }

  lemma LeafTailAppends(n: FilterNode, rest: string)
    requires n.Compare? || n.Like? || n.In?
    ensures LeafTail(n, rest) == LeafTail(n, "") + rest
  {
    if n.In? { ListAppends(Marks(|n.values|), rest); }
  }

  lemma FieldAppends(f: string, tail: string, rest: string)
    ensures "(\"" + (f + ("\"" + (tail + rest))) == "(\"" + (f + ("\"" + tail)) + rest
  {
  }

  lemma TailAppends(n: FilterNode, rest: string)
    requires n.Compare? || n.Like? || n.In?
    ensures SqlThen(n, rest) == SqlText(n) + rest
  {
    LeafTailAppends(n, rest);
    FieldAppends(n.field, LeafTail(n, ""), rest);
  }

  lemma BinaryText(before: string, n: FilterNode, l: FilterNode, op: string, r: FilterNode)
    requires (op == "AND" && n == And(l, r)) || (op == "OR" && n == Or(l, r))
    ensures before + "(" + SqlText(l) + (" " + op + " ") + SqlText(r) + ")" == before + SqlText(n)
  {
    var sep := if op == "AND" then " AND " else " OR ";
    assert " " + op + " " == sep;
    ThenAppends(r, ")" + "");
    ThenAppends(l, sep + SqlThen(r, ")" + ""));
    BinaryAssoc(before, SqlText(l), op, sep, SqlText(r));
  }

  lemma BinaryAssoc(before: string, s: string, op: string, sep: string, t: string)
    requires " " + op + " " == sep
    ensures before + "(" + s + (" " + op + " ") + t + ")" == before + ("(" + (s + (sep + (t + (")" + "")))))
  {
    Chain4(before, "(", s, sep);
    Chain4(before + ("(" + (s + sep)), "", t, ")");
    assert ")" + "" == ")";
    assert before + ("(" + (s + sep)) + (t + ")") == before + ("(" + (s + (sep + (t + ")"))));
  }

  lemma BindingsGrow(bound: seq<Value>, vs: seq<Value>, i: nat)
    requires i < |vs|
    ensures bound + vs[..i] + [vs[i]] == bound + vs[..i + 1]
  {
  }

  lemma MarksGrow(head: string, k: nat)
    ensures head + Marks(k + 1) == if k > 0 then head + Marks(k) + ", " + "?" else head + Marks(k) + "?"
  {
    if k > 0 {
      MarksTailGrow(k - 1);
      assert Marks(k + 1) == Marks(k) + ", ?";
      assert ", ?" == ", " + "?";
    }
  }

  lemma {:induction false} MarksTailGrow(k: nat)
    ensures MarksTail(k + 1) == MarksTail(k) + ", ?"
  {
    if k > 0 { MarksTailGrow(k - 1); }
  }

  method FilterToSql(n: FilterNode) returns (sql: string, bindings: seq<Value>, o: Outcome)
    ensures o == Verdict(n)
    ensures o.Pass? ==> sql == SqlText(n) && bindings == Bindings(n)
  {
    var out := new SqlFragment();
    o := out.Translate(n);
    sql, bindings := out.sql, out.bindings;
    assert "" + SqlText(n) == SqlText(n);
  }
}
