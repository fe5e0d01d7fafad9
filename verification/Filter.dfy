/** The filter syntax tree and its in-memory evaluation. */
module Filter {
  import opened Wrappers
  import opened Json

  datatype CmpOp = Eq | Ne | Gt | Gte | Lt | Lte

  /** A filter over operands of type V and patterns of type P. The six comparison variants of the source are one
      constructor carrying the operator. */
  datatype Node<V, P> =
    | And(l: Node<V, P>, r: Node<V, P>)
    | Or(l: Node<V, P>, r: Node<V, P>)
    | Not(inner: Node<V, P>)
    | Compare(op: CmpOp, field: string, value: V)
    | Like(field: string, pattern: P)
    | In(field: string, values: seq<V>)

  type FilterNode = Node<Value, string>

  datatype Ordering = Less | Equal | Greater

  function CompareReals(x: real, y: real): Ordering {
    if x < y then Less else if x == y then Equal else Greater
  }

  /** Lexicographic order by code point, which is also UTF-8 byte order. */
  function CompareStrings(x: string, y: string): Ordering {
    if x == "" then (if y == "" then Equal else Less)
    else if y == "" then Greater
    else if x[0] < y[0] then Less
    else if x[0] > y[0] then Greater
    else CompareStrings(x[1..], y[1..])
  }

  function CompareValues(a: Value, b: Value): Option<Ordering> {
    match (a, b)
    case (Num(x), Num(y)) => Some(CompareReals(x.AsReal(), y.AsReal()))
    case (Str(x), Str(y)) => Some(CompareStrings(x, y))
    case (Bool(x), Bool(y)) => Some(if x == y then Equal else if y then Less else Greater)
    case _ => None
  }

  predicate OrderHolds(op: CmpOp, o: Ordering) {
    match op
    case Eq => o.Equal?
    case Ne => !o.Equal?
    case Gt => o.Greater?
    case Gte => !o.Less?
    case Lt => o.Less?
    case Lte => !o.Greater?
  }

  predicate CompareMatches(op: CmpOp, actual: Value, v: Value) {
    match op
    case Eq => actual == v
    case Ne => actual != v
    case _ =>
      var o := CompareValues(actual, v);
      o.Some? && OrderHolds(op, o.value)
  }

  /** A missing field reads as null. */
  function FieldOf(fields: map<string, Value>, k: string): Value {
    if k in fields then fields[k] else Null
  }

  predicate Matches(n: FilterNode, fields: map<string, Value>) {
    match n
    case And(l, r) => Matches(l, fields) && Matches(r, fields)
    case Or(l, r) => Matches(l, fields) || Matches(r, fields)
    case Not(inner) => !Matches(inner, fields)
    case Compare(op, k, v) => CompareMatches(op, FieldOf(fields, k), v)
    case Like(k, pat) => FieldOf(fields, k).Str? && LikeMatch(FieldOf(fields, k).s, pat)
    case In(k, list) => exists i | 0 <= i < |list| :: FieldOf(fields, k) == list[i]
  }

  /** Backtracking matcher: `%` is any run of characters, `_` exactly one. */
  predicate LikeMatch(v: string, p: string)
    decreases |v| + |p|
  {
    if p == "" then v == ""
    else if p[0] == '%' then LikeMatch(v, p[1..]) || (v != "" && LikeMatch(v[1..], p))
    else if p[0] == '_' then v != "" && LikeMatch(v[1..], p[1..])
    else v != "" && v[0] == p[0] && LikeMatch(v[1..], p[1..])
  }
}

/** What a LIKE pattern means, independently of the matcher's search. */
module LikeMeaning {
  import opened Filter

  predicate PieceFits(piece: string, c: char) {
    if c == '%' then true
    else if c == '_' then |piece| == 1
    else piece == [c]
  }

  function Join(pieces: seq<string>): string {
    if pieces == [] then "" else pieces[0] + Join(pieces[1..])
  }

  /** `pieces` cuts `v` into consecutive parts, one for each pattern character. */
  ghost predicate Cuts(pieces: seq<string>, v: string, p: string) {
    && |pieces| == |p|
    && Join(pieces) == v
    && forall i | 0 <= i < |p| :: PieceFits(pieces[i], p[i])
  }

  /** The matcher accepts exactly the values that can be cut along the pattern. */
  lemma {:induction false} LikeMatchIsCut(v: string, p: string)
    ensures LikeMatch(v, p) <==> exists pieces :: Cuts(pieces, v, p)
  {
    if LikeMatch(v, p) {
      var pieces := CutOf(v, p);
    }
    forall pieces | Cuts(pieces, v, p) ensures LikeMatch(v, p) {
      CutMatches(pieces, v, p);
    }
  }

  lemma {:induction false} CutOf(v: string, p: string) returns (pieces: seq<string>)
    requires LikeMatch(v, p)
    ensures Cuts(pieces, v, p)
    decreases |v| + |p|
  {
    if p == "" {
      pieces := [];
    } else if p[0] == '%' && !LikeMatch(v, p[1..]) {
      var rest := CutOf(v[1..], p);
      pieces := [[v[0]] + rest[0]] + rest[1..];
      assert pieces[1..] == rest[1..];
    } else {
      var first := if p[0] == '%' then "" else v[..1];
      var rest := CutOf(v[|first|..], p[1..]);
      pieces := [first] + rest;
      assert pieces[1..] == rest;
    }
  }

  lemma {:induction false} CutMatches(pieces: seq<string>, v: string, p: string)
    requires Cuts(pieces, v, p)
    ensures LikeMatch(v, p)
    decreases |v| + |p|
  {
    if p != "" {
      if p[0] == '%' && pieces[0] != "" {
        var shorter := [pieces[0][1..]] + pieces[1..];
        assert shorter[1..] == pieces[1..];
        assert Join(shorter) == v[1..];
        CutMatches(shorter, v[1..], p);
      } else {
        assert Join(pieces[1..]) == v[|pieces[0]|..];
        CutMatches(pieces[1..], v[|pieces[0]|..], p[1..]);
      }
    }
  }

  /** Matching a concatenated pattern is splitting the value. */
  lemma {:induction false} LikeConcat(v: string, p: string, q: string)
    ensures LikeMatch(v, p + q) <==> exists k | 0 <= k <= |v| :: LikeMatch(v[..k], p) && LikeMatch(v[k..], q)
  {
    if LikeMatch(v, p + q) {
      var k := SplitConcat(v, p, q);
    }
    forall k | 0 <= k <= |v| && LikeMatch(v[..k], p) && LikeMatch(v[k..], q)
      ensures LikeMatch(v, p + q)
    {
      JoinConcat(v[..k], p, v[k..], q);
      assert v[..k] + v[k..] == v;
    }
  }

  lemma {:induction false} SplitConcat(v: string, p: string, q: string) returns (k: nat)
    requires LikeMatch(v, p + q)
    ensures k <= |v| && LikeMatch(v[..k], p) && LikeMatch(v[k..], q)
    decreases |v| + |p|
  {
    if p == "" {
      assert p + q == q;
      k := 0;
      assert v[0..] == v;
    } else {
      assert (p + q)[1..] == p[1..] + q && (p + q)[0] == p[0];
      if p[0] == '%' && LikeMatch(v, p[1..] + q) {
        k := SplitConcat(v, p[1..], q);
      } else {
        var p' := if p[0] == '%' then p else p[1..];
        var k' := SplitConcat(v[1..], p', q);
        k := k' + 1;
        assert v[..k][1..] == v[1..][..k'] && v[k..] == v[1..][k'..];
      }
    }
  }

  lemma {:induction false} JoinConcat(v: string, p: string, w: string, q: string)
    requires LikeMatch(v, p) && LikeMatch(w, q)
    ensures LikeMatch(v + w, p + q)
    decreases |v| + |p|
  {
    if p == "" {
      assert v + w == w && p + q == q;
    } else {
      assert (p + q)[1..] == p[1..] + q && (p + q)[0] == p[0];
      if p[0] == '%' && LikeMatch(v, p[1..]) {
        JoinConcat(v, p[1..], w, q);
      } else {
        assert (v + w)[1..] == v[1..] + w && (v + w)[0] == v[0];
        JoinConcat(v[1..], if p[0] == '%' then p else p[1..], w, q);
      }
    }
  }

  lemma {:induction false} PercentMatchesAll(v: string)
    ensures LikeMatch(v, "%")
  {
    if v != "" { PercentMatchesAll(v[1..]); }
    assert "%"[1..] == "";
  }

  /** Wrapping a pattern in `%` is searching for a substring that matches it. */
  lemma WrappedIsSubstring(v: string, p: string)
    ensures LikeMatch(v, "%" + p + "%")
       <==> exists i, j | 0 <= i <= j <= |v| :: LikeMatch(v[i..j], p)
  {
    if LikeMatch(v, "%" + p + "%") {
      var j := SplitConcat(v, "%" + p, "%");
      var i := SplitConcat(v[..j], "%", p);
      assert v[..j][i..] == v[i..j];
    }
    forall i, j | 0 <= i <= j <= |v| && LikeMatch(v[i..j], p)
      ensures LikeMatch(v, "%" + p + "%")
    {
      PercentMatchesAll(v[..i]);
      PercentMatchesAll(v[j..]);
      JoinConcat(v[..i], "%", v[i..j], p);
      JoinConcat(v[..i] + v[i..j], "%" + p, v[j..], "%");
      assert v[..i] + v[i..j] + v[j..] == v;
    }
  }
}

/** What a comparison means, told by values alone. */
module ComparisonMeaning {
  import opened Json
  import opened Filter
  import opened LikeMeaning

  function Quantity(n: Number): real {
    match n case Int(i) => i as real case Float(r) => r
  }

  /** `x` is a proper prefix of `y`, or has the smaller character where they first differ. */
  ghost predicate Before(x: string, y: string) {
    exists k | 0 <= k <= |x| && k < |y| :: x[..k] == y[..k] && (k == |x| || x[k] < y[k])
  }

  /** Numbers by value, strings by their first difference, false before true; values of different kinds, nulls, arrays
      and objects are never in order. */
  ghost predicate Below(a: Value, b: Value) {
    match (a, b)
    case (Num(x), Num(y)) => Quantity(x) < Quantity(y)
    case (Str(x), Str(y)) => Before(x, y)
    case (Bool(x), Bool(y)) => !x && y
    case _ => false
  }

  /** Neither of two ordered values is below the other. */
  predicate Level(a: Value, b: Value) {
    match (a, b)
    case (Num(x), Num(y)) => Quantity(x) == Quantity(y)
    case (Str(x), Str(y)) => x == y
    case (Bool(x), Bool(y)) => x == y
    case _ => false
  }

  lemma BeforeFrom(x: string, y: string, k: nat)
    requires k <= |x| && k < |y| && x[..k] == y[..k] && (k == |x| || x[k] < y[k])
    ensures Before(x, y)
  {
  }

  lemma BeforeTail(x: string, y: string)
    requires x != "" && y != "" && x[0] == y[0] && Before(x[1..], y[1..])
    ensures Before(x, y)
  {
    var k :| 0 <= k <= |x[1..]| && k < |y[1..]| && x[1..][..k] == y[1..][..k] &&
             (k == |x[1..]| || x[1..][k] < y[1..][k]);
    assert x[..k + 1] == [x[0]] + x[1..][..k] && y[..k + 1] == [y[0]] + y[1..][..k];
    BeforeFrom(x, y, k + 1);
  }

  lemma NeverBoth(x: string, y: string)
    requires Before(x, y)
    ensures !Before(y, x) && x != y
  {
    var k :| 0 <= k <= |x| && k < |y| && x[..k] == y[..k] && (k == |x| || x[k] < y[k]);
  }

  lemma {:induction false} StringOrder(x: string, y: string)
    ensures match CompareStrings(x, y)
            case Less => Before(x, y)
            case Equal => x == y
            case Greater => Before(y, x)
  {
    if x == "" || y == "" || x[0] != y[0] {
      if y != "" && (x == "" || x[0] < y[0]) { BeforeFrom(x, y, 0); }
      if x != "" && (y == "" || y[0] < x[0]) { BeforeFrom(y, x, 0); }
    } else {
      StringOrder(x[1..], y[1..]);
      if Before(x[1..], y[1..]) { BeforeTail(x, y); }
      if Before(y[1..], x[1..]) { BeforeTail(y, x); }
      assert x == [x[0]] + x[1..] && y == [y[0]] + y[1..];
    }
  }

  /** The six comparisons, a missing field standing for null. */
  lemma ComparisonsMean(k: string, v: Value, fields: map<string, Value>)
    ensures var a := if k in fields then fields[k] else Null;
            && (Matches(Compare(Eq, k, v), fields) <==> a == v)
            && (Matches(Compare(Ne, k, v), fields) <==> a != v)
            && (Matches(Compare(Gt, k, v), fields) <==> Below(v, a))
            && (Matches(Compare(Gte, k, v), fields) <==> Below(v, a) || Level(a, v))
            && (Matches(Compare(Lt, k, v), fields) <==> Below(a, v))
            && (Matches(Compare(Lte, k, v), fields) <==> Below(a, v) || Level(a, v))
  {
    var a := if k in fields then fields[k] else Null;
    match (a, v)
    case (Str(x), Str(y)) =>
      StringOrder(x, y);
      if Before(x, y) { NeverBoth(x, y); }
      if Before(y, x) { NeverBoth(y, x); }
    case _ =>
  }

  /** A pattern is met by strings that can be cut along it, and a list by its members. */
  lemma PatternsAndListsMean(k: string, p: string, vs: seq<Value>, fields: map<string, Value>)
    ensures Matches(Like(k, p), fields) <==>
            k in fields && fields[k].Str? && exists pieces :: Cuts(pieces, fields[k].s, p)
    ensures Matches(In(k, vs), fields) <==> (if k in fields then fields[k] else Null) in vs
  {
    if k in fields && fields[k].Str? { LikeMatchIsCut(fields[k].s, p); }
  }
}
