/** The column check in front of the SQL generator, and what it guarantees about the emitted text. */
module FilterColumns {
  import opened Wrappers
  import opened Filter
  import opened FilterLexing
  import opened FilterSql
  import opened Schemas
  import DocumentStore
  import DocumentRefinement
  import DocumentRuns

  const IMPLICIT: set<string> := {"id", "created_at", "updated_at"}

  function Known(fields: seq<Field>): set<string> { IMPLICIT + Names(fields) }

  /** The leftmost field of the filter that is not known. */
  function Walk(n: FilterNode, known: set<string>): Option<string> {
    match n
    case And(l, r) => if Walk(l, known).Some? then Walk(l, known) else Walk(r, known)
    case Or(l, r) => if Walk(l, known).Some? then Walk(l, known) else Walk(r, known)
    case Not(x) => Walk(x, known)
    case _ => if n.field in known then None else Some(n.field)
  }

  method ValidateFilterColumns(n: FilterNode, schema: Schema) returns (unknown: Option<string>)
    ensures unknown == Walk(n, Known(schema.fields))
  {
    var known := IMPLICIT;
    for i := 0 to |schema.fields|
      invariant known == Known(schema.fields[..i])
    {
      assert schema.fields[..i + 1] == schema.fields[..i] + [schema.fields[i]];
      assert Names(schema.fields[..i + 1]) == Names(schema.fields[..i]) + {schema.fields[i].name};
      known := known + {schema.fields[i].name};
    }
    assert schema.fields[..|schema.fields|] == schema.fields;
    unknown := Walk(n, known);
  }

  // ---- the fields of a filter ----------------------------------------------------------------

  function FieldsOf(n: FilterNode): seq<string> {
    match n
    case And(l, r) => FieldsOf(l) + FieldsOf(r)
    case Or(l, r) => FieldsOf(l) + FieldsOf(r)
    case Not(x) => FieldsOf(x)
    case _ => [n.field]
  }

  /** `w` is the first of `fs` that lies outside `ok`, if one does. */
  ghost predicate FirstOutside(fs: seq<string>, ok: iset<string>, w: Option<string>) {
    if w.None? then forall f | f in fs :: f in ok
    else exists i | 0 <= i < |fs| :: fs[i] == w.value && fs[i] !in ok && forall j | 0 <= j < i :: fs[j] in ok
  }

  lemma FirstOfTwo(a: seq<string>, b: seq<string>, ok: iset<string>, v: Option<string>, w: Option<string>)
    requires FirstOutside(a, ok, v) && FirstOutside(b, ok, w)
    ensures FirstOutside(a + b, ok, if v.Some? then v else w)
  {
    if v.Some? {
      var i :| 0 <= i < |a| && a[i] == v.value && a[i] !in ok && forall j | 0 <= j < i :: a[j] in ok;
      assert (a + b)[i] == a[i];
    } else if w.Some? {
      var i :| 0 <= i < |b| && b[i] == w.value && b[i] !in ok && forall j | 0 <= j < i :: b[j] in ok;
      assert (a + b)[|a| + i] == b[i];
    }
  }

  /** The check names the first unknown field, and passes exactly when there is none. */
  lemma {:induction false} WalkFindsUnknown(n: FilterNode, known: set<string>)
    ensures FirstOutside(FieldsOf(n), (iset f | f in known), Walk(n, known))
    ensures Walk(n, known).None? <==> forall f | f in FieldsOf(n) :: f in known
  {
    match n
    case And(l, r) =>
      WalkFindsUnknown(l, known);
      WalkFindsUnknown(r, known);
      FirstOfTwo(FieldsOf(l), FieldsOf(r), (iset f | f in known), Walk(l, known), Walk(r, known));
    case Or(l, r) =>
      WalkFindsUnknown(l, known);
      WalkFindsUnknown(r, known);
      FirstOfTwo(FieldsOf(l), FieldsOf(r), (iset f | f in known), Walk(l, known), Walk(r, known));
    case Not(x) => WalkFindsUnknown(x, known);
    case _ => assert FieldsOf(n)[0] == n.field;
  }

  /** A name that a filter on the collection may use: the id, one of the two times, or a declared field. */
  predicate Usable(schema: Schema, f: string) {
    f == "id" || f == "created_at" || f == "updated_at" || exists g | g in schema.fields :: g.name == f
  }

  /** The check of a collection's filters names the first name that may not be used. */
  lemma CheckFindsUnknown(n: FilterNode, schema: Schema)
    ensures FirstOutside(FieldsOf(n), (iset f | Usable(schema, f)), Walk(n, Known(schema.fields)))
  {
    WalkFindsUnknown(n, Known(schema.fields));
    forall f ensures f in Known(schema.fields) <==> Usable(schema, f) {}
    assert (iset f | Usable(schema, f)) == (iset f | f in Known(schema.fields));
  }

  /** A letter or underscore, then any number of these and digits. */
  ghost predicate ColumnName(s: string) {
    s != "" && forall i | 0 <= i < |s| ::
      s[i] == '_' || 'a' <= s[i] <= 'z' || 'A' <= s[i] <= 'Z' || (i > 0 && '0' <= s[i] <= '9')
  }

  /** The translation stops at the first field that is no column name, and succeeds exactly when there is none. */
  lemma {:induction false} TranslationStops(n: FilterNode)
    ensures FirstOutside(FieldsOf(n), (iset f: string | ColumnName(f)), FirstIllegal(n))
    ensures Verdict(n) == if FirstIllegal(n).None? then Pass else Reject(InvalidIdentifier(FirstIllegal(n).value))
  {
    var ok := iset f: string | ColumnName(f);
    match n
    case And(l, r) =>
      TranslationStops(l);
      TranslationStops(r);
      FirstOfTwo(FieldsOf(l), FieldsOf(r), ok, FirstIllegal(l), FirstIllegal(r));
    case Or(l, r) =>
      TranslationStops(l);
      TranslationStops(r);
      FirstOfTwo(FieldsOf(l), FieldsOf(r), ok, FirstIllegal(l), FirstIllegal(r));
    case Not(x) => TranslationStops(x);
    case _ =>
      assert FieldsOf(n)[0] == n.field;
      LegalIsColumnName(n.field);
  }

  lemma LegalIsColumnName(s: string)
    ensures LegalColumn(s) <==> ColumnName(s)
  {
    if ColumnName(s) { assert s[0] == '_' || 'a' <= s[0] <= 'z' || 'A' <= s[0] <= 'Z'; }
  }

  // ---- the identifiers of the text ------------------------------------------------------------------

  /** The identifiers between double quotes, read from the text alone; `open` holds what follows an unmatched quote. */
  function NamesIn(s: string, open: Option<string>): seq<string> {
    if s == "" then []
    else match open
      case None => NamesIn(s[1..], if s[0] == '"' then Some("") else None)
      case Some(name) =>
        if s[0] == '"' then [name] + NamesIn(s[1..], None) else NamesIn(s[1..], Some(name + [s[0]]))
  }

  function QuotedNames(s: string): seq<string> { NamesIn(s, None) }

  lemma {:induction false} SkipPlain(p: string, rest: string)
    requires QuoteFree(p)
    ensures NamesIn(p + rest, None) == NamesIn(rest, None)
  {
    if p == "" {
      assert p + rest == rest;
    } else {
      assert (p + rest)[1..] == p[1..] + rest;
      SkipPlain(p[1..], rest);
    }
  }

  lemma {:induction false} ReadName(name: string, f: string, rest: string)
    requires QuoteFree(f)
    ensures NamesIn(f + rest, Some(name)) == NamesIn(rest, Some(name + f))
    decreases |f|
  {
    if f == "" {
      assert f + rest == rest && name + f == name;
    } else {
      assert (f + rest)[1..] == f[1..] + rest;
      assert name + [f[0]] + f[1..] == name + f;
      ReadName(name + [f[0]], f[1..], rest);
    }
  }

  lemma QuoteTurns(rest: string, name: string)
    ensures NamesIn("\"" + rest, None) == NamesIn(rest, Some(""))
    ensures NamesIn("\"" + rest, Some(name)) == [name] + NamesIn(rest, None)
  {
    assert ("\"" + rest)[1..] == rest;
  }

  lemma NameThen(f: string, rest: string)
    requires QuoteFree(f)
    ensures NamesIn("(\"" + (f + ("\"" + rest)), None) == [f] + NamesIn(rest, None)
  {
    var tail := f + ("\"" + rest);
    assert "(\"" + tail == "(" + ("\"" + tail);
    SkipPlain("(", "\"" + tail);
    QuoteTurns(tail, "");
    ReadName("", f, "\"" + rest);
    assert "" + f == f;
    QuoteTurns(rest, f);
  }

  lemma {:induction false} MarksPlain(k: nat)
    ensures QuoteFree(MarksTail(k)) && QuoteFree(Marks(k))
  {
    if k > 0 { MarksPlain(k - 1); }
  }

  lemma LeafTailPlain(n: FilterNode, rest: string)
    requires n.Compare? || n.Like? || n.In?
    ensures NamesIn(LeafTail(n, rest), None) == NamesIn(rest, None)
  {
    match n
    case Compare(op, _, _) => SkipPlain(CompareTail(op), rest);
    case Like(_, _) => SkipPlain(" LIKE ?)", rest);
    case In(_, vs) => ListPlain(Marks(|vs|), |vs|, rest);
  }

  lemma ListPlain(marks: string, k: nat, rest: string)
    requires marks == Marks(k)
    ensures NamesIn(" IN (" + (marks + ("))" + rest)), None) == NamesIn(rest, None)
  {
    MarksPlain(k);
    SkipPlain("))", rest);
    SkipPlain(marks, "))" + rest);
    SkipPlain(" IN (", marks + ("))" + rest));
  }

  lemma LeafNames(n: FilterNode, rest: string)
    requires (n.Compare? || n.Like? || n.In?) && LegalColumn(n.field)
    ensures NamesIn(SqlThen(n, rest), None) == [n.field] + NamesIn(rest, None)
  {
    assert QuoteFree(n.field);
    NameThen(n.field, LeafTail(n, rest));
    LeafTailPlain(n, rest);
  }

  /** A text `open + left`, where `left` goes on with `op + right` and `right` with `close + rest`. */
  lemma PairNames(open: string, left: string, fl: seq<string>, op: string, right: string, fr: seq<string>,
      close: string, rest: string)
    requires QuoteFree(open) && QuoteFree(op) && QuoteFree(close)
    requires NamesIn(left, None) == fl + NamesIn(op + right, None) &&
             NamesIn(right, None) == fr + NamesIn(close + rest, None)
    ensures NamesIn(open + left, None) == fl + fr + NamesIn(rest, None)
  {
    SkipPlain(open, left);
    SkipPlain(op, right);
    SkipPlain(close, rest);
  }

  lemma NotNames(open: string, inner: string, fields: seq<string>, close: string, rest: string)
    requires QuoteFree(open) && QuoteFree(close) && NamesIn(inner, None) == fields + NamesIn(close + rest, None)
    ensures NamesIn(open + inner, None) == fields + NamesIn(rest, None)
  {
    SkipPlain(close, rest);
    SkipPlain(open, inner);
  }

  lemma {:induction false} TextNames(n: FilterNode, rest: string)
    requires FirstIllegal(n).None?
    ensures NamesIn(SqlThen(n, rest), None) == FieldsOf(n) + NamesIn(rest, None)
    decreases n, 1
  {
    match n
    case And(l, r) => BothNames(n, l, " AND ", r, rest);
    case Or(l, r) => BothNames(n, l, " OR ", r, rest);
    case Not(x) =>
      TextNames(x, ")" + rest);
      NotNames("(NOT ", SqlThen(x, ")" + rest), FieldsOf(x), ")", rest);
    case _ => LeafNames(n, rest);
  }

  lemma {:induction false} BothNames(n: FilterNode, l: FilterNode, op: string, r: FilterNode, rest: string)
    requires (n == And(l, r) || n == Or(l, r)) && FirstIllegal(l).None? && FirstIllegal(r).None? && QuoteFree(op)
    ensures NamesIn("(" + SqlThen(l, op + SqlThen(r, ")" + rest)), None) ==
            FieldsOf(l) + FieldsOf(r) + NamesIn(rest, None)
    decreases n, 0
  {
    var right := SqlThen(r, ")" + rest);
    TextNames(l, op + right);
    TextNames(r, ")" + rest);
    PairNames("(", SqlThen(l, op + right), FieldsOf(l), op, right, FieldsOf(r), ")", rest);
  }

  /** The identifiers standing between quotes in the emitted text are the filter's fields, in order. */
  lemma EmittedNames(n: FilterNode)
    requires Verdict(n).Pass?
    ensures QuotedNames(SqlText(n)) == FieldsOf(n)
  {
    TextNames(n, "");
    assert FieldsOf(n) + [] == FieldsOf(n);
  }

  // ---- accepted filters compile ------------------------------------------------------------------------

  lemma KnownIsLegal(schema: Schema, f: string)
    requires SchemaOk(schema) && f in Known(schema.fields)
    ensures LegalColumn(f)
  {
    if f in Names(schema.fields) {
      var g :| g in schema.fields && g.name == f;
      assert IsValidIdent(f);
      assert forall i | 0 <= i < |f| :: Schemas.IdentChar(f[i]);
    }
  }

  lemma {:induction false} LegalFields(n: FilterNode)
    ensures FirstIllegal(n).None? <==> forall f | f in FieldsOf(n) :: LegalColumn(f)
  {
    match n
    case And(l, r) => LegalFields(l); LegalFields(r);
    case Or(l, r) => LegalFields(l); LegalFields(r);
    case Not(x) => LegalFields(x);
    case _ => assert n.field in FieldsOf(n);
  }

  /** A filter that passes the column check compiles, and names only columns of the collection's table. */
  lemma AcceptedFiltersCompile(n: FilterNode, schema: Schema, t: DocumentStore.Table)
    requires SchemaOk(schema) && DocumentRefinement.TableOk(schema, t)
    requires Walk(n, Known(schema.fields)).None?
    ensures Verdict(n).Pass?
    ensures forall f | f in QuotedNames(SqlText(n)) :: f in IMPLICIT || f in t.columns
  {
    WalkFindsUnknown(n, Known(schema.fields));
    forall f | f in FieldsOf(n) ensures LegalColumn(f) { KnownIsLegal(schema, f); }
    LegalFields(n);
    EmittedNames(n);
    ByNameFinds(schema.fields);
  }

  /** So after any run of requests, a filter accepted under the stored schema names only columns that exist. */
  lemma AcceptedFiltersFitTable(codec: DocumentStore.Codec, rs: seq<DocumentStore.Request>, db: DocumentStore.Db,
      c: string, n: FilterNode)
    requires db == DocumentRuns.Run(codec, rs) && DocumentRuns.WholeRun(codec, rs)
    requires c in db.meta && Walk(n, Known(db.meta[c].fields)).None?
    ensures c in db.tables && Verdict(n).Pass?
    ensures forall f | f in QuotedNames(SqlText(n)) :: f in IMPLICIT || f in db.tables[c].columns
  {
    DocumentRuns.RunInv(codec, rs);
    AcceptedFiltersCompile(n, db.meta[c], db.tables[c]);
  }
}
