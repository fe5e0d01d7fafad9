/** The abstract document store, and the proof that the typed tables implement it. */
module DocumentRefinement {
  import opened Wrappers
  import opened Schemas
  import opened DocumentStore
  import J = Json

  // ---- the abstract store -----------------------------------------------------------------

  /** `strict` names the fields that refuse blanks and `distinct` those that refuse a value another document has: the
      fields declared required, or unique, when the collection was created. */
  datatype Collection = Collection(schema: Schema, strict: set<string>, distinct: set<string>, docs: map<string, Doc>)

  type Docs = map<string, Collection>

  /** No value to keep: absent, null, or not of the field's own kind. */
  predicate Blank(ty: FieldType, v: Option<J.Value>) {
    match ty
    case Bool => v.None? || !v.value.Bool?
    case Number => v.None? || !v.value.Num?
    case _ => v.None? || v.value.Null?
  }

  /** The value a document keeps: itself for well-typed input, a fixed coercion otherwise. */
  function Canon(codec: Codec, ty: FieldType, v: Option<J.Value>): J.Value {
    if Blank(ty, v) then J.Null
    else match ty
      case Bool => v.value
      case Number => J.Num(J.Float(v.value.n.AsReal()))
      case Json =>
        var back := codec.parse(codec.render(v.value));
        if back.Some? then back.value else J.Null
      case _ => if v.value.Str? then v.value else J.Str(codec.render(v.value))
  }

  predicate WellTyped(codec: Codec, ty: FieldType, v: J.Value) {
    v.Null? ||
    match ty
    case Bool => v.Bool?
    case Number => v.Num? && v.n.Float?
    case Json => codec.parse(codec.render(v)) == Some(v)
    case _ => v.Str?
  }

  lemma CanonExact(codec: Codec, ty: FieldType, v: J.Value)
    ensures Canon(codec, ty, Some(v)) == v <==> WellTyped(codec, ty, v)
    ensures Canon(codec, ty, None) == J.Null
  {
  }

  function NewDoc(codec: Codec, defs: map<string, Field>, fields: map<string, J.Value>): map<string, J.Value> {
    map n | n in defs :: Canon(codec, defs[n].ty, Get(fields, n))
  }

  function Overlay(codec: Codec, defs: map<string, Field>, doc: map<string, J.Value>, patch: map<string, J.Value>)
    : map<string, J.Value>
  {
    map n | n in doc :: if n in defs && n in patch then Canon(codec, defs[n].ty, Some(patch[n])) else doc[n]
  }

  /** Fields outside `names` are forgotten; names without a value are null. */
  function Projected(names: set<string>, doc: Doc): Doc {
    doc.(fields := map n | n in names :: if n in doc.fields then doc.fields[n] else J.Null)
  }

  function Reshaped(c: Collection, desired: Schema): Collection {
    var names := Names(desired.fields);
    Collection(desired, c.strict * names, c.distinct * names, map id | id in c.docs :: Projected(names, c.docs[id]))
  }

  function Required(s: Schema): set<string> { set f | f in s.fields && f.required :: f.name }

  function Unique(s: Schema): set<string> { set f | f in s.fields && f.unique :: f.name }

  predicate MissesStrict(c: Collection, defs: map<string, Field>, fields: map<string, J.Value>, touched: set<string>) {
    exists n | n in c.strict && n in defs && n in touched :: Blank(defs[n].ty, Get(fields, n))
  }

  /** Both documents have a value for `n`, and it is the same. */
  predicate Shares(a: map<string, J.Value>, b: map<string, J.Value>, n: string) {
    n in a && n in b && a[n] == b[n] && !a[n].Null?
  }

  predicate Clashes(c: Collection, id: string, fields: map<string, J.Value>) {
    exists n, other | n in c.distinct && other in c.docs && other != id :: Shares(fields, c.docs[other].fields, n)
  }

  function RecordSpec(codec: Codec, c: Collection, r: Request): (Collection, Response)
    requires r.CreateRecord? || r.UpdateRecord? || r.DeleteRecord? || r.FindRecord?
  {
    var defs := ByName(c.schema.fields);
    if r.CreateRecord? then
      var doc := NewDoc(codec, defs, r.fields);
      if r.id in c.docs || MissesStrict(c, defs, r.fields, c.strict) || Clashes(c, r.id, doc) then (c, ConstraintFailed)
      else (c.(docs := c.docs[r.id := Doc(r.now, r.now, doc)]), Stored(Doc(r.now, r.now, r.fields)))
    else if r.id !in c.docs then (c, NotFound)
    else if r.UpdateRecord? then
      var doc := Doc(c.docs[r.id].created, r.now, Overlay(codec, defs, c.docs[r.id].fields, r.patch));
      if MissesStrict(c, defs, r.patch, r.patch.Keys) || Clashes(c, r.id, doc.fields) then (c, ConstraintFailed)
      else
        (c.(docs := c.docs[r.id := doc]), Stored(doc))
    else if r.DeleteRecord? then (c.(docs := c.docs - {r.id}), Done)
    else (c, Stored(c.docs[r.id]))
  }

  function Spec(codec: Codec, a: Docs, r: Request): (Docs, Response) {
    if r.CreateCollection? then
      match CreateRefusal(r.schema, r.schema.id in a)
      case Some(refusal) => (a, refusal)
      case None => (a[r.schema.id := Collection(r.schema, Required(r.schema), Unique(r.schema), map[])], Done)
    else if r.PatchCollection? then
      if !SchemaOk(r.schema) then (a, BadSchema)
      else if r.schema.id !in a then (a, NotFound)
      else match PatchRefusal(a[r.schema.id].schema, r.schema, r.force, a[r.schema.id].distinct)
        case Some(refusal) => (a, refusal)
        case None => (a[r.schema.id := Reshaped(a[r.schema.id], r.schema)], Done)
    else if r.DeleteCollection? && !IsValidIdent(r.coll) then (a, BadSchema)
    else if r.coll !in a then (a, NotFound)
    else if r.DeleteCollection? then (a - {r.coll}, Done)
    else WithCollection(a, r.coll, RecordSpec(codec, a[r.coll], r))
  }

  function WithCollection(a: Docs, coll: string, next: (Collection, Response)): (Docs, Response) {
    (a[coll := next.0], next.1)
  }

  // ---- abstraction -----------------------------------------------------------------------------

  function AbsOne(codec: Codec, schema: Schema, t: Table): Collection {
    Collection(
      schema,
      (set n | n in t.columns && t.columns[n].notNull),
      UniqueColumns(t),
      map id | id in t.rows :: Read(codec, ByName(schema.fields), t.rows[id]))
  }

  function Abs(codec: Codec, db: Db): Docs {
    map c | c in db.meta && c in db.tables :: AbsOne(codec, db.meta[c], db.tables[c])
  }

  /** The storage class that a field's values are encoded in. */
  predicate ClassFits(ty: FieldType, c: Cell) {
    c.NullCell? ||
    match ty case Bool => c == IntCell(0) || c == IntCell(1) case Number => c.RealCell? case _ => c.TextCell?
  }

  /** The table has the schema's columns, of the right types, and rows that respect NOT NULL and UNIQUE. */
  ghost predicate TableOk(schema: Schema, t: Table) {
    var defs := ByName(schema.fields);
    && t.columns.Keys == defs.Keys
    && (forall n | n in defs :: t.columns[n].sqlType == SqlTypeOf(defs[n].ty))
    && (forall id | id in t.rows :: RowOk(defs, t, id))
  }

  ghost predicate RowOk(defs: map<string, Field>, t: Table, id: string)
    requires id in t.rows
  {
    CellsFit(defs, t.rows[id].cells) && RowAllowed(t, id, t.rows[id].cells)
  }

  /** A JSON cell is empty or holds the text of the value it is read as. */
  ghost predicate Canonical(codec: Codec, c: Cell) {
    var v := if c.TextCell? then codec.parse(c.s) else None;
    c.TextCell? ==> v.Some? && !v.value.Null? && codec.render(v.value) == c.s
  }

  ghost predicate RowTidy(codec: Codec, defs: map<string, Field>, cells: map<string, Cell>) {
    forall n | n in defs && n in cells && defs[n].ty.Json? :: Canonical(codec, cells[n])
  }

  /** Every JSON cell is canonical. */
  ghost predicate Tidy(codec: Codec, schema: Schema, t: Table) {
    forall id | id in t.rows :: RowTidy(codec, ByName(schema.fields), t.rows[id].cells)
  }

  ghost predicate TidyDb(codec: Codec, db: Db) {
    forall c | c in db.meta && c in db.tables :: Tidy(codec, db.meta[c], db.tables[c])
  }

  /** A JSON text never denotes itself (a string's text carries its quotes), and what is written is read back, if not
      as the same value, then as one that is written the same. */
  ghost predicate Lawful(codec: Codec) {
    && (forall s: string :: codec.parse(s) != Some(J.Str(s)))
    && (forall v: J.Value | !v.Null? :: Stable(codec, v))
  }

  ghost predicate Stable(codec: Codec, v: J.Value) {
    var w := codec.parse(codec.render(v));
    w.Some? && !w.value.Null? && codec.render(w.value) == codec.render(v)
  }

  function QuotesOnly(v: J.Value): string { if v.Str? then "\"" + v.s + "\"" else "x" }

  function Unquoted(s: string): Option<J.Value> {
    Some(if |s| >= 2 && s[0] == '"' && s[|s| - 1] == '"' then J.Str(s[1..|s| - 1]) else J.Bool(true))
  }

  lemma QuotesReadBack(s: string)
    ensures Unquoted(QuotesOnly(J.Str(s))) == Some(J.Str(s)) && Unquoted(s) != Some(J.Str(s))
  {
    assert ("\"" + s + "\"")[1..|s| + 1] == s;
    if Unquoted(s).value.Str? { assert |Unquoted(s).value.s| == |s| - 2; }
  }

  /** There are lawful codecs, also among those that read every string back. */
  lemma LawfulCodecs() returns (codec: Codec)
    ensures Lawful(codec) && forall s: string :: codec.parse(codec.render(J.Str(s))) == Some(J.Str(s))
  {
    codec := Codec(QuotesOnly, Unquoted);
    forall s: string
      ensures codec.parse(s) != Some(J.Str(s)) && codec.parse(codec.render(J.Str(s))) == Some(J.Str(s))
    {
      QuotesReadBack(s);
    }
    forall v: J.Value | !v.Null? ensures Stable(codec, v) {
      if v.Str? { QuotesReadBack(v.s); } else { assert Unquoted("x") == Some(J.Bool(true)); }
    }
  }

  ghost predicate Inv(db: Db) {
    && db.meta.Keys == db.tables.Keys
    && (forall c | c in db.meta :: SchemaOk(db.meta[c]) && TableOk(db.meta[c], db.tables[c]))
  }

  // ---- cells ------------------------------------------------------------------------------------

  lemma CellRoundTrip(codec: Codec, ty: FieldType, v: Option<J.Value>)
    ensures Decode(codec, ty, Encode(codec, ty, v)) == Canon(codec, ty, v)
    ensures Encode(codec, ty, v) == NullCell <==> Blank(ty, v)
  {
  }

  lemma CellFits(codec: Codec, ty: FieldType, v: Option<J.Value>)
    ensures ClassFits(ty, Encode(codec, ty, v))
    ensures Lawful(codec) && ty.Json? ==> Canonical(codec, Encode(codec, ty, v))
  {
  }

  /** Two stored cells of a field are the same value exactly when the documents show the same value. */
  lemma SameCellSameValue(codec: Codec, ty: FieldType, c: Cell, d: Cell)
    requires ClassFits(ty, c) && ClassFits(ty, d) && (ty.Json? ==> Canonical(codec, c) && Canonical(codec, d))
    ensures c == d && c != NullCell <==> Decode(codec, ty, c) == Decode(codec, ty, d) && !Decode(codec, ty, c).Null?
  {
  }

  // ---- records -----------------------------------------------------------------------------------

  lemma InsertFilled(codec: Codec, schema: Schema, t: Table, fields: map<string, J.Value>)
    requires TableOk(schema, t)
    ensures var defs, c := ByName(schema.fields), AbsOne(codec, schema, t);
            Filled(t, Encoded(codec, defs, fields)) <==> !MissesStrict(c, defs, fields, c.strict)
  {
    var defs, c := ByName(schema.fields), AbsOne(codec, schema, t);
    var cells := Encoded(codec, defs, fields);
    forall n | n in defs ensures cells[n] == NullCell <==> Blank(defs[n].ty, Get(fields, n)) {
      CellRoundTrip(codec, defs[n].ty, Get(fields, n));
    }
  }

  lemma UpdateFilled(codec: Codec, schema: Schema, t: Table, id: string, patch: map<string, J.Value>)
    requires TableOk(schema, t) && id in t.rows
    ensures var defs, c := ByName(schema.fields), AbsOne(codec, schema, t);
            Filled(t, Overlaid(codec, defs, t.rows[id].cells, patch)) <==> !MissesStrict(c, defs, patch, patch.Keys)
  {
    var defs, c := ByName(schema.fields), AbsOne(codec, schema, t);
    assert RowOk(defs, t, id);
    var cells := Overlaid(codec, defs, t.rows[id].cells, patch);
    forall n | n in defs && n in patch ensures cells[n] == NullCell <==> Blank(defs[n].ty, Get(patch, n)) {
      CellRoundTrip(codec, defs[n].ty, Get(patch, n));
    }
  }

  /** Cells that a row of the schema may hold. */
  predicate CellsFit(defs: map<string, Field>, cells: map<string, Cell>) {
    cells.Keys == defs.Keys && forall n | n in defs :: ClassFits(defs[n].ty, cells[n])
  }

  ghost predicate CellsOk(codec: Codec, defs: map<string, Field>, cells: map<string, Cell>) {
    CellsFit(defs, cells) && RowTidy(codec, defs, cells)
  }

  lemma SharedCell(codec: Codec, defs: map<string, Field>, a: Row, b: Row, n: string)
    requires CellsOk(codec, defs, a.cells) && CellsOk(codec, defs, b.cells) && n in defs
    ensures Same(a.cells, b.cells, n) <==> Shares(Read(codec, defs, a).fields, Read(codec, defs, b).fields, n)
  {
    SameCellSameValue(codec, defs[n].ty, a.cells[n], b.cells[n]);
  }

  lemma SharedDoc(codec: Codec, schema: Schema, t: Table, row: Row, other: string, n: string)
    requires TableOk(schema, t) && Tidy(codec, schema, t) && CellsOk(codec, ByName(schema.fields), row.cells)
    requires other in t.rows && n in t.columns
    ensures Same(row.cells, t.rows[other].cells, n) <==>
            Shares(Read(codec, ByName(schema.fields), row).fields,
                   Read(codec, ByName(schema.fields), t.rows[other]).fields, n)
  {
    var defs := ByName(schema.fields);
    assert RowOk(defs, t, other) && RowTidy(codec, defs, t.rows[other].cells);
    SharedCell(codec, defs, row, t.rows[other], n);
  }

  /** UNIQUE refuses a row exactly when the abstract store finds its document's value taken. */
  lemma UniqueIsDistinct(codec: Codec, schema: Schema, t: Table, id: string, row: Row, doc: map<string, J.Value>)
    requires TableOk(schema, t) && Tidy(codec, schema, t) && CellsOk(codec, ByName(schema.fields), row.cells)
    requires doc == Read(codec, ByName(schema.fields), row).fields
    ensures Unmatched(t, id, row.cells) <==> !Clashes(AbsOne(codec, schema, t), id, doc)
  {
    var c := AbsOne(codec, schema, t);
    if Unmatched(t, id, row.cells) {
      forall n, other | n in c.distinct && other in c.docs && other != id
        ensures !Shares(doc, c.docs[other].fields, n)
      {
        SharedDoc(codec, schema, t, row, other, n);
      }
    } else {
      var n, other :| n in t.columns && t.columns[n].unique && other in t.rows && other != id &&
                      Same(row.cells, t.rows[other].cells, n);
      SharedDoc(codec, schema, t, row, other, n);
      assert n in c.distinct && other in c.docs && Shares(doc, c.docs[other].fields, n);
    }
  }

  /** Storing an allowed row keeps the table in order. */
  lemma PutKeepsTable(schema: Schema, t: Table, id: string, row: Row)
    requires TableOk(schema, t) && CellsFit(ByName(schema.fields), row.cells) && RowAllowed(t, id, row.cells)
    ensures TableOk(schema, t.(rows := t.rows[id := row]))
  {
    var defs, t' := ByName(schema.fields), t.(rows := t.rows[id := row]);
    forall k | k in t'.rows ensures RowOk(defs, t', k) {
      if k != id { OthersStayUnmatched(schema, t, id, row, k); }
    }
  }

  lemma OthersStayUnmatched(schema: Schema, t: Table, id: string, row: Row, k: string)
    requires TableOk(schema, t) && Unmatched(t, id, row.cells) && k in t.rows && k != id
    ensures RowOk(ByName(schema.fields), t.(rows := t.rows[id := row]), k)
  {
    var t' := t.(rows := t.rows[id := row]);
    var cells := t.rows[k].cells;
    assert RowOk(ByName(schema.fields), t, k);
    forall n, other | n in t'.columns && t'.columns[n].unique && other in t'.rows && other != k
      ensures !Same(cells, t'.rows[other].cells, n)
    {
      if other == id {
        assert !Same(row.cells, t.rows[k].cells, n);
      } else {
        assert !Same(cells, t.rows[other].cells, n);
      }
    }
  }

  lemma RemovedRow(defs: map<string, Field>, t: Table, id: string, k: string)
    requires k in t.rows && k != id && RowOk(defs, t, k)
    ensures RowOk(defs, t.(rows := t.rows - {id}), k)
  {
    var t' := t.(rows := t.rows - {id});
    forall n, other | n in t'.columns && t'.columns[n].unique && other in t'.rows && other != k
      ensures !Same(t'.rows[k].cells, t'.rows[other].cells, n)
    {
      assert !Same(t.rows[k].cells, t.rows[other].cells, n);
    }
  }

  lemma RemoveKeepsTable(schema: Schema, t: Table, id: string)
    requires TableOk(schema, t)
    ensures TableOk(schema, t.(rows := t.rows - {id}))
  {
    var defs, t' := ByName(schema.fields), t.(rows := t.rows - {id});
    forall k | k in t'.rows ensures RowOk(defs, t', k) {
      assert RowOk(defs, t, k);
      RemovedRow(defs, t, id, k);
    }
  }

  lemma InsertCells(codec: Codec, defs: map<string, Field>, fields: map<string, J.Value>)
    ensures CellsFit(defs, Encoded(codec, defs, fields))
    ensures Lawful(codec) ==> RowTidy(codec, defs, Encoded(codec, defs, fields))
  {
    forall n | n in defs
      ensures ClassFits(defs[n].ty, Encoded(codec, defs, fields)[n])
      ensures Lawful(codec) && defs[n].ty.Json? ==> Canonical(codec, Encoded(codec, defs, fields)[n])
    {
      CellFits(codec, defs[n].ty, Get(fields, n));
    }
  }

  lemma UpdateCells(codec: Codec, defs: map<string, Field>, cells: map<string, Cell>, patch: map<string, J.Value>)
    requires CellsFit(defs, cells)
    ensures CellsFit(defs, Overlaid(codec, defs, cells, patch))
    ensures Lawful(codec) && RowTidy(codec, defs, cells) ==> RowTidy(codec, defs, Overlaid(codec, defs, cells, patch))
  {
    forall n | n in defs
      ensures ClassFits(defs[n].ty, Overlaid(codec, defs, cells, patch)[n])
      ensures Lawful(codec) && defs[n].ty.Json? && n in patch ==>
              Canonical(codec, Overlaid(codec, defs, cells, patch)[n])
    {
      if n in patch { CellFits(codec, defs[n].ty, Some(patch[n])); }
    }
  }

  /** A record request keeps the table in order, whatever the codec does. */
  lemma RecordKeepsTable(codec: Codec, schema: Schema, t: Table, r: Request)
    requires TableOk(schema, t)
    requires r.CreateRecord? || r.UpdateRecord? || r.DeleteRecord? || r.FindRecord?
    ensures TableOk(schema, RecordStep(codec, schema, t, r).0)
  {
    var defs := ByName(schema.fields);
    match r
    case CreateRecord(_, id, now, fields) =>
      var cells := Encoded(codec, defs, fields);
      InsertCells(codec, defs, fields);
      if RowAllowed(t, id, cells) { PutKeepsTable(schema, t, id, Row(now, now, cells)); }
    case UpdateRecord(_, id, now, patch) =>
      if id in t.rows {
        assert RowOk(defs, t, id);
        var cells := Overlaid(codec, defs, t.rows[id].cells, patch);
        UpdateCells(codec, defs, t.rows[id].cells, patch);
        if RowAllowed(t, id, cells) { PutKeepsTable(schema, t, id, Row(t.rows[id].created, now, cells)); }
      }
    case DeleteRecord(_, id) => RemoveKeepsTable(schema, t, id);
    case FindRecord(_, _) =>
  }

  lemma InsertReads(codec: Codec, defs: map<string, Field>, now: int, fields: map<string, J.Value>)
    ensures Read(codec, defs, Row(now, now, Encoded(codec, defs, fields))) == Doc(now, now, NewDoc(codec, defs, fields))
  {
    forall n | n in defs
      ensures Decode(codec, defs[n].ty, Encode(codec, defs[n].ty, Get(fields, n))) ==
              Canon(codec, defs[n].ty, Get(fields, n))
    {
      CellRoundTrip(codec, defs[n].ty, Get(fields, n));
    }
  }

  lemma UpdateReads(codec: Codec, defs: map<string, Field>, row: Row, now: int, patch: map<string, J.Value>)
    requires row.cells.Keys == defs.Keys
    ensures Read(codec, defs, Row(row.created, now, Overlaid(codec, defs, row.cells, patch))) ==
            Doc(row.created, now, Overlay(codec, defs, Read(codec, defs, row).fields, patch))
  {
    forall n | n in defs && n in patch
      ensures Decode(codec, defs[n].ty, Encode(codec, defs[n].ty, Some(patch[n]))) ==
              Canon(codec, defs[n].ty, Some(patch[n]))
    {
      CellRoundTrip(codec, defs[n].ty, Some(patch[n]));
    }
  }

  lemma AbsPut(codec: Codec, schema: Schema, t: Table, id: string, row: Row)
    ensures AbsOne(codec, schema, t.(rows := t.rows[id := row])) ==
            var c := AbsOne(codec, schema, t); c.(docs := c.docs[id := Read(codec, ByName(schema.fields), row)])
  {
    var t' := t.(rows := t.rows[id := row]);
    var c, c' := AbsOne(codec, schema, t), AbsOne(codec, schema, t');
    assert c'.docs == c.docs[id := Read(codec, ByName(schema.fields), row)];
    assert c'.strict == c.strict && c'.distinct == c.distinct;
  }

  lemma AbsRemove(codec: Codec, schema: Schema, t: Table, id: string)
    ensures AbsOne(codec, schema, t.(rows := t.rows - {id})) ==
            var c := AbsOne(codec, schema, t); c.(docs := c.docs - {id})
  {
    var c, c' := AbsOne(codec, schema, t), AbsOne(codec, schema, t.(rows := t.rows - {id}));
    assert c'.docs == c.docs - {id};
    assert c'.strict == c.strict && c'.distinct == c.distinct;
  }

  /** Creating, updating, deleting and finding a record do to the documents what the abstract store says. */
  lemma RecordRefines(codec: Codec, schema: Schema, t: Table, r: Request)
    requires TableOk(schema, t) && Tidy(codec, schema, t) && Lawful(codec)
    requires r.CreateRecord? || r.UpdateRecord? || r.DeleteRecord? || r.FindRecord?
    ensures Tidy(codec, schema, RecordStep(codec, schema, t, r).0)
    ensures AbsOne(codec, schema, RecordStep(codec, schema, t, r).0) == RecordSpec(codec, AbsOne(codec, schema, t), r).0
    ensures RecordStep(codec, schema, t, r).1 == RecordSpec(codec, AbsOne(codec, schema, t), r).1
  {
    match r
    case CreateRecord(_, _, _, fields) =>
      CreateRefines(codec, schema, t, r, Encoded(codec, ByName(schema.fields), fields));
    case UpdateRecord(_, id, _, patch) =>
      if id in t.rows {
        UpdateRefines(codec, schema, t, r, Overlaid(codec, ByName(schema.fields), t.rows[id].cells, patch));
      }
    case DeleteRecord(_, id) => AbsRemove(codec, schema, t, id);
    case FindRecord(_, _) =>
  }

  /** What storing a row means for the documents. */
  lemma StoreRow(codec: Codec, schema: Schema, t: Table, id: string, row: Row, doc: Doc)
    requires TableOk(schema, t) && Tidy(codec, schema, t) && CellsOk(codec, ByName(schema.fields), row.cells)
    requires doc == Read(codec, ByName(schema.fields), row)
    ensures RowAllowed(t, id, row.cells) <==> Filled(t, row.cells) && !Clashes(AbsOne(codec, schema, t), id, doc.fields)
    ensures var t', c := t.(rows := t.rows[id := row]), AbsOne(codec, schema, t);
            && AbsOne(codec, schema, t') == c.(docs := c.docs[id := doc])
            && Tidy(codec, schema, t')
  {
    UniqueIsDistinct(codec, schema, t, id, row, doc.fields);
    AbsPut(codec, schema, t, id, row);
  }

  lemma CreateRefines(codec: Codec, schema: Schema, t: Table, r: Request, cells: map<string, Cell>)
    requires TableOk(schema, t) && Tidy(codec, schema, t) && Lawful(codec) && r.CreateRecord?
    requires cells == Encoded(codec, ByName(schema.fields), r.fields)
    ensures Tidy(codec, schema, RecordStep(codec, schema, t, r).0)
    ensures AbsOne(codec, schema, RecordStep(codec, schema, t, r).0) == RecordSpec(codec, AbsOne(codec, schema, t), r).0
    ensures RecordStep(codec, schema, t, r).1 == RecordSpec(codec, AbsOne(codec, schema, t), r).1
  {
    var defs, row := ByName(schema.fields), Row(r.now, r.now, cells);
    InsertFilled(codec, schema, t, r.fields);
    InsertCells(codec, defs, r.fields);
    InsertReads(codec, defs, r.now, r.fields);
    StoreRow(codec, schema, t, r.id, row, Doc(r.now, r.now, NewDoc(codec, defs, r.fields)));
  }

  lemma UpdateRefines(codec: Codec, schema: Schema, t: Table, r: Request, cells: map<string, Cell>)
    requires TableOk(schema, t) && Tidy(codec, schema, t) && Lawful(codec) && r.UpdateRecord? && r.id in t.rows
    requires cells == Overlaid(codec, ByName(schema.fields), t.rows[r.id].cells, r.patch)
    ensures Tidy(codec, schema, RecordStep(codec, schema, t, r).0)
    ensures AbsOne(codec, schema, RecordStep(codec, schema, t, r).0) == RecordSpec(codec, AbsOne(codec, schema, t), r).0
    ensures RecordStep(codec, schema, t, r).1 == RecordSpec(codec, AbsOne(codec, schema, t), r).1
  {
    var defs, before := ByName(schema.fields), t.rows[r.id];
    UpdateFilled(codec, schema, t, r.id, r.patch);
    UpdatedRow(codec, schema, t, r.id, r.now, r.patch);
    var doc := Doc(before.created, r.now, Overlay(codec, defs, Read(codec, defs, before).fields, r.patch));
    StoreRow(codec, schema, t, r.id, Row(before.created, r.now, cells), doc);
  }

  lemma UpdatedRow(codec: Codec, schema: Schema, t: Table, id: string, now: int, patch: map<string, J.Value>)
    requires TableOk(schema, t) && Tidy(codec, schema, t) && Lawful(codec) && id in t.rows
    ensures var defs, row := ByName(schema.fields), t.rows[id];
            var cells := Overlaid(codec, defs, row.cells, patch);
            && CellsOk(codec, defs, cells)
            && Read(codec, defs, Row(row.created, now, cells)) ==
               Doc(row.created, now, Overlay(codec, defs, Read(codec, defs, row).fields, patch))
  {
    var defs := ByName(schema.fields);
    assert RowOk(defs, t, id) && RowTidy(codec, defs, t.rows[id].cells);
    UpdateCells(codec, defs, t.rows[id].cells, patch);
    UpdateReads(codec, defs, t.rows[id], now, patch);
  }

  // ---- patches --------------------------------------------------------------------------------------

  lemma {:induction false} AddAllShape(t: Table, fields: seq<Field>)
    ensures AddAll(t, fields).columns.Keys == t.columns.Keys + Names(fields)
    ensures AddAll(t, fields).rows.Keys == t.rows.Keys
  {
    if fields != [] {
      var init, f := fields[..|fields| - 1], fields[|fields| - 1];
      assert fields == init + [f];
      AddAllShape(t, init);
      assert Names(fields) == Names(init) + {f.name};
    }
  }

  lemma {:induction false} AddAllColumn(t: Table, fields: seq<Field>, n: string)
    requires n in AddAll(t, fields).columns
    ensures if n in ByName(fields) then AddAll(t, fields).columns[n] == NullableColumn(ByName(fields)[n])
            else n in t.columns && AddAll(t, fields).columns[n] == t.columns[n]
  {
    if fields != [] && n != fields[|fields| - 1].name { AddAllColumn(t, fields[..|fields| - 1], n); }
  }

  lemma {:induction false} AddAllRow(t: Table, fields: seq<Field>, id: string)
    requires id in t.rows
    ensures id in AddAll(t, fields).rows
    ensures var row, row' := t.rows[id], AddAll(t, fields).rows[id];
            && row'.created == row.created && row'.updated == row.updated
            && row'.cells.Keys == row.cells.Keys + Names(fields)
            && forall n | n in row'.cells :: row'.cells[n] == if n in Names(fields) then NullCell else row.cells[n]
  {
    if fields != [] {
      var init, f := fields[..|fields| - 1], fields[|fields| - 1];
      assert fields == init + [f];
      AddAllRow(t, init, id);
      assert Names(fields) == Names(init) + {f.name};
    }
  }

  lemma {:induction false} DropAllShape(t: Table, fields: seq<Field>)
    ensures DropAll(t, fields).columns == t.columns - Names(fields)
    ensures DropAll(t, fields).rows.Keys == t.rows.Keys
    ensures forall id | id in t.rows ::
              DropAll(t, fields).rows[id] == t.rows[id].(cells := t.rows[id].cells - Names(fields))
  {
    if fields == [] {
      assert Names(fields) == {};
      forall id | id in t.rows ensures t.rows[id].cells - {} == t.rows[id].cells {}
      assert t.columns - {} == t.columns;
    } else {
      var init, f := fields[..|fields| - 1], fields[|fields| - 1];
      assert fields == init + [f];
      DropAllShape(t, init);
      assert Names(fields) == Names(init) + {f.name};
      forall id | id in t.rows
        ensures t.rows[id].cells - Names(init) - {f.name} == t.rows[id].cells - Names(fields) {}
    }
  }

  lemma {:induction false} AddedNames(defs: map<string, Field>, fields: seq<Field>)
    ensures Names(Added(defs, fields)) == Names(fields) - defs.Keys
    ensures forall f | f in Added(defs, fields) :: f in fields && f.name !in defs
  {
    if fields != [] {
      var init, f := fields[..|fields| - 1], fields[|fields| - 1];
      assert fields == init + [f];
      AddedNames(defs, init);
      assert Names(fields) == Names(init) + {f.name};
      var rest := if f.name in defs then [] else [f];
      assert Names(Added(defs, fields)) == Names(Added(defs, init)) + Names(rest);
    }
  }

  lemma OneFieldPerName(s: Schema, fields: seq<Field>, n: string)
    requires SchemaOk(s) && n in ByName(fields) && forall f | f in fields :: f in s.fields
    ensures n in ByName(s.fields) && ByName(fields)[n] == ByName(s.fields)[n]
  {
    ByNameFinds(fields);
    ByNameFinds(s.fields);
    var f, g := ByName(fields)[n], ByName(s.fields)[n];
    var i :| 0 <= i < |s.fields| && s.fields[i] == f;
    var j :| 0 <= j < |s.fields| && s.fields[j] == g;
  }

  lemma AlteredKeys(t: Table, was: Schema, desired: Schema)
    requires t.columns.Keys == ByName(was.fields).Keys
    ensures Altered(t, was.fields, desired.fields).columns.Keys == ByName(desired.fields).Keys
    ensures Altered(t, was.fields, desired.fields).rows.Keys == t.rows.Keys
  {
    var old_, new_ := ByName(was.fields), ByName(desired.fields);
    var added, dropped := Added(old_, desired.fields), Added(new_, was.fields);
    ByNameFinds(was.fields);
    ByNameFinds(desired.fields);
    AddedNames(old_, desired.fields);
    AddedNames(new_, was.fields);
    AddAllShape(t, added);
    DropAllShape(AddAll(t, added), dropped);
  }

  lemma AlteredColumn(t: Table, was: Schema, desired: Schema, n: string)
    requires SchemaOk(desired) && t.columns.Keys == ByName(was.fields).Keys && n in ByName(desired.fields)
    ensures n in Altered(t, was.fields, desired.fields).columns
    ensures Altered(t, was.fields, desired.fields).columns[n] ==
            if n in ByName(was.fields) then t.columns[n] else NullableColumn(ByName(desired.fields)[n])
  {
    var old_, new_ := ByName(was.fields), ByName(desired.fields);
    var added, dropped := Added(old_, desired.fields), Added(new_, was.fields);
    AlteredKeys(t, was, desired);
    DropAllShape(AddAll(t, added), dropped);
    AddAllColumn(t, added, n);
    AddedNames(old_, desired.fields);
    ByNameFinds(added);
    ByNameFinds(desired.fields);
    if n !in old_ { OneFieldPerName(desired, added, n); }
  }

  lemma AlteredRow(t: Table, was: Schema, desired: Schema, id: string)
    requires id in t.rows && t.rows[id].cells.Keys == ByName(was.fields).Keys
    ensures id in Altered(t, was.fields, desired.fields).rows
    ensures var old_, new_ := ByName(was.fields), ByName(desired.fields);
            var row, row' := t.rows[id], Altered(t, was.fields, desired.fields).rows[id];
            && row'.created == row.created && row'.updated == row.updated
            && row'.cells.Keys == new_.Keys
            && forall n | n in new_ :: row'.cells[n] == if n in old_ then row.cells[n] else NullCell
  {
    var old_, new_ := ByName(was.fields), ByName(desired.fields);
    var added, dropped := Added(old_, desired.fields), Added(new_, was.fields);
    ByNameFinds(was.fields);
    ByNameFinds(desired.fields);
    AddedNames(old_, desired.fields);
    AddedNames(new_, was.fields);
    AddAllRow(t, added, id);
    DropAllShape(AddAll(t, added), dropped);
  }

  lemma KeptType(was: Schema, desired: Schema, n: string)
    requires TypesKept(ByName(was.fields), desired.fields)
    requires n in ByName(was.fields) && n in ByName(desired.fields)
    ensures SqlTypeOf(ByName(desired.fields)[n].ty) == SqlTypeOf(ByName(was.fields)[n].ty)
  {
    ByNameFinds(desired.fields);
  }

  lemma AlteredColumns(t: Table, was: Schema, desired: Schema)
    requires SchemaOk(desired) && TableOk(was, t) && TypesKept(ByName(was.fields), desired.fields)
    ensures var old_, new_, t' := ByName(was.fields), ByName(desired.fields), Altered(t, was.fields, desired.fields);
            && t'.columns.Keys == new_.Keys && t'.rows.Keys == t.rows.Keys
            && forall n | n in new_ ::
                 && t'.columns[n] == (if n in old_ then t.columns[n] else NullableColumn(new_[n]))
                 && t'.columns[n].sqlType == SqlTypeOf(new_[n].ty)
  {
    var old_, new_ := ByName(was.fields), ByName(desired.fields);
    AlteredKeys(t, was, desired);
    forall n | n in new_
      ensures n in Altered(t, was.fields, desired.fields).columns
      ensures Altered(t, was.fields, desired.fields).columns[n] ==
              if n in old_ then t.columns[n] else NullableColumn(new_[n])
      ensures n in old_ ==> SqlTypeOf(old_[n].ty) == SqlTypeOf(new_[n].ty)
    {
      AlteredColumn(t, was, desired, n);
      if n in old_ { KeptType(was, desired, n); }
    }
  }

  /** A table whose kept columns and cells are those of `t`, and whose new ones are nullable and null. */
  ghost predicate Widens(old_: map<string, Field>, new_: map<string, Field>, t: Table, t': Table) {
    && t'.columns.Keys == new_.Keys && t'.rows.Keys == t.rows.Keys && t.columns.Keys == old_.Keys
    && (forall n | n in new_ :: t'.columns[n] == if n in old_ then t.columns[n] else NullableColumn(new_[n]))
    && (forall id | id in t.rows :: CellsKept(old_, new_, t.rows[id].cells, t'.rows[id].cells))
  }

  predicate CellsKept(old_: map<string, Field>, new_: map<string, Field>, a: map<string, Cell>, b: map<string, Cell>) {
    a.Keys == old_.Keys && b.Keys == new_.Keys && forall n | n in new_ :: b[n] == if n in old_ then a[n] else NullCell
  }

  lemma AlteredWidens(t: Table, was: Schema, desired: Schema)
    requires SchemaOk(desired) && TableOk(was, t) && TypesKept(ByName(was.fields), desired.fields)
    ensures Widens(ByName(was.fields), ByName(desired.fields), t, Altered(t, was.fields, desired.fields))
  {
    AlteredColumns(t, was, desired);
    var old_, new_, t' := ByName(was.fields), ByName(desired.fields), Altered(t, was.fields, desired.fields);
    forall id | id in t.rows ensures CellsKept(old_, new_, t.rows[id].cells, t'.rows[id].cells) {
      assert RowOk(old_, t, id);
      AlteredRow(t, was, desired, id);
    }
  }

  lemma WidenedRow(old_: map<string, Field>, new_: map<string, Field>, t: Table, t': Table, id: string)
    requires Widens(old_, new_, t, t') && id in t.rows && RowOk(old_, t, id)
    requires forall n | n in old_ && n in new_ :: SqlTypeOf(old_[n].ty) == SqlTypeOf(new_[n].ty)
    ensures RowOk(new_, t', id)
  {
    assert CellsKept(old_, new_, t.rows[id].cells, t'.rows[id].cells);
    forall n | n in new_ ensures ClassFits(new_[n].ty, t'.rows[id].cells[n]) {}
    WidenedUnmatched(old_, new_, t, t', id);
  }

  lemma WidenedUnmatched(old_: map<string, Field>, new_: map<string, Field>, t: Table, t': Table, id: string)
    requires Widens(old_, new_, t, t') && id in t.rows && Unmatched(t, id, t.rows[id].cells)
    ensures Unmatched(t', id, t'.rows[id].cells)
  {
    forall n, other | n in t'.columns && t'.columns[n].unique && other in t'.rows && other != id
      ensures !Same(t'.rows[id].cells, t'.rows[other].cells, n)
    {
      assert CellsKept(old_, new_, t.rows[id].cells, t'.rows[id].cells);
      assert CellsKept(old_, new_, t.rows[other].cells, t'.rows[other].cells);
      assert !Same(t.rows[id].cells, t.rows[other].cells, n);
    }
  }

  lemma PatchKeepsTable(t: Table, was: Schema, desired: Schema)
    requires SchemaOk(desired) && TableOk(was, t) && TypesKept(ByName(was.fields), desired.fields)
    ensures TableOk(desired, Altered(t, was.fields, desired.fields))
  {
    var old_, new_, t' := ByName(was.fields), ByName(desired.fields), Altered(t, was.fields, desired.fields);
    AlteredColumns(t, was, desired);
    AlteredWidens(t, was, desired);
    forall n | n in old_ && n in new_ ensures SqlTypeOf(old_[n].ty) == SqlTypeOf(new_[n].ty) {
      KeptType(was, desired, n);
    }
    forall id | id in t'.rows ensures RowOk(new_, t', id) {
      assert RowOk(old_, t, id);
      WidenedRow(old_, new_, t, t', id);
    }
  }

  lemma PatchKeepsTidy(codec: Codec, t: Table, was: Schema, desired: Schema)
    requires SchemaOk(desired) && TableOk(was, t) && TypesKept(ByName(was.fields), desired.fields)
    requires Tidy(codec, was, t) && Faithful(was, desired, t)
    ensures Tidy(codec, desired, Altered(t, was.fields, desired.fields))
  {
    var old_, new_, t' := ByName(was.fields), ByName(desired.fields), Altered(t, was.fields, desired.fields);
    AlteredWidens(t, was, desired);
    forall id | id in t'.rows ensures RowTidy(codec, new_, t'.rows[id].cells) {
      assert CellsKept(old_, new_, t.rows[id].cells, t'.rows[id].cells);
      assert RowTidy(codec, old_, t.rows[id].cells) && RowFaithful(old_, new_, t.rows[id]);
      forall n | n in new_ && new_[n].ty.Json? ensures Canonical(codec, t'.rows[id].cells[n]) {
        assert !Respelt(old_, new_, t.rows[id], n);
      }
    }
  }

  /** The kept field `n` turns from a text field into a JSON field, or back, over a stored text. */
  predicate Respelt(old_: map<string, Field>, new_: map<string, Field>, row: Row, n: string) {
    n in old_ && n in new_ && old_[n].ty.Json? != new_[n].ty.Json? && CellAt(row, n).TextCell?
  }

  ghost predicate RowFaithful(old_: map<string, Field>, new_: map<string, Field>, row: Row) {
    forall n :: !Respelt(old_, new_, row, n)
  }

  ghost predicate Faithful(was: Schema, desired: Schema, t: Table) {
    forall id | id in t.rows :: RowFaithful(ByName(was.fields), ByName(desired.fields), t.rows[id])
  }

  lemma RereadSame(codec: Codec, a: FieldType, b: FieldType, c: Cell)
    requires SqlTypeOf(a) == SqlTypeOf(b) && Lawful(codec)
    ensures Decode(codec, a, c) == Decode(codec, b, c) <==> (a.Json? == b.Json? || !c.TextCell?)
  {
  }

  /** One row, whose kept cells are unchanged and whose new cells are null, read under the new fields. */
  lemma RowProjected(codec: Codec, old_: map<string, Field>, new_: map<string, Field>, row: Row, row': Row)
    requires Lawful(codec) && row'.created == row.created && row'.updated == row.updated
    requires forall n | n in old_ && n in new_ :: SqlTypeOf(new_[n].ty) == SqlTypeOf(old_[n].ty)
    requires forall n | n in new_ :: CellAt(row', n) == if n in old_ then CellAt(row, n) else NullCell
    ensures Read(codec, new_, row') == Projected(new_.Keys, Read(codec, old_, row)) <==> RowFaithful(old_, new_, row)
  {
    var got, want := Read(codec, new_, row').fields, Projected(new_.Keys, Read(codec, old_, row)).fields;
    forall n | n in new_ ensures got[n] == want[n] <==> !Respelt(old_, new_, row, n) {
      if n in old_ { RereadSame(codec, old_[n].ty, new_[n].ty, CellAt(row, n)); }
    }
    if RowFaithful(old_, new_, row) {
      assert got == want;
    } else {
      var n :| Respelt(old_, new_, row, n);
      assert got[n] != want[n];
    }
  }

  lemma AlteredRead(codec: Codec, t: Table, was: Schema, desired: Schema, id: string)
    requires TableOk(was, t) && TypesKept(ByName(was.fields), desired.fields) && Lawful(codec) && id in t.rows
    ensures id in Altered(t, was.fields, desired.fields).rows
    ensures Read(codec, ByName(desired.fields), Altered(t, was.fields, desired.fields).rows[id]) ==
            Projected(Names(desired.fields), Read(codec, ByName(was.fields), t.rows[id])) <==>
            RowFaithful(ByName(was.fields), ByName(desired.fields), t.rows[id])
  {
    var old_, new_ := ByName(was.fields), ByName(desired.fields);
    assert RowOk(old_, t, id);
    AlteredRow(t, was, desired, id);
    ByNameFinds(desired.fields);
    forall n | n in old_ && n in new_ ensures SqlTypeOf(new_[n].ty) == SqlTypeOf(old_[n].ty) {
      KeptType(was, desired, n);
    }
    RowProjected(codec, old_, new_, t.rows[id], Altered(t, was.fields, desired.fields).rows[id]);
  }

  lemma PatchedStrict(codec: Codec, t: Table, was: Schema, desired: Schema)
    requires SchemaOk(desired) && TableOk(was, t)
    ensures var t', names := Altered(t, was.fields, desired.fields), Names(desired.fields);
            && AbsOne(codec, desired, t').strict == AbsOne(codec, was, t).strict * names
            && UniqueColumns(t') == UniqueColumns(t) * names
  {
    var t' := Altered(t, was.fields, desired.fields);
    AlteredKeys(t, was, desired);
    ByNameFinds(desired.fields);
    forall n | n in Names(desired.fields)
      ensures n in t'.columns
      ensures t'.columns[n].notNull <==> n in t.columns && t.columns[n].notNull
      ensures t'.columns[n].unique <==> n in t.columns && t.columns[n].unique
    {
      AlteredColumn(t, was, desired, n);
    }
  }

  lemma PatchedDoc(codec: Codec, t: Table, was: Schema, desired: Schema, got: Collection, want: Collection, id: string)
    requires TableOk(was, t) && TypesKept(ByName(was.fields), desired.fields) && Lawful(codec) && id in t.rows
    requires got == AbsOne(codec, desired, Altered(t, was.fields, desired.fields))
    requires want == Reshaped(AbsOne(codec, was, t), desired)
    ensures id in got.docs && id in want.docs
    ensures got.docs[id] == want.docs[id] <==> RowFaithful(ByName(was.fields), ByName(desired.fields), t.rows[id])
  {
    AlteredRead(codec, t, was, desired, id);
  }

  /** A patch projects the documents onto the new fields exactly when no stored text is read differently. */
  lemma PatchRefines(codec: Codec, t: Table, was: Schema, desired: Schema, got: Collection, want: Collection)
    requires SchemaOk(desired) && TableOk(was, t) && TypesKept(ByName(was.fields), desired.fields) && Lawful(codec)
    requires got == AbsOne(codec, desired, Altered(t, was.fields, desired.fields))
    requires want == Reshaped(AbsOne(codec, was, t), desired)
    ensures got == want <==> Faithful(was, desired, t)
  {
    PatchedStrict(codec, t, was, desired);
    AlteredKeys(t, was, desired);
    DocIds(codec, desired, Altered(t, was.fields, desired.fields));
    DocIds(codec, was, t);
    ReshapedIds(AbsOne(codec, was, t), desired);
    forall id | id in t.rows
      ensures id in got.docs && id in want.docs
      ensures got.docs[id] == want.docs[id] <==> RowFaithful(ByName(was.fields), ByName(desired.fields), t.rows[id])
    {
      PatchedDoc(codec, t, was, desired, got, want, id);
    }
    SameCollection(got, want, t.rows.Keys);
  }

  lemma DocIds(codec: Codec, schema: Schema, t: Table)
    ensures AbsOne(codec, schema, t).docs.Keys == t.rows.Keys
  {
  }

  lemma ReshapedIds(c: Collection, desired: Schema)
    ensures Reshaped(c, desired).docs.Keys == c.docs.Keys
  {
  }

  lemma SameCollection(a: Collection, b: Collection, ids: set<string>)
    requires a.schema == b.schema && a.strict == b.strict && a.distinct == b.distinct && a.docs.Keys == ids &&
             b.docs.Keys == ids
    ensures a == b <==> forall id | id in ids :: a.docs[id] == b.docs[id]
  {
    if forall id | id in ids :: a.docs[id] == b.docs[id] { assert a.docs == b.docs; }
  }
}
