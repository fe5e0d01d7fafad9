/** Whole runs of the record store against the abstract document store. */
module DocumentRuns {
  import opened Wrappers
  import opened Schemas
  import opened DocumentStore
  import opened DocumentRefinement
  import opened Divergence
  import J = Json

  lemma AbsSet(codec: Codec, db: Db, c: string, schema: Schema, t: Table)
    ensures Abs(codec, Db(db.meta[c := schema], db.tables[c := t])) == Abs(codec, db)[c := AbsOne(codec, schema, t)]
  {
  }

  lemma AbsTable(codec: Codec, db: Db, c: string, t: Table)
    requires c in db.meta
    ensures Abs(codec, Db(db.meta, db.tables[c := t])) == Abs(codec, db)[c := AbsOne(codec, db.meta[c], t)]
  {
    AbsSet(codec, db, c, db.meta[c], t);
    assert db.meta[c := db.meta[c]] == db.meta;
  }

  lemma AbsDrop(codec: Codec, db: Db, c: string)
    ensures Abs(codec, Db(db.meta - {c}, db.tables - {c})) == Abs(codec, db) - {c}
  {
  }

  lemma NewTableRefines(codec: Codec, schema: Schema)
    requires SchemaOk(schema)
    ensures TableOk(schema, NewTable(schema.fields))
    ensures AbsOne(codec, schema, NewTable(schema.fields)) ==
            Collection(schema, Required(schema), Unique(schema), map[])
  {
    var t, defs := NewTable(schema.fields), ByName(schema.fields);
    ByNameFinds(schema.fields);
    forall n | n in Required(schema) ensures n in defs && defs[n].required {
      var f :| f in schema.fields && f.required && f.name == n;
      assert n in Names(schema.fields);
      SameField(schema, f, defs[n]);
    }
    forall n | n in Unique(schema) ensures n in defs && defs[n].unique {
      var f :| f in schema.fields && f.unique && f.name == n;
      assert n in Names(schema.fields);
      SameField(schema, f, defs[n]);
    }
    assert AbsOne(codec, schema, t).strict == Required(schema) && AbsOne(codec, schema, t).distinct == Unique(schema);
    assert AbsOne(codec, schema, t).docs == map[];
  }

  lemma SameField(schema: Schema, f: Field, g: Field)
    requires SchemaOk(schema) && f in schema.fields && g in schema.fields && f.name == g.name
    ensures f == g
  {
    var i :| 0 <= i < |schema.fields| && schema.fields[i] == f;
    var j :| 0 <= j < |schema.fields| && schema.fields[j] == g;
  }

  /** The patch is accepted: nothing refuses it. */
  predicate Accepted(db: Db, r: Request) {
    r.PatchCollection? && SchemaOk(r.schema) && r.schema.id in db.meta && r.schema.id in db.tables &&
    PatchRefusal(db.meta[r.schema.id], r.schema, r.force, UniqueColumns(db.tables[r.schema.id])).None?
  }

  /** An accepted patch re-reads no stored text. */
  ghost predicate FaithfulRequest(db: Db, r: Request) {
    Accepted(db, r) ==> Faithful(db.meta[r.schema.id], r.schema, db.tables[r.schema.id])
  }

  lemma InvSet(db: Db, c: string, schema: Schema, t: Table)
    requires Inv(db) && SchemaOk(schema) && TableOk(schema, t)
    ensures Inv(Db(db.meta[c := schema], db.tables[c := t]))
  {
  }

  lemma InvTable(db: Db, c: string, t: Table)
    requires Inv(db) && c in db.meta && TableOk(db.meta[c], t)
    ensures Inv(Db(db.meta, db.tables[c := t]))
  {
  }

  lemma TidySet(codec: Codec, db: Db, c: string, schema: Schema, t: Table)
    requires TidyDb(codec, db) && Tidy(codec, schema, t)
    ensures TidyDb(codec, Db(db.meta[c := schema], db.tables[c := t]))
  {
  }

  lemma TidyTable(codec: Codec, db: Db, c: string, t: Table)
    requires TidyDb(codec, db) && c in db.meta && Tidy(codec, db.meta[c], t)
    ensures TidyDb(codec, Db(db.meta, db.tables[c := t]))
  {
  }

  lemma AbsAt(codec: Codec, db: Db, c: string)
    requires Inv(db)
    ensures c in Abs(codec, db) <==> c in db.meta
    ensures c in db.meta ==> Abs(codec, db)[c] == AbsOne(codec, db.meta[c], db.tables[c])
  {
  }

  lemma CreateCollectionRefines(codec: Codec, db: Db, r: Request)
    requires Inv(db) && TidyDb(codec, db) && r.CreateCollection?
    ensures Inv(Step(codec, db, r).0) && TidyDb(codec, Step(codec, db, r).0)
    ensures Abs(codec, Step(codec, db, r).0) == Spec(codec, Abs(codec, db), r).0
    ensures Step(codec, db, r).1 == Spec(codec, Abs(codec, db), r).1
  {
    AbsAt(codec, db, r.schema.id);
    var refusal := CreateRefusal(r.schema, r.schema.id in db.tables);
    if refusal.None? { AcceptedCreate(codec, db, r.schema, NewTable(r.schema.fields)); }
  }

  lemma AcceptedCreate(codec: Codec, db: Db, schema: Schema, t: Table)
    requires Inv(db) && TidyDb(codec, db) && SchemaOk(schema) && t == NewTable(schema.fields)
    ensures var db' := Db(db.meta[schema.id := schema], db.tables[schema.id := t]);
            && Inv(db') && TidyDb(codec, db')
            && Abs(codec, db') ==
               Abs(codec, db)[schema.id := Collection(schema, Required(schema), Unique(schema), map[])]
  {
    NewTableRefines(codec, schema);
    InvSet(db, schema.id, schema, t);
    TidySet(codec, db, schema.id, schema, t);
    AbsSet(codec, db, schema.id, schema, t);
  }

  lemma MapPutSame(a: Docs, c: string, x: Collection, y: Collection)
    ensures a[c := x] == a[c := y] <==> x == y
  {
    assert a[c := x][c] == x && a[c := y][c] == y;
  }

  lemma PatchCollectionRefines(codec: Codec, db: Db, r: Request)
    requires Inv(db) && TidyDb(codec, db) && Lawful(codec) && r.PatchCollection?
    ensures Inv(Step(codec, db, r).0)
    ensures FaithfulRequest(db, r) ==> TidyDb(codec, Step(codec, db, r).0)
    ensures Abs(codec, Step(codec, db, r).0) == Spec(codec, Abs(codec, db), r).0 <==> FaithfulRequest(db, r)
    ensures Step(codec, db, r).1 == Spec(codec, Abs(codec, db), r).1
  {
    var c := r.schema.id;
    AbsAt(codec, db, c);
    if Accepted(db, r) {
      AcceptedPatch(codec, db, r, db.meta[c], db.tables[c], Altered(db.tables[c], db.meta[c].fields, r.schema.fields));
    }
  }

  lemma AcceptedPatch(codec: Codec, db: Db, r: Request, was: Schema, t: Table, t': Table)
    requires Inv(db) && TidyDb(codec, db) && Lawful(codec) && r.PatchCollection? && SchemaOk(r.schema)
    requires r.schema.id in db.meta && was == db.meta[r.schema.id] && t == db.tables[r.schema.id]
    requires TypesKept(ByName(was.fields), r.schema.fields) && t' == Altered(t, was.fields, r.schema.fields)
    ensures var c, db' := r.schema.id, Db(db.meta[r.schema.id := r.schema], db.tables[r.schema.id := t']);
            && Inv(db') && (Faithful(was, r.schema, t) ==> TidyDb(codec, db'))
            && (Abs(codec, db') == Abs(codec, db)[c := Reshaped(AbsOne(codec, was, t), r.schema)] <==>
                Faithful(was, r.schema, t))
  {
    var got, want := AbsOne(codec, r.schema, t'), Reshaped(AbsOne(codec, was, t), r.schema);
    PatchKeepsTable(t, was, r.schema);
    InvSet(db, r.schema.id, r.schema, t');
    if Faithful(was, r.schema, t) {
      PatchKeepsTidy(codec, t, was, r.schema);
      TidySet(codec, db, r.schema.id, r.schema, t');
    }
    PatchRefines(codec, t, was, r.schema, got, want);
    AbsSet(codec, db, r.schema.id, r.schema, t');
    MapPutSame(Abs(codec, db), r.schema.id, got, want);
  }

  lemma DeleteCollectionRefines(codec: Codec, db: Db, r: Request)
    requires Inv(db) && TidyDb(codec, db) && r.DeleteCollection?
    ensures Inv(Step(codec, db, r).0) && TidyDb(codec, Step(codec, db, r).0)
    ensures Abs(codec, Step(codec, db, r).0) == Spec(codec, Abs(codec, db), r).0
    ensures Step(codec, db, r).1 == Spec(codec, Abs(codec, db), r).1
  {
    AbsAt(codec, db, r.coll);
    if IsValidIdent(r.coll) && r.coll in db.meta {
      AbsDrop(codec, db, r.coll);
      InvDrop(codec, db, r.coll);
    }
  }

  lemma InvDrop(codec: Codec, db: Db, c: string)
    requires Inv(db) && TidyDb(codec, db)
    ensures Inv(Db(db.meta - {c}, db.tables - {c})) && TidyDb(codec, Db(db.meta - {c}, db.tables - {c}))
  {
  }

  predicate OnRecord(r: Request) { r.CreateRecord? || r.UpdateRecord? || r.DeleteRecord? || r.FindRecord? }

  /** A table step that refines a collection step, seen from the whole database. */
  lemma LiftTable(codec: Codec, db: Db, coll: string, next: (Table, Response), want: (Collection, Response))
    requires Inv(db) && TidyDb(codec, db) && coll in db.meta
    requires TableOk(db.meta[coll], next.0) && Tidy(codec, db.meta[coll], next.0)
    requires AbsOne(codec, db.meta[coll], next.0) == want.0 && next.1 == want.1
    ensures var (db', answer) := WithTable(db, coll, next);
            && Inv(db') && TidyDb(codec, db')
            && (Abs(codec, db'), answer) == WithCollection(Abs(codec, db), coll, want)
  {
    InvTable(db, coll, next.0);
    TidyTable(codec, db, coll, next.0);
    AbsTable(codec, db, coll, next.0);
  }

  lemma RecordOnDb(codec: Codec, db: Db, r: Request)
    requires Inv(db) && TidyDb(codec, db) && Lawful(codec) && OnRecord(r)
    ensures Inv(Step(codec, db, r).0) && TidyDb(codec, Step(codec, db, r).0)
    ensures Abs(codec, Step(codec, db, r).0) == Spec(codec, Abs(codec, db), r).0
    ensures Step(codec, db, r).1 == Spec(codec, Abs(codec, db), r).1
  {
    AbsAt(codec, db, r.coll);
    if r.coll in db.meta {
      var schema, t := db.meta[r.coll], db.tables[r.coll];
      RecordRefines(codec, schema, t, r);
      RecordKeepsTable(codec, schema, t, r);
      LiftTable(codec, db, r.coll, RecordStep(codec, schema, t, r), RecordSpec(codec, AbsOne(codec, schema, t), r));
    }
  }

  /** One request: same answer, and the same documents exactly when it re-reads no stored text. */
  lemma StepRefines(codec: Codec, db: Db, r: Request)
    requires Inv(db) && TidyDb(codec, db) && Lawful(codec)
    ensures Inv(Step(codec, db, r).0)
    ensures Step(codec, db, r).1 == Spec(codec, Abs(codec, db), r).1
    ensures Abs(codec, Step(codec, db, r).0) == Spec(codec, Abs(codec, db), r).0 <==> FaithfulRequest(db, r)
    ensures FaithfulRequest(db, r) ==> TidyDb(codec, Step(codec, db, r).0)
  {
    match r
    case CreateCollection(_) => CreateCollectionRefines(codec, db, r);
    case PatchCollection(_, _) => PatchCollectionRefines(codec, db, r);
    case DeleteCollection(_) => DeleteCollectionRefines(codec, db, r);
    case _ => RecordOnDb(codec, db, r);
  }

  /** Every request keeps the tables in order, faithful or not and whatever the codec does. */
  lemma StepKeepsInv(codec: Codec, db: Db, r: Request)
    requires Inv(db)
    ensures Inv(Step(codec, db, r).0)
  {
    match r
    case CreateCollection(_) => CreateKeepsInv(codec, db, r);
    case PatchCollection(_, _) => PatchKeepsInv(codec, db, r);
    case DeleteCollection(_) =>
    case _ => if r.coll in db.meta { RecordKeepsInv(codec, db, r); }
  }

  lemma CreateKeepsInv(codec: Codec, db: Db, r: Request)
    requires Inv(db) && r.CreateCollection?
    ensures Inv(Step(codec, db, r).0)
  {
    if SchemaOk(r.schema) {
      NewTableRefines(codec, r.schema);
      InvSet(db, r.schema.id, r.schema, NewTable(r.schema.fields));
    }
  }

  lemma PatchKeepsInv(codec: Codec, db: Db, r: Request)
    requires Inv(db) && r.PatchCollection?
    ensures Inv(Step(codec, db, r).0)
  {
    if Accepted(db, r) {
      var was, t := db.meta[r.schema.id], db.tables[r.schema.id];
      PatchKeepsTable(t, was, r.schema);
      InvSet(db, r.schema.id, r.schema, Altered(t, was.fields, r.schema.fields));
    }
  }

  lemma LiftInv(db: Db, coll: string, next: (Table, Response))
    requires Inv(db) && coll in db.meta && TableOk(db.meta[coll], next.0)
    ensures Inv(WithTable(db, coll, next).0)
  {
    InvTable(db, coll, next.0);
  }

  lemma RecordKeepsInv(codec: Codec, db: Db, r: Request)
    requires Inv(db) && OnRecord(r) && r.coll in db.meta
    ensures Inv(Step(codec, db, r).0)
  {
    var next := RecordStep(codec, db.meta[r.coll], db.tables[r.coll], r);
    assert Step(codec, db, r) == WithTable(db, r.coll, next);
    RecordKeepsTable(codec, db.meta[r.coll], db.tables[r.coll], r);
    LiftInv(db, r.coll, next);
  }

  // ---- runs -------------------------------------------------------------------------------------

  function Run(codec: Codec, rs: seq<Request>): Db {
    if rs == [] then Db(map[], map[]) else Step(codec, Run(codec, rs[..|rs| - 1]), rs[|rs| - 1]).0
  }

  function SpecRun(codec: Codec, rs: seq<Request>): Docs {
    if rs == [] then map[] else Spec(codec, SpecRun(codec, rs[..|rs| - 1]), rs[|rs| - 1]).0
  }

  lemma RunStep(codec: Codec, rs: seq<Request>, n: nat)
    requires n < |rs|
    ensures Run(codec, rs[..n + 1]) == Step(codec, Run(codec, rs[..n]), rs[n]).0
    ensures SpecRun(codec, rs[..n + 1]) == Spec(codec, SpecRun(codec, rs[..n]), rs[n]).0
  {
    assert rs[..n + 1][..n] == rs[..n];
  }

  ghost predicate AgreeAt(codec: Codec, rs: seq<Request>, n: nat)
    requires n <= |rs|
  {
    Abs(codec, Run(codec, rs[..n])) == SpecRun(codec, rs[..n])
  }

  ghost predicate FaithfulAt(codec: Codec, rs: seq<Request>, n: nat)
    requires n < |rs|
  {
    FaithfulRequest(Run(codec, rs[..n]), rs[n])
  }

  lemma {:induction false} RunInv(codec: Codec, rs: seq<Request>)
    ensures Inv(Run(codec, rs))
  {
    if rs != [] {
      RunInv(codec, rs[..|rs| - 1]);
      StepKeepsInv(codec, Run(codec, rs[..|rs| - 1]), rs[|rs| - 1]);
    }
  }

  /** The patch gets as far as its statements, one of them touches a UNIQUE column, and it is not the first. */
  predicate FailsMidway(was: Schema, desired: Schema, force: bool, unique: set<string>) {
    var added, dropped := Added(ByName(was.fields), desired.fields), Added(ByName(desired.fields), was.fields);
    && PatchRefusal(was, desired, force, unique) == Some(DdlFailed)
    && !(if added != [] then added[0].unique else dropped != [] && dropped[0].name in unique)
  }

  /** Request `n` of the run is no patch that fails after some of its statements have been carried out. */
  ghost predicate WholeAt(codec: Codec, rs: seq<Request>, n: nat)
    requires n < |rs|
  {
    var db, r := Run(codec, rs[..n]), rs[n];
    r.PatchCollection? && SchemaOk(r.schema) && r.schema.id in db.meta && r.schema.id in db.tables ==>
      !FailsMidway(db.meta[r.schema.id], r.schema, r.force, UniqueColumns(db.tables[r.schema.id]))
  }

  ghost predicate WholeRun(codec: Codec, rs: seq<Request>) { forall n | 0 <= n < |rs| :: WholeAt(codec, rs, n) }

  /** The tables show the abstract documents and hold only canonical JSON. */
  ghost predicate GoodAt(codec: Codec, rs: seq<Request>, n: nat)
    requires n <= |rs|
  {
    Inv(Run(codec, rs[..n])) && TidyDb(codec, Run(codec, rs[..n])) && AgreeAt(codec, rs, n)
  }

  lemma GoodStart(codec: Codec, rs: seq<Request>)
    ensures GoodAt(codec, rs, 0)
  {
    assert Abs(codec, Db(map[], map[])) == map[];
  }

  lemma GoodStep(codec: Codec, rs: seq<Request>, n: nat)
    requires n < |rs| && Lawful(codec) && GoodAt(codec, rs, n)
    ensures AgreeAt(codec, rs, n + 1) <==> FaithfulAt(codec, rs, n)
    ensures GoodAt(codec, rs, n + 1) <==> FaithfulAt(codec, rs, n)
    ensures Step(codec, Run(codec, rs[..n]), rs[n]).1 == Spec(codec, SpecRun(codec, rs[..n]), rs[n]).1
  {
    RunStep(codec, rs, n);
    StepRefines(codec, Run(codec, rs[..n]), rs[n]);
  }

  lemma {:induction false} FaithfulIsGood(codec: Codec, rs: seq<Request>, n: nat)
    requires n <= |rs| && Lawful(codec) && forall i | 0 <= i < n :: FaithfulAt(codec, rs, i)
    ensures GoodAt(codec, rs, n)
  {
    if n == 0 {
      GoodStart(codec, rs);
    } else {
      FaithfulIsGood(codec, rs, n - 1);
      GoodStep(codec, rs, n - 1);
    }
  }

  /** The tables hold the abstract documents throughout a run exactly when no patch re-reads stored text. */
  lemma StoreRefinesDocuments(codec: Codec, rs: seq<Request>)
    requires Lawful(codec) && WholeRun(codec, rs)
    ensures (forall n | 0 <= n <= |rs| :: AgreeAt(codec, rs, n)) <==>
            (forall n | 0 <= n < |rs| :: FaithfulAt(codec, rs, n))
  {
    var good := seq(|rs| + 1, i requires 0 <= i <= |rs| => GoodAt(codec, rs, i));
    var agree := seq(|rs| + 1, i requires 0 <= i <= |rs| => AgreeAt(codec, rs, i));
    var faithful := seq(|rs|, i requires 0 <= i < |rs| => FaithfulAt(codec, rs, i));
    GoodStart(codec, rs);
    forall i | 0 <= i < |rs| && good[i] ensures (good[i + 1] <==> faithful[i]) && (agree[i + 1] <==> faithful[i]) {
      GoodStep(codec, rs, i);
    }
    FirstVisibleDivergence(good, agree, faithful);
    assert forall i | 0 <= i <= |rs| :: agree[i] <==> AgreeAt(codec, rs, i);
    assert forall i | 0 <= i < |rs| :: faithful[i] <==> FaithfulAt(codec, rs, i);
  }

  /** Every accepted patch of the run keeps the type of every kept field. */
  ghost predicate KeepsTypes(codec: Codec, rs: seq<Request>, n: nat)
    requires n < |rs|
  {
    var db, r := Run(codec, rs[..n]), rs[n];
    r.PatchCollection? && r.schema.id in db.meta ==>
      forall f | f in ByName(db.meta[r.schema.id].fields) && f in ByName(r.schema.fields) ::
        ByName(db.meta[r.schema.id].fields)[f].ty == ByName(r.schema.fields)[f].ty
  }

  /** With kept types, every answer of the run, finds included, is the abstract store's answer. */
  lemma AnswersAgree(codec: Codec, rs: seq<Request>, n: nat)
    requires n < |rs| && Lawful(codec) && forall i | 0 <= i <= n :: WholeAt(codec, rs, i)
    requires forall i | 0 <= i < n :: KeepsTypes(codec, rs, i)
    ensures AgreeAt(codec, rs, n)
    ensures Step(codec, Run(codec, rs[..n]), rs[n]).1 == Spec(codec, SpecRun(codec, rs[..n]), rs[n]).1
  {
    forall i | 0 <= i < n ensures FaithfulAt(codec, rs, i) { assert KeepsTypes(codec, rs, i); }
    FaithfulIsGood(codec, rs, n);
    GoodStep(codec, rs, n);
  }

  /** Over such a run no two documents ever share a value in a field declared unique. */
  lemma UniqueStaysUnique(codec: Codec, rs: seq<Request>, n: nat, coll: string, id: string, other: string, f: string)
    requires n <= |rs| && Lawful(codec) && (forall i | 0 <= i < n :: WholeAt(codec, rs, i) && FaithfulAt(codec, rs, i))
    requires coll in SpecRun(codec, rs[..n])
    requires var c := SpecRun(codec, rs[..n])[coll]; id in c.docs && other in c.docs && id != other && f in c.distinct
    ensures var c := SpecRun(codec, rs[..n])[coll]; !Shares(c.docs[id].fields, c.docs[other].fields, f)
  {
    FaithfulIsGood(codec, rs, n);
    var db := Run(codec, rs[..n]);
    AbsAt(codec, db, coll);
    var schema, t := db.meta[coll], db.tables[coll];
    assert RowOk(ByName(schema.fields), t, id) && RowTidy(codec, ByName(schema.fields), t.rows[id].cells);
    assert !Same(t.rows[id].cells, t.rows[other].cells, f);
    SharedDoc(codec, schema, t, t.rows[id], other, f);
  }

  lemma FindAnswers(codec: Codec, db: Db, coll: string, id: string)
    requires coll in db.meta && coll in db.tables && id in db.tables[coll].rows
    ensures Step(codec, db, FindRecord(coll, id)).1 ==
            Stored(Read(codec, ByName(db.meta[coll].fields), db.tables[coll].rows[id]))
  {
  }

  // ---- what a client sees ---------------------------------------------------------------------

  /** The record echoed on creation is the record later found exactly when its keys are the schema's and each value is
      well typed. */
  lemma EchoIsExact(codec: Codec, c: Collection, r: Request)
    requires r.CreateRecord? && RecordSpec(codec, c, r).1.Stored?
    ensures RecordSpec(codec, RecordSpec(codec, c, r).0, FindRecord(r.coll, r.id)).1 == RecordSpec(codec, c, r).1 <==>
            (r.fields.Keys == ByName(c.schema.fields).Keys &&
             forall n | n in r.fields :: WellTyped(codec, ByName(c.schema.fields)[n].ty, r.fields[n]))
  {
    var defs := ByName(c.schema.fields);
    var got := NewDoc(codec, defs, r.fields);
    if r.fields.Keys == defs.Keys {
      forall n | n in defs ensures got[n] == r.fields[n] <==> WellTyped(codec, defs[n].ty, r.fields[n]) {
        CanonExact(codec, defs[n].ty, r.fields[n]);
      }
      assert got == r.fields <==> forall n | n in defs :: got[n] == r.fields[n];
    }
  }

  function Notes(c: string, f: string, ty: FieldType): Schema { Schema(c, Base, [Field(f, ty, false, false)]) }

  function NotesDb(c: string, f: string, ty: FieldType, rows: map<string, Row>): Db {
    Db(map[c := Notes(c, f, ty)], map[c := Table(map[f := Column(TEXT, false, false)], rows)])
  }

  function NoteRows(f: string, id: string, text: string): map<string, Row> { map[id := Row(0, 0,
      map[f := TextCell(text)])] }

  predicate Nameable(c: string, f: string) {
    IsValidIdent(c) && c !in RESERVED_COLLECTION_IDS && IsValidIdent(f) && f !in RESERVED_FIELD_NAMES
  }

  lemma NotesDefs(c: string, f: string, ty: FieldType)
    ensures ByName(Notes(c, f, ty).fields) == map[f := Field(f, ty, false, false)]
    ensures forall old_: map<string, Field> | f in old_ :: Added(old_, Notes(c, f, ty).fields) == []
  {
    assert Notes(c, f, ty).fields[..0] == [];
  }

  lemma NotesCreated(codec: Codec, c: string, f: string)
    requires Nameable(c, f)
    ensures Step(codec, Db(map[], map[]), CreateCollection(Notes(c, f, Text))).0 == NotesDb(c, f, Text, map[])
  {
    NotesDefs(c, f, Text);
    assert NewTable(Notes(c, f, Text).fields) == NotesDb(c, f, Text, map[]).tables[c];
  }

  lemma NoteStored(codec: Codec, c: string, f: string, id: string, text: string)
    ensures Step(codec, NotesDb(c, f, Text, map[]), CreateRecord(c, id, 0, map[f := J.Str(text)])).0 ==
            NotesDb(c, f, Text, NoteRows(f, id, text))
  {
    NotesDefs(c, f, Text);
    var db, db' := NotesDb(c, f, Text, map[]), NotesDb(c, f, Text, NoteRows(f, id, text));
    assert Encoded(codec, ByName(Notes(c, f, Text).fields), map[f := J.Str(text)]) == map[f := TextCell(text)];
    assert db.tables[c := db'.tables[c]] == db'.tables;
  }

  lemma NotesPatched(codec: Codec, c: string, f: string, rows: map<string, Row>)
    requires Nameable(c, f)
    ensures Step(codec, NotesDb(c, f, Text, rows), PatchCollection(Notes(c, f, Json), false)) ==
            (NotesDb(c, f, Json, rows), Done)
  {
    NotesDefs(c, f, Text);
    NotesDefs(c, f, Json);
    var db, db' := NotesDb(c, f, Text, rows), NotesDb(c, f, Json, rows);
    assert Altered(db.tables[c], Notes(c, f, Text).fields, Notes(c, f, Json).fields) == db.tables[c];
    assert db.meta[c := Notes(c, f, Json)] == db'.meta && db.tables[c := db.tables[c]] == db'.tables;
  }

  lemma NoteFound(codec: Codec, c: string, f: string, ty: FieldType, id: string, text: string)
    ensures Step(codec, NotesDb(c, f, ty, NoteRows(f, id, text)), FindRecord(c, id)).1 ==
            Stored(Doc(0, 0, map[f := Decode(codec, ty, TextCell(text))]))
  {
    NotesDefs(c, f, ty);
    assert Read(codec, ByName(Notes(c, f, ty).fields), NoteRows(f, id, text)[id]).fields ==
           map[f := Decode(codec, ty, TextCell(text))];
  }

  /** The column-type test lets any text field become a JSON field: a text that is not JSON, stored and found, is null
      after the patch. The three requests start from the empty database. */
  lemma RetypingLosesText(codec: Codec, c: string, f: string, id: string, text: string)
      returns (db1: Db, db2: Db, db3: Db)
    requires Nameable(c, f) && codec.parse(text).None?
    ensures db1 == Step(codec, Run(codec, []), CreateCollection(Notes(c, f, Text))).0
    ensures db2 == Step(codec, db1, CreateRecord(c, id, 0, map[f := J.Str(text)])).0
    ensures (db3, Done) == Step(codec, db2, PatchCollection(Notes(c, f, Json), false))
    ensures Step(codec, db2, FindRecord(c, id)).1 == Stored(Doc(0, 0, map[f := J.Str(text)]))
    ensures Step(codec, db3, FindRecord(c, id)).1 == Stored(Doc(0, 0, map[f := J.Null]))
  {
    db1 := NotesDb(c, f, Text, map[]);
    db2 := NotesDb(c, f, Text, NoteRows(f, id, text));
    db3 := NotesDb(c, f, Json, NoteRows(f, id, text));
    NotesCreated(codec, c, f);
    NoteStored(codec, c, f, id, text);
    NotesPatched(codec, c, f, NoteRows(f, id, text));
    NoteFound(codec, c, f, Text, id, text);
    NoteFound(codec, c, f, Json, id, text);
  }
}
