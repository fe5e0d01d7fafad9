/** What each collection request answers and changes, told by the names, types and columns themselves, and how long a
    stored value lasts. */
module DocumentAnswers {
  import opened Wrappers
  import opened Schemas
  import opened DocumentStore
  import opened DocumentRefinement
  import opened DocumentRuns
  import J = Json

  // ---- names and schemas ----------------------------------------------------------------

  /** A lower-case letter or underscore, then one to forty-nine of these or digits. */
  ghost predicate PlainName(s: string) {
    && 2 <= |s| <= 50
    && forall i | 0 <= i < |s| :: s[i] == '_' || 'a' <= s[i] <= 'z' || (i > 0 && '0' <= s[i] <= '9')
  }

  /** The tables that the server keeps for itself. */
  predicate SystemTable(c: string) {
    || c == "_collections" || c == "_access_rules" || c == "_migrations" || c == "policies" || c == "audit_log"
    || c == "_files" || c == "users" || c == "oauth_providers" || c == "user_oauth_links" || c == "_refresh_tokens"
    || c == "_email_verifications" || c == "_password_resets" || c == "_email_otps" || c == "_oauth_states"
    || c == "_user_totp" || c == "_mfa_challenges"
  }

  /** The names of the columns that every row has. */
  predicate RowName(n: string) { n == "id" || n == "created_at" || n == "updated_at" }

  ghost predicate Sound(s: Schema) {
    && PlainName(s.id)
    && (forall f | f in s.fields :: PlainName(f.name) && !RowName(f.name))
    && (forall i, j | 0 <= i < |s.fields| && 0 <= j < |s.fields| && s.fields[i].name == s.fields[j].name :: i == j)
  }

  lemma IdentIsPlain(s: string)
    ensures IsValidIdent(s) <==> PlainName(s)
  {
    if PlainName(s) { assert s[0] == '_' || 'a' <= s[0] <= 'z'; }
  }

  lemma SchemaIsSound(s: Schema)
    ensures SchemaOk(s) <==> Sound(s)
  {
    IdentIsPlain(s.id);
    forall f | f in s.fields ensures IsValidIdent(f.name) <==> PlainName(f.name) { IdentIsPlain(f.name); }
    if Sound(s) {
      forall i | 0 <= i < |s.fields|
        ensures IsValidIdent(s.fields[i].name) && s.fields[i].name !in RESERVED_FIELD_NAMES
      {
        assert s.fields[i] in s.fields;
      }
    }
  }

  /** What is reported of a field: a name that is not plain, else one that every row has, else one used before it. */
  lemma FieldErrorTells(fields: seq<Field>, i: nat)
    requires i < |fields|
    ensures var n, error := fields[i].name, FieldError(fields, i);
            var before := exists j | 0 <= j < i :: fields[j].name == n;
            && (error == Some(BadName(n)) <==> !PlainName(n))
            && (error == Some(ReservedName(n)) <==> PlainName(n) && RowName(n))
            && (error == Some(DuplicateName(n)) <==> PlainName(n) && !RowName(n) && before)
            && (error == None <==> PlainName(n) && !RowName(n) && !before)
  {
    IdentIsPlain(fields[i].name);
  }

  /** Stored as a number, as a truth value, or as text. */
  predicate SameClass(a: FieldType, b: FieldType) { a.Number? == b.Number? && a.Bool? == b.Bool? }

  function ColumnFor(f: Field, required: bool, unique: bool): Column {
    Column(if f.ty.Number? then REAL else if f.ty.Bool? then INTEGER else TEXT, required, unique)
  }

  /** Nothing registered or stored under another name changes. */
  ghost predicate OthersKept(db: Db, db': Db, c: string) {
    && (forall d | d != c :: d in db'.meta <==> d in db.meta)
    && (forall d | d != c :: d in db'.tables <==> d in db.tables)
    && (forall d | d != c && d in db.meta :: db'.meta[d] == db.meta[d])
    && (forall d | d != c && d in db.tables :: db'.tables[d] == db.tables[d])
  }

  // ---- creating a collection -------------------------------------------------------------

  ghost predicate Created(s: Schema, db: Db) {
    && s.id in db.meta && db.meta[s.id] == s
    && s.id in db.tables && db.tables[s.id].rows == map[]
    && db.tables[s.id].columns.Keys == Names(s.fields)
    && forall f | f in s.fields :: db.tables[s.id].columns[f.name] == ColumnFor(f, f.required, f.unique)
  }

  /** A sound schema whose id is neither a system table nor in use becomes an empty table with its columns; any other
      changes nothing. */
  lemma CreateAnswers(codec: Codec, db: Db, s: Schema)
    ensures var (db', answer) := Step(codec, db, CreateCollection(s));
            && (answer == Done <==> Sound(s) && !SystemTable(s.id) && s.id !in db.tables)
            && (answer == BadSchema <==> !Sound(s))
            && (answer == ReservedId <==> Sound(s) && SystemTable(s.id))
            && (answer == Exists <==> Sound(s) && !SystemTable(s.id) && s.id in db.tables)
            && (answer != Done ==> db' == db)
            && (answer == Done ==> Created(s, db') && OthersKept(db, db', s.id))
  {
    SchemaIsSound(s);
    ReservedIsSystem(s.id);
    if SchemaOk(s) { NewColumns(s); }
  }

  lemma ReservedIsSystem(c: string)
    ensures c in RESERVED_COLLECTION_IDS <==> SystemTable(c)
  {
  }

  lemma NewColumns(s: Schema)
    requires SchemaOk(s)
    ensures NewTable(s.fields).columns.Keys == Names(s.fields)
    ensures forall f | f in s.fields :: NewTable(s.fields).columns[f.name] == ColumnFor(f, f.required, f.unique)
  {
    ByNameFinds(s.fields);
    forall f | f in s.fields
      ensures f.name in ByName(s.fields) && ByName(s.fields)[f.name] == f
    {
      FieldByName(s, f);
    }
  }

  lemma FieldByName(s: Schema, f: Field)
    requires SchemaOk(s) && f in s.fields
    ensures f.name in ByName(s.fields) && ByName(s.fields)[f.name] == f
  {
    ByNameFinds(s.fields);
    assert f.name in Names(s.fields);
    SameField(s, f, ByName(s.fields)[f.name]);
  }

  // ---- patching a collection ----------------------------------------------------------------

  /** A field of both is stored in another class. */
  predicate Retypes(was: Schema, desired: Schema) {
    exists f, g | f in was.fields && g in desired.fields :: f.name == g.name && !SameClass(f.ty, g.ty)
  }

  predicate LeavesOut(was: Schema, desired: Schema) {
    exists f | f in was.fields :: f.name !in Names(desired.fields)
  }

  /** The new schema adds a field declared unique, or leaves out one whose column is UNIQUE. */
  predicate MovesUnique(was: Schema, desired: Schema, t: Table) {
    || (exists g | g in desired.fields :: g.unique && g.name !in Names(was.fields))
    || (exists f | f in was.fields ::
          f.name !in Names(desired.fields) && f.name in t.columns && t.columns[f.name].unique)
  }

  lemma {:induction false} AddedOnly(defs: map<string, Field>, fields: seq<Field>, f: Field)
    ensures f in Added(defs, fields) <==> f in fields && f.name !in defs
  {
    if fields != [] {
      assert fields == fields[..|fields| - 1] + [fields[|fields| - 1]];
      AddedOnly(defs, fields[..|fields| - 1], f);
    }
  }

  lemma DroppedIsLeftOut(was: Schema, desired: Schema)
    ensures Added(ByName(desired.fields), was.fields) != [] <==> LeavesOut(was, desired)
  {
    ByNameFinds(desired.fields);
    var dropped := Added(ByName(desired.fields), was.fields);
    if dropped != [] { AddedOnly(ByName(desired.fields), was.fields, dropped[0]); }
    if f :| f in was.fields && f.name !in Names(desired.fields) { AddedOnly(ByName(desired.fields), was.fields, f); }
  }

  lemma KeptIsNotRetyped(was: Schema, desired: Schema)
    requires SchemaOk(was)
    ensures TypesKept(ByName(was.fields), desired.fields) <==> !Retypes(was, desired)
  {
    ByNameFinds(was.fields);
    forall f | f in was.fields ensures f.name in ByName(was.fields) && ByName(was.fields)[f.name] == f {
      FieldByName(was, f);
    }
    if !TypesKept(ByName(was.fields), desired.fields) {
      var g :| g in desired.fields && g.name in ByName(was.fields) &&
               SqlTypeOf(g.ty) != SqlTypeOf(ByName(was.fields)[g.name].ty);
      var f := ByName(was.fields)[g.name];
      assert f in was.fields && f.name == g.name && !SameClass(f.ty, g.ty);
    }
  }

  lemma UniqueIsMoved(was: Schema, desired: Schema, t: Table)
    ensures TouchesUnique(was, desired, UniqueColumns(t)) <==> MovesUnique(was, desired, t)
  {
    ByNameFinds(was.fields);
    ByNameFinds(desired.fields);
    forall f ensures f in Added(ByName(was.fields), desired.fields) <==>
                     f in desired.fields && f.name !in Names(was.fields)
    {
      AddedOnly(ByName(was.fields), desired.fields, f);
    }
    forall f ensures f in Added(ByName(desired.fields), was.fields) <==>
                     f in was.fields && f.name !in Names(desired.fields)
    {
      AddedOnly(ByName(desired.fields), was.fields, f);
    }
  }

  /** The refusals of a patch, in the order they are looked for; without force no field is left out. */
  lemma PatchAnswers(codec: Codec, db: Db, s: Schema, force: bool)
    requires Inv(db)
    ensures var (db', answer) := Step(codec, db, PatchCollection(s, force));
            && (answer == BadSchema <==> !Sound(s))
            && (answer == NotFound <==> Sound(s) && s.id !in db.meta)
            && (answer != Done ==> db' == db)
            && (Sound(s) && s.id in db.meta ==>
                 var was, t := db.meta[s.id], db.tables[s.id];
                 if was.kind != s.kind then answer == KindChanged
                 else if Retypes(was, s) then answer == TypeChanged
                 else if LeavesOut(was, s) && !force then answer == WouldDrop
                 else if MovesUnique(was, s, t) then answer == DdlFailed
                 else answer == Done)
  {
    SchemaIsSound(s);
    if SchemaOk(s) && s.id in db.meta {
      var was, t := db.meta[s.id], db.tables[s.id];
      KeptIsNotRetyped(was, s);
      DroppedIsLeftOut(was, s);
      UniqueIsMoved(was, s, t);
    }
  }

  /** Every row and every kept column and cell stays as it is; new columns are nullable and empty; the rest is gone. */
  ghost predicate Reformed(was: Schema, s: Schema, t: Table, t': Table) {
    && t'.rows.Keys == t.rows.Keys && t'.columns.Keys == Names(s.fields)
    && (forall g | g in s.fields ::
          t'.columns[g.name] == if g.name in Names(was.fields) && g.name in t.columns then t.columns[g.name]
                                else ColumnFor(g, false, false))
    && (forall id | id in t.rows :: RowReformed(was, s, t.rows[id], t'.rows[id]))
  }

  ghost predicate RowReformed(was: Schema, s: Schema, row: Row, row': Row) {
    && row'.created == row.created && row'.updated == row.updated && row'.cells.Keys == Names(s.fields)
    && forall g | g in s.fields ::
         row'.cells[g.name] ==
           if g.name in Names(was.fields) && g.name in row.cells then row.cells[g.name] else NullCell
  }

  lemma RowReforms(was: Schema, s: Schema, row: Row, row': Row)
    requires SchemaOk(s) && row'.created == row.created && row'.updated == row.updated
    requires CellsKept(ByName(was.fields), ByName(s.fields), row.cells, row'.cells)
    ensures RowReformed(was, s, row, row')
  {
    ByNameFinds(was.fields);
    ByNameFinds(s.fields);
  }

  lemma ColumnReforms(t: Table, was: Schema, s: Schema, g: Field)
    requires SchemaOk(s) && t.columns.Keys == ByName(was.fields).Keys && g in s.fields
    ensures g.name in Altered(t, was.fields, s.fields).columns
    ensures Altered(t, was.fields, s.fields).columns[g.name] ==
            if g.name in Names(was.fields) && g.name in t.columns then t.columns[g.name] else ColumnFor(g, false, false)
  {
    ByNameFinds(was.fields);
    FieldByName(s, g);
    AlteredColumn(t, was, s, g.name);
  }

  lemma AlteredReforms(t: Table, was: Schema, s: Schema)
    requires SchemaOk(s) && TableOk(was, t)
    ensures Reformed(was, s, t, Altered(t, was.fields, s.fields))
  {
    var t' := Altered(t, was.fields, s.fields);
    AlteredKeys(t, was, s);
    ByNameFinds(s.fields);
    forall g | g in s.fields { ColumnReforms(t, was, s, g); }
    forall id | id in t.rows ensures RowReformed(was, s, t.rows[id], t'.rows[id]) {
      assert RowOk(ByName(was.fields), t, id);
      AlteredRow(t, was, s, id);
      RowReforms(was, s, t.rows[id], t'.rows[id]);
    }
  }

  lemma PatchedOthers(db: Db, s: Schema, t': Table)
    ensures OthersKept(db, Db(db.meta[s.id := s], db.tables[s.id := t']), s.id)
  {
  }

  /** An accepted patch registers the new schema and reforms the table, and touches no other collection. */
  lemma PatchReforms(codec: Codec, db: Db, s: Schema, force: bool)
    requires Inv(db) && Step(codec, db, PatchCollection(s, force)).1 == Done
    ensures s.id in db.meta
    ensures var db' := Step(codec, db, PatchCollection(s, force)).0;
            && s.id in db'.meta && db'.meta[s.id] == s && s.id in db'.tables && OthersKept(db, db', s.id)
            && Reformed(db.meta[s.id], s, db.tables[s.id], db'.tables[s.id])
  {
    var was, t := db.meta[s.id], db.tables[s.id];
    var t' := Altered(t, was.fields, s.fields);
    assert Step(codec, db, PatchCollection(s, force)).0 == Db(db.meta[s.id := s], db.tables[s.id := t']);
    PatchedOthers(db, s, t');
    AlteredReforms(t, was, s);
  }

  /** Deleting a collection removes it and nothing else, if it is there. */
  lemma DeleteCollectionAnswers(codec: Codec, db: Db, c: string)
    ensures var (db', answer) := Step(codec, db, DeleteCollection(c));
            && (answer == Done <==> PlainName(c) && c in db.meta && c in db.tables)
            && (answer == BadSchema <==> !PlainName(c))
            && (answer != Done ==> db' == db && (answer == BadSchema || answer == NotFound))
            && (answer == Done ==> c !in db'.meta && c !in db'.tables && OthersKept(db, db', c))
  {
    IdentIsPlain(c);
  }

  // ---- records ---------------------------------------------------------------------------------

  /** `w` is what a field of type `ty` shows after being given `v`: a truth value or string itself, a number as a
      float, JSON as it is read back, other values in a text field as their JSON text, and null for everything else. */
  predicate ShownFor(codec: Codec, ty: FieldType, v: Option<J.Value>, w: J.Value) {
    if v.None? || v.value.Null? then w.Null?
    else if ty.Bool? then w == if v.value.Bool? then v.value else J.Null
    else if ty.Number? then
      match v.value
      case Num(Int(i)) => w == J.Num(J.Float(i as real))
      case Num(Float(_)) => w == v.value
      case _ => w.Null?
    else if ty.Json? then
      match codec.parse(codec.render(v.value)) case Some(back) => w == back case None => w.Null?
    else if v.value.Str? then w == v.value
    else w == J.Str(codec.render(v.value))
  }

  /** What a find of the record answers; none if it is not there. */
  function Found(codec: Codec, db: Db, c: string, id: string): Option<Doc> {
    match Step(codec, db, FindRecord(c, id)).1 case Stored(doc) => Some(doc) case _ => None
  }

  /** The collection stays registered as it is, and every other record is found as before. */
  ghost predicate OnlyTouches(codec: Codec, db: Db, db': Db, c: string, id: string) {
    && db'.meta == db.meta
    && forall d, i | d != c || i != id :: Found(codec, db', d, i) == Found(codec, db, d, i)
  }

  lemma PutFound(codec: Codec, db: Db, c: string, id: string, row: Row)
    requires c in db.meta && c in db.tables
    ensures var db' := Db(db.meta, db.tables[c := db.tables[c].(rows := db.tables[c].rows[id := row])]);
            && Found(codec, db', c, id) == Some(Read(codec, ByName(db.meta[c].fields), row))
            && OnlyTouches(codec, db, db', c, id)
  {
  }

  lemma ShownIsCanon(codec: Codec, ty: FieldType, v: Option<J.Value>)
    ensures ShownFor(codec, ty, v, Decode(codec, ty, Encode(codec, ty, v)))
  {
  }

  /** A created record is found with one value for each field, dated now, and was not there before. */
  lemma CreatedIsFound(codec: Codec, db: Db, c: string, id: string, now: int, fields: map<string, J.Value>)
    requires Step(codec, db, CreateRecord(c, id, now, fields)).1.Stored?
    ensures c in db.meta
    ensures var db' := Step(codec, db, CreateRecord(c, id, now, fields)).0;
            && OnlyTouches(codec, db, db', c, id)
            && Found(codec, db, c, id) == None && Found(codec, db', c, id).Some?
            && var doc, defs := Found(codec, db', c, id).value, ByName(db.meta[c].fields);
               && doc.created == now && doc.updated == now && doc.fields.Keys == defs.Keys
               && forall n | n in defs :: ShownFor(codec, defs[n].ty, Get(fields, n), doc.fields[n])
  {
    var defs := ByName(db.meta[c].fields);
    var row := Row(now, now, Encoded(codec, defs, fields));
    PutFound(codec, db, c, id, row);
    forall n | n in defs ensures ShownFor(codec, defs[n].ty, Get(fields, n), Decode(codec, defs[n].ty, row.cells[n])) {
      ShownIsCanon(codec, defs[n].ty, Get(fields, n));
    }
  }

  lemma InvCells(db: Db, c: string, id: string)
    requires Inv(db) && c in db.meta && id in db.tables[c].rows
    ensures db.tables[c].rows[id].cells.Keys == ByName(db.meta[c].fields).Keys
  {
    assert RowOk(ByName(db.meta[c].fields), db.tables[c], id);
  }

  lemma UpdatedReads(codec: Codec, defs: map<string, Field>, before: Row, now: int, patch: map<string, J.Value>)
    requires before.cells.Keys == defs.Keys
    ensures var doc := Read(codec, defs, before);
            var doc' := Read(codec, defs, Row(before.created, now, Overlaid(codec, defs, before.cells, patch)));
            && doc'.created == doc.created && doc'.updated == now && doc'.fields.Keys == defs.Keys == doc.fields.Keys
            && forall n | n in defs ::
                 if n in patch then ShownFor(codec, defs[n].ty, Some(patch[n]), doc'.fields[n])
                 else doc'.fields[n] == doc.fields[n]
  {
    forall n | n in defs && n in patch
      ensures ShownFor(codec, defs[n].ty, Some(patch[n]),
                       Decode(codec, defs[n].ty, Encode(codec, defs[n].ty, Some(patch[n]))))
    {
      ShownIsCanon(codec, defs[n].ty, Some(patch[n]));
    }
  }

  lemma UpdateStored(codec: Codec, db: Db, c: string, id: string, now: int, patch: map<string, J.Value>)
    requires Step(codec, db, UpdateRecord(c, id, now, patch)).1.Stored?
    ensures c in db.meta && c in db.tables && id in db.tables[c].rows
    ensures var t, defs, before := db.tables[c], ByName(db.meta[c].fields), db.tables[c].rows[id];
            var row := Row(before.created, now, Overlaid(codec, defs, before.cells, patch));
            Step(codec, db, UpdateRecord(c, id, now, patch)) ==
              (Db(db.meta, db.tables[c := t.(rows := t.rows[id := row])]), Stored(Read(codec, defs, row)))
  {
  }

  /** An updated record keeps its creation time and the fields that the patch does not name, and is answered as it is
      then found. */
  lemma UpdatedIsFound(codec: Codec, db: Db, c: string, id: string, now: int, patch: map<string, J.Value>)
    requires Inv(db) && Step(codec, db, UpdateRecord(c, id, now, patch)).1.Stored?
    ensures c in db.meta && Found(codec, db, c, id).Some?
    ensures var (db', answer) := Step(codec, db, UpdateRecord(c, id, now, patch));
            && OnlyTouches(codec, db, db', c, id)
            && Found(codec, db', c, id) == Some(answer.doc)
            && var doc, doc', defs := Found(codec, db, c, id).value, answer.doc, ByName(db.meta[c].fields);
               && doc'.created == doc.created && doc'.updated == now && doc'.fields.Keys == defs.Keys == doc.fields.Keys
               && forall n | n in defs ::
                    if n in patch then ShownFor(codec, defs[n].ty, Some(patch[n]), doc'.fields[n])
                    else doc'.fields[n] == doc.fields[n]
  {
    UpdateStored(codec, db, c, id, now, patch);
    var defs, before := ByName(db.meta[c].fields), db.tables[c].rows[id];
    InvCells(db, c, id);
    FindAnswers(codec, db, c, id);
    UpdatedReads(codec, defs, before, now, patch);
    PutFound(codec, db, c, id, Row(before.created, now, Overlaid(codec, defs, before.cells, patch)));
  }

  /** A record is deleted exactly when it is found, and is not found afterwards. */
  lemma DeletedIsGone(codec: Codec, db: Db, c: string, id: string)
    ensures var (db', answer) := Step(codec, db, DeleteRecord(c, id));
            && (answer == Done <==> Found(codec, db, c, id).Some?) && (answer != Done ==> answer == NotFound)
            && Found(codec, db', c, id) == None && OnlyTouches(codec, db, db', c, id)
  {
  }

  // ---- how long a value lasts ------------------------------------------------------------------

  /** The request neither deletes the collection or the record, nor sets the field, nor forces a patch. */
  predicate Spares(r: Request, c: string, id: string, f: string) {
    match r
    case DeleteCollection(d) => d != c
    case PatchCollection(s, force) => s.id == c ==> !force
    case DeleteRecord(d, i) => d != c || i != id
    case UpdateRecord(d, i, _, patch) => d != c || i != id || f !in patch
    case _ => true
  }

  /** The record has the field, of the class of `ty`, and holds the cell under it. */
  ghost predicate Holds(db: Db, c: string, id: string, f: string, ty: FieldType, cell: Cell) {
    && c in db.meta && c in db.tables && id in db.tables[c].rows
    && f in ByName(db.meta[c].fields) && SameClass(ByName(db.meta[c].fields)[f].ty, ty)
    && f in db.tables[c].rows[id].cells && db.tables[c].rows[id].cells[f] == cell
  }

  lemma PatchHolds(codec: Codec, db: Db, s: Schema, id: string, f: string, ty: FieldType, cell: Cell)
    requires Inv(db) && Holds(db, s.id, id, f, ty, cell)
    ensures Holds(Step(codec, db, PatchCollection(s, false)).0, s.id, id, f, ty, cell)
  {
    var (db', answer) := Step(codec, db, PatchCollection(s, false));
    PatchAnswers(codec, db, s, false);
    if answer == Done {
      PatchReforms(codec, db, s, false);
      var was, t, t' := db.meta[s.id], db.tables[s.id], db'.tables[s.id];
      KeptField(was, s, f);
      assert RowReformed(was, s, t.rows[id], t'.rows[id]);
    }
  }

  lemma KeptField(was: Schema, s: Schema, f: string)
    requires f in ByName(was.fields) && !LeavesOut(was, s) && !Retypes(was, s)
    ensures f in Names(was.fields) && f in Names(s.fields) && f in ByName(s.fields)
    ensures ByName(s.fields)[f] in s.fields && ByName(s.fields)[f].name == f
    ensures SameClass(ByName(was.fields)[f].ty, ByName(s.fields)[f].ty)
  {
    ByNameFinds(was.fields);
    ByNameFinds(s.fields);
    assert ByName(was.fields)[f] in was.fields;
  }

  lemma RecordHolds(codec: Codec, schema: Schema, t: Table, r: Request, id: string, f: string)
    requires OnRecord(r) && Spares(r, r.coll, id, f) && id in t.rows && f in t.rows[id].cells
    ensures var t' := RecordStep(codec, schema, t, r).0;
            id in t'.rows && f in t'.rows[id].cells && t'.rows[id].cells[f] == t.rows[id].cells[f]
  {
  }

  lemma ElsewhereHolds(db: Db, db': Db, d: string, c: string, id: string, f: string, ty: FieldType, cell: Cell)
    requires Holds(db, c, id, f, ty, cell) && d != c && OthersKept(db, db', d)
    ensures Holds(db', c, id, f, ty, cell)
  {
  }

  lemma CollectionHolds(codec: Codec, db: Db, r: Request, c: string, id: string, f: string, ty: FieldType, cell: Cell)
    requires Inv(db) && Holds(db, c, id, f, ty, cell) && Spares(r, c, id, f) && !OnRecord(r)
    ensures Holds(Step(codec, db, r).0, c, id, f, ty, cell)
  {
    var (db', answer) := Step(codec, db, r);
    match r
    case CreateCollection(s) =>
      CreateAnswers(codec, db, s);
      if answer == Done { ElsewhereHolds(db, db', s.id, c, id, f, ty, cell); }
    case PatchCollection(s, force) =>
      if s.id == c {
        PatchHolds(codec, db, s, id, f, ty, cell);
      } else {
        PatchAnswers(codec, db, s, force);
        if answer == Done {
          PatchReforms(codec, db, s, force);
          ElsewhereHolds(db, db', s.id, c, id, f, ty, cell);
        }
      }
    case DeleteCollection(d) =>
      DeleteCollectionAnswers(codec, db, d);
      if answer == Done { ElsewhereHolds(db, db', d, c, id, f, ty, cell); }
  }

  lemma RecordOnHolds(codec: Codec, db: Db, r: Request, c: string, id: string, f: string, ty: FieldType, cell: Cell)
    requires Holds(db, c, id, f, ty, cell) && Spares(r, c, id, f) && OnRecord(r)
    ensures Holds(Step(codec, db, r).0, c, id, f, ty, cell)
  {
    if r.coll == c { RecordHolds(codec, db.meta[c], db.tables[c], r, id, f); }
  }

  lemma StepHolds(codec: Codec, db: Db, r: Request, c: string, id: string, f: string, ty: FieldType, cell: Cell)
    requires Inv(db) && Holds(db, c, id, f, ty, cell) && Spares(r, c, id, f)
    ensures Holds(Step(codec, db, r).0, c, id, f, ty, cell)
  {
    if OnRecord(r) {
      RecordOnHolds(codec, db, r, c, id, f, ty, cell);
    } else {
      CollectionHolds(codec, db, r, c, id, f, ty, cell);
    }
  }

  lemma {:induction false} RunHolds(codec: Codec, rs: seq<Request>, m: nat, n: nat, c: string, id: string, f: string,
      ty: FieldType, cell: Cell)
    requires m <= n <= |rs| && forall i | m <= i < n :: Spares(rs[i], c, id, f)
    requires Holds(Run(codec, rs[..m]), c, id, f, ty, cell)
    ensures Holds(Run(codec, rs[..n]), c, id, f, ty, cell)
    decreases n
  {
    if m < n {
      RunHolds(codec, rs, m, n - 1, c, id, f, ty, cell);
      RunInv(codec, rs[..n - 1]);
      RunStep(codec, rs, n - 1);
      StepHolds(codec, Run(codec, rs[..n - 1]), rs[n - 1], c, id, f, ty, cell);
    }
  }

  /** From request `m` to request `n` of a run in which the collection and the record are not deleted, the field is not
      set and no patch of the collection is forced, the record keeps the field and its cell, and is found with the same
      value if the field was and is a JSON field, or was and is not. */
  lemma ValuesSurvive(codec: Codec, rs: seq<Request>, m: nat, n: nat, c: string, id: string, f: string)
    requires m <= n <= |rs| && forall i | m <= i < n :: Spares(rs[i], c, id, f)
    requires var db := Run(codec, rs[..m]);
             c in db.meta && c in db.tables && id in db.tables[c].rows && f in ByName(db.meta[c].fields)
    ensures var db, db' := Run(codec, rs[..m]), Run(codec, rs[..n]);
            && c in db'.meta && c in db'.tables && id in db'.tables[c].rows && f in ByName(db'.meta[c].fields)
            && CellAt(db'.tables[c].rows[id], f) == CellAt(db.tables[c].rows[id], f)
            && var ty, ty' := ByName(db.meta[c].fields)[f].ty, ByName(db'.meta[c].fields)[f].ty;
               && SameClass(ty, ty')
               && var a, b := Step(codec, db, FindRecord(c, id)).1, Step(codec, db', FindRecord(c, id)).1;
                  && a.Stored? && b.Stored? && f in a.doc.fields && f in b.doc.fields
                  && (ty.Json? == ty'.Json? ==> a.doc.fields[f] == b.doc.fields[f])
  {
    var db, db' := Run(codec, rs[..m]), Run(codec, rs[..n]);
    RunInv(codec, rs[..m]);
    assert RowOk(ByName(db.meta[c].fields), db.tables[c], id);
    RunHolds(codec, rs, m, n, c, id, f, ByName(db.meta[c].fields)[f].ty, db.tables[c].rows[id].cells[f]);
    FindAnswers(codec, db, c, id);
    FindAnswers(codec, db', c, id);
  }
}
