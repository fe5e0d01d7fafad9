/** Typed record tables: one SQL table per collection, altered column by column. */
module DocumentStore {
  import opened Wrappers
  import opened Schemas
  import J = Json

  // ---- cells --------------------------------------------------------------------------

  datatype SqlType = REAL | INTEGER | TEXT

  function SqlTypeOf(ty: FieldType): SqlType {
    match ty case Number => REAL case Bool => INTEGER case _ => TEXT
  }

  datatype Cell = NullCell | IntCell(i: int) | RealCell(r: real) | TextCell(s: string)

  /** The JSON text form, as the serialiser writes it and the deserialiser reads it. */
  datatype Codec = Codec(render: J.Value -> string, parse: string -> Option<J.Value>)

  function Get(fields: map<string, J.Value>, n: string): Option<J.Value> {
    if n in fields then Some(fields[n]) else None
  }

  /** The cell bound for a value supplied, or not, for a field of type `ty`. */
  function Encode(codec: Codec, ty: FieldType, v: Option<J.Value>): Cell {
    match ty
    case Bool => if v.Some? && v.value.Bool? then IntCell(if v.value.b then 1 else 0) else NullCell
    case Number => if v.Some? && v.value.Num? then RealCell(v.value.n.AsReal()) else NullCell
    case Json => if v.None? || v.value.Null? then NullCell else TextCell(codec.render(v.value))
    case _ =>
      if v.None? || v.value.Null? then NullCell
      else if v.value.Str? then TextCell(v.value.s) else TextCell(codec.render(v.value))
  }

  function Decode(codec: Codec, ty: FieldType, c: Cell): J.Value {
    match ty
    case Bool => if c.IntCell? then J.Bool(c.i != 0) else J.Null
    case Number => if c.RealCell? then J.Num(J.Float(c.r)) else J.Null
    case Json => if c.TextCell? && codec.parse(c.s).Some? then codec.parse(c.s).value else J.Null
    case _ => if c.TextCell? then J.Str(c.s) else J.Null
  }

  // ---- tables and single statements -----------------------------------------------------

  datatype Column = Column(sqlType: SqlType, notNull: bool, unique: bool)

  datatype Row = Row(created: int, updated: int, cells: map<string, Cell>)

  datatype Table = Table(columns: map<string, Column>, rows: map<string, Row>)

  datatype Doc = Doc(created: int, updated: int, fields: map<string, J.Value>)

  datatype Response =
    | Done
    | Stored(doc: Doc)
    | NotFound
    | BadSchema
    | ReservedId
    | Exists
    | KindChanged
    | TypeChanged
    | WouldDrop
    | DdlFailed
    | ConstraintFailed

  function AddColumn(t: Table, n: string, c: Column): Table {
    Table(t.columns[n := c],
          map id | id in t.rows :: t.rows[id].(cells := t.rows[id].cells[n := NullCell]))
  }

  function DropColumn(t: Table, n: string): Table {
    Table(t.columns - {n}, map id | id in t.rows :: t.rows[id].(cells := t.rows[id].cells - {n}))
  }

  /** NOT NULL columns are filled. */
  predicate Filled(t: Table, cells: map<string, Cell>) {
    forall n | n in t.columns && n in cells && t.columns[n].notNull :: cells[n] != NullCell
  }

  predicate Same(a: map<string, Cell>, b: map<string, Cell>, n: string) {
    n in a && n in b && a[n] == b[n] && a[n] != NullCell
  }

  /** No other row holds the same value in a UNIQUE column; nulls never count as the same. */
  predicate Unmatched(t: Table, id: string, cells: map<string, Cell>) {
    forall n, other | n in t.columns && t.columns[n].unique && other in t.rows && other != id ::
      !Same(cells, t.rows[other].cells, n)
  }

  predicate RowAllowed(t: Table, id: string, cells: map<string, Cell>) { Filled(t, cells) && Unmatched(t, id, cells) }

  function Encoded(codec: Codec, defs: map<string, Field>, fields: map<string, J.Value>): map<string, Cell> {
    map n | n in defs :: Encode(codec, defs[n].ty, Get(fields, n))
  }

  function Overlaid(codec: Codec, defs: map<string, Field>, cells: map<string, Cell>, patch: map<string, J.Value>)
    : map<string, Cell>
  {
    map n | n in cells :: if n in defs && n in patch then Encode(codec, defs[n].ty, Some(patch[n])) else cells[n]
  }

  function CellAt(row: Row, n: string): Cell { if n in row.cells then row.cells[n] else NullCell }

  function Read(codec: Codec, defs: map<string, Field>, row: Row): Doc {
    Doc(row.created, row.updated, map n | n in defs :: Decode(codec, defs[n].ty, CellAt(row, n)))
  }

  function NewTable(fields: seq<Field>): Table {
    var defs := ByName(fields);
    Table(map n | n in defs :: Column(SqlTypeOf(defs[n].ty), defs[n].required, defs[n].unique), map[])
  }

  // ---- the patch ---------------------------------------------------------------------------

  function Added(old_: map<string, Field>, fields: seq<Field>): seq<Field> {
    if fields == [] then []
    else Added(old_, fields[..|fields| - 1]) + if fields[|fields| - 1].name in old_ then [] else [fields[|fields| - 1]]
  }

  function AddAll(t: Table, fields: seq<Field>): Table {
    if fields == [] then t
    else
      var f := fields[|fields| - 1];
      AddColumn(AddAll(t, fields[..|fields| - 1]), f.name, NullableColumn(f))
  }

  /** The column that a patch adds: always nullable. */
  function NullableColumn(f: Field): Column { Column(SqlTypeOf(f.ty), false, false) }

  function UniqueColumns(t: Table): set<string> { set n | n in t.columns && t.columns[n].unique }

  function DropAll(t: Table, fields: seq<Field>): Table {
    if fields == [] then t else DropColumn(DropAll(t, fields[..|fields| - 1]), fields[|fields| - 1].name)
  }

  predicate TypesKept(old_: map<string, Field>, fields: seq<Field>) {
    forall f | f in fields && f.name in old_ :: SqlTypeOf(f.ty) == SqlTypeOf(old_[f.name].ty)
  }

  /** The table after the ADD COLUMN and DROP COLUMN statements of a patch. */
  function Altered(t: Table, was: seq<Field>, desired: seq<Field>): Table {
    DropAll(AddAll(t, Added(ByName(was), desired)), Added(ByName(desired), was))
  }

  // ---- requests ------------------------------------------------------------------------------

  const RESERVED_COLLECTION_IDS: seq<string> := [
    "_collections", "_access_rules", "_migrations", "policies", "audit_log", "_files", "users", "oauth_providers",
    "user_oauth_links", "_refresh_tokens", "_email_verifications", "_password_resets", "_email_otps",
    "_oauth_states", "_user_totp", "_mfa_challenges"]

  /** The registered schemas and the data tables. */
  datatype Db = Db(meta: map<string, Schema>, tables: map<string, Table>)

  datatype Request =
    | CreateCollection(schema: Schema)
    | PatchCollection(schema: Schema, force: bool)
    | DeleteCollection(coll: string)
    | CreateRecord(coll: string, id: string, now: int, fields: map<string, J.Value>)
    | UpdateRecord(coll: string, id: string, now: int, patch: map<string, J.Value>)
    | DeleteRecord(coll: string, id: string)
    | FindRecord(coll: string, id: string)

  function CreateRefusal(schema: Schema, exists_: bool): Option<Response> {
    if !SchemaOk(schema) then Some(BadSchema)
    else if schema.id in RESERVED_COLLECTION_IDS then Some(ReservedId)
    else if exists_ then Some(Exists)
    else None
  }

  /** SQLite neither adds nor drops a column that is UNIQUE. */
  predicate TouchesUnique(was: Schema, desired: Schema, unique: set<string>) {
    || (exists f | f in Added(ByName(was.fields), desired.fields) :: f.unique)
    || (exists f | f in Added(ByName(desired.fields), was.fields) :: f.name in unique)
  }

  function PatchRefusal(was: Schema, desired: Schema, force: bool, unique: set<string>): Option<Response> {
    if was.kind != desired.kind then Some(KindChanged)
    else if !TypesKept(ByName(was.fields), desired.fields) then Some(TypeChanged)
    else if Added(ByName(desired.fields), was.fields) != [] && !force then Some(WouldDrop)
    else if TouchesUnique(was, desired, unique) then Some(DdlFailed)
    else None
  }

  function RecordStep(codec: Codec, schema: Schema, t: Table, r: Request): (Table, Response)
    requires r.CreateRecord? || r.UpdateRecord? || r.DeleteRecord? || r.FindRecord?
  {
    var defs := ByName(schema.fields);
    if r.CreateRecord? then
      var cells := Encoded(codec, defs, r.fields);
      if r.id in t.rows || !RowAllowed(t, r.id, cells) then (t, ConstraintFailed)
      else (t.(rows := t.rows[r.id := Row(r.now, r.now, cells)]), Stored(Doc(r.now, r.now, r.fields)))
    else if r.id !in t.rows then (t, NotFound)
    else if r.UpdateRecord? then
      var cells := Overlaid(codec, defs, t.rows[r.id].cells, r.patch);
      if !RowAllowed(t, r.id, cells) then (t, ConstraintFailed)
      else
        var row := Row(t.rows[r.id].created, r.now, cells);
        (t.(rows := t.rows[r.id := row]), Stored(Read(codec, defs, row)))
    else if r.DeleteRecord? then (t.(rows := t.rows - {r.id}), Done)
    else (t, Stored(Read(codec, defs, t.rows[r.id])))
  }

  function Step(codec: Codec, db: Db, r: Request): (Db, Response) {
    if r.CreateCollection? then
      match CreateRefusal(r.schema, r.schema.id in db.tables)
      case Some(refusal) => (db, refusal)
      case None => (Db(db.meta[r.schema.id := r.schema], db.tables[r.schema.id := NewTable(r.schema.fields)]), Done)
    else if r.PatchCollection? then
      var c := r.schema.id;
      if !SchemaOk(r.schema) then (db, BadSchema)
      else if c !in db.meta || c !in db.tables then (db, NotFound)
      else match PatchRefusal(db.meta[c], r.schema, r.force, UniqueColumns(db.tables[c]))
        case Some(refusal) => (db, refusal)
        case None =>
          (Db(db.meta[c := r.schema], db.tables[c := Altered(db.tables[c], db.meta[c].fields, r.schema.fields)]), Done)
    else if r.DeleteCollection? && !IsValidIdent(r.coll) then (db, BadSchema)
    else if r.coll !in db.meta || r.coll !in db.tables then (db, NotFound)
    else if r.DeleteCollection? then (Db(db.meta - {r.coll}, db.tables - {r.coll}), Done)
    else WithTable(db, r.coll, RecordStep(codec, db.meta[r.coll], db.tables[r.coll], r))
  }

  function WithTable(db: Db, coll: string, next: (Table, Response)): (Db, Response) {
    (db.(tables := db.tables[coll := next.0]), next.1)
  }
}
