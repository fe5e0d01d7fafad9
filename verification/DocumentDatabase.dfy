/** The record store's operations, statement by statement, against the step function. */
module DocumentDatabase {
  import opened Wrappers
  import opened Schemas
  import opened DocumentStore
  import J = Json

  lemma Snoc(fields: seq<Field>, i: nat)
    requires i < |fields|
    ensures fields[..i + 1] == fields[..i] + [fields[i]] && fields[..i + 1][..i] == fields[..i]
    ensures ByName(fields[..i + 1]) == ByName(fields[..i])[fields[i].name := fields[i]]
  {
  }

  lemma EncodedStep(codec: Codec, defs: map<string, Field>, f: Field, fields: map<string, J.Value>)
    ensures Encoded(codec, defs[f.name := f], fields) ==
            Encoded(codec, defs, fields)[f.name := Encode(codec, f.ty, Get(fields, f.name))]
  {
  }

  lemma OverlaidNone(codec: Codec, before: map<string, Cell>, patch: map<string, J.Value>)
    ensures Overlaid(codec, map[], before, patch) == before
  {
  }

  lemma OverlaidStep(
      codec: Codec, defs: map<string, Field>, f: Field, before: map<string, Cell>, patch: map<string, J.Value>)
    ensures f.name in Overlaid(codec, defs, before, patch) <==> f.name in before
    ensures Overlaid(codec, defs[f.name := f], before, patch) ==
            if f.name in before && f.name in patch
            then Overlaid(codec, defs, before, patch)[f.name := Encode(codec, f.ty, Some(patch[f.name]))]
            else Overlaid(codec, defs, before, patch)
  {
  }

  lemma ReadStep(codec: Codec, defs: map<string, Field>, f: Field, row: Row)
    ensures Read(codec, defs[f.name := f], row).fields ==
            Read(codec, defs, row).fields[f.name := Decode(codec, f.ty, CellAt(row, f.name))]
  {
  }

  method IndexFields(fields: seq<Field>) returns (defs: map<string, Field>)
    ensures defs == ByName(fields)
  {
    defs := map[];
    for i := 0 to |fields|
      invariant defs == ByName(fields[..i])
    {
      Snoc(fields, i);
      defs := defs[fields[i].name := fields[i]];
    }
    assert fields[..|fields|] == fields;
  }

  /** The fields of `fields` that `defs` does not name, in order. */
  method FieldsOutside(defs: map<string, Field>, fields: seq<Field>) returns (r: seq<Field>)
    ensures r == Added(defs, fields)
  {
    r := [];
    for i := 0 to |fields|
      invariant r == Added(defs, fields[..i])
    {
      Snoc(fields, i);
      if fields[i].name !in defs { r := r + [fields[i]]; }
    }
    assert fields[..|fields|] == fields;
  }

  method CheckKeptTypes(old_: map<string, Field>, fields: seq<Field>) returns (ok: bool)
    ensures ok <==> TypesKept(old_, fields)
  {
    for i := 0 to |fields|
      invariant forall j | 0 <= j < i &&
                fields[j].name in old_ :: SqlTypeOf(fields[j].ty) == SqlTypeOf(old_[fields[j].name].ty)
    {
      var f := fields[i];
      if f.name in old_ && SqlTypeOf(f.ty) != SqlTypeOf(old_[f.name].ty) { return false; }
    }
    return true;
  }

  class Database {
    const codec: Codec
    var meta: map<string, Schema>
    var tables: map<string, Table>

    constructor (c: Codec)
      ensures codec == c && View() == Db(map[], map[])
    {
      codec, meta, tables := c, map[], map[];
    }

    function View(): Db
      reads this
    {
      Db(meta, tables)
    }

    method HandleCreateCollection(schema: Schema) returns (answer: Response)
      modifies this
      ensures (View(), answer) == Step(codec, old(View()), CreateCollection(schema))
    {
      var error := ValidateSchema(schema);
      if error.Some? { return BadSchema; }
      if schema.id in RESERVED_COLLECTION_IDS { return ReservedId; }
      if schema.id in tables { return Exists; }
      var columns: map<string, Column> := map[];
      for i := 0 to |schema.fields|
        modifies {}
        invariant columns == NewTable(schema.fields[..i]).columns
      {
        Snoc(schema.fields, i);
        var f := schema.fields[i];
        columns := columns[f.name := Column(SqlTypeOf(f.ty), f.required, f.unique)];
      }
      assert schema.fields[..|schema.fields|] == schema.fields;
      tables := tables[schema.id := Table(columns, map[])];
      meta := meta[schema.id := schema];
      answer := Done;
    }

    method HandlePatchCollection(desired: Schema, force: bool) returns (answer: Response)
      modifies this
      ensures (View(), answer) == Step(codec, old(View()), PatchCollection(desired, force))
    {
      var c := desired.id;
      var error := ValidateSchema(desired);
      if error.Some? { return BadSchema; }
      if c !in meta || c !in tables { return NotFound; }
      var was := meta[c];
      if was.kind != desired.kind { return KindChanged; }
      var oldByName := IndexFields(was.fields);
      var newByName := IndexFields(desired.fields);
      var kept := CheckKeptTypes(oldByName, desired.fields);
      if !kept { return TypeChanged; }
      var added := FieldsOutside(oldByName, desired.fields);
      var dropped := FieldsOutside(newByName, was.fields);
      if dropped != [] && !force { return WouldDrop; }
      if TouchesUnique(was, desired, UniqueColumns(tables[c])) { return DdlFailed; }
      Alter(c, added, dropped);
      meta := meta[c := desired];
      answer := Done;
    }

    /** ADD COLUMN for every added field, then DROP COLUMN for every dropped one. */
    method Alter(c: string, added: seq<Field>, dropped: seq<Field>)
      requires c in tables
      modifies this`tables
      ensures tables == old(tables)[c := DropAll(AddAll(old(tables)[c], added), dropped)]
    {
      ghost var t := tables[c];
      for i := 0 to |added|
        invariant c in tables && tables == old(tables)[c := AddAll(t, added[..i])]
      {
        Snoc(added, i);
        tables := tables[c := AddColumn(tables[c], added[i].name, NullableColumn(added[i]))];
      }
      assert added[..|added|] == added;
      ghost var t' := AddAll(t, added);
      for i := 0 to |dropped|
        invariant c in tables && tables == old(tables)[c := DropAll(t', dropped[..i])]
      {
        Snoc(dropped, i);
        tables := tables[c := DropColumn(tables[c], dropped[i].name)];
      }
      assert dropped[..|dropped|] == dropped;
    }

    method HandleDeleteCollection(c: string) returns (answer: Response)
      modifies this
      ensures (View(), answer) == Step(codec, old(View()), DeleteCollection(c))
    {
      if !IsValidIdent(c) { return BadSchema; }
      if c !in meta || c !in tables { return NotFound; }
      tables := tables - {c};
      meta := meta - {c};
      answer := Done;
    }

    method BindInsert(defs: seq<Field>, fields: map<string, J.Value>) returns (cells: map<string, Cell>)
      ensures cells == Encoded(codec, ByName(defs), fields)
    {
      cells := map[];
      for i := 0 to |defs|
        invariant cells == Encoded(codec, ByName(defs[..i]), fields)
      {
        Snoc(defs, i);
        EncodedStep(codec, ByName(defs[..i]), defs[i], fields);
        cells := cells[defs[i].name := Encode(codec, defs[i].ty, Get(fields, defs[i].name))];
      }
      assert defs[..|defs|] == defs;
    }

    /** Sets the columns of the fields that the patch supplies and the schema knows. */
    method BindUpdate(defs: seq<Field>, before: map<string, Cell>, patch: map<string, J.Value>)
        returns (cells: map<string, Cell>)
      ensures cells == Overlaid(codec, ByName(defs), before, patch)
    {
      cells := before;
      OverlaidNone(codec, before, patch);
      assert defs[..0] == [];
      for i := 0 to |defs|
        invariant cells == Overlaid(codec, ByName(defs[..i]), before, patch)
      {
        Snoc(defs, i);
        var f := defs[i];
        OverlaidStep(codec, ByName(defs[..i]), f, before, patch);
        if f.name in patch && f.name in cells {
          cells := cells[f.name := Encode(codec, f.ty, Some(patch[f.name]))];
        }
      }
      assert defs[..|defs|] == defs;
    }

    method HandleCreateRecord(c: string, id: string, now: int, fields: map<string, J.Value>) returns (answer: Response)
      modifies this
      ensures (View(), answer) == Step(codec, old(View()), CreateRecord(c, id, now, fields))
    {
      if c !in meta || c !in tables { return NotFound; }
      var cells := BindInsert(meta[c].fields, fields);
      assert tables[c := tables[c]] == tables;
      if id in tables[c].rows || !RowAllowed(tables[c], id, cells) { return ConstraintFailed; }
      tables := tables[c := tables[c].(rows := tables[c].rows[id := Row(now, now, cells)])];
      answer := Stored(Doc(now, now, fields));
    }

    method HandleUpdateRecord(c: string, id: string, now: int, patch: map<string, J.Value>) returns (answer: Response)
      modifies this
      ensures (View(), answer) == Step(codec, old(View()), UpdateRecord(c, id, now, patch))
    {
      if c !in meta || c !in tables { return NotFound; }
      assert tables[c := tables[c]] == tables;
      if id !in tables[c].rows { return NotFound; }
      var defs, row := meta[c].fields, tables[c].rows[id];
      var cells := BindUpdate(defs, row.cells, patch);
      if !RowAllowed(tables[c], id, cells) { return ConstraintFailed; }
      row := Row(row.created, now, cells);
      tables := tables[c := tables[c].(rows := tables[c].rows[id := row])];
      var doc := RowToRecord(defs, row);
      answer := Stored(doc);
    }

    method HandleDeleteRecord(c: string, id: string) returns (answer: Response)
      modifies this
      ensures (View(), answer) == Step(codec, old(View()), DeleteRecord(c, id))
    {
      if c !in meta || c !in tables { return NotFound; }
      assert tables[c := tables[c]] == tables;
      if id !in tables[c].rows { return NotFound; }
      tables := tables[c := tables[c].(rows := tables[c].rows - {id})];
      answer := Done;
    }

    method HandleFindRecord(c: string, id: string) returns (answer: Response)
      ensures (View(), answer) == Step(codec, View(), FindRecord(c, id))
    {
      if c !in meta || c !in tables { return NotFound; }
      assert tables[c := tables[c]] == tables;
      if id !in tables[c].rows { return NotFound; }
      var doc := RowToRecord(meta[c].fields, tables[c].rows[id]);
      answer := Stored(doc);
    }

    method RowToRecord(defs: seq<Field>, row: Row) returns (doc: Doc)
      ensures doc == Read(codec, ByName(defs), row)
    {
      var fields: map<string, J.Value> := map[];
      for i := 0 to |defs|
        invariant fields == Read(codec, ByName(defs[..i]), row).fields
      {
        Snoc(defs, i);
        ReadStep(codec, ByName(defs[..i]), defs[i], row);
        fields := fields[defs[i].name := Decode(codec, defs[i].ty, CellAt(row, defs[i].name))];
      }
      assert defs[..|defs|] == defs;
      doc := Doc(row.created, row.updated, fields);
    }
  }
}
