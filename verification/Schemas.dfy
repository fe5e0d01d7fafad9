/** Collection schemas and the checks they pass before any table is touched. */
module Schemas {
  import opened Wrappers

  datatype CollectionKind = Base | Auth | View

  datatype FieldType = Text | Number | Bool | Email | Url | Date | Json | Relation | File

  datatype Field = Field(name: string, ty: FieldType, required: bool, unique: bool)

  datatype Schema = Schema(id: string, kind: CollectionKind, fields: seq<Field>)

  datatype SchemaError = BadName(name: string) | ReservedName(name: string) | DuplicateName(name: string)

  const RESERVED_FIELD_NAMES: seq<string> := ["id", "created_at", "updated_at"]

  predicate IdentChar(c: char) { 'a' <= c <= 'z' || '0' <= c <= '9' || c == '_' }

  predicate IsValidIdent(s: string) {
    && 2 <= |s| <= 50 && !('0' <= s[0] <= '9')
    && (forall i | 0 <= i < |s| :: IdentChar(s[i]))
  }

  /** What is wrong with field `i`, looked at after the fields before it. */
  function FieldError(fields: seq<Field>, i: nat): Option<SchemaError>
    requires i < |fields|
  {
    if !IsValidIdent(fields[i].name) then Some(BadName(fields[i].name))
    else if fields[i].name in RESERVED_FIELD_NAMES then Some(ReservedName(fields[i].name))
    else if exists j | 0 <= j < i :: fields[j].name == fields[i].name then Some(DuplicateName(fields[i].name))
    else None
  }

  predicate SchemaOk(s: Schema) {
    && IsValidIdent(s.id)
    && (forall i | 0 <= i < |s.fields| :: IsValidIdent(s.fields[i].name) && s.fields[i].name !in RESERVED_FIELD_NAMES)
    && (forall i, j | 0 <= i < j < |s.fields| :: s.fields[i].name != s.fields[j].name)
  }

  /** Accepts exactly the sound schemas; otherwise reports the id, or else the first bad field. */
  method ValidateSchema(s: Schema) returns (r: Option<SchemaError>)
    ensures r.None? <==> SchemaOk(s)
    ensures r.Some? && IsValidIdent(s.id) ==>
              exists i | 0 <= i < |s.fields| ::
                FieldError(s.fields, i) == r && forall j | 0 <= j < i :: FieldError(s.fields, j).None?
    ensures r.Some? && !IsValidIdent(s.id) ==> r.value == BadName(s.id)
  {
    if !IsValidIdent(s.id) { return Some(BadName(s.id)); }
    var seen: set<string> := {};
    for i := 0 to |s.fields|
      invariant forall j | 0 <= j < i :: FieldError(s.fields, j).None?
      invariant forall n :: n in seen <==> exists j | 0 <= j < i :: s.fields[j].name == n
    {
      var name := s.fields[i].name;
      if !IsValidIdent(name) {
        assert FieldError(s.fields, i) == Some(BadName(name));
        return Some(BadName(name));
      }
      if name in RESERVED_FIELD_NAMES {
        assert FieldError(s.fields, i) == Some(ReservedName(name));
        return Some(ReservedName(name));
      }
      if name in seen {
        assert FieldError(s.fields, i) == Some(DuplicateName(name));
        return Some(DuplicateName(name));
      }
      seen := seen + {name};
    }
    forall i | 0 <= i < |s.fields|
      ensures IsValidIdent(s.fields[i].name) && s.fields[i].name !in RESERVED_FIELD_NAMES
    {
      assert FieldError(s.fields, i).None?;
    }
    forall i, j | 0 <= i < j < |s.fields| ensures s.fields[i].name != s.fields[j].name {
      assert FieldError(s.fields, j).None?;
    }
    return None;
  }

  /** The fields keyed by name. */
  function ByName(fields: seq<Field>): map<string, Field> {
    if fields == [] then map[] else ByName(fields[..|fields| - 1])[fields[|fields| - 1].name := fields[|fields| - 1]]
  }

  function Names(fields: seq<Field>): set<string> { set f | f in fields :: f.name }

  lemma {:induction false} ByNameFinds(fields: seq<Field>)
    ensures ByName(fields).Keys == Names(fields)
    ensures forall n | n in ByName(fields) :: ByName(fields)[n] in fields && ByName(fields)[n].name == n
  {
    if fields != [] {
      var init, last := fields[..|fields| - 1], fields[|fields| - 1];
      assert fields == init + [last];
      ByNameFinds(init);
      assert Names(fields) == Names(init) + {last.name};
    }
  }
}
