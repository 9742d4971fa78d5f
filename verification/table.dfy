/** Table: the package entry points that compose the others (`GetSQL`,
    `GetFieldValue` in util/table.go). */
module Table {
  import opened Values
  import opened Schema
  import opened Ddl

  /** `GetSQL`: the create-table statement for struct `st`, built from its
      descriptors and its lower-cased type name; ErrNotStruct and the empty
      string for any other value. */
  method GetSQL(st: Value) returns (sql: string, err: Option<Error>)
    ensures err.None? <==> st.Struct?
    ensures !st.Struct? ==> sql == "" && err == Some(ErrNotStruct)
    ensures st.Struct? ==> sql == CreateTable(Info(st), Lower(st.typeName))
  {
    var cls, name, e := GetInfo(st);
    if e.Some? {
      return "", e;
    }
    sql := GenerateSQL(cls, name);
    err := None;
  }

  /** The statement GetSQL returns for a struct. */
  function Statement(st: Value): string
    requires st.Struct?
  {
    CreateTable(Info(st), Lower(st.typeName))
  }

  /** GetSQL of a struct is empty exactly when the struct has no fields
      that yield descriptors or its type has no name. */
  lemma StatementEmpty(st: Value)
    requires st.Struct?
    ensures Statement(st) == "" <==> |Info(st)| == 0 || st.typeName == ""
  {
    CreateTableEmpty(Info(st), Lower(st.typeName));
  }

  /** Every descriptor of a struct has a type, so a column is missing from
      the statement only because it is tagged exclude: the column list is
      empty exactly when every descriptor is excluded. */
  lemma ColumnsOnlyExcluded(st: Value)
    requires st.Struct?
    ensures Columns(Info(st)) == "" <==> forall i :: 0 <= i < |Info(st)| ==> Info(st)[i].exclude
  {
    var cls := Info(st);
    InfoTyped(st);
    assert forall i :: 0 <= i < |cls| ==> cls[i].typ != "" by {
      forall i | 0 <= i < |cls|
        ensures cls[i].typ != ""
      {
        assert cls[i] in cls;
      }
    }
    ColumnsEmpty(cls);
  }

  /** With at least one column kept, the statement is the opening, the
      table name, the column clauses without their final comma, and the
      closing engine clause. */
  lemma StatementShape(st: Value)
    requires st.Struct? && st.typeName != ""
    requires exists i :: 0 <= i < |Info(st)| && !Info(st)[i].exclude
    ensures var cols := Columns(Info(st));
      && cols != "" && cols[|cols| - 1] == ','
      && Statement(st) == Opening + Lower(st.typeName) + "(" + cols[..|cols| - 1] + Closing
  {
    var cls := Info(st);
    var i :| 0 <= i < |cls| && !cls[i].exclude;
    InfoTyped(st);
    assert cls[i] in cls;
    CreateTableWithColumns(cls, Lower(st.typeName));
  }

  /** When every descriptor is excluded, the code still cuts the last
      character of the opening, which is the parenthesis, so the statement
      has no column list and no opening parenthesis at all. */
  lemma StatementAllExcluded(st: Value)
    requires st.Struct? && st.typeName != "" && |Info(st)| > 0
    requires forall i :: 0 <= i < |Info(st)| ==> Info(st)[i].exclude
    ensures Statement(st) == Opening + Lower(st.typeName) + Closing
  {
    CreateTableNoColumns(Info(st), Lower(st.typeName));
  }

  /** GetSQL depends only on the struct's type, not on the instance's
      field values. */
  lemma StatementSchemaOnly(v: Value, w: Value)
    requires v.Struct? && SameSchema(v, w) && v.typeName == w.typeName
    ensures w.Struct? && Statement(v) == Statement(w)
  {
    InfoSchemaOnly(v, w);
  }

  /** The position of the first field called `key`. */
  function FieldIndex(fs: seq<Field>, key: string): (i: nat)
    requires exists k :: 0 <= k < |fs| && fs[k].name == key
    ensures i < |fs| && fs[i].name == key
    ensures forall j :: 0 <= j < i ==> fs[j].name != key
  {
    if fs[0].name == key then 0
    else
      assert exists k :: 0 <= k < |fs[1..]| && fs[1..][k].name == key by {
        var k :| 0 <= k < |fs| && fs[k].name == key;
        assert fs[1..][k - 1] == fs[k];
      }
      1 + FieldIndex(fs[1..], key)
  }

  /** A struct value `inst` has a field called `key`. */
  predicate HasField(inst: Value, key: string)
  {
    inst.Struct? && exists k :: 0 <= k < |inst.fields| && inst.fields[k].name == key
  }

  /** `GetFieldValue`: ErrKeyNotFound for a missing instance or an empty key,
      otherwise the value of the first field named `key`. The code panics
      for a non-struct instance or a name no field has, so callers must
      avoid those. */
  function GetFieldValue(inst: Option<Value>, key: string): (r: Result<Value>)
    requires inst.Some? && key != "" ==> HasField(inst.value, key)
    ensures r.Err? <==> inst.None? || key == ""
    ensures r.Err? ==> r.error == ErrKeyNotFound
    ensures r.Ok? ==> exists i ::
      && 0 <= i < |inst.value.fields|
      && inst.value.fields[i].name == key
      && r.value == inst.value.fields[i].value
      && (forall j :: 0 <= j < i ==> inst.value.fields[j].name != key)
  {
    if inst.None? || key == "" then Err(ErrKeyNotFound)
    else Ok(inst.value.fields[FieldIndex(inst.value.fields, key)].value)
  }
}
