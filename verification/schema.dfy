/** Schema: tag-to-descriptor extraction (`Desc`, `GetInfo`, `getBoolColumn`,
    `getOriginType`, `GetTableName` in util/table.go). */
module Schema {
  import opened Values

  /** One column descriptor, field for field as the source declares it. */
  datatype Desc = Desc(
    name: string,
    typ: string,
    pk: bool,
    defaulty: string,
    unique: bool,
    index: bool,
    nullable: bool,
    comment: string,
    exclude: bool)

  /** `getBoolColumn`: a boolean tag is set only by the exact text "true". */
  function BoolColumn(param: string): bool
  {
    if param == "true" then true else false
  }

  /** Only the exact lower-case text "true" sets a boolean tag; any other
      spelling, and an absent tag, reads as false. */
  lemma BoolColumnOnlyTrue(param: string)
    ensures BoolColumn(param) <==> param == "true"
    ensures !BoolColumn("") && !BoolColumn("True") && !BoolColumn("1")
  {
  }

  /** `getOriginType`: the SQL type used when no `type` tag is given. */
  function OriginType(origin: string): (t: string)
    ensures t != ""
    ensures t == "varchar(32)" <==> origin == "string"
    ensures t == "int(11)" <==> origin in ["int", "uint32", "uint64", "int32", "int64"]
    ensures t in ["varchar(32)", "int(11)", "varchar(64)"]
  {
    match origin
    case "string" => "varchar(32)"
    case "int" => "int(11)"
    case "uint32" => "int(11)"
    case "uint64" => "int(11)"
    case "int32" => "int(11)"
    case "int64" => "int(11)"
    case _ => "varchar(64)"
  }

  predicate Excluded(f: Field)
  {
    BoolColumn(Tag(f, "exclude"))
  }

  /** GetInfo splices a field's own descriptors in place of the field
      exactly when the field holds a struct and is not excluded. */
  predicate Spliced(f: Field)
  {
    !Excluded(f) && f.value.Struct?
  }

  /** The descriptor GetInfo builds for one field that it does not splice. */
  function MakeDesc(f: Field): Desc
  {
    var custom := Tag(f, "type");
    Desc(
      name := f.name,
      typ := if custom != "" then custom else OriginType(f.typeName),
      pk := BoolColumn(Tag(f, "pk")),
      defaulty := Tag(f, "default"),
      unique := BoolColumn(Tag(f, "unique")),
      index := BoolColumn(Tag(f, "index")),
      nullable := BoolColumn(Tag(f, "null")),
      comment := Tag(f, "comment"),
      exclude := Excluded(f))
  }

  /** What one field contributes to GetInfo's list. */
  function FieldInfo(f: Field): seq<Desc>
    decreases f
  {
    if Spliced(f) then Info(f.value) else [MakeDesc(f)]
  }

  /** The descriptors of the first `n` fields of struct `v`, nested
      non-excluded structs flattened depth-first. */
  function InfoPrefix(v: Value, n: nat): seq<Desc>
    requires v.Struct? && n <= |v.fields|
    decreases v, n
  {
    if n == 0 then []
    else
      assert v.fields[n - 1] in v.fields;
      InfoPrefix(v, n - 1) + FieldInfo(v.fields[n - 1])
  }

  function Info(v: Value): seq<Desc>
    requires v.Struct?
    decreases v, |v.fields| + 1
  {
    InfoPrefix(v, |v.fields|)
  }

  /** `GetTableName`: the lower-cased type name of a struct, ErrTableName otherwise. */
  function GetTableName(v: Value): (r: Result<string>)
    ensures r.Err? <==> !v.Struct?
    ensures r.Err? ==> r.error == ErrTableName
    ensures r.Ok? ==> r.value == Lower(v.typeName)
  {
    if !v.Struct? then Err(ErrTableName) else Ok(Lower(v.typeName))
  }

  /** `GetInfo`: the descriptors of struct `st` in declaration order, nested
      non-excluded structs replaced by their own descriptors, and the
      lower-cased type name as table name; ErrNotStruct for any other value. */
  method GetInfo(st: Value) returns (cls: seq<Desc>, tableName: string, err: Option<Error>)
    ensures err.None? <==> st.Struct?
    ensures st.Struct? ==> cls == Info(st) && GetTableName(st) == Ok(tableName)
    ensures !st.Struct? ==> cls == [] && tableName == "" && err == Some(ErrNotStruct)
    decreases st
  {
    if !st.Struct? {
      return [], "", Some(ErrNotStruct);
    }
    tableName := Lower(st.typeName);
    cls := [];
    for i := 0 to |st.fields|
      invariant cls == InfoPrefix(st, i)
    {
      var field := st.fields[i];
      if !BoolColumn(Tag(field, "exclude")) && field.value.Struct? {
        assert field in st.fields;
        var desc, _, _ := GetInfo(field.value);
        cls := cls + desc;
        continue;
      }
      var temp := Desc(
        name := field.name,
        typ := OriginType(field.typeName),
        pk := BoolColumn(Tag(field, "pk")),
        defaulty := Tag(field, "default"),
        unique := BoolColumn(Tag(field, "unique")),
        index := BoolColumn(Tag(field, "index")),
        nullable := BoolColumn(Tag(field, "null")),
        comment := Tag(field, "comment"),
        exclude := BoolColumn(Tag(field, "exclude")));
      var customType := Tag(field, "type");
      if customType != "" {
        temp := temp.(typ := customType);
      }
      cls := cls + [temp];
    }
    err := None;
  }

  /** The descriptor of an unspliced field: boolean tags are true only for
      the exact text "true", a non-empty `type` tag wins over the inferred
      type, `default` and `comment` are copied verbatim. */
  lemma MakeDescFromTags(f: Field)
    ensures MakeDesc(f).name == f.name
    ensures MakeDesc(f).pk <==> Tag(f, "pk") == "true"
    ensures MakeDesc(f).unique <==> Tag(f, "unique") == "true"
    ensures MakeDesc(f).index <==> Tag(f, "index") == "true"
    ensures MakeDesc(f).nullable <==> Tag(f, "null") == "true"
    ensures MakeDesc(f).exclude <==> Tag(f, "exclude") == "true"
    ensures Tag(f, "type") != "" ==> MakeDesc(f).typ == Tag(f, "type")
    ensures Tag(f, "type") == "" && f.typeName == "string" ==> MakeDesc(f).typ == "varchar(32)"
    ensures (Tag(f, "type") == "" && f.typeName in ["int", "uint32", "uint64", "int32", "int64"])
              ==> MakeDesc(f).typ == "int(11)"
    ensures (Tag(f, "type") == "" && f.typeName !in ["string", "int", "uint32", "uint64", "int32", "int64"])
              ==> MakeDesc(f).typ == "varchar(64)"
    ensures MakeDesc(f).defaulty == Tag(f, "default") && MakeDesc(f).comment == Tag(f, "comment")
  {
  }

  /** Every descriptor GetInfo produces has a non-empty type, so getCL's
      ErrNoType never fires on descriptors that come from GetInfo. */
  lemma {:induction false} InfoPrefixTyped(v: Value, n: nat)
    requires v.Struct? && n <= |v.fields|
    ensures forall d :: d in InfoPrefix(v, n) ==> d.typ != ""
    decreases v, n
  {
    if n > 0 {
      var f := v.fields[n - 1];
      assert f in v.fields;
      InfoPrefixTyped(v, n - 1);
      if Spliced(f) {
        InfoPrefixTyped(f.value, |f.value.fields|);
        assert FieldInfo(f) == InfoPrefix(f.value, |f.value.fields|);
      }
    }
  }

  lemma InfoTyped(v: Value)
    requires v.Struct?
    ensures forall d :: d in Info(v) ==> d.typ != ""
  {
    InfoPrefixTyped(v, |v.fields|);
  }

  /** InfoPrefix only looks at the first `n` fields. */
  lemma {:induction false} InfoPrefixLocal(v: Value, w: Value, n: nat)
    requires v.Struct? && w.Struct? && n <= |v.fields| && n <= |w.fields|
    requires v.fields[..n] == w.fields[..n]
    ensures InfoPrefix(v, n) == InfoPrefix(w, n)
  {
    if n > 0 {
      assert v.fields[..n - 1] == w.fields[..n - 1];
      assert v.fields[n - 1] == v.fields[..n][n - 1] == w.fields[n - 1];
      InfoPrefixLocal(v, w, n - 1);
    }
  }

  lemma {:induction false} InfoPrefixAppend(t: string, a: seq<Field>, b: seq<Field>, k: nat)
    requires k <= |b|
    ensures InfoPrefix(Struct(t, a + b), |a| + k) == Info(Struct(t, a)) + InfoPrefix(Struct(t, b), k)
  {
    if k == 0 {
      assert (a + b)[..|a|] == a == Struct(t, a).fields[..|a|];
      InfoPrefixLocal(Struct(t, a + b), Struct(t, a), |a|);
    } else {
      InfoPrefixAppend(t, a, b, k - 1);
      var f := b[k - 1];
      assert (a + b)[|a| + k - 1] == f;
      calc {
        InfoPrefix(Struct(t, a + b), |a| + k);
        InfoPrefix(Struct(t, a + b), |a| + k - 1) + FieldInfo(f);
        Info(Struct(t, a)) + InfoPrefix(Struct(t, b), k - 1) + FieldInfo(f);
        Info(Struct(t, a)) + InfoPrefix(Struct(t, b), k);
      }
    }
  }

  /** Declaration order is kept: the descriptors of a concatenation of
      fields are the concatenation of their descriptors. */
  lemma InfoAppend(t: string, a: seq<Field>, b: seq<Field>)
    ensures Info(Struct(t, a + b)) == Info(Struct(t, a)) + Info(Struct(t, b))
  {
    InfoPrefixAppend(t, a, b, |b|);
  }

  /** A non-excluded nested struct field is replaced, at its own position,
      by the descriptors of the nested struct; an excluded one (or a scalar)
      stays as exactly one descriptor, flagged as the tag says. */
  lemma InfoSplice(t: string, before: seq<Field>, f: Field, after: seq<Field>)
    ensures Spliced(f) ==>
      Info(Struct(t, before + [f] + after)) == Info(Struct(t, before)) + Info(f.value) + Info(Struct(t, after))
    ensures !Spliced(f) ==>
      Info(Struct(t, before + [f] + after)) == Info(Struct(t, before)) + [MakeDesc(f)] + Info(Struct(t, after))
    ensures !Spliced(f) ==> (MakeDesc(f).exclude <==> Excluded(f))
  {
    InfoAppend(t, before + [f], after);
    InfoAppend(t, before, [f]);
    assert Info(Struct(t, [f])) == InfoPrefix(Struct(t, [f]), 0) + FieldInfo(f);
  }

  /** Two values with the same shape: the same fields with the same names,
      type names and tags, and structs in the same places; scalar contents
      may differ. */
  predicate SameSchema(v: Value, w: Value)
    decreases v
  {
    match v
    case Scalar(_) => w.Scalar?
    case Struct(_, fs) =>
      && w.Struct?
      && |fs| == |w.fields|
      && forall i :: 0 <= i < |fs| ==>
          && fs[i].name == w.fields[i].name
          && fs[i].typeName == w.fields[i].typeName
          && fs[i].tags == w.fields[i].tags
          && SameSchema(fs[i].value, w.fields[i].value)
  }

  lemma {:induction false} InfoPrefixSchemaOnly(v: Value, w: Value, n: nat)
    requires v.Struct? && SameSchema(v, w) && n <= |v.fields|
    ensures InfoPrefix(v, n) == InfoPrefix(w, n)
    decreases v, n
  {
    if n > 0 {
      var f, g := v.fields[n - 1], w.fields[n - 1];
      assert f in v.fields;
      assert SameSchema(f.value, g.value);
      InfoPrefixSchemaOnly(v, w, n - 1);
      assert Tag(f, "exclude") == Tag(g, "exclude");
      if Spliced(f) {
        InfoPrefixSchemaOnly(f.value, g.value, |f.value.fields|);
        assert FieldInfo(f) == Info(f.value) == Info(g.value) == FieldInfo(g);
      } else {
        assert MakeDesc(f) == MakeDesc(g);
      }
    }
  }

  /** Schema extraction does not depend on the instance's state: values
      with the same shape (for example a zero-valued and a populated
      instance of one type) yield the same descriptors. */
  lemma InfoSchemaOnly(v: Value, w: Value)
    requires v.Struct? && SameSchema(v, w)
    ensures Info(v) == Info(w)
  {
    InfoPrefixSchemaOnly(v, w, |v.fields|);
  }
}
