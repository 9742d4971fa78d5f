/** Rows: partial-row extraction (`GetFields`, `GetValues` in util/table.go).

    Both functions walk a populated struct in declaration order, recurse
    into every field that holds a struct, and keep a scalar field unless it
    is tagged `exclude:"true"` or holds its zero value. `Selected` is that
    shared walk; GetFields keeps the lower-cased names of the selected
    fields, GetValues keeps the values whose kind it supports. */
module Rows {
  import opened Values
  import opened Schema

  /** A scalar field that both walks leave out. */
  predicate Skipped(f: Field)
    requires f.value.Scalar?
  {
    Excluded(f) || IsZero(f.value.scalar)
  }

  /** The kinds GetValues passes through: int, int64, uint64 and string. */
  predicate Supported(x: Scalar)
  {
    x.Int? || x.Int64? || x.Uint64? || x.Str?
  }

  /** The fields one field of a walked struct contributes. */
  function FieldSelected(f: Field): seq<Field>
    decreases f
  {
    if f.value.Struct? then Selected(f.value)
    else if Skipped(f) then []
    else [f]
  }

  function SelectedPrefix(v: Value, n: nat): seq<Field>
    requires v.Struct? && n <= |v.fields|
    decreases v, n
  {
    if n == 0 then []
    else
      assert v.fields[n - 1] in v.fields;
      SelectedPrefix(v, n - 1) + FieldSelected(v.fields[n - 1])
  }

  /** The scalar fields both walks keep, in visiting order. */
  function Selected(v: Value): seq<Field>
    requires v.Struct?
    decreases v, |v.fields| + 1
  {
    SelectedPrefix(v, |v.fields|)
  }

  function Names(fs: seq<Field>): seq<string>
  {
    seq(|fs|, i requires 0 <= i < |fs| => Lower(fs[i].name))
  }

  function SupportedValues(fs: seq<Field>): seq<Scalar>
  {
    if fs == [] then []
    else
      var f := fs[|fs| - 1];
      SupportedValues(fs[..|fs| - 1]) + (if f.value.Scalar? && Supported(f.value.scalar) then [f.value.scalar] else [])
  }

  /** What GetFields returns. */
  function FieldsOf(v: Value): seq<string>
    requires v.Struct?
  {
    Names(Selected(v))
  }

  /** What GetValues returns. */
  function ValuesOf(v: Value): seq<Scalar>
    requires v.Struct?
  {
    SupportedValues(Selected(v))
  }

  lemma SelectedSnoc(v: Value, i: nat)
    requires v.Struct? && i < |v.fields|
    ensures SelectedPrefix(v, i + 1) == SelectedPrefix(v, i) + FieldSelected(v.fields[i])
  {
  }

  lemma NamesAppend(a: seq<Field>, b: seq<Field>)
    ensures Names(a + b) == Names(a) + Names(b)
  {
  }

  lemma {:induction false} SupportedValuesAppend(a: seq<Field>, b: seq<Field>)
    ensures SupportedValues(a + b) == SupportedValues(a) + SupportedValues(b)
  {
    if b == [] {
      assert a + b == a;
    } else {
      SupportedValuesAppend(a, b[..|b| - 1]);
      assert (a + b)[..|a + b| - 1] == a + b[..|b| - 1];
    }
  }

  /** `GetFields`: the lower-cased names of the set, non-excluded scalar
      fields, nested structs flattened in place. */
  method GetFields(v: Value) returns (out: seq<string>)
    requires v.Struct?
    ensures out == FieldsOf(v)
    decreases v
  {
    out := [];
    for i := 0 to |v.fields|
      invariant out == Names(SelectedPrefix(v, i))
    {
      SelectedSnoc(v, i);
      var field := v.fields[i];
      NamesAppend(SelectedPrefix(v, i), FieldSelected(field));
      if field.value.Struct? {
        assert field in v.fields;
        var fields := GetFields(field.value);
        out := out + fields;
        continue;
      }
      if BoolColumn(Tag(field, "exclude")) || IsZero(field.value.scalar) {
        continue;
      }
      out := out + [Lower(field.name)];
    }
  }

  /** `GetValues`: the values of the same fields, in the same order, except
      those whose kind is not int, int64, uint64 or string. */
  method GetValues(v: Value) returns (out: seq<Scalar>)
    requires v.Struct?
    ensures out == ValuesOf(v)
    decreases v
  {
    out := [];
    for i := 0 to |v.fields|
      invariant out == SupportedValues(SelectedPrefix(v, i))
    {
      SelectedSnoc(v, i);
      var field := v.fields[i];
      SupportedValuesAppend(SelectedPrefix(v, i), FieldSelected(field));
      if field.value.Struct? {
        assert field in v.fields;
        var values := GetValues(field.value);
        out := out + values;
        continue;
      }
      if BoolColumn(Tag(field, "exclude")) || IsZero(field.value.scalar) {
        continue;
      }
      assert SupportedValues([field]) == if Supported(field.value.scalar) then [field.value.scalar] else [];
      match field.value.scalar {
        case Int(_) => out := out + [field.value.scalar];
        case Int64(_) => out := out + [field.value.scalar];
        case Uint64(_) => out := out + [field.value.scalar];
        case Str(_) => out := out + [field.value.scalar];
        case _ => continue;
      }
    }
  }

  /** SelectedPrefix only looks at the first `n` fields. */
  lemma {:induction false} SelectedPrefixLocal(v: Value, w: Value, n: nat)
    requires v.Struct? && w.Struct? && n <= |v.fields| && n <= |w.fields|
    requires v.fields[..n] == w.fields[..n]
    ensures SelectedPrefix(v, n) == SelectedPrefix(w, n)
  {
    if n > 0 {
      assert v.fields[..n - 1] == w.fields[..n - 1];
      assert v.fields[n - 1] == v.fields[..n][n - 1] == w.fields[n - 1];
      SelectedPrefixLocal(v, w, n - 1);
    }
  }

  lemma {:induction false} SelectedPrefixAppend(t: string, a: seq<Field>, b: seq<Field>, k: nat)
    requires k <= |b|
    ensures SelectedPrefix(Struct(t, a + b), |a| + k) == Selected(Struct(t, a)) + SelectedPrefix(Struct(t, b), k)
  {
    if k == 0 {
      assert (a + b)[..|a|] == a == Struct(t, a).fields[..|a|];
      SelectedPrefixLocal(Struct(t, a + b), Struct(t, a), |a|);
    } else {
      SelectedPrefixAppend(t, a, b, k - 1);
      var f := b[k - 1];
      assert (a + b)[|a| + k - 1] == f;
      calc {
        SelectedPrefix(Struct(t, a + b), |a| + k);
        SelectedPrefix(Struct(t, a + b), |a| + k - 1) + FieldSelected(f);
        Selected(Struct(t, a)) + SelectedPrefix(Struct(t, b), k - 1) + FieldSelected(f);
        Selected(Struct(t, a)) + SelectedPrefix(Struct(t, b), k);
      }
    }
  }

  /** Both walks keep declaration order: the fields kept from `a + b` are
      those kept from `a` followed by those kept from `b`. */
  lemma SelectedAppend(t: string, a: seq<Field>, b: seq<Field>)
    ensures Selected(Struct(t, a + b)) == Selected(Struct(t, a)) + Selected(Struct(t, b))
  {
    SelectedPrefixAppend(t, a, b, |b|);
  }

  /** A field holding a struct is replaced, at its own position, by the
      fields kept from that struct, whatever its `exclude` tag says; a
      scalar field stays exactly when it is neither excluded nor zero. */
  lemma SelectedSplice(t: string, before: seq<Field>, f: Field, after: seq<Field>)
    ensures f.value.Struct? ==>
      Selected(Struct(t, before + [f] + after)) == Selected(Struct(t, before)) + Selected(f.value) + Selected(Struct(t, after))
    ensures f.value.Scalar? ==>
      Selected(Struct(t, before + [f] + after))
        == Selected(Struct(t, before)) + (if Skipped(f) then [] else [f]) + Selected(Struct(t, after))
  {
    SelectedAppend(t, before + [f], after);
    SelectedAppend(t, before, [f]);
    assert Selected(Struct(t, [f])) == SelectedPrefix(Struct(t, [f]), 0) + FieldSelected(f);
  }

  /** The converse of SelectedKept for direct fields: a scalar field that
      is neither excluded nor zero is kept. */
  lemma SelectedKeepsSetFields(v: Value, i: nat)
    requires v.Struct? && i < |v.fields|
    requires v.fields[i].value.Scalar? && !Skipped(v.fields[i])
    ensures v.fields[i] in Selected(v)
  {
    var f := v.fields[i];
    assert v.fields == v.fields[..i] + [f] + v.fields[i + 1..];
    SelectedSplice(v.typeName, v.fields[..i], f, v.fields[i + 1..]);
    assert Selected(v) == Selected(Struct(v.typeName, v.fields[..i])) + [f] + Selected(Struct(v.typeName, v.fields[i + 1..]));
  }

  /** Every field either walk keeps is a non-excluded scalar holding a
      non-zero value. */
  lemma {:induction false} SelectedPrefixKept(v: Value, n: nat)
    requires v.Struct? && n <= |v.fields|
    ensures forall f :: f in SelectedPrefix(v, n) ==>
      f.value.Scalar? && !Excluded(f) && !IsZero(f.value.scalar)
    decreases v, n
  {
    if n > 0 {
      var f := v.fields[n - 1];
      assert f in v.fields;
      SelectedPrefixKept(v, n - 1);
      if f.value.Struct? {
        SelectedPrefixKept(f.value, |f.value.fields|);
        assert FieldSelected(f) == SelectedPrefix(f.value, |f.value.fields|);
      }
    }
  }

  lemma SelectedKept(v: Value)
    requires v.Struct?
    ensures forall f :: f in Selected(v) ==>
      f.value.Scalar? && !Excluded(f) && !IsZero(f.value.scalar)
  {
    SelectedPrefixKept(v, |v.fields|);
  }

  /** Every field holds a scalar of a kind GetValues passes through. */
  predicate AllSupported(fs: seq<Field>)
  {
    forall i :: 0 <= i < |fs| ==> fs[i].value.Scalar? && Supported(fs[i].value.scalar)
  }

  lemma {:induction false} SupportedValuesAll(fs: seq<Field>)
    requires AllSupported(fs)
    ensures |SupportedValues(fs)| == |fs|
    ensures forall i :: 0 <= i < |fs| ==> SupportedValues(fs)[i] == fs[i].value.scalar
  {
    if fs != [] {
      SupportedValuesAll(fs[..|fs| - 1]);
    }
  }

  lemma {:induction false} SupportedValuesShorter(fs: seq<Field>, k: nat)
    requires k < |fs| && !(fs[k].value.Scalar? && Supported(fs[k].value.scalar))
    ensures |SupportedValues(fs)| < |fs|
  {
    SupportedValuesAtMost(fs[..|fs| - 1]);
    if k < |fs| - 1 {
      SupportedValuesShorter(fs[..|fs| - 1], k);
    }
  }

  lemma {:induction false} SupportedValuesAtMost(fs: seq<Field>)
    ensures |SupportedValues(fs)| <= |fs|
  {
    if fs != [] {
      SupportedValuesAtMost(fs[..|fs| - 1]);
    }
  }

  /** GetFields and GetValues agree in length exactly when every kept field
      has a supported kind, and then position i of one describes position i
      of the other. */
  lemma FieldsValuesAligned(v: Value)
    requires v.Struct?
    ensures |FieldsOf(v)| == |ValuesOf(v)| <==> AllSupported(Selected(v))
    ensures AllSupported(Selected(v)) ==>
      forall i :: 0 <= i < |FieldsOf(v)| ==>
        && FieldsOf(v)[i] == Lower(Selected(v)[i].name)
        && Scalar(ValuesOf(v)[i]) == Selected(v)[i].value
  {
    var fs := Selected(v);
    SelectedKept(v);
    if AllSupported(fs) {
      SupportedValuesAll(fs);
    } else {
      var k :| 0 <= k < |fs| && !(fs[k].value.Scalar? && Supported(fs[k].value.scalar));
      SupportedValuesShorter(fs, k);
    }
  }

  /** No struct field anywhere in `v` is tagged exclude. */
  predicate NoExcludedStruct(v: Value)
    decreases v
  {
    v.Struct? ==>
      forall i :: 0 <= i < |v.fields| ==>
        (v.fields[i].value.Struct? ==> !Excluded(v.fields[i]) && NoExcludedStruct(v.fields[i].value))
  }

  lemma {:induction false} SelectedPrefixAreColumns(v: Value, n: nat)
    requires v.Struct? && n <= |v.fields| && NoExcludedStruct(v)
    ensures forall f :: f in SelectedPrefix(v, n) ==> MakeDesc(f) in InfoPrefix(v, n) && !MakeDesc(f).exclude
    decreases v, n
  {
    if n > 0 {
      var f := v.fields[n - 1];
      assert f in v.fields;
      SelectedPrefixAreColumns(v, n - 1);
      if f.value.Struct? {
        SelectedPrefixAreColumns(f.value, |f.value.fields|);
        assert FieldSelected(f) == SelectedPrefix(f.value, |f.value.fields|);
        assert FieldInfo(f) == InfoPrefix(f.value, |f.value.fields|);
      }
    }
  }

  /** When no nested struct is tagged exclude, every name GetFields returns
      is a column the create-table statement declares: the field's
      descriptor is in GetInfo's list and is not excluded. */
  lemma SelectedAreColumns(v: Value)
    requires v.Struct? && NoExcludedStruct(v)
    ensures forall f :: f in Selected(v) ==> MakeDesc(f) in Info(v) && !MakeDesc(f).exclude
  {
    SelectedPrefixAreColumns(v, |v.fields|);
  }

  /** Without that premise the correspondence fails: GetInfo keeps an
      excluded nested struct as one excluded descriptor, but GetFields and
      GetValues still walk into it. */
  lemma ExcludedStructStillWalked()
    ensures var inner := Struct("Inner", [Field("Age", "int", map[], Scalar(Int(3)))]);
      var outer := Struct("Outer", [Field("In", "Inner", map["exclude" := "true"], inner)]);
      && FieldsOf(outer) == ["age"]
      && ValuesOf(outer) == [Int(3)]
      && |Info(outer)| == 1 && Info(outer)[0].exclude
  {
    var age := Field("Age", "int", map[], Scalar(Int(3)));
    var inner := Struct("Inner", [age]);
    var f := Field("In", "Inner", map["exclude" := "true"], inner);
    var outer := Struct("Outer", [f]);
    assert Tag(f, "exclude") == "true";
    assert Tag(age, "exclude") == "";
    assert FieldSelected(age) == [age];
    assert Selected(inner) == SelectedPrefix(inner, 0) + FieldSelected(age);
    assert Selected(outer) == SelectedPrefix(outer, 0) + FieldSelected(f) == [age];
    assert Lower("Age") == "age";
    assert Info(outer) == InfoPrefix(outer, 0) + FieldInfo(f) == [MakeDesc(f)];
    assert SupportedValues([age]) == SupportedValues([]) + [Int(3)];
  }
}
