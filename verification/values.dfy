/** Values: the explicit stand-in for Go reflection.

    A struct value is its type name plus its fields in declaration order;
    each field carries its name, its static type name, its struct tag (as a
    key/value map) and its current value, which is a scalar or a nested
    struct. The error sentinels of util/table.go live here too. */
module Values {

  datatype Option<T> = None | Some(value: T)

  datatype Result<T> = Ok(value: T) | Err(error: Error)

  /** The four error sentinels of the package. */
  datatype Error = ErrNotStruct | ErrNoType | ErrTableName | ErrKeyNotFound

  /** A non-struct field value, tagged with its reflect kind. `Other` stands
      for any other comparable kind (pointer, float, ...); it records only
      whether it equals its type's zero value. */
  datatype Scalar =
    | Int(i: int)
    | Int32(i32: int)
    | Int64(i64: int)
    | Uint32(u32: nat)
    | Uint64(u64: nat)
    | Str(s: string)
    | Bool(b: bool)
    | Other(zero: bool)

  datatype Value =
    | Scalar(scalar: Scalar)
    | Struct(typeName: string, fields: seq<Field>)

  datatype Field = Field(name: string, typeName: string, tags: map<string, string>, value: Value)

  /** `reflect.StructTag.Get`: the tag's value, or "" when the key is absent. */
  function Tag(f: Field, key: string): string
  {
    if key in f.tags then f.tags[key] else ""
  }

  /** `IsZero` restricted to scalars: the value equals its kind's zero value. */
  predicate IsZero(x: Scalar)
  {
    match x
    case Int(n) => n == 0
    case Int32(n) => n == 0
    case Int64(n) => n == 0
    case Uint32(n) => n == 0
    case Uint64(n) => n == 0
    case Str(s) => s == ""
    case Bool(b) => !b
    case Other(z) => z
  }

  /** `reflect.Zero(reflect.TypeOf(x))`: the zero value of `x`'s own kind. */
  function Zero(x: Scalar): Scalar
  {
    match x
    case Int(_) => Int(0)
    case Int32(_) => Int32(0)
    case Int64(_) => Int64(0)
    case Uint32(_) => Uint32(0)
    case Uint64(_) => Uint64(0)
    case Str(_) => Str("")
    case Bool(_) => Bool(false)
    case Other(_) => Other(true)
  }

  /** IsZero is the comparison of `x` with the zero value of its kind, and
      that zero value is itself zero and of the same kind. */
  lemma IsZeroIsZeroComparison(x: Scalar)
    ensures IsZero(x) <==> x == Zero(x)
    ensures IsZero(Zero(x)) && Zero(Zero(x)) == Zero(x)
  {
  }

  predicate IsUpper(c: char)
  {
    'A' <= c <= 'Z'
  }

  function LowerChar(c: char): char
  {
    if IsUpper(c) then (c as int + 32) as char else c
  }

  /** `strings.ToLower`, restricted to ASCII letters. */
  function Lower(s: string): (r: string)
    ensures |r| == |s|
  {
    if s == [] then [] else [LowerChar(s[0])] + Lower(s[1..])
  }

  /** Concatenation regrouped; stated once so that string-building proofs
      need not rediscover it by extensionality. */
  lemma Assoc<T>(x: seq<T>, y: seq<T>, z: seq<T>)
    ensures x + y + z == x + (y + z)
  {
  }

  /** Lower-casing leaves no upper-case letter behind and is idempotent. */
  lemma {:induction false} LowerIsLower(s: string)
    ensures forall i :: 0 <= i < |Lower(s)| ==> !IsUpper(Lower(s)[i])
    ensures Lower(Lower(s)) == Lower(s)
  {
    if s != [] {
      LowerIsLower(s[1..]);
      var r := Lower(s);
      assert r[1..] == Lower(s[1..]);
    }
  }
}
