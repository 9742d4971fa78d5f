# nt table model

A Dafny model of `util/table.go` from the Go package `nt`. The package derives a MySQL
`create table` statement from a Go struct type whose fields carry tags (`pk`, `unique`,
`index`, `type`, `null`, `default`, `comment`, `exclude`). From a populated instance it
also derives the lower-cased names and the values of the fields that are set. The package
reads structs through Go reflection. Here a struct is an explicit value instead:
`Values.Value` is either a scalar or a struct with a type name and an ordered list of fields.
Each field has a name, a static type name, a tag map and a value.

Modules, one file each:

- `values.dfy` (`Values`): the value model, the four error sentinels, tag lookup,
  `IsZero` on scalars and ASCII lower-casing.
- `schema.dfy` (`Schema`): the `Desc` column descriptor, `getBoolColumn`, `getOriginType`,
  `GetTableName` and `GetInfo`.
  - `GetInfo` is a loop method proved equal to the recursive function `Info`.
  - Lemmas about `Info`: order, splicing of nested structs, every type non-empty, and
    dependence on the struct's shape only.
- `ddl.dfy` (`Ddl`): `getCL` (`ColumnClause`) and `GenerateSQL`.
  - A clause is specified as a head, a list of constraint tokens with their exact texts, a
    comma and an optional index clause.
  - `GenerateSQL` is proved equal to `CreateTable`, which joins the clauses and cuts the
    last character.
- `rows.dfy` (`Rows`): `GetFields` and `GetValues`, both proved against one shared walk,
  `Selected`.
- `table.dfy` (`Table`): `GetSQL` and `GetFieldValue`, plus properties of the whole
  statement.
- `example.dfy` (`Example`): the `Abcd` struct of `main.go` and the exact statement the
  model assigns to `Abcd{}`.

Excluded nested structs are treated differently by the two walks:

- `GetInfo` tests the `exclude` tag before the struct kind (util/table.go:157). An excluded
  nested struct therefore becomes one excluded descriptor and adds no column.
- `GetFields` and `GetValues` test the struct kind first (util/table.go:214, 238), so they
  walk into a nested struct whatever its `exclude` tag says.
- `Rows.ExcludedStructStillWalked` shows this on a concrete struct.
- `Rows.SelectedAreColumns` proves that when no nested struct is excluded, every field
  `GetFields` returns has a non-excluded descriptor in `GetInfo`'s list.

## Model

| member | source | states |
|---|---|---|
| Schema.OriginType | util/table.go:196-205 | The inferred type is never empty and is one of three. It is `varchar(32)` exactly for `string` and `int(11)` exactly for the five integer type names; anything else gets `varchar(64)`. |
| Schema.MakeDescFromTags | util/table.go:166-180 | In a descriptor, each boolean flag is true exactly when its tag is the text `true` (getBoolColumn). A non-empty `type` tag overrides the inferred type, which otherwise follows getOriginType. `default` and `comment` are copied verbatim. |
| Schema.GetTableName | util/table.go:267-274 | A non-struct gives ErrTableName; a struct gives its lower-cased type name. |
| Schema.GetInfo | util/table.go:139-185 | A non-struct gives ErrNotStruct with no descriptors and an empty name. A struct gives the descriptors `Info` and the same table name GetTableName gives. |
| Schema.InfoTyped | util/table.go:166-180 | Every descriptor GetInfo produces has a non-empty type. |
| Schema.InfoAppend | util/table.go:152-183 | Declaration order is kept: the descriptors of fields `a + b` are those of `a` followed by those of `b`. |
| Schema.InfoSplice | util/table.go:156-164 | A non-excluded struct field is replaced in place by the nested struct's descriptors. Any other field stays as exactly one descriptor, flagged excluded exactly when its tag says so. |
| Schema.InfoSchemaOnly | util/table.go:152-183 | Two values of the same shape (names, type names, tags, where structs sit) have the same descriptors, whatever their scalar contents. |
| Values.IsZeroIsZeroComparison | util/table.go:285-287 | IsZero holds exactly when the scalar equals the zero value of its own kind: 0 for the integer kinds, `""` for strings, `false` for booleans. `Other(z)` stands for every other comparable kind and is zero exactly when `z`. That zero value is itself zero. |
| Schema.BoolColumnOnlyTrue | util/table.go:188-193 | getBoolColumn is true exactly for the text `true`; the empty string, `True` and `1` all read as false. |
| Values.LowerIsLower | util/table.go:149 | A lower-cased name has no upper-case letter, and lower-casing it again changes nothing. |
| Ddl.KeyTextIs | util/table.go:104-111 | The key part is ` primary key` for a primary key. Otherwise it is ` not null` unless `null` is set, and empty if it is. |
| Ddl.DefaultTextIs | util/table.go:113-119 | The default part is empty for no default, ` auto_increment` for `auto`, and otherwise ` default "v"`. |
| Ddl.UniqueTextIs | util/table.go:121-123 | The unique part is ` unique` exactly when `unique` is set. |
| Ddl.CommentTextIs | util/table.go:125-127 | The comment part is ` comment "t"` for a non-empty comment and is empty otherwise. |
| Ddl.ColumnClause | util/table.go:91-136 | Fails with ErrNoType and the empty string exactly when the type is empty. Otherwise it returns the clause `Clause`: head, constraint texts, comma, index clause. |
| Ddl.PrimaryKeyOverridesNotNull | util/table.go:104-111 | `primary key` is emitted exactly for `pk`; `not null` exactly when neither `pk` nor `null` is set. |
| Ddl.DefaultChoice | util/table.go:113-127 | `auto_increment` appears exactly for the default `auto`. A quoted default appears exactly for any other non-empty default, with that text. `unique` appears exactly when set. A comment appears exactly when non-empty, with that text. |
| Ddl.ConstraintsOrdered | util/table.go:104-127 | Constraints appear in a fixed order (key/not-null, default, unique, comment), each at most once. |
| Ddl.ClauseShape | util/table.go:97-133 | A typed clause starts with the backquoted lower-cased name and the type. The column part ends in a comma, followed by the index clause when `index` is set. The clause always ends with a comma. |
| Ddl.GenerateSQL | util/table.go:60-88 | Returns `CreateTable`: empty for no descriptors or no table name. Otherwise the opening and the name, then the clauses of the non-excluded, typed descriptors in order, with the last character cut and the engine clause appended. |
| Ddl.CreateTableEmpty | util/table.go:61-63 | The statement is empty exactly when there are no descriptors or no table name. |
| Ddl.ContributionShape | util/table.go:73-82 | A descriptor adds text exactly when it is neither excluded nor untyped, and that text ends with a comma. |
| Ddl.ColumnsEndWithComma | util/table.go:71-83 | A non-empty column list ends with a comma. |
| Ddl.ColumnsEmpty | util/table.go:71-83 | The column list is empty exactly when every descriptor is excluded or untyped. |
| Ddl.ColumnsAppend | util/table.go:71-83 | Clauses appear in descriptor order: the column list of `a + b` is that of `a` followed by that of `b`. |
| Ddl.CreateTableWithColumns | util/table.go:85 | When some column is emitted, the cut character is the final comma and the clauses appear otherwise verbatim between `(` and `)engine=innodb charset=utf8;`. |
| Ddl.CreateTableNoColumns | util/table.go:85 | When descriptors exist but none is emitted, the cut character is the opening parenthesis: the result is `create table if not exists t)engine=innodb charset=utf8;`. |
| Rows.GetFields | util/table.go:208-229 | Returns the lower-cased names of the fields `Selected` keeps, with nested structs flattened in place. |
| Rows.GetValues | util/table.go:232-264 | Returns the values of the same fields, in the same order, dropping any value that is not int, int64, uint64 or string. |
| Rows.SelectedKept | util/table.go:220-223 | Every kept field is a scalar that is not tagged exclude and does not hold its zero value (IsZero). |
| Rows.SelectedAppend | util/table.go:211-227 | Declaration order is kept: the fields kept from `a + b` are those kept from `a` followed by those kept from `b`. |
| Rows.SelectedSplice | util/table.go:214-226 | A field holding a struct is replaced in place by the fields kept from that struct, whether or not it is tagged exclude. A scalar field stays in place exactly when it is neither excluded nor zero. |
| Rows.SelectedKeepsSetFields | util/table.go:220-226 | The converse of SelectedKept for direct fields: a scalar field that is neither excluded nor zero is kept. |
| Rows.FieldsValuesAligned | util/table.go:249-261 | The two lists have equal length exactly when every kept field has a supported kind. In that case position i of each describes the same field. |
| Rows.SelectedAreColumns | util/table.go:214-226 | When no nested struct is excluded, every kept field's descriptor is in GetInfo's list and is not excluded. |
| Rows.ExcludedStructStillWalked | util/table.go:214-218 | An excluded nested struct holding `Age = 3` becomes one excluded descriptor. GetFields still returns `["age"]` and GetValues still returns `[3]`. |
| Table.GetSQL | util/table.go:51-57 | A non-struct gives ErrNotStruct and the empty string. A struct gives `CreateTable` of its descriptors and its lower-cased type name. |
| Table.StatementEmpty | util/table.go:51-63 | A struct's statement is empty exactly when it has no descriptors or an empty type name. |
| Table.ColumnsOnlyExcluded | util/table.go:71-83 | For a struct's descriptors, ErrNoType never drops a column: the column list is empty exactly when every descriptor is excluded. |
| Table.StatementShape | util/table.go:85 | A named struct with a non-excluded descriptor gives the opening, the lower-cased name, `(`, the clauses without the final comma, and the engine clause. |
| Table.StatementAllExcluded | util/table.go:85 | A named struct whose descriptors are all excluded gives a statement with no parenthesised column list. |
| Table.StatementSchemaOnly | util/table.go:51-57 | The statement depends only on the struct's type, not on its field values. |
| Table.FieldIndex | util/table.go:281 | Returns the position of the first field with the given name. |
| Table.GetFieldValue | util/table.go:277-282 | ErrKeyNotFound exactly for a missing instance or an empty key. Otherwise it returns the value of the first field with that name. |
| Example.IdNameDescs | main.go:27-28 | The descriptors of `ID` and `Name` take their `type` tags. |
| Example.PassDescDescs | main.go:29-30 | `Pass` gets `varchar(32)` inferred from `string`; `Desc` takes `text`. |
| Example.AbcdInfo | main.go:26-31 | `Abcd{}` has four descriptors, in declaration order. |
| Example.AbcdTableName | main.go:26 | The table name of `Abcd{}` is `abcd`. |
| Example.IdClauseIs | main.go:27 | The `ID` clause is `` `id` int(8) primary key auto_increment comment "主键", ``. |
| Example.NameClauseIs | main.go:28 | The `Name` clause is `` `name` varchar(255) not null default "golang",index name(`name`), ``. |
| Example.PassClauseIs | main.go:29 | The `Pass` clause is `` `pass` varchar(32) not null unique, ``. |
| Example.DescClauseIs | main.go:30 | The `Desc` clause is `` `desc` text not null, ``. |
| Example.AbcdColumns | main.go:26-31 | The column list of `Abcd{}` is the four clauses in order. |
| Example.AbcdStatement | main.go:33-41 | GetSQL of `Abcd{}` is `create table if not exists abcd(` followed by the four clauses without the last comma, then `)engine=innodb charset=utf8;`. |

## Left out

- Reflection: struct values, kinds, type names and tags are explicit data (`Values.Value`); embedded-field promotion is not modelled.
- `log.Println` of getCL errors in GenerateSQL (util/table.go:78): logging is output only; the skipped clause is modelled.
- Values.IsZero: defined only on scalars. A non-comparable kind (slice, map, function) makes Go's `==` panic, and a nil interface makes `reflect.Zero` panic. Neither reaches the model, and `Other(zero)` stands for every other comparable kind.
- Values.Lower: lowers only ASCII `A`-`Z`; Go's `strings.ToLower` also maps other Unicode upper-case letters.
- Integer widths: `Int32`, `Int64`, `Uint32` and `Uint64` hold unbounded integers. Only zero-ness and kind matter to the code, so wrap-around is irrelevant.
- Schema.GetInfo: the error return of a recursive call (util/table.go:158-161) is not modelled. The call is made only on a struct value, where GetInfo cannot fail.
- Table.GetFieldValue: requires a struct holding a field with that name when the instance is present and the key non-empty. For a non-struct, `FieldByName` itself panics. For a name no field has, `FieldByName` returns the zero `reflect.Value`, and `Interface` panics on it. The `""` returned beside ErrKeyNotFound is not modelled.
- Table.GetFieldValue: returns the value of an unexported field (name starting with a lower-case letter). There `Interface` panics (util/table.go:281).
- Rows.GetValues: returns the value of a non-zero, non-excluded field whose kind is int, int64, uint64 or string but whose type is a named type (such as `type Status int` or `time.Duration`). There the single-value type assertions at util/table.go:252-258 panic. The model does not tie a scalar's kind to its field's `typeName`.
- Rows.GetFields: returns the name of an unexported non-excluded, non-zero scalar field and walks into an unexported struct field (such as the fields of a `time.Time`). There `Interface` panics (util/table.go:215, 221); the model has no notion of exported names.
- Rows.GetValues: the same unexported-field panics as GetFields (util/table.go:239, 245) are not modelled.
- Rows.GetFields and Rows.GetValues: both require a struct, because `NumField` panics on any other value (util/table.go:211, 235); no error path exists to model.
- Schema.GetInfo: returns descriptors for a struct holding an unexported, non-excluded nested struct field. There `Interface` panics (util/table.go:158).
- Table.GetSQL: inherits the same unexported-nested-struct gap from GetInfo (util/table.go:52).
- `main.go`'s `main` (logging the statement or the error) is not modelled; only its `Abcd` struct is, in `example.dfy`.
