/** Ddl: DDL string assembly (`getCL` and `GenerateSQL` in util/table.go).

    A column clause is specified as the column head, a list of constraint
    tokens rendered in a fixed order, a comma, and an optional trailing
    index clause. */
module Ddl {
  import opened Values
  import opened Schema

  /** The constraint keywords getCL can emit after the column type. */
  datatype Constraint =
    | PrimaryKey
    | NotNull
    | AutoIncrement
    | Default(literal: string)
    | Unique
    | Comment(text: string)

  /** The exact text getCL appends for each constraint. */
  function Text(c: Constraint): string
  {
    match c
    case PrimaryKey => " primary key"
    case NotNull => " not null"
    case AutoIncrement => " auto_increment"
    case Default(v) => " default \"" + v + "\""
    case Unique => " unique"
    case Comment(t) => " comment \"" + t + "\""
  }

  /** Position of a constraint in the clause: key/nullability first, then
      the default, then uniqueness, then the comment. */
  function Rank(c: Constraint): nat
  {
    match c
    case PrimaryKey => 0
    case NotNull => 0
    case AutoIncrement => 1
    case Default(_) => 1
    case Unique => 2
    case Comment(_) => 3
  }

  function Render(cs: seq<Constraint>): string
  {
    if cs == [] then "" else Render(cs[..|cs| - 1]) + Text(cs[|cs| - 1])
  }

  /** The constraints a descriptor asks for, in emission order. */
  function Constraints(cl: Desc): seq<Constraint>
  {
    KeyConstraint(cl) + DefaultConstraint(cl) + UniqueConstraint(cl) + CommentConstraint(cl)
  }

  function KeyConstraint(cl: Desc): seq<Constraint>
  {
    if cl.pk then [PrimaryKey] else if !cl.nullable then [NotNull] else []
  }

  function DefaultConstraint(cl: Desc): seq<Constraint>
  {
    if cl.defaulty == "" then [] else if cl.defaulty == "auto" then [AutoIncrement] else [Default(cl.defaulty)]
  }

  function UniqueConstraint(cl: Desc): seq<Constraint>
  {
    if cl.unique then [Unique] else []
  }

  function CommentConstraint(cl: Desc): seq<Constraint>
  {
    if cl.comment != "" then [Comment(cl.comment)] else []
  }

  /** "`name` type", the column name lower-cased. */
  function Head(cl: Desc): string
  {
    "`" + Lower(cl.name) + "`" + " " + cl.typ
  }

  /** The secondary-index clause that follows the column's comma. */
  function IndexClause(cl: Desc): string
  {
    if cl.index then "index " + Lower(cl.name) + "(`" + Lower(cl.name) + "`)," else ""
  }

  /** What getCL returns for one descriptor. */
  function Clause(cl: Desc): Result<string>
  {
    if cl.typ == "" then Err(ErrNoType)
    else Ok(Head(cl) + Render(Constraints(cl)) + "," + IndexClause(cl))
  }

  lemma RenderSnoc(cs: seq<Constraint>, c: Constraint)
    ensures Render(cs + [c]) == Render(cs) + Text(c)
  {
    assert (cs + [c])[..|cs|] == cs;
  }

  /** The text each group of constraints adds, in getCL's order. */
  function KeyText(cl: Desc): string
  {
    Render(KeyConstraint(cl))
  }

  function DefaultText(cl: Desc): string
  {
    Render(DefaultConstraint(cl))
  }

  function UniqueText(cl: Desc): string
  {
    Render(UniqueConstraint(cl))
  }

  function CommentText(cl: Desc): string
  {
    Render(CommentConstraint(cl))
  }

  lemma RenderOne(c: Constraint)
    ensures Render([c]) == Text(c)
  {
    assert Render([c]) == Render([]) + Text(c);
    assert "" + Text(c) == Text(c);
  }

  lemma KeyTextIs(cl: Desc)
    ensures KeyText(cl) == if cl.pk then " primary key" else if !cl.nullable then " not null" else ""
  {
    if KeyConstraint(cl) != [] { RenderOne(KeyConstraint(cl)[0]); }
  }

  lemma DefaultTextIs(cl: Desc)
    ensures DefaultText(cl) ==
      if cl.defaulty == "" then "" else if cl.defaulty == "auto" then " auto_increment"
      else " default \"" + cl.defaulty + "\""
  {
    if DefaultConstraint(cl) != [] { RenderOne(DefaultConstraint(cl)[0]); }
  }

  lemma UniqueTextIs(cl: Desc)
    ensures UniqueText(cl) == if cl.unique then " unique" else ""
  {
    if UniqueConstraint(cl) != [] { RenderOne(UniqueConstraint(cl)[0]); }
  }

  lemma CommentTextIs(cl: Desc)
    ensures CommentText(cl) == if cl.comment != "" then " comment \"" + cl.comment + "\"" else ""
  {
    if CommentConstraint(cl) != [] { RenderOne(CommentConstraint(cl)[0]); }
  }

  lemma {:induction false} RenderAppend(a: seq<Constraint>, b: seq<Constraint>)
    ensures Render(a + b) == Render(a) + Render(b)
  {
    if b == [] {
      assert a + b == a;
    } else {
      RenderAppend(a, b[..|b| - 1]);
      assert (a + b)[..|a + b| - 1] == a + b[..|b| - 1];
      Assoc(Render(a), Render(b[..|b| - 1]), Text(b[|b| - 1]));
    }
  }

  lemma RenderConstraints(cl: Desc)
    ensures Render(Constraints(cl)) == KeyText(cl) + DefaultText(cl) + UniqueText(cl) + CommentText(cl)
  {
    var k, d, u, c := KeyConstraint(cl), DefaultConstraint(cl), UniqueConstraint(cl), CommentConstraint(cl);
    RenderAppend(k + d + u, c);
    RenderAppend(k + d, u);
    RenderAppend(k, d);
  }

  lemma AppendEmpty(s: string)
    ensures s + "" == s
  {
  }

  lemma Quoted(sql: string, keyword: string, v: string)
    ensures sql + keyword + v + "\"" == sql + (keyword + v + "\"")
  {
    Assoc(sql + keyword, v, "\"");
    Assoc(sql, keyword, v + "\"");
    Assoc(keyword, v, "\"");
  }

  lemma Regroup4(s: string, a: string, b: string, c: string, d: string)
    ensures s + a + b + c + d == s + (a + b + c + d)
  {
    Assoc(s + a + b, c, d);
    Assoc(s + a, b, c + d);
    Assoc(s, a, b + (c + d));
    Assoc(a, b, c + d);
    Assoc(a + b, c, d);
  }

  lemma Regroup(s: string, a: string, b: string, c: string, d: string, e: string)
    ensures s + a + b + c + d + e == s + (a + b + c + d + e)
  {
    Assoc(s + a + b + c, d, e);
    Assoc(s + a + b, c, d + e);
    Assoc(s + a, b, c + (d + e));
    Assoc(s, a, b + (c + (d + e)));
    Assoc(a, b, c + (d + e));
    Assoc(a + b, c, d + e);
    Assoc(a + b + c, d, e);
  }

  /** `getCL`: builds the clause of one column; ErrNoType (and "") when the
      descriptor has no type. */
  method ColumnClause(cl: Desc) returns (sql: string, err: Option<Error>)
    ensures err.Some? <==> cl.typ == ""
    ensures err.Some? ==> sql == "" && Clause(cl) == Err(err.value)
    ensures err.None? ==> Clause(cl) == Ok(sql)
  {
    var notPk := true;
    var name := Lower(cl.name);
    sql := "`" + name + "`";
    if cl.typ == "" {
      return "", Some(ErrNoType);
    }
    sql := sql + " " + cl.typ;
    ghost var head := sql;

    if cl.pk {
      sql := sql + " primary key";
      notPk := false;
    }

    if notPk && !cl.nullable {
      sql := sql + " not null";
    }
    assert sql == head + KeyText(cl) by {
      KeyTextIs(cl);
      AppendEmpty(head);
    }
    ghost var key := sql;

    if cl.defaulty != "" {
      if cl.defaulty == "auto" {
        sql := sql + " auto_increment";
      } else {
        Quoted(sql, " default \"", cl.defaulty);
        sql := sql + " default \"" + cl.defaulty + "\"";
      }
    }
    assert sql == key + DefaultText(cl) by {
      DefaultTextIs(cl);
      AppendEmpty(key);
    }
    ghost var def := sql;

    if cl.unique {
      sql := sql + " unique";
    }
    assert sql == def + UniqueText(cl) by {
      UniqueTextIs(cl);
      AppendEmpty(def);
    }
    ghost var uni := sql;

    if cl.comment != "" {
      Quoted(sql, " comment \"", cl.comment);
      sql := sql + " comment \"" + cl.comment + "\"";
    }
    assert sql == uni + CommentText(cl) by {
      CommentTextIs(cl);
      AppendEmpty(uni);
    }
    assert sql == head + Render(Constraints(cl)) by {
      RenderConstraints(cl);
      Regroup4(head, KeyText(cl), DefaultText(cl), UniqueText(cl), CommentText(cl));
    }

    sql := sql + ",";
    ghost var column := sql;

    if cl.index {
      Regroup(sql, "index ", name, "(`", name, "`),");
      sql := sql + "index " + name + "(`" + name + "`),";
    }
    assert sql == column + IndexClause(cl) by {
      AppendEmpty(column);
    }
    err := None;
  }

  /** A primary-key column never gets `not null`; a column that is neither
      primary key nor nullable always does; the primary key is emitted
      exactly for `pk`. */
  lemma PrimaryKeyOverridesNotNull(cl: Desc)
    ensures PrimaryKey in Constraints(cl) <==> cl.pk
    ensures NotNull in Constraints(cl) <==> !cl.pk && !cl.nullable
  {
  }

  /** The `default` field decides between auto_increment, a quoted
      default, and nothing. */
  lemma DefaultChoice(cl: Desc)
    ensures AutoIncrement in Constraints(cl) <==> cl.defaulty == "auto"
    ensures forall v :: Default(v) in Constraints(cl) <==> v == cl.defaulty && v != "" && v != "auto"
    ensures Unique in Constraints(cl) <==> cl.unique
    ensures forall t :: Comment(t) in Constraints(cl) <==> t == cl.comment && t != ""
  {
    var k, d, u, c := KeyConstraint(cl), DefaultConstraint(cl), UniqueConstraint(cl), CommentConstraint(cl);
    assert Constraints(cl) == k + d + u + c;
    assert forall x :: x in k + d + u + c <==> x in k || x in d || x in u || x in c;
  }

  /** Constraints come in a fixed order (primary key / not null, default,
      unique, comment), each at most once. */
  lemma ConstraintsOrdered(cl: Desc)
    ensures forall i, j :: 0 <= i < j < |Constraints(cl)| ==> Rank(Constraints(cl)[i]) < Rank(Constraints(cl)[j])
  {
  }

  /** A clause starts with "`name` type", its column part ends with a comma,
      and with `index` set the comma is followed by the index clause; the
      whole clause always ends with a comma. */
  lemma ClauseShape(cl: Desc)
    requires cl.typ != ""
    ensures Clause(cl).Ok?
    ensures var c := Clause(cl).value;
      && |c| > |Head(cl)| + |IndexClause(cl)|
      && c[..|Head(cl)|] == Head(cl)
      && c[|c| - |IndexClause(cl)| - 1] == ','
      && c[|c| - |IndexClause(cl)|..] == IndexClause(cl)
      && c[|c| - 1] == ','
  {
    var h, r, i := Head(cl), Render(Constraints(cl)), IndexClause(cl);
    var column := h + r + ",";
    var c := column + i;
    assert Clause(cl) == Ok(c);
    Assoc(h, r, ",");
    assert column[..|h|] == h;
    assert c[..|h|] == h;
    assert c[|c| - |i|..] == i;
    assert c[|column| - 1] == column[|column| - 1] == ',';
    if cl.index {
      var n := Lower(cl.name);
      assert i == "index " + n + "(`" + n + "`),";
      assert i[|i| - 1] == ',';
      assert c[|c| - 1] == i[|i| - 1];
    }
  }

  /** What one descriptor contributes to GenerateSQL's column list:
      nothing when excluded or when getCL fails. */
  function Contribution(cl: Desc): string
  {
    if cl.exclude then "" else match Clause(cl) case Ok(s) => s case Err(_) => ""
  }

  /** The strings GenerateSQL appends, one per descriptor. */
  function Contributions(cls: seq<Desc>): (parts: seq<string>)
  {
    seq(|cls|, i requires 0 <= i < |cls| => Contribution(cls[i]))
  }

  function Join(parts: seq<string>): string
  {
    if parts == [] then "" else Join(parts[..|parts| - 1]) + parts[|parts| - 1]
  }

  /** The column clauses of a descriptor list, concatenated. */
  function Columns(cls: seq<Desc>): string
  {
    Join(Contributions(cls))
  }

  const Opening: string := "create table if not exists "
  const Closing: string := ")engine=innodb charset=utf8;"

  /** The statement GenerateSQL returns. */
  function CreateTable(cls: seq<Desc>, tableName: string): string
  {
    if |cls| == 0 || tableName == "" then ""
    else
      var s := Opening + tableName + "(" + Columns(cls);
      s[..|s| - 1] + Closing
  }

  lemma JoinSnoc(parts: seq<string>, p: string)
    ensures Join(parts + [p]) == Join(parts) + p
  {
    assert (parts + [p])[..|parts|] == parts;
  }

  lemma ContributionsSnoc(cls: seq<Desc>, i: nat)
    requires i < |cls|
    ensures Contributions(cls[..i + 1]) == Contributions(cls[..i]) + [Contribution(cls[i])]
  {
  }

  /** `GenerateSQL`: the create-table statement for the descriptors, in
      order, skipping excluded and untyped ones. */
  method GenerateSQL(cls: seq<Desc>, tableName: string) returns (sql: string)
    ensures sql == CreateTable(cls, tableName)
  {
    if |cls| == 0 || tableName == "" {
      return "";
    }
    sql := "create table if not exists " + tableName + "(";
    ghost var open := sql;
    for i := 0 to |cls|
      invariant sql == open + Columns(cls[..i])
    {
      ContributionsSnoc(cls, i);
      JoinSnoc(Contributions(cls[..i]), Contribution(cls[i]));
      Assoc(open, Columns(cls[..i]), Contribution(cls[i]));
      var cl := cls[i];
      if cl.exclude {
        continue;
      }
      var sub, err := ColumnClause(cl);
      if err.Some? {
        continue;
      }
      sql := sql + sub;
    }
    assert cls[..|cls|] == cls;
    sql := sql[..|sql| - 1] + ")engine=innodb charset=utf8;";
  }

  /** GenerateSQL returns "" exactly for no descriptors or no table name. */
  lemma CreateTableEmpty(cls: seq<Desc>, tableName: string)
    ensures CreateTable(cls, tableName) == "" <==> |cls| == 0 || tableName == ""
  {
    if |cls| > 0 && tableName != "" {
      assert |CreateTable(cls, tableName)| >= |Closing|;
    }
  }

  lemma {:induction false} JoinEndsWithComma(parts: seq<string>)
    requires forall i :: 0 <= i < |parts| ==> parts[i] == "" || parts[i][|parts[i]| - 1] == ','
    ensures Join(parts) != "" ==> Join(parts)[|Join(parts)| - 1] == ','
  {
    if parts != [] {
      JoinEndsWithComma(parts[..|parts| - 1]);
    }
  }

  lemma {:induction false} JoinEmpty(parts: seq<string>)
    ensures Join(parts) == "" <==> forall i :: 0 <= i < |parts| ==> parts[i] == ""
  {
    if parts != [] {
      JoinEmpty(parts[..|parts| - 1]);
    }
  }

  lemma {:induction false} JoinAppend(a: seq<string>, b: seq<string>)
    ensures Join(a + b) == Join(a) + Join(b)
  {
    if b == [] {
      assert a + b == a;
    } else {
      JoinAppend(a, b[..|b| - 1]);
      assert (a + b)[..|a + b| - 1] == a + b[..|b| - 1];
      Assoc(Join(a), Join(b[..|b| - 1]), b[|b| - 1]);
    }
  }

  /** A descriptor contributes text exactly when it is neither excluded nor
      untyped, and then its text ends with a comma. */
  lemma ContributionShape(cl: Desc)
    ensures Contribution(cl) == "" <==> cl.exclude || cl.typ == ""
    ensures Contribution(cl) != "" ==> Contribution(cl)[|Contribution(cl)| - 1] == ','
  {
    if !cl.exclude && cl.typ != "" {
      ClauseShape(cl);
    }
  }

  /** Every emitted clause is non-empty and ends with a comma. */
  lemma ColumnsEndWithComma(cls: seq<Desc>)
    ensures Columns(cls) != "" ==> Columns(cls)[|Columns(cls)| - 1] == ','
  {
    var parts := Contributions(cls);
    forall i | 0 <= i < |cls|
      ensures parts[i] == "" || parts[i][|parts[i]| - 1] == ','
    {
      ContributionShape(cls[i]);
    }
    JoinEndsWithComma(parts);
  }

  /** No clause is emitted exactly when every descriptor is excluded or untyped. */
  lemma ColumnsEmpty(cls: seq<Desc>)
    ensures Columns(cls) == "" <==> forall i :: 0 <= i < |cls| ==> cls[i].exclude || cls[i].typ == ""
  {
    var parts := Contributions(cls);
    forall i | 0 <= i < |cls|
      ensures parts[i] == "" <==> cls[i].exclude || cls[i].typ == ""
    {
      ContributionShape(cls[i]);
    }
    JoinEmpty(parts);
  }

  /** Clauses appear in descriptor order. */
  lemma ColumnsAppend(a: seq<Desc>, b: seq<Desc>)
    ensures Columns(a + b) == Columns(a) + Columns(b)
  {
    var ab, pa, pb := Contributions(a + b), Contributions(a), Contributions(b);
    assert |ab| == |pa + pb|;
    forall i | 0 <= i < |ab|
      ensures ab[i] == (pa + pb)[i]
    {
      if i < |a| {
        assert (a + b)[i] == a[i];
      } else {
        assert (a + b)[i] == b[i - |a|];
      }
    }
    assert ab == pa + pb;
    JoinAppend(Contributions(a), Contributions(b));
  }

  /** With no column emitted, the dropped last character is the opening
      parenthesis itself. */
  lemma CreateTableNoColumns(cls: seq<Desc>, tableName: string)
    requires |cls| > 0 && tableName != ""
    requires forall i :: 0 <= i < |cls| ==> cls[i].exclude || cls[i].typ == ""
    ensures CreateTable(cls, tableName) == Opening + tableName + Closing
  {
    ColumnsEmpty(cls);
    var s := Opening + tableName + "(";
    assert s[..|s| - 1] == Opening + tableName;
  }

  /** With some column emitted, the dropped last character is the trailing
      comma of the last clause, and the columns appear verbatim otherwise. */
  lemma CreateTableWithColumns(cls: seq<Desc>, tableName: string)
    requires tableName != ""
    requires exists i :: 0 <= i < |cls| && !cls[i].exclude && cls[i].typ != ""
    ensures var cols := Columns(cls);
      && |cols| > 0 && cols[|cols| - 1] == ','
      && CreateTable(cls, tableName) == Opening + tableName + "(" + cols[..|cols| - 1] + Closing
  {
    ColumnsEmpty(cls);
    ColumnsEndWithComma(cls);
    var cols := Columns(cls);
    var s := Opening + tableName + "(" + cols;
    assert s[..|s| - 1] == Opening + tableName + "(" + cols[..|cols| - 1];
  }
}
