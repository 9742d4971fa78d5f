/** Example: the `Abcd` struct of main.go, as passed to GetSQL.

    `Abcd` has four string/int fields whose tags exercise a custom type, a
    primary key with auto-increment and a comment, a quoted default with an
    index, a unique column and a column that keeps the inferred not-null
    constraint. The lemmas below compute, step by step, the exact statement
    the model assigns to a zero-valued `Abcd`. */
module Example {
  import opened Values
  import opened Schema
  import opened Ddl
  import opened Table

  function IdField(): Field
  {
    Field("ID", "int", map["pk" := "true", "default" := "auto", "type" := "int(8)", "comment" := "主键"], Scalar(Int(0)))
  }

  function NameField(): Field
  {
    Field("Name", "string", map["type" := "varchar(255)", "default" := "golang", "index" := "true"], Scalar(Str("")))
  }

  function PassField(): Field
  {
    Field("Pass", "string", map["unique" := "true"], Scalar(Str("")))
  }

  function DescField(): Field
  {
    Field("Desc", "string", map["type" := "text"], Scalar(Str("")))
  }

  /** `Abcd{}`. */
  function Abcd(): Value
  {
    Struct("Abcd", [IdField(), NameField(), PassField(), DescField()])
  }

  const IdDesc := Desc("ID", "int(8)", true, "auto", false, false, false, "主键", false)
  const NameDesc := Desc("Name", "varchar(255)", false, "golang", false, true, false, "", false)
  const PassDesc := Desc("Pass", "varchar(32)", false, "", true, false, false, "", false)
  const DescDesc := Desc("Desc", "text", false, "", false, false, false, "", false)

  /** The descriptor of each field: the `type` tag wins where present,
      `Pass` falls back to the type inferred from `string`. */
  lemma IdNameDescs()
    ensures MakeDesc(IdField()) == IdDesc
    ensures MakeDesc(NameField()) == NameDesc
  {
  }

  lemma PassDescDescs()
    ensures MakeDesc(PassField()) == PassDesc
    ensures MakeDesc(DescField()) == DescDesc
  {
  }

  /** GetInfo of `Abcd{}`: one descriptor per field, in declaration order. */
  lemma AbcdInfo()
    ensures Info(Abcd()) == [IdDesc, NameDesc, PassDesc, DescDesc]
  {
    var v := Abcd();
    IdNameDescs();
    PassDescDescs();
    assert InfoPrefix(v, 1) == [IdDesc];
    assert InfoPrefix(v, 2) == [IdDesc, NameDesc];
    assert InfoPrefix(v, 3) == [IdDesc, NameDesc, PassDesc];
    assert InfoPrefix(v, 4) == [IdDesc, NameDesc, PassDesc, DescDesc];
  }

  /** The column clauses getCL builds for them, written as the pieces it
      appends: the quoted lower-cased name and the type, the constraint
      keywords, the comma, and the index clause. */
  const IdClause := "`" + "id" + "`" + " " + "int(8)" + (" primary key" + " auto_increment" + (" comment \"" + "主键" + "\"")) + ","
  const NameClause := "`" + "name" + "`" + " " + "varchar(255)" + (" not null" + (" default \"" + "golang" + "\"")) + "," + ("index " + "name" + "(`" + "name" + "`),")
  const PassClause := "`" + "pass" + "`" + " " + "varchar(32)" + (" not null" + " unique") + ","
  const DescBody := "`" + "desc" + "`" + " " + "text" + " not null"

  lemma IdClauseIs()
    ensures Clause(IdDesc) == Ok(IdClause)
  {
    var cl := IdDesc;
    assert Lower("ID") == "id";
    KeyTextIs(cl);
    DefaultTextIs(cl);
    UniqueTextIs(cl);
    CommentTextIs(cl);
    RenderConstraints(cl);
    AppendEmpty(" primary key" + " auto_increment");
    AppendEmpty(Head(cl) + Render(Constraints(cl)) + ",");
  }

  lemma NameClauseIs()
    ensures Clause(NameDesc) == Ok(NameClause)
  {
    var cl := NameDesc;
    assert Lower("Name") == "name";
    KeyTextIs(cl);
    DefaultTextIs(cl);
    UniqueTextIs(cl);
    CommentTextIs(cl);
    RenderConstraints(cl);
    AppendEmpty(" not null" + (" default \"" + "golang" + "\""));
    AppendEmpty(" not null" + (" default \"" + "golang" + "\"") + "");
  }

  lemma PassClauseIs()
    ensures Clause(PassDesc) == Ok(PassClause)
  {
    var cl := PassDesc;
    assert Lower("Pass") == "pass";
    KeyTextIs(cl);
    DefaultTextIs(cl);
    UniqueTextIs(cl);
    CommentTextIs(cl);
    RenderConstraints(cl);
    AppendEmpty(" not null");
    AppendEmpty(" not null" + " unique");
    AppendEmpty(Head(cl) + Render(Constraints(cl)) + ",");
  }

  lemma DescClauseIs()
    ensures Clause(DescDesc) == Ok(DescBody + ",")
  {
    var cl := DescDesc;
    assert Lower("Desc") == "desc";
    KeyTextIs(cl);
    DefaultTextIs(cl);
    UniqueTextIs(cl);
    CommentTextIs(cl);
    RenderConstraints(cl);
    AppendEmpty(" not null");
    AppendEmpty(" not null" + "");
    AppendEmpty(" not null" + "" + "");
    AppendEmpty(Head(cl) + Render(Constraints(cl)) + ",");
  }

  lemma Join4(a: string, b: string, c: string, d: string)
    ensures Join([a, b, c, d]) == a + b + c + d
  {
    assert Join([a]) == a by { assert [a][..0] == []; }
    assert Join([a, b]) == a + b by { assert [a, b][..1] == [a]; }
    assert Join([a, b, c]) == a + b + c by { assert [a, b, c][..2] == [a, b]; }
    assert [a, b, c, d][..3] == [a, b, c];
  }

  /** A statement whose column list is four clauses loses only the comma
      that ends the last one. */
  lemma CreateTableOfFour(cls: seq<Desc>, t: string, a: string, b: string, c: string, d: string)
    requires |cls| > 0 && t != ""
    requires Columns(cls) == a + b + c + (d + ",")
    ensures CreateTable(cls, t) == Opening + t + "(" + a + b + c + d + Closing
  {
    var s := Opening + t + "(" + Columns(cls);
    assert s == (Opening + t + "(" + a + b + c + d) + ",";
  }

  /** GenerateSQL's column list for `Abcd{}`. */
  lemma AbcdColumns()
    ensures Columns(Info(Abcd())) == IdClause + NameClause + PassClause + (DescBody + ",")
  {
    var cls := [IdDesc, NameDesc, PassDesc, DescDesc];
    AbcdInfo();
    IdClauseIs();
    NameClauseIs();
    PassClauseIs();
    DescClauseIs();
    assert Contributions(cls) == [IdClause, NameClause, PassClause, DescBody + ","];
    Join4(IdClause, NameClause, PassClause, DescBody + ",");
  }

  /** GetTableName of `Abcd{}`. */
  lemma AbcdTableName()
    ensures GetTableName(Abcd()) == Ok("abcd")
  {
    assert Lower("Abcd") == "abcd";
  }

  /** The statement main.go logs for `Abcd{}`: the opening, the table name
      `abcd`, the four column clauses with the last comma cut, and the
      closing engine clause. */
  lemma AbcdStatement()
    ensures Statement(Abcd()) ==
      Opening + "abcd" + "(" + IdClause + NameClause + PassClause + DescBody + Closing
  {
    AbcdInfo();
    AbcdColumns();
    AbcdTableName();
    CreateTableOfFour(Info(Abcd()), "abcd", IdClause, NameClause, PassClause, DescBody);
  }
}
