/** The CREATE TABLE builder of app/database/createTables.ts: one column definition per
    column, an optional composite primary-key clause, one statement per table in a fixed
    order, and a failed statement that is logged without stopping the others. */
module CreateTables {
  import opened Wrappers
  import opened Strings
  import opened Schema

  /** The tables `createTablesAsync` walks, in order, with the label it logs for each. The
      history table is not among them. */
  const CreatedTables: seq<(TableId, string)> := [
    (Groups, "haexPasswordsGroups"),
    (ItemDetails, "haexPasswordsItemDetails"),
    (ItemKeyValues, "haexPasswordsItemKeyValues"),
    (GroupItems, "haexPasswordsGroupItems"),
    (Binaries, "haexPasswordsBinaries"),
    (ItemBinaries, "haexPasswordsItemBinaries"),
    (ItemSnapshots, "haexPasswordsItemSnapshots"),
    (SnapshotBinaries, "haexPasswordsSnapshotBinaries")
  ]

  function SqlTypeName(t: SqlType): string {
    match t
    case Text => "text"
    case Integer => "integer"
  }

  function Quoted(name: string): string {
    "\"" + name + "\""
  }

  // ---------------------------------------------------------------------------
  // Column definitions
  // ---------------------------------------------------------------------------

  /** The flag part of a column definition, in its fixed order. */
  function Flags(primary: bool, notNull: bool, default: Option<string>): string {
    (if primary then " PRIMARY KEY" else "")
    + (if notNull then " NOT NULL" else "")
    + (match default case Some(d) => " DEFAULT " + d case None => "")
  }

  /** The definition of one column: its quoted name, its type, then the flags. */
  function ColumnSql(c: Column): string {
    Quoted(c.name) + " " + SqlTypeName(c.sqlType) + Flags(c.primary, c.notNull, c.default)
  }

  /** `colDef`, built by appending to the quoted name and type one suffix per flag. */
  method ColumnDefinition(c: Column) returns (colDef: string)
    ensures colDef == ColumnSql(c)
  {
    colDef := "\"" + c.name + "\" " + SqlTypeName(c.sqlType);
    ghost var head := Quoted(c.name) + " " + SqlTypeName(c.sqlType);
    assert colDef == head by {
      Assoc3("\"" + c.name, "\"", " ");
    }
    ghost var p := if c.primary then " PRIMARY KEY" else "";
    ghost var n := if c.notNull then " NOT NULL" else "";
    ghost var d := match c.default case Some(v) => " DEFAULT " + v case None => "";
    if c.primary {
      colDef := colDef + " PRIMARY KEY";
    }
    assert colDef == head + p;
    if c.notNull {
      colDef := colDef + " NOT NULL";
    }
    assert colDef == head + p + n;
    if c.default.Some? {
      Assoc3(head + p + n, " DEFAULT ", c.default.value);
      colDef := colDef + " DEFAULT " + c.default.value;
    }
    assert colDef == head + p + n + d;
    Assoc3(head + p, n, d);
    Assoc3(head, p, n + d);
    Assoc3(p, n, d);
  }

  /** Concatenation of strings is associative. */
  lemma Assoc3(a: string, b: string, c: string)
    ensures (a + b) + c == a + (b + c)
  {
  }

  lemma DefaultPart(d1: Option<string>, d2: Option<string>)
    requires (match d1 case Some(d) => " DEFAULT " + d case None => "")
          == (match d2 case Some(d) => " DEFAULT " + d case None => "")
    ensures d1 == d2
  {
    if d1.Some? && d2.Some? {
      var s1, s2 := " DEFAULT " + d1.value, " DEFAULT " + d2.value;
      assert d1.value == s1[9..] && d2.value == s2[9..];
    }
  }

  lemma NotNullPart(n1: bool, d1: Option<string>, n2: bool, d2: Option<string>)
    requires Flags(false, n1, d1) == Flags(false, n2, d2)
    ensures n1 == n2 && d1 == d2
  {
    var f := Flags(false, n1, d1);
    var rest1 := match d1 case Some(d) => " DEFAULT " + d case None => "";
    var rest2 := match d2 case Some(d) => " DEFAULT " + d case None => "";
    assert n1 ==> |f| > 1 && f[1] == 'N';
    assert !n1 ==> f == rest1 && (|f| <= 1 || f[1] == 'D');
    assert n2 ==> |f| > 1 && f[1] == 'N';
    assert !n2 ==> f == rest2 && (|f| <= 1 || f[1] == 'D');
    if n1 {
      assert f[9..] == rest1 && f[9..] == rest2;
    }
    DefaultPart(d1, d2);
  }

  /** The flags can be read back from a definition: two columns with the same name and type
      whose definitions are equal agree on every flag, so " PRIMARY KEY" appears exactly for
      primary columns, " NOT NULL" exactly for mandatory ones and " DEFAULT x" exactly for
      columns with default x. */
  lemma FlagsReadBack(c1: Column, c2: Column)
    requires c1.name == c2.name && c1.sqlType == c2.sqlType
    requires ColumnSql(c1) == ColumnSql(c2)
    ensures c1 == c2
  {
    var head := Quoted(c1.name) + " " + SqlTypeName(c1.sqlType);
    var f1, f2 := Flags(c1.primary, c1.notNull, c1.default), Flags(c2.primary, c2.notNull, c2.default);
    assert f1 == f2 by {
      assert f1 == (head + f1)[|head|..] && f2 == (head + f2)[|head|..];
    }
    PrimaryPart(c1.primary, c1.notNull, c1.default, c2.primary, c2.notNull, c2.default);
    NotNullPart(c1.notNull, c1.default, c2.notNull, c2.default);
  }

  lemma PrimaryPart(p1: bool, n1: bool, d1: Option<string>, p2: bool, n2: bool, d2: Option<string>)
    requires Flags(p1, n1, d1) == Flags(p2, n2, d2)
    ensures p1 == p2 && Flags(false, n1, d1) == Flags(false, n2, d2)
  {
    var f := Flags(p1, n1, d1);
    var t1, t2 := Flags(false, n1, d1), Flags(false, n2, d2);
    PrimaryShape(p1, n1, d1);
    PrimaryShape(p2, n2, d2);
    assert p1 <==> |f| > 1 && f[1] == 'P';
    assert p2 <==> |f| > 1 && f[1] == 'P';
    if p1 {
      assert t1 == f[12..] && t2 == f[12..];
    }
  }

  /** The primary-key flag comes first, and without it no flag starts with " P". */
  lemma PrimaryShape(p: bool, n: bool, d: Option<string>)
    ensures p ==> Flags(p, n, d) == " PRIMARY KEY" + Flags(false, n, d)
    ensures !p ==> Flags(p, n, d) == Flags(false, n, d)
    ensures |Flags(false, n, d)| <= 1 || Flags(false, n, d)[1] != 'P'
  {
    var nn := if n then " NOT NULL" else "";
    var dd := match d case Some(v) => " DEFAULT " + v case None => "";
    assert Flags(false, n, d) == nn + dd by {
      assert "" + nn == nn;
    }
    Assoc3(" PRIMARY KEY", nn, dd);
  }

  // ---------------------------------------------------------------------------
  // Table statements
  // ---------------------------------------------------------------------------

  /** `PRIMARY KEY (...)` over the quoted key columns joined by ", ". */
  function PrimaryKeyClause(names: seq<string>): string {
    "PRIMARY KEY (" + Join(QuotedNames(names), ", ") + ")"
  }

  /** `names.map(n => `"${n}"`)`. */
  function QuotedNames(names: seq<string>): (qs: seq<string>)
    ensures |qs| == |names|
    ensures forall i :: 0 <= i < |names| ==> qs[i] == Quoted(names[i])
  {
    if names == [] then [] else [Quoted(names[0])] + QuotedNames(names[1..])
  }

  /** The pieces between the parentheses: one definition per column, then the composite key
      clause when the table has one. */
  function Definitions(shape: TableShape): (ds: seq<string>)
    ensures |ds| == |shape.columns| + (if shape.compositeKey != [] then 1 else 0)
    ensures forall i :: 0 <= i < |shape.columns| ==> ds[i] == ColumnSql(shape.columns[i])
    ensures shape.compositeKey != [] ==> ds[|shape.columns|] == PrimaryKeyClause(shape.compositeKey)
  {
    seq(|shape.columns|, i requires 0 <= i < |shape.columns| => ColumnSql(shape.columns[i]))
    + (if shape.compositeKey != [] then [PrimaryKeyClause(shape.compositeKey)] else [])
  }

  function TableSql(shape: TableShape, tableName: string): string {
    "CREATE TABLE IF NOT EXISTS \"" + tableName + "\" (" + Join(Definitions(shape), ", ") + ")"
  }

  /** The statement for one table: the column loop, the composite key, the template. */
  method TableStatement(shape: TableShape, tableName: string) returns (sql: string)
    ensures sql == TableSql(shape, tableName)
  {
    var columns: seq<string> := [];
    var i := 0;
    while i < |shape.columns|
      invariant 0 <= i <= |shape.columns|
      invariant |columns| == i
      invariant forall j :: 0 <= j < i ==> columns[j] == ColumnSql(shape.columns[j])
    {
      var colDef := ColumnDefinition(shape.columns[i]);
      columns := columns + [colDef];
      i := i + 1;
    }
    if shape.compositeKey != [] {
      var pkCols := PrimaryKeyClause(shape.compositeKey);
      columns := columns + [pkCols];
    }
    assert columns == Definitions(shape);
    sql := "CREATE TABLE IF NOT EXISTS \"" + tableName + "\" (" + Join(columns, ", ") + ")";
  }

  /** The statement issued for table `t` under manifest `m`. */
  function Statement(m: Manifest, t: TableId): string {
    TableSql(Shape(t), GetTableName(m, Shape(t).baseName))
  }

  /** The labels of the tables whose statement, among the ones issued so far, the host
      rejects. */
  function Rejected(issued: seq<string>, accepts: string -> bool): seq<string>
    requires |issued| <= |CreatedTables|
  {
    if issued == [] then []
    else
      var k := |issued| - 1;
      Rejected(issued[..k], accepts) + (if accepts(issued[k]) then [] else [CreatedTables[k].1])
  }

  lemma RejectedSnoc(issued: seq<string>, sql: string, accepts: string -> bool)
    requires |issued| < |CreatedTables|
    ensures Rejected(issued + [sql], accepts)
      == Rejected(issued, accepts) + (if accepts(sql) then [] else [CreatedTables[|issued|].1])
  {
    assert (issued + [sql])[..|issued|] == issued;
  }

  /** `createTablesAsync`: `accepts` says whether `client.execute` succeeds on a statement.
      Every one of the eight statements is issued, in order, whatever the host does with the
      earlier ones; the rejected ones are only reported. */
  method CreateTablesAsync(m: Manifest, accepts: string -> bool) returns (issued: seq<string>, failed: seq<string>)
    ensures |issued| == |CreatedTables|
    ensures forall i :: 0 <= i < |issued| ==> issued[i] == Statement(m, CreatedTables[i].0)
    ensures failed == Rejected(issued, accepts)
  {
    issued, failed := [], [];
    var i := 0;
    while i < |CreatedTables|
      invariant 0 <= i <= |CreatedTables|
      invariant |issued| == i
      invariant forall j :: 0 <= j < i ==> issued[j] == Statement(m, CreatedTables[j].0)
      invariant failed == Rejected(issued, accepts)
    {
      var t := CreatedTables[i].0;
      var name := CreatedTables[i].1;
      var shape := Shape(t);
      var tableName := GetTableName(m, shape.baseName);
      var createTableSql := TableStatement(shape, tableName);
      RejectedSnoc(issued, createTableSql, accepts);
      issued := issued + [createTableSql];
      assert forall j :: 0 <= j <= i ==> issued[j] == Statement(m, CreatedTables[j].0);
      if !accepts(createTableSql) {
        failed := failed + [name];
      }
      i := i + 1;
    }
  }

  /** Each table is created once, and the history table is never created. */
  lemma CreatedTablesDistinct()
    ensures forall i, j :: 0 <= i < j < |CreatedTables| ==> CreatedTables[i].0 != CreatedTables[j].0
    ensures forall i :: 0 <= i < |CreatedTables| ==> CreatedTables[i].0 != ItemHistory
  {
  }

  /** The composite key of the membership table is rendered as its own clause. */
  lemma GroupItemsKeyClause()
    ensures PrimaryKeyClause(Shape(GroupItems).compositeKey) == "PRIMARY KEY (\"item_id\", \"group_id\")"
  {
    var quoted := QuotedNames(["item_id", "group_id"]);
    assert quoted == [Quoted("item_id"), Quoted("group_id")];
    assert Join(quoted, ", ") == quoted[0] + ", " + quoted[1];
  }

  /** The membership table, the one table with a composite key: two plain text columns and
      the key clause after them. */
  lemma GroupItemsDefinitions()
    ensures Definitions(Shape(GroupItems)) ==
      ["\"group_id\" text", "\"item_id\" text", "PRIMARY KEY (\"item_id\", \"group_id\")"]
  {
    var shape := Shape(GroupItems);
    var ds := Definitions(shape);
    assert |ds| == 3;
    assert ds[0] == "\"group_id\" text" by {
      assert shape.columns[0] == TextColumn("group_id");
      TextColumnSql("group_id");
    }
    assert ds[1] == "\"item_id\" text" by {
      assert shape.columns[1] == TextColumn("item_id");
      TextColumnSql("item_id");
    }
    assert ds[2] == "PRIMARY KEY (\"item_id\", \"group_id\")" by {
      GroupItemsKeyClause();
    }
  }

  /** A plain text column is its quoted name and its type, with no flag. */
  lemma TextColumnSql(name: string)
    ensures ColumnSql(TextColumn(name)) == "\"" + name + "\" text"
  {
    Assoc3("\"" + name, "\"", " text");
  }

  /** A primary column is rendered with both flags: `"id" text PRIMARY KEY NOT NULL`. */
  lemma IdColumnDefinition()
    ensures ColumnSql(IdColumn()) == "\"id\" text PRIMARY KEY NOT NULL"
  {
  }
}
