/** The natural-language description of the database schema that is put in
    the SQL-generation prompt: one block per table listing its columns and
    their declared types.  The catalog queries are parameters: `columns` is
    what `information_schema.columns` lists for a table, `tables` what
    `information_schema.tables` lists. */
module QuestionToSql {
  import opened PyStr
  import opened PyDict

  /** A catalog row: (column_name, data_type). */
  type Column = (string, string)

  /** The line `f"\n  - {column_name}: {data_type}"`. */
  function ColumnLine(c: Column): string
  {
    "\n  - " + c.0 + ": " + c.1
  }

  /** What `get_table_description` has accumulated after the given columns. */
  function TableDescription(tableName: string, columns: seq<Column>): string
  {
    if columns == [] then "Table: " + tableName
    else
      var n := |columns| - 1;
      TableDescription(tableName, columns[..n]) + ColumnLine(columns[n])
  }

  /** `get_table_description`: starts from the header and appends one column
      line per catalog row with `+=`. */
  method GetTableDescription(tableName: string, columns: seq<Column>) returns (description: string)
    ensures description == TableDescription(tableName, columns)
    ensures columns == [] ==> description == "Table: " + tableName
  {
    description := "Table: " + tableName;
    for i := 0 to |columns|
      invariant description == TableDescription(tableName, columns[..i])
    {
      assert columns[..i + 1][..i] == columns[..i];
      description := description + ColumnLine(columns[i]);
    }
    assert columns[..|columns|] == columns;
  }

  /** The description begins with exactly "Table: " and the table name. */
  lemma {:induction false} TableDescriptionHeader(tableName: string, columns: seq<Column>)
    ensures "Table: " + tableName <= TableDescription(tableName, columns)
  {
    if columns != [] {
      TableDescriptionHeader(tableName, columns[..|columns| - 1]);
    }
  }

  /** A column line as read back after splitting at newlines. */
  function ColumnEntry(c: Column): string
  {
    "  - " + c.0 + ": " + c.1
  }

  /** The column lines, one per catalog row, in catalog order. */
  function ColumnEntries(columns: seq<Column>): seq<string>
  {
    seq(|columns|, i requires 0 <= i < |columns| => ColumnEntry(columns[i]))
  }

  /** Neither the column name nor its type holds a newline. */
  predicate OnOneLine(c: Column)
  {
    '\n' !in c.0 && '\n' !in c.1
  }

  lemma ColumnEntryOnOneLine(c: Column)
    requires OnOneLine(c)
    ensures '\n' !in ColumnEntry(c)
  {
  }

  /** Each column adds a newline and its entry. */
  lemma TableDescriptionStep(tableName: string, columns: seq<Column>)
    requires columns != []
    ensures var n := |columns| - 1;
      TableDescription(tableName, columns)
        == TableDescription(tableName, columns[..n]) + "\n" + ColumnEntry(columns[n])
  {
    var n := |columns| - 1;
    assert ColumnLine(columns[n]) == "\n" + ColumnEntry(columns[n]);
  }

  /** Read back line by line, the description is the header followed by one
      "  - {column}: {type}" line per catalog row, in catalog order (provided
      no name or type holds a newline of its own). */
  lemma {:induction false} TableDescriptionLines(tableName: string, columns: seq<Column>)
    requires '\n' !in tableName
    requires forall i :: 0 <= i < |columns| ==> OnOneLine(columns[i])
    ensures Lines(TableDescription(tableName, columns)) == ["Table: " + tableName] + ColumnEntries(columns)
  {
    if columns == [] {
      LinesSingle("Table: " + tableName);
    } else {
      var n := |columns| - 1;
      var prefix := TableDescription(tableName, columns[..n]);
      var line := ColumnEntry(columns[n]);
      TableDescriptionLines(tableName, columns[..n]);
      TableDescriptionStep(tableName, columns);
      LinesConcat(prefix, line);
      ColumnEntryOnOneLine(columns[n]);
      LinesSingle(line);
      assert ColumnEntries(columns) == ColumnEntries(columns[..n]) + [line];
    }
  }

  /** The pairs `(table, get_table_description(table))` the dict
      comprehension of `get_db_description` generates, in catalog order. */
  function DescriptionItems(tables: seq<string>, columns: string -> seq<Column>): seq<(string, string)>
  {
    seq(|tables|, i requires 0 <= i < |tables| => (tables[i], TableDescription(tables[i], columns(tables[i]))))
  }

  /** `get_db_description`: a dict comprehension from table name to its
      description, whose values are joined with blank lines. */
  function DbDescription(tables: seq<string>, columns: string -> seq<Column>): (r: string)
    ensures tables == [] ==> r == ""
  {
    Join("\n\n", Values(FromItems(DescriptionItems(tables, columns))))
  }

  /** The joined pieces are the descriptions of the distinct table names, in
      order of first occurrence: a repeated name contributes one piece. */
  lemma {:induction false} DbDescriptionPieces(tables: seq<string>, columns: string -> seq<Column>)
    ensures var names := FirstOccurrences(tables);
      DbDescription(tables, columns)
        == Join("\n\n", seq(|names|, i requires 0 <= i < |names| => TableDescription(names[i], columns(names[i]))))
  {
    var pairs := DescriptionItems(tables, columns);
    var f := t => TableDescription(t, columns(t));
    assert Firsts(pairs) == tables;
    FromItemsValuesOfKeys(pairs, f);
    var names := FirstOccurrences(tables);
    var pieces := seq(|names|, i requires 0 <= i < |names| => TableDescription(names[i], columns(names[i])));
    assert Values(FromItems(pairs)) == pieces;
  }
}
