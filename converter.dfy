/**
 * `PumlToDDLConverter` (try.py:38-324, ddlgeneratot.py:30-209): the object
 * whose methods combine the documents, fill its dictionaries and lists while
 * parsing, and build the DDL by appending to lists. Each method is proved to
 * compute what the functions of Combiner, Parser and DdlGen describe.
 */
module Converter {
  import opened Wrappers
  import opened Text
  import opened Patterns
  import opened Schema
  import opened Combiner
  import opened Parser
  import opened DdlGen

  class PumlToDdlConverter {
    /** Which program, and for try.py which target dialect. */
    const variant: Variant
    var tables: TableMap
    var relationships: seq<Relationship>
    var attributes: map<string, Attribute>
    var combinedContent: string

    constructor(variant: Variant)
      ensures this.variant == variant
      ensures tables == [] && relationships == [] && attributes == map[] && combinedContent == ""
    {
      this.variant := variant;
      tables := [];
      relationships := [];
      attributes := map[];
      combinedContent := "";
    }

    /** `combine_files`: grows the combined text one kept relationship line at a time. */
    method CombineFiles(attributesContent: string, tablesContent: string, erContent: string) returns (combined: string)
      ensures combined == Combine(variant, attributesContent, tablesContent, erContent)
    {
      combined := HeaderLine + "\n";
      combined := combined + (CleanContent(attributesContent) + "\n");
      combined := combined + (CleanContent(tablesContent) + "\n");
      ghost var prefix := combined;
      var lines := SplitOn(CleanContent(erContent), '\n');
      var i := 0;
      while i < |lines|
        invariant 0 <= i <= |lines|
        invariant combined == prefix + Terminated(KeptErLines(variant, lines[..i]))
      {
        KeptStep(variant, lines, i);
        if KeepsErLine(variant, lines[i]) {
          AppendLine(prefix, Terminated(KeptErLines(variant, lines[..i])), lines[i]);
          combined := combined + lines[i] + "\n";
        }
        i := i + 1;
      }
      assert lines[..i] == lines;
      combined := combined + Footer;
      CombineShape(HeaderLine, CleanContent(attributesContent), CleanContent(tablesContent),
        Terminated(KeptErLines(variant, lines)), Footer);
    }

    /**
     * `parse_combined_content`: stores every attribute declaration, then
     * every table block (its columns built line by line) using the finished
     * catalog, then appends the relationships of all lines in order.
     */
    method ParseCombinedContent(content: string)
      modifies this
      ensures attributes == Catalog(old(attributes), FindAttributes(content, 0))
      ensures tables == TablesAfter(old(tables), attributes, FindTables(content, 0))
      ensures relationships == old(relationships) + RelationshipsOf(variant, SplitOn(content, '\n'))
      ensures combinedContent == old(combinedContent)
    {
      StoreAttributes(content);
      StoreTables(content);
      StoreRelationships(content);
    }

    /** The first pass: each `!define` match overwrites the catalog entry of its name. */
    method StoreAttributes(content: string)
      modifies this
      ensures attributes == Catalog(old(attributes), FindAttributes(content, 0))
      ensures tables == old(tables) && relationships == old(relationships) && combinedContent == old(combinedContent)
    {
      var decls := FindAttributes(content, 0);
      var i := 0;
      while i < |decls|
        invariant 0 <= i <= |decls|
        invariant attributes == Catalog(old(attributes), decls[..i])
        invariant tables == old(tables) && relationships == old(relationships) && combinedContent == old(combinedContent)
      {
        CatalogStep(old(attributes), decls, i);
        var d := decls[i];
        attributes := attributes[d.name := CatalogEntry(d)];
        i := i + 1;
      }
      assert decls[..i] == decls;
    }

    /** The second pass: each table block, with its columns, is stored under its name. */
    method StoreTables(content: string)
      modifies this
      ensures tables == TablesAfter(old(tables), attributes, FindTables(content, 0))
      ensures attributes == old(attributes) && relationships == old(relationships) && combinedContent == old(combinedContent)
    {
      var blocks := FindTables(content, 0);
      var j := 0;
      while j < |blocks|
        invariant 0 <= j <= |blocks|
        invariant tables == TablesAfter(old(tables), attributes, blocks[..j])
        invariant attributes == old(attributes) && relationships == old(relationships) && combinedContent == old(combinedContent)
      {
        TablesStep(old(tables), attributes, blocks, j);
        StoreTable(blocks[j]);
        j := j + 1;
      }
      assert blocks[..j] == blocks;
    }

    /** `self.tables[table_name] = Table(...)` for one block. */
    method StoreTable(b: TableBlock)
      modifies this
      ensures tables == Put(old(tables), b.id, BuildTable(attributes, b))
      ensures attributes == old(attributes) && relationships == old(relationships) && combinedContent == old(combinedContent)
    {
      var columns := ParseColumns(b.body);
      tables := Put(tables, b.id, Table(b.id, DisplayName(b.description), columns, None));
    }

    /** The third pass: every line of the document that reads as a relationship is appended. */
    method StoreRelationships(content: string)
      modifies this
      ensures relationships == old(relationships) + RelationshipsOf(variant, SplitOn(content, '\n'))
      ensures attributes == old(attributes) && tables == old(tables) && combinedContent == old(combinedContent)
    {
      var lines := SplitOn(content, '\n');
      var k := 0;
      while k < |lines|
        invariant 0 <= k <= |lines|
        invariant relationships == old(relationships) + RelationshipsOf(variant, lines[..k])
        invariant attributes == old(attributes) && tables == old(tables) && combinedContent == old(combinedContent)
      {
        RelationshipsStep(variant, lines, k);
        var found := RelationshipOfLine(lines[k]);
        var added := if found.Some? then [found.value] else [];
        relationships := relationships + added;
        k := k + 1;
      }
      assert lines[..k] == lines;
    }

    /** One line of the third pass: an operator line with at least three tokens gives tokens 0, 2 and 1. */
    method RelationshipOfLine(line: string) returns (r: Option<Relationship>)
      ensures r == RelationshipOf(variant, line)
    {
      r := None;
      if IsRelationshipLine(variant, line) {
        var parts := SplitWs(Strip(line));
        if |parts| >= 3 {
          r := Some(Relationship(parts[0], parts[2], parts[1]));
        }
      }
    }

    /** The column loop of one table body: skipped lines give nothing, the rest one column each. */
    method ParseColumns(body: string) returns (columns: seq<Column>)
      ensures columns == ColumnsOf(attributes, SplitOn(body, '\n'))
    {
      var lines := SplitOn(body, '\n');
      columns := [];
      var i := 0;
      while i < |lines|
        invariant 0 <= i <= |lines|
        invariant columns == ColumnsOf(attributes, lines[..i])
      {
        ColumnsStep(attributes, lines, i);
        var found := ColumnOfLine(lines[i]);
        var added := if found.Some? then [found.value] else [];
        columns := columns + added;
        i := i + 1;
      }
      assert lines[..i] == lines;
    }

    /** One line of a table body: a skipped line gives nothing, any other the column it describes. */
    method ColumnOfLine(raw: string) returns (c: Option<Column>)
      ensures c == ParseColumnLine(attributes, raw)
    {
      var line := Strip(raw);
      if IsSkippedLine(line) {
        c := None;
      } else {
        c := Some(ColumnOf(attributes, line));
      }
    }

    /** `generate_ddl`: the table blocks in dictionary order, then the foreign keys. */
    method GenerateDdl() returns (r: Result<string, DdlError>)
      ensures r == Ddl(variant, tables, relationships)
    {
      var ddl: seq<string> := [];
      var i := 0;
      while i < |tables|
        invariant 0 <= i <= |tables|
        invariant TableStatements(variant, tables[..i]) == Ok(ddl)
      {
        var block := TableBlockDdl(tables[i].0, tables[i].1);
        if block.Err? {
          TableStatementsFail(variant, tables, i, ddl);
          return Err(block.error);
        }
        TableStatementsStep(variant, tables, i, ddl, block.value);
        ddl := ddl + [block.value];
        i := i + 1;
      }
      assert tables[..i] == tables;
      ddl := AppendForeignKeys(ddl);
      return Ok(Join(ddl, "\n\n"));
    }

    /** The relationship loop of `generate_ddl`. */
    method AppendForeignKeys(ddl: seq<string>) returns (out: seq<string>)
      ensures out == ddl + ForeignKeyStatements(tables, relationships)
    {
      out := ddl;
      var k := 0;
      while k < |relationships|
        invariant 0 <= k <= |relationships|
        invariant out == ddl + ForeignKeyStatements(tables, relationships[..k])
      {
        ForeignKeyStep(tables, relationships, k);
        Associate(ddl, ForeignKeyStatements(tables, relationships[..k]), RelationshipStatements(tables, relationships[k]));
        out := AppendRelationship(out, relationships[k]);
        k := k + 1;
      }
      assert relationships[..k] == relationships;
    }

    /** One relationship: an `ALTER TABLE` per foreign-key column of its target, when both tables exist. */
    method AppendRelationship(ddl: seq<string>, rel: Relationship) returns (out: seq<string>)
      ensures out == ddl + RelationshipStatements(tables, rel)
    {
      out := ddl;
      var fromTable := Lookup(tables, rel.fromTable);
      var toTable := Lookup(tables, rel.toTable);
      if fromTable.Some? && toTable.Some? {
        var fkColumns := ForeignKeyColumns(toTable.value.columns);
        var n := 0;
        while n < |fkColumns|
          invariant 0 <= n <= |fkColumns|
          invariant out == ddl + ForeignKeysFor(fromTable.value, toTable.value, fkColumns[..n])
        {
          ForeignKeysForStep(fromTable.value, toTable.value, fkColumns, n);
          Associate(ddl, ForeignKeysFor(fromTable.value, toTable.value, fkColumns[..n]),
                    [ForeignKeyStatement(fromTable.value, toTable.value, fkColumns[n])]);
          out := out + [ForeignKeyStatement(fromTable.value, toTable.value, fkColumns[n])];
          n := n + 1;
        }
        assert fkColumns[..n] == fkColumns;
      } else {
        assert ddl + [] == ddl;
      }
    }

    /** One pass of the table loop: header, column definitions and key list, key clause, Oracle comments. */
    method TableBlockDdl(name: string, table: Table) returns (r: Result<string, DdlError>)
      ensures r == TableStatement(variant, name, table)
    {
      var tableDdl: seq<string> := [];
      if IsOracle(variant) && Truthy(table.japaneseName) {
        tableDdl := tableDdl + ["COMMENT ON TABLE " + name + " IS '" + table.japaneseName.value + "';"];
      } else if Truthy(table.japaneseName) {
        tableDdl := tableDdl + ["-- Table: " + name + " (" + table.japaneseName.value + ")"];
      }
      assert tableDdl == TableHeader(variant, name, table.japaneseName);
      tableDdl := tableDdl + ["CREATE TABLE " + name + " ("];

      var definitions, primaryKeys := ColumnLoop(table.columns);
      var keys := AllNames(primaryKeys);
      if keys.None? {
        return Err(UnnamedKey(name));
      }
      if primaryKeys != [] {
        definitions := definitions + [KeyClause(name, keys.value)];
      }
      assert definitions == TableDefinitions(variant, name, table.columns, keys.value);
      tableDdl := tableDdl + [Join(definitions, ",\n"), ");"];

      var comments: seq<string> := [];
      if IsOracle(variant) {
        comments := OracleComments(name, table.columns);
      }
      tableDdl := tableDdl + comments;
      TableLinesShape(TableHeader(variant, name, table.japaneseName), "CREATE TABLE " + name + " (",
        Join(definitions, ",\n"), ");", ColumnComments(variant, name, table.columns));
      return Ok(Join(tableDdl, "\n"));
    }

    /** The column loop: one definition per column, and the names of the primary-key columns. */
    method ColumnLoop(cols: seq<Column>) returns (definitions: seq<string>, primaryKeys: seq<Option<string>>)
      ensures definitions == ColumnDefinitions(variant, cols)
      ensures primaryKeys == KeyNames(cols)
    {
      definitions := [];
      primaryKeys := [];
      var i := 0;
      while i < |cols|
        invariant 0 <= i <= |cols|
        invariant definitions == ColumnDefinitions(variant, cols[..i])
        invariant primaryKeys == KeyNames(cols[..i])
      {
        ColumnLoopStep(variant, cols, i);
        KeyNamesStep(cols, i);
        var c := cols[i];
        var colDef := ColumnDefinitionOf(c);
        if c.isPrimaryKey {
          primaryKeys := primaryKeys + [c.name];
        }
        definitions := definitions + [colDef];
        i := i + 1;
      }
      assert cols[..i] == cols;
    }

    /** `" ".join(col_def)` after the parts have been appended. */
    method ColumnDefinitionOf(c: Column) returns (d: string)
      ensures d == ColumnDefinition(variant, c)
    {
      var parts := ["    " + NameText(c.name)];
      parts := parts + [ColumnType(variant, c)];
      if c.isGenerated {
        parts := parts + [Identity(variant)];
      }
      if !IsOracle(variant) && HasComment(c) {
        parts := parts + ["-- " + CommentText(c)];
      }
      assert parts == ColumnParts(variant, c);
      d := Join(parts, " ");
    }

    /** Oracle's comment loop after the table. */
    method OracleComments(name: string, cols: seq<Column>) returns (comments: seq<string>)
      requires IsOracle(variant)
      ensures comments == ColumnComments(variant, name, cols)
    {
      comments := [];
      var k := 0;
      while k < |cols|
        invariant 0 <= k <= |cols|
        invariant comments == ColumnComments(variant, name, cols[..k])
      {
        assert cols[..k + 1][..k] == cols[..k];
        if HasComment(cols[k]) {
          comments := comments + [CommentStatement(name, cols[k])];
        }
        k := k + 1;
      }
      assert cols[..k] == cols;
    }
  }

  lemma TableStatementsStep(v: Variant, tables: TableMap, i: nat, front: seq<string>, block: string)
    requires i < |tables|
    requires TableStatements(v, tables[..i]) == Ok(front)
    requires TableStatement(v, tables[i].0, tables[i].1) == Ok(block)
    ensures TableStatements(v, tables[..i + 1]) == Ok(front + [block])
  {
    assert tables[..i + 1][..i] == tables[..i];
  }

  /** A failing table ends generation with its error. */
  lemma TableStatementsFail(v: Variant, tables: TableMap, i: nat, front: seq<string>)
    requires i < |tables|
    requires TableStatements(v, tables[..i]) == Ok(front)
    requires TableStatement(v, tables[i].0, tables[i].1).Err?
    ensures TableStatements(v, tables) == Err(TableStatement(v, tables[i].0, tables[i].1).error)
  {
    assert tables[..i + 1][..i] == tables[..i];
    CollectFails((e: (string, Table)) => TableStatement(v, e.0, e.1), tables, i + 1);
  }

  lemma {:induction false} CollectFails<T>(f: T -> Result<string, DdlError>, xs: seq<T>, n: nat)
    requires n <= |xs| && CollectOk(f, xs[..n]).Err?
    ensures CollectOk(f, xs) == CollectOk(f, xs[..n])
    decreases |xs| - n
  {
    if n < |xs| {
      assert xs[..n + 1][..n] == xs[..n];
      CollectFails(f, xs, n + 1);
    } else {
      assert xs[..n] == xs;
    }
  }

  lemma ForeignKeyStep(tables: TableMap, rels: seq<Relationship>, k: nat)
    requires k < |rels|
    ensures ForeignKeyStatements(tables, rels[..k + 1])
         == ForeignKeyStatements(tables, rels[..k]) + RelationshipStatements(tables, rels[k])
  {
    assert rels[..k + 1][..k] == rels[..k];
  }

  lemma ForeignKeysForStep(from: Table, to: Table, cols: seq<Column>, n: nat)
    requires n < |cols|
    ensures ForeignKeysFor(from, to, cols[..n + 1]) == ForeignKeysFor(from, to, cols[..n]) + [ForeignKeyStatement(from, to, cols[n])]
  {
    assert cols[..n + 1][..n] == cols[..n];
  }

  lemma Associate(a: seq<string>, b: seq<string>, c: seq<string>)
    ensures a + b + c == a + (b + c)
  {
  }

  lemma ColumnLoopStep(v: Variant, cols: seq<Column>, i: nat)
    requires i < |cols|
    ensures ColumnDefinitions(v, cols[..i + 1]) == ColumnDefinitions(v, cols[..i]) + [ColumnDefinition(v, cols[i])]
  {
    MapSeqSnoc((c: Column) => ColumnDefinition(v, c), cols, i);
  }

  lemma KeyNamesStep(cols: seq<Column>, i: nat)
    requires i < |cols|
    ensures KeyNames(cols[..i + 1]) == KeyNames(cols[..i]) + if cols[i].isPrimaryKey then [cols[i].name] else []
  {
    assert cols[..i + 1][..i] == cols[..i];
  }


  lemma TableLinesShape(header: seq<string>, create: string, body: string, close: string, comments: seq<string>)
    ensures header + [create] + [body, close] + comments == header + [create, body, close] + comments
  {
  }

  lemma CatalogStep(m: map<string, Attribute>, decls: seq<AttributeDecl>, i: nat)
    requires i < |decls|
    ensures Catalog(m, decls[..i + 1]) == Catalog(m, decls[..i])[decls[i].name := CatalogEntry(decls[i])]
  {
    assert decls[..i + 1][..i] == decls[..i];
  }

  lemma TablesStep(m: TableMap, catalog: map<string, Attribute>, blocks: seq<TableBlock>, j: nat)
    requires j < |blocks|
    ensures TablesAfter(m, catalog, blocks[..j + 1])
         == Put(TablesAfter(m, catalog, blocks[..j]), blocks[j].id, BuildTable(catalog, blocks[j]))
  {
    assert blocks[..j + 1][..j] == blocks[..j];
  }

  lemma ColumnsStep(catalog: map<string, Attribute>, lines: seq<string>, i: nat)
    requires i < |lines|
    ensures ColumnsOf(catalog, lines[..i + 1])
         == ColumnsOf(catalog, lines[..i])
            + if ParseColumnLine(catalog, lines[i]).Some? then [ParseColumnLine(catalog, lines[i]).value] else []
  {
    assert lines[..i + 1][..i] == lines[..i];
  }

  lemma RelationshipsStep(variant: Variant, lines: seq<string>, k: nat)
    requires k < |lines|
    ensures RelationshipsOf(variant, lines[..k + 1])
         == RelationshipsOf(variant, lines[..k])
            + if RelationshipOf(variant, lines[k]).Some? then [RelationshipOf(variant, lines[k]).value] else []
  {
    assert lines[..k + 1][..k] == lines[..k];
  }


  /** One more line of the relationship document: it is added, followed by a line break, when the filter keeps it. */
  lemma KeptStep(variant: Variant, lines: seq<string>, i: nat)
    requires i < |lines|
    ensures Terminated(KeptErLines(variant, lines[..i + 1]))
         == if KeepsErLine(variant, lines[i]) then Terminated(KeptErLines(variant, lines[..i])) + lines[i] + "\n"
            else Terminated(KeptErLines(variant, lines[..i]))
  {
    var front := lines[..i + 1];
    assert front[..i] == lines[..i];
    assert front[i] == lines[i];
    var kept := KeptErLines(variant, lines[..i]);
    if KeepsErLine(variant, lines[i]) {
      assert KeptErLines(variant, front) == kept + [lines[i]];
      TerminatedSnoc(kept, lines[i]);
    } else {
      assert KeptErLines(variant, front) == kept;
    }
  }

  lemma TerminatedSnoc(lines: seq<string>, line: string)
    ensures Terminated(lines + [line]) == Terminated(lines) + line + "\n"
  {
    assert (lines + [line])[..|lines|] == lines;
  }

  lemma AppendLine(prefix: string, kept: string, line: string)
    ensures prefix + kept + line + "\n" == prefix + (kept + line + "\n")
  {
  }

  lemma CombineShape(h: string, a: string, t: string, k: string, f: string)
    ensures h + "\n" + (a + "\n") + (t + "\n") + k + f == h + "\n" + (a + "\n" + (t + "\n" + (k + f)))
  {
  }
}
