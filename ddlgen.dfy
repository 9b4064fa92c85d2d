/**
 * DDL generation from the parsed tables and relationships: `generate_ddl`
 * of try.py:246-324 and `generate_ddl` of ddlgeneratot.py:149-209, as
 * functions of the converter's state. The converter's method that builds
 * the same text with loops is proved equal to `Ddl`.
 */
module DdlGen {
  import opened Wrappers
  import opened Text
  import opened Schema
  import opened Dialects
  import Parser

  /**
   * The one way generation fails: `', '.join(primary_keys)` raises a
   * `TypeError` when a primary-key column has no name. `table` is the
   * table being written when that happens.
   */
  datatype DdlError = UnnamedKey(table: string)

  /** `f"{name}"` of an optional name: Python writes `None` for a missing one. */
  function NameText(name: Option<string>): string {
    if name.Some? then name.value else "None"
  }

  /** `column.data_type if column.data_type else "VARCHAR(255)"` */
  function RawType(c: Column): string {
    if Truthy(c.dataType) then c.dataType.value else Parser.DefaultType
  }

  /** The column type as written: converted for the dialect by try.py, as is by ddlgeneratot.py. */
  function ColumnType(v: Variant, c: Column): string {
    match v
    case Basic => RawType(c)
    case Versioned(d) => ConvertDataType(d, RawType(c))
  }

  function Identity(v: Variant): string {
    match v
    case Basic => "GENERATED ALWAYS AS IDENTITY"
    case Versioned(d) => IdentitySyntax(d)
  }

  predicate IsOracle(v: Variant) {
    v == Versioned(Oracle)
  }

  predicate HasComment(c: Column) {
    Truthy(c.japaneseName) || Truthy(c.description)
  }

  /** The truthy ones of the Japanese name and the description, in that order. */
  function CommentParts(c: Column): (r: seq<string>)
    ensures r != [] <==> HasComment(c)
    ensures forall p <- r :: p != ""
  {
    (if Truthy(c.japaneseName) then [c.japaneseName.value] else [])
      + (if Truthy(c.description) then [c.description.value] else [])
  }

  function CommentText(c: Column): string {
    Join(CommentParts(c), " | ")
  }

  /**
   * The parts of one column line, joined by spaces: name, type, identity
   * clause when generated, and a trailing `--` comment except under Oracle,
   * which writes its comments as separate statements.
   */
  function ColumnParts(v: Variant, c: Column): seq<string> {
    ["    " + NameText(c.name), ColumnType(v, c)]
      + (if c.isGenerated then [Identity(v)] else [])
      + (if !IsOracle(v) && HasComment(c) then ["-- " + CommentText(c)] else [])
  }

  function ColumnDefinition(v: Variant, c: Column): string {
    Join(ColumnParts(v, c), " ")
  }

  /** `f` applied to each element, in order. */
  function MapSeq<T, U>(f: T -> U, xs: seq<T>): (r: seq<U>)
    ensures |r| == |xs|
    ensures forall i | 0 <= i < |xs| :: r[i] == f(xs[i])
  {
    seq(|xs|, i requires 0 <= i < |xs| => f(xs[i]))
  }

  lemma MapSeqSnoc<T, U>(f: T -> U, xs: seq<T>, i: nat)
    requires i < |xs|
    ensures MapSeq(f, xs[..i + 1]) == MapSeq(f, xs[..i]) + [f(xs[i])]
  {
    var a, b := MapSeq(f, xs[..i + 1]), MapSeq(f, xs[..i]) + [f(xs[i])];
    assert |a| == |b|;
    forall k | 0 <= k < |a|
      ensures a[k] == b[k]
    {
      assert xs[..i + 1][k] == xs[k];
    }
  }

  function ColumnDefinitions(v: Variant, cols: seq<Column>): seq<string> {
    MapSeq((c: Column) => ColumnDefinition(v, c), cols)
  }

  /** `primary_keys`: the names of the primary-key columns, in column order. */
  function KeyNames(cols: seq<Column>): seq<Option<string>> {
    if cols == [] then []
    else (
      KeyNames(cols[..|cols| - 1])
        + (if cols[|cols| - 1].isPrimaryKey then [cols[|cols| - 1].name] else []))
  }

  /** The names when none is missing; `None` when `', '.join` would raise. */
  function AllNames(names: seq<Option<string>>): (r: Option<seq<string>>)
    ensures r.Some? <==> None !in names
    ensures r.Some? ==> |r.value| == |names| && forall i | 0 <= i < |names| :: names[i] == Some(r.value[i])
  {
    if names == [] then Some([])
    else match AllNames(names[..|names| - 1])
      case None => None
      case Some(front) =>
        match names[|names| - 1]
        case None => None
        case Some(n) => Some(front + [n])
  }

  function KeyClause(table: string, keys: seq<string>): string {
    "    CONSTRAINT pk_" + table + " PRIMARY KEY (" + Join(keys, ", ") + ")"
  }

  /** The lines inside `CREATE TABLE ... ( ... );`: one per column, then the key clause if any. */
  function TableDefinitions(v: Variant, table: string, cols: seq<Column>, keys: seq<string>): seq<string> {
    ColumnDefinitions(v, cols) + (if keys != [] then [KeyClause(table, keys)] else [])
  }

  /** The line before `CREATE TABLE`: Oracle's `COMMENT ON TABLE` or a `--` comment, when the table has a Japanese name. */
  function TableHeader(v: Variant, table: string, japaneseName: Option<string>): seq<string> {
    if IsOracle(v) && Truthy(japaneseName) then
      ["COMMENT ON TABLE " + table + " IS '" + japaneseName.value + "';"]
    else if Truthy(japaneseName) then
      ["-- Table: " + table + " (" + japaneseName.value + ")"]
    else []
  }

  function CommentStatement(table: string, c: Column): string {
    "COMMENT ON COLUMN " + table + "." + NameText(c.name) + " IS '" + CommentText(c) + "';"
  }

  /** Oracle's column comments after the table, one per commented column; none for the other targets. */
  function ColumnComments(v: Variant, table: string, cols: seq<Column>): seq<string> {
    if !IsOracle(v) || cols == [] then []
    else (
      ColumnComments(v, table, cols[..|cols| - 1])
        + (if HasComment(cols[|cols| - 1]) then [CommentStatement(table, cols[|cols| - 1])] else []))
  }

  /** The lines of one table's block, given the primary-key names. */
  function TableLines(v: Variant, table: string, t: Table, keys: seq<string>): seq<string> {
    TableHeader(v, table, t.japaneseName)
      + ["CREATE TABLE " + table + " (", Join(TableDefinitions(v, table, t.columns, keys), ",\n"), ");"]
      + ColumnComments(v, table, t.columns)
  }

  /** One table's block of DDL, or the error its unnamed primary key raises. */
  function TableStatement(v: Variant, table: string, t: Table): (r: Result<string, DdlError>)
    ensures r.Err? ==> r.error == UnnamedKey(table)
  {
    match AllNames(KeyNames(t.columns))
    case None => Err(UnnamedKey(table))
    case Some(keys) => Ok(Join(TableLines(v, table, t, keys), "\n"))
  }

  /** The values `f` gives each element, in order, or the first error. */
  function CollectOk<T>(f: T -> Result<string, DdlError>, xs: seq<T>): Result<seq<string>, DdlError> {
    if xs == [] then Ok([])
    else match CollectOk(f, xs[..|xs| - 1])
      case Err(e) => Err(e)
      case Ok(front) =>
        match f(xs[|xs| - 1])
        case Err(e) => Err(e)
        case Ok(x) => Ok(front + [x])
  }

  /** A failed collection reports the error of one of the elements. */
  lemma {:induction false} CollectOkError<T>(f: T -> Result<string, DdlError>, xs: seq<T>)
    ensures CollectOk(f, xs).Err? ==> exists i | 0 <= i < |xs| :: f(xs[i]) == Err(CollectOk(f, xs).error)
    decreases |xs|
  {
    if xs != [] {
      CollectOkError(f, xs[..|xs| - 1]);
      if CollectOk(f, xs[..|xs| - 1]).Err? {
        var i :| 0 <= i < |xs| - 1 && f(xs[..|xs| - 1][i]) == Err(CollectOk(f, xs[..|xs| - 1]).error);
        assert xs[..|xs| - 1][i] == xs[i];
      }
    }
  }

  /** The table blocks in dictionary order; the first failing table stops generation. */
  function TableStatements(v: Variant, tables: TableMap): Result<seq<string>, DdlError> {
    CollectOk((e: (string, Table)) => TableStatement(v, e.0, e.1), tables)
  }


  /** `[col for col in to_table.columns if col.is_foreign_key]` */
  function ForeignKeyColumns(cols: seq<Column>): seq<Column> {
    if cols == [] then []
    else (
      ForeignKeyColumns(cols[..|cols| - 1])
        + (if cols[|cols| - 1].isForeignKey then [cols[|cols| - 1]] else []))
  }

  function ForeignKeyStatement(from: Table, to: Table, c: Column): string {
    "\nALTER TABLE " + to.name
      + "\n    ADD CONSTRAINT fk_" + to.name + "_" + from.name
      + "\n    FOREIGN KEY (" + NameText(c.name) + ")"
      + "\n    REFERENCES " + from.name + " (" + NameText(c.name) + ");"
  }

  /** The loop of try.py:317-322 over the foreign-key columns `cols`: one statement per column, in order. */
  function ForeignKeysFor(from: Table, to: Table, cols: seq<Column>): (r: seq<string>)
    ensures |r| == |cols|
    ensures forall i | 0 <= i < |cols| :: r[i] == ForeignKeyStatement(from, to, cols[i])
    decreases |cols|
  {
    if cols == [] then []
    else ForeignKeysFor(from, to, cols[..|cols| - 1]) + [ForeignKeyStatement(from, to, cols[|cols| - 1])]
  }

  /** The `ALTER TABLE` statements of one relationship: none unless both of its tables exist. */
  function RelationshipStatements(tables: TableMap, r: Relationship): seq<string> {
    match (Lookup(tables, r.fromTable), Lookup(tables, r.toTable))
    case (Some(from), Some(to)) => ForeignKeysFor(from, to, ForeignKeyColumns(to.columns))
    case _ => []
  }

  /** The statements `f` gives each element, in order. */
  function FlatMap<T>(f: T -> seq<string>, xs: seq<T>): seq<string> {
    if xs == [] then [] else FlatMap(f, xs[..|xs| - 1]) + f(xs[|xs| - 1])
  }

  function ForeignKeyStatements(tables: TableMap, rels: seq<Relationship>): seq<string> {
    FlatMap(r => RelationshipStatements(tables, r), rels)
  }

  /** `generate_ddl`: the table blocks, then the foreign keys, separated by blank lines. */
  function Ddl(v: Variant, tables: TableMap, rels: seq<Relationship>): (r: Result<string, DdlError>)
    ensures r.Err? ==> exists i | 0 <= i < |tables| :: r.error == UnnamedKey(tables[i].0)
  {
    CollectOkError((e: (string, Table)) => TableStatement(v, e.0, e.1), tables);
    match TableStatements(v, tables)
    case Err(e) => Err(e)
    case Ok(blocks) => Ok(Join(blocks + ForeignKeyStatements(tables, rels), "\n\n"))
  }

  // ---------------------------------------------------------------------
  // Properties

  predicate UnnamedKeyColumn(c: Column) {
    c.isPrimaryKey && c.name.None?
  }

  /** `primary_keys` is empty exactly when no column is a primary key. */
  lemma {:induction false} KeyNamesEmpty(cols: seq<Column>)
    ensures KeyNames(cols) == [] <==> forall c <- cols :: !c.isPrimaryKey
  {
    if cols != [] {
      var front := cols[..|cols| - 1];
      KeyNamesEmpty(front);
      assert cols == front + [cols[|cols| - 1]];
    }
  }

  /** A name is in `primary_keys` exactly when a primary-key column carries it. */
  lemma {:induction false} KeyNamesMembers(cols: seq<Column>)
    ensures forall o :: o in KeyNames(cols) <==> exists c <- cols :: c.isPrimaryKey && c.name == o
  {
    if cols != [] {
      var front := cols[..|cols| - 1];
      KeyNamesMembers(front);
      assert cols == front + [cols[|cols| - 1]];
    }
  }

  /** `primary_keys` of a concatenation: the key columns keep their declaration order. */
  lemma {:induction false} KeyNamesConcat(a: seq<Column>, b: seq<Column>)
    ensures KeyNames(a + b) == KeyNames(a) + KeyNames(b)
    decreases |b|
  {
    if b == [] {
      assert a + b == a;
    } else {
      var front := b[..|b| - 1];
      var ab := a + b;
      assert ab[..|ab| - 1] == a + front;
      assert ab[|ab| - 1] == b[|b| - 1];
      KeyNamesConcat(a, front);
    }
  }

  /** A table block fails exactly when one of its primary-key columns has no name. */
  lemma TableStatementFails(v: Variant, table: string, t: Table)
    ensures TableStatement(v, table, t).Err? <==> exists c <- t.columns :: UnnamedKeyColumn(c)
  {
    KeyNamesMembers(t.columns);
  }

  /** The primary-key clause is present exactly when some column is a primary key. */
  lemma KeyClausePresent(v: Variant, table: string, t: Table, keys: seq<string>)
    requires AllNames(KeyNames(t.columns)) == Some(keys)
    ensures |TableDefinitions(v, table, t.columns, keys)|
         == |t.columns| + (if exists c <- t.columns :: c.isPrimaryKey then 1 else 0)
    ensures (exists c <- t.columns :: c.isPrimaryKey)
         <==> TableDefinitions(v, table, t.columns, keys)[|t.columns|..] == [KeyClause(table, keys)]
  {
    KeyNamesEmpty(t.columns);
  }

  lemma {:induction false} CollectOkValues<T>(f: T -> Result<string, DdlError>, xs: seq<T>)
    ensures CollectOk(f, xs).Ok? <==> forall i | 0 <= i < |xs| :: f(xs[i]).Ok?
    ensures CollectOk(f, xs).Ok? ==>
      |CollectOk(f, xs).value| == |xs| && forall i | 0 <= i < |xs| :: f(xs[i]) == Ok(CollectOk(f, xs).value[i])
  {
    if xs != [] {
      CollectOkValues(f, xs[..|xs| - 1]);
    }
  }

  /** Succeeding table blocks: one per table, in dictionary order. */
  lemma TableStatementsOk(v: Variant, tables: TableMap)
    ensures TableStatements(v, tables).Ok? <==> forall i | 0 <= i < |tables| :: TableStatement(v, tables[i].0, tables[i].1).Ok?
    ensures TableStatements(v, tables).Ok? ==>
      |TableStatements(v, tables).value| == |tables|
      && forall i | 0 <= i < |tables| :: TableStatement(v, tables[i].0, tables[i].1) == Ok(TableStatements(v, tables).value[i])
  {
    CollectOkValues((e: (string, Table)) => TableStatement(v, e.0, e.1), tables);
  }

  /** Generation fails exactly when some table has an unnamed primary-key column. */
  lemma DdlFails(v: Variant, tables: TableMap, rels: seq<Relationship>)
    ensures Ddl(v, tables, rels).Err? <==> exists i, c | 0 <= i < |tables| && c in tables[i].1.columns :: UnnamedKeyColumn(c)
  {
    TableStatementsOk(v, tables);
    forall i | 0 <= i < |tables|
      ensures TableStatement(v, tables[i].0, tables[i].1).Err? <==> exists c <- tables[i].1.columns :: UnnamedKeyColumn(c)
    {
      TableStatementFails(v, tables[i].0, tables[i].1);
    }
  }

  /** Oracle writes one `COMMENT ON COLUMN` per commented column; the other targets write none. */
  lemma {:induction false} ColumnCommentsCount(v: Variant, table: string, cols: seq<Column>)
    ensures !IsOracle(v) ==> ColumnComments(v, table, cols) == []
    ensures IsOracle(v) ==> |ColumnComments(v, table, cols)| == |CommentedColumns(cols)|
    ensures IsOracle(v) ==> forall i | 0 <= i < |CommentedColumns(cols)| ::
      ColumnComments(v, table, cols)[i] == CommentStatement(table, CommentedColumns(cols)[i])
  {
    if cols != [] {
      ColumnCommentsCount(v, table, cols[..|cols| - 1]);
    }
  }

  function CommentedColumns(cols: seq<Column>): seq<Column> {
    if cols == [] then []
    else (
      CommentedColumns(cols[..|cols| - 1])
        + (if HasComment(cols[|cols| - 1]) then [cols[|cols| - 1]] else []))
  }

  /** The Oracle comment statements are for exactly the commented columns. */
  lemma {:induction false} CommentedColumnsMembers(cols: seq<Column>)
    ensures forall c :: c in CommentedColumns(cols) <==> c in cols && HasComment(c)
  {
    if cols != [] {
      var front := cols[..|cols| - 1];
      CommentedColumnsMembers(front);
      assert cols == front + [cols[|cols| - 1]];
    }
  }

  /** The foreign-key columns of a table are exactly its columns marked as foreign keys. */
  lemma {:induction false} ForeignKeyColumnsMembers(cols: seq<Column>)
    ensures forall c :: c in ForeignKeyColumns(cols) <==> c in cols && c.isForeignKey
  {
    if cols != [] {
      var front := cols[..|cols| - 1];
      ForeignKeyColumnsMembers(front);
      assert cols == front + [cols[|cols| - 1]];
    }
  }

  /**
   * A column line starts with the indented name and the type; the identity
   * clause follows exactly for generated columns.
   */
  lemma ColumnPartsShape(v: Variant, c: Column)
    ensures ColumnParts(v, c)[0] == "    " + NameText(c.name)
    ensures ColumnParts(v, c)[1] == ColumnType(v, c)
    ensures c.isGenerated <==> |ColumnParts(v, c)| > 2 && ColumnParts(v, c)[2] == IdentityClause
  {
    var head := ["    " + NameText(c.name), ColumnType(v, c)];
    var gen: seq<string> := if c.isGenerated then [Identity(v)] else [];
    var com: seq<string> := if !IsOracle(v) && HasComment(c) then ["-- " + CommentText(c)] else [];
    var p := ColumnParts(v, c);
    assert p == head + gen + com;
    assert p[0] == head[0] && p[1] == head[1];
    if c.isGenerated {
      assert p[2] == gen[0];
    } else if |p| > 2 {
      assert p[2] == com[0];
      CommentNotIdentity(c);
    }
  }

  lemma CommentNotIdentity(c: Column)
    ensures "-- " + CommentText(c) != IdentityClause
  {
    assert ("-- " + CommentText(c))[0] == '-';
  }

  /** ddlgeneratot.py writes the stored type, or `VARCHAR(255)` when there is none. */
  lemma BasicColumnType(c: Column)
    ensures Truthy(c.dataType) ==> ColumnType(Basic, c) == c.dataType.value
    ensures !Truthy(c.dataType) ==> ColumnType(Basic, c) == "VARCHAR(255)"
  {
  }

  /** The inline `--` comment: present outside Oracle exactly for commented columns, never under Oracle. */
  lemma InlineComment(v: Variant, c: Column)
    ensures |ColumnParts(v, c)| == 2 + (if c.isGenerated then 1 else 0) + (if !IsOracle(v) && HasComment(c) then 1 else 0)
    ensures !IsOracle(v) && HasComment(c) ==> ColumnParts(v, c)[|ColumnParts(v, c)| - 1] == "-- " + CommentText(c)
  {
  }

  /** Both programs write the identity clause the same way. */
  lemma IdentitySame(v: Variant)
    ensures Identity(v) == IdentityClause
  {
  }

  /** The comment text joins the parts with ` | `; a single part stands alone. */
  lemma CommentTextShape(c: Column)
    ensures Truthy(c.japaneseName) && !Truthy(c.description) ==> CommentText(c) == c.japaneseName.value
    ensures !Truthy(c.japaneseName) && Truthy(c.description) ==> CommentText(c) == c.description.value
    ensures Truthy(c.japaneseName) && Truthy(c.description)
         ==> CommentText(c) == c.japaneseName.value + " | " + c.description.value
  {
    if Truthy(c.japaneseName) && Truthy(c.description) {
      JoinCons(c.japaneseName.value, [c.description.value], " | ");
    }
  }

  /** One relationship adds an `ALTER TABLE` per foreign-key column of its target, when both tables exist. */
  lemma RelationshipStatementsCount(tables: TableMap, r: Relationship)
    ensures |RelationshipStatements(tables, r)|
         == if r.fromTable in Keys(tables) && r.toTable in Keys(tables)
            then |ForeignKeyColumns(Lookup(tables, r.toTable).value.columns)| else 0
  {
  }

  lemma {:induction false} FlatMapConcat<T>(f: T -> seq<string>, a: seq<T>, b: seq<T>)
    ensures FlatMap(f, a + b) == FlatMap(f, a) + FlatMap(f, b)
    decreases |b|
  {
    if b == [] {
      assert a + b == a;
    } else {
      var front := b[..|b| - 1];
      var ab := a + b;
      assert ab[..|ab| - 1] == a + front;
      assert ab[|ab| - 1] == b[|b| - 1];
      FlatMapConcat(f, a, front);
    }
  }

  /** The foreign-key statements of a concatenation of relationship lists. */
  lemma ForeignKeyStatementsConcat(tables: TableMap, a: seq<Relationship>, b: seq<Relationship>)
    ensures ForeignKeyStatements(tables, a + b) == ForeignKeyStatements(tables, a) + ForeignKeyStatements(tables, b)
  {
    FlatMapConcat(r => RelationshipStatements(tables, r), a, b);
  }

  /** All `CREATE TABLE` blocks come first, in dictionary order, then all `ALTER TABLE` statements. */
  lemma DdlOrder(v: Variant, tables: TableMap, rels: seq<Relationship>)
    requires Ddl(v, tables, rels).Ok?
    ensures exists blocks: seq<string> ::
      |blocks| == |tables|
      && (forall i | 0 <= i < |tables| :: TableStatement(v, tables[i].0, tables[i].1) == Ok(blocks[i]))
      && Ddl(v, tables, rels) == Ok(Join(blocks + ForeignKeyStatements(tables, rels), "\n\n"))
  {
    TableStatementsOk(v, tables);
    var blocks := TableStatements(v, tables).value;
    assert |blocks| == |tables|;
  }

  // ---------------------------------------------------------------------
  // ddlgeneratot.py writes what try.py writes for PostgreSQL

  lemma ColumnDefinitionBasic(c: Column)
    ensures ColumnDefinition(Basic, c) == ColumnDefinition(Versioned(PostgreSQL), c)
  {
    PostgresKeepsType(RawType(c));
    assert ColumnParts(Basic, c) == ColumnParts(Versioned(PostgreSQL), c);
  }

  lemma ColumnDefinitionsBasic(cols: seq<Column>)
    ensures ColumnDefinitions(Basic, cols) == ColumnDefinitions(Versioned(PostgreSQL), cols)
  {
    forall i | 0 <= i < |cols|
      ensures ColumnDefinitions(Basic, cols)[i] == ColumnDefinitions(Versioned(PostgreSQL), cols)[i]
    {
      ColumnDefinitionBasic(cols[i]);
    }
  }

  lemma TableStatementBasic(table: string, t: Table)
    ensures TableStatement(Basic, table, t) == TableStatement(Versioned(PostgreSQL), table, t)
  {
    ColumnDefinitionsBasic(t.columns);
    ColumnCommentsCount(Basic, table, t.columns);
    ColumnCommentsCount(Versioned(PostgreSQL), table, t.columns);
  }

  lemma {:induction false} CollectOkSame<T>(f: T -> Result<string, DdlError>, g: T -> Result<string, DdlError>, xs: seq<T>)
    requires forall x <- xs :: f(x) == g(x)
    ensures CollectOk(f, xs) == CollectOk(g, xs)
  {
    if xs != [] {
      CollectOkSame(f, g, xs[..|xs| - 1]);
      assert xs[|xs| - 1] in xs;
    }
  }

  lemma TableStatementsBasic(tables: TableMap)
    ensures TableStatements(Basic, tables) == TableStatements(Versioned(PostgreSQL), tables)
  {
    forall e <- tables
      ensures TableStatement(Basic, e.0, e.1) == TableStatement(Versioned(PostgreSQL), e.0, e.1)
    {
      TableStatementBasic(e.0, e.1);
    }
    CollectOkSame((e: (string, Table)) => TableStatement(Basic, e.0, e.1), (e: (string, Table)) => TableStatement(Versioned(PostgreSQL), e.0, e.1), tables);
  }

  /** Given the same parsed state, ddlgeneratot.py's DDL is try.py's PostgreSQL DDL. */
  lemma BasicIsPostgres(tables: TableMap, rels: seq<Relationship>)
    ensures Ddl(Basic, tables, rels) == Ddl(Versioned(PostgreSQL), tables, rels)
  {
    TableStatementsBasic(tables);
  }
}
