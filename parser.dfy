/**
 * What `parse_combined_content` (try.py:164-244, ddlgeneratot.py:67-147)
 * computes, as functions of the text and of the state it starts from: the
 * attribute catalog, the tables with their columns, and the relationships.
 */
module Parser {
  import opened Wrappers
  import opened Text
  import opened Patterns
  import opened Schema

  /** The dictionary entry stored for a declaration (try.py:175-180). */
  function CatalogEntry(d: AttributeDecl): Attribute {
    Attribute(d.columnCode, d.japaneseName, d.dataType, d.description)
  }

  /** `self.attributes` after the declarations have been stored in turn (try.py:168-180). */
  function Catalog(m: map<string, Attribute>, decls: seq<AttributeDecl>): (r: map<string, Attribute>)
    ensures r.Keys == m.Keys + (set d <- decls :: d.name)
    decreases |decls|
  {
    if decls == [] then m
    else
      var init := decls[..|decls| - 1];
      var d := decls[|decls| - 1];
      assert (set x <- decls :: x.name) == (set x <- init :: x.name) + {d.name} by {
        assert decls == init + [d];
      }
      Catalog(m, init)[d.name := CatalogEntry(d)]
  }

  /** A later declaration of the same name replaces an earlier one. */
  lemma {:induction false} CatalogLastWins(m: map<string, Attribute>, decls: seq<AttributeDecl>, i: nat)
    requires i < |decls|
    requires forall j | i < j < |decls| :: decls[j].name != decls[i].name
    ensures Catalog(m, decls)[decls[i].name] == CatalogEntry(decls[i])
    decreases |decls|
  {
    if i < |decls| - 1 {
      CatalogLastWins(m, decls[..|decls| - 1], i);
    }
  }

  /** Names that no declaration uses keep the entry they had before. */
  lemma {:induction false} CatalogKeeps(m: map<string, Attribute>, decls: seq<AttributeDecl>, k: string)
    requires k in m
    requires forall d <- decls :: d.name != k
    ensures Catalog(m, decls)[k] == m[k]
    decreases |decls|
  {
    if decls != [] {
      assert forall d <- decls[..|decls| - 1] :: d in decls;
      CatalogKeeps(m, decls[..|decls| - 1], k);
    }
  }

  /** Every entry carries the shape its declaration's pattern guarantees. */
  predicate WellFormedCatalog(catalog: map<string, Attribute>) {
    forall k <- catalog ::
      IsWord(k) && IsWord(catalog[k].columnCode) && catalog[k].japaneseName != []
      && catalog[k].dataType != [] && catalog[k].dataType[|catalog[k].dataType| - 1] == ')'
  }

  lemma StoreWellFormed(c: map<string, Attribute>, d: AttributeDecl)
    requires WellFormedCatalog(c) && WellFormedDecl(d)
    ensures WellFormedCatalog(c[d.name := CatalogEntry(d)])
  {
    var c' := c[d.name := CatalogEntry(d)];
    forall k <- c'
      ensures IsWord(k) && IsWord(c'[k].columnCode) && c'[k].japaneseName != []
        && c'[k].dataType != [] && c'[k].dataType[|c'[k].dataType| - 1] == ')'
    {
      if k != d.name {
        assert k in c;
      }
    }
  }

  lemma {:induction false} CatalogWellFormed(m: map<string, Attribute>, decls: seq<AttributeDecl>)
    requires WellFormedCatalog(m)
    requires forall d <- decls :: WellFormedDecl(d)
    ensures WellFormedCatalog(Catalog(m, decls))
    decreases |decls|
  {
    if decls != [] {
      assert forall d <- decls[..|decls| - 1] :: d in decls;
      assert decls[|decls| - 1] in decls;
      CatalogWellFormed(m, decls[..|decls| - 1]);
      StoreWellFormed(Catalog(m, decls[..|decls| - 1]), decls[|decls| - 1]);
    }
  }

  /** The body lines try.py:193 skips once stripped: `--` separators, blank lines and `'` comments. */
  predicate IsSkippedLine(line: string) {
    line == "--" || line == "" || "'" <= line
  }

  /**
   * try.py:201-208: the key marker decides where the name comes from. A
   * `primary_key` marker wins over `foreign_key`; a marker whose pattern does
   * not match gives no name; otherwise the first word of the line is the name.
   */
  function ColumnName(line: string): (r: Option<string>)
    requires line != [] && NotSpace(line[0])
    ensures !Contains(line, "primary_key") && !Contains(line, "foreign_key") ==> r == Some(line[..Span(line, 0, NotSpace)])
    ensures Contains(line, "primary_key") || Contains(line, "foreign_key") ==> r.None? || IsWord(r.value)
  {
    if Contains(line, "primary_key") then PrimaryKeyName(line)
    else if Contains(line, "foreign_key") then ForeignKeyName(line)
    else
      FirstToken(line);
      Some(SplitWs(line)[0])
  }

  /**
   * try.py:211-221: the catalog entry a column takes its metadata from. The
   * entry named by the column itself wins over the one named in brackets.
   */
  function SourceAttribute(catalog: map<string, Attribute>, name: Option<string>, reference: Option<string>): Option<Attribute> {
    if name.Some? && name.value in catalog then Some(catalog[name.value])
    else if reference.Some? && reference.value in catalog then Some(catalog[reference.value])
    else None
  }

  /** A name that is present and is a key of the catalog. */
  predicate InCatalog(catalog: map<string, Attribute>, name: Option<string>) {
    name.Some? && name.value in catalog
  }

  /** The column carries the display name, type and description of a catalog entry. */
  predicate TakesEntry(c: Column, e: Attribute) {
    c.japaneseName == Some(e.japaneseName) && c.dataType == Some(e.dataType) && c.description == e.description
  }

  /** The data type a column gets when no catalog entry applies (try.py:226). */
  const DefaultType: string := "VARCHAR(255)"

  /** The `Column` built from a stripped, non-skipped body line (try.py:195-231). */
  function ColumnOf(catalog: map<string, Attribute>, line: string): (c: Column)
    requires line != [] && NotSpace(line[0])
    ensures c.name == ColumnName(line)
    ensures c.isPrimaryKey <==> Contains(line, "primary_key")
    ensures c.isForeignKey <==> Contains(line, "foreign_key")
    ensures c.isGenerated <==> Contains(line, "<<generated>>")
    ensures c.dataType.Some?
    ensures WellFormedCatalog(catalog) ==> c.dataType.value != []
    ensures InCatalog(catalog, ColumnName(line)) ==> TakesEntry(c, catalog[ColumnName(line).value])
    ensures !InCatalog(catalog, ColumnName(line)) && InCatalog(catalog, BracketReference(line)) ==>
      TakesEntry(c, catalog[BracketReference(line).value])
    ensures !InCatalog(catalog, ColumnName(line)) && !InCatalog(catalog, BracketReference(line)) ==>
      c.japaneseName == None && c.dataType == Some(DefaultType) && c.description == None
  {
    var entry := SourceAttribute(catalog, ColumnName(line), BracketReference(line));
    Column(
      ColumnName(line),
      if entry.Some? then Some(entry.value.japaneseName) else None,
      if entry.Some? then Some(entry.value.dataType) else Some(DefaultType),
      Contains(line, "primary_key"),
      Contains(line, "foreign_key"),
      Contains(line, "<<generated>>"),
      if entry.Some? then entry.value.description else None)
  }

  /** One line of a table body: `None` for a line the loop skips. */
  function ParseColumnLine(catalog: map<string, Attribute>, raw: string): (r: Option<Column>)
    ensures r.None? <==> IsSkippedLine(Strip(raw))
  {
    if IsSkippedLine(Strip(raw)) then None else Some(ColumnOf(catalog, Strip(raw)))
  }

  /** The columns of a table body, in line order (try.py:191-231). */
  function ColumnsOf(catalog: map<string, Attribute>, lines: seq<string>): (cols: seq<Column>)
    ensures |cols| <= |lines|
    ensures forall c <- cols :: c.dataType.Some?
    ensures WellFormedCatalog(catalog) ==> forall c <- cols :: c.dataType.value != []
  {
    if lines == [] then []
    else
      var last := ParseColumnLine(catalog, lines[|lines| - 1]);
      ColumnsOf(catalog, lines[..|lines| - 1]) + (if last.Some? then [last.value] else [])
  }

  /** Lines that are skipped add no column and the others add theirs, so the columns of a body compose line by line. */
  lemma {:induction false} ColumnsOfConcat(catalog: map<string, Attribute>, a: seq<string>, b: seq<string>)
    ensures ColumnsOf(catalog, a + b) == ColumnsOf(catalog, a) + ColumnsOf(catalog, b)
    decreases |b|
  {
    if b == [] {
      assert a + b == a;
    } else {
      assert (a + b)[..|a + b| - 1] == a + b[..|b| - 1];
      assert (a + b)[|a + b| - 1] == b[|b| - 1];
      ColumnsOfConcat(catalog, a, b[..|b| - 1]);
    }
  }

  /** A single body line gives its column, or nothing when it is skipped. */
  lemma ColumnsOfLine(catalog: map<string, Attribute>, raw: string)
    ensures IsSkippedLine(Strip(raw)) ==> ColumnsOf(catalog, [raw]) == []
    ensures !IsSkippedLine(Strip(raw)) ==> ColumnsOf(catalog, [raw]) == [ColumnOf(catalog, Strip(raw))]
  {
    assert [raw][..0] == [];
  }

  /** `open w close` matches at `i` when a word `w` is followed by a close that no word character starts. */
  lemma WordGroupOfWord(line: string, i: nat, open: string, w: string, close: string)
    requires IsWord(w) && close != [] && !IsWordChar(close[0])
    requires i + |open| + |w| + |close| <= |line|
    requires line[i..i + |open|] == open
    requires line[i + |open|..i + |open| + |w|] == w
    requires line[i + |open| + |w|..i + |open| + |w| + |close|] == close
    ensures WordGroupAt(line, i, open, close) == Some(w)
  {
    var a := i + |open|;
    var b := a + |w|;
    LiteralHere(line, i, open);
    assert forall k | a <= k < b :: line[k] == w[k - a];
    assert line[b] == close[0];
    WordHere(line, a, b);
    LiteralHere(line, b, close);
  }

  /** A line `primary_key(w)...` is named `w`, whatever else the line holds. */
  lemma PrimaryKeyWins(w: string, rest: string)
    requires IsWord(w)
    ensures ColumnName("primary_key(" + w + ")" + rest) == Some(w)
  {
    var line := "primary_key(" + w + ")" + rest;
    assert line[..12] == "primary_key(";
    assert line[12..12 + |w|] == w;
    assert line[12 + |w|..13 + |w|] == ")";
    WordGroupOfWord(line, 0, "primary_key(", w, ")");
    assert "primary_key" <= line;
    ContainsAt(line, "primary_key", 0);
  }

  /** A line `foreign_key(w)...` without a `primary_key` marker is named `w`. */
  lemma ForeignKeyNamed(w: string, rest: string)
    requires IsWord(w)
    requires !Contains("foreign_key(" + w + ")" + rest, "primary_key")
    ensures ColumnName("foreign_key(" + w + ")" + rest) == Some(w)
  {
    var line := "foreign_key(" + w + ")" + rest;
    assert line[..12] == "foreign_key(";
    assert line[12..12 + |w|] == w;
    assert line[12 + |w|..13 + |w|] == ")";
    WordGroupOfWord(line, 0, "foreign_key(", w, ")");
    assert "foreign_key" <= line;
    ContainsAt(line, "foreign_key", 0);
  }

  /** A key marker whose pattern matches nowhere leaves the column without a name. */
  lemma UnmatchedKeyMarker(line: string)
    requires line != [] && NotSpace(line[0])
    requires Contains(line, "primary_key") || Contains(line, "foreign_key")
    requires forall j | 0 <= j <= |line| ::
      WordGroupAt(line, j, "primary_key(", ")").None? && WordGroupAt(line, j, "foreign_key(", ")").None?
    ensures ColumnName(line).None?
  {
    SearchNone(line, "primary_key(", ")", 0);
    SearchNone(line, "foreign_key(", ")", 0);
  }

  /** Positions that do not hold the first character of `open` are passed over by the search. */
  lemma {:induction false} SearchSkips(s: string, open: string, close: string, i: nat, j: nat)
    requires i <= j <= |s| && open != []
    requires forall k | i <= k < j :: s[k] != open[0]
    ensures SearchWordGroup(s, open, close, i) == SearchWordGroup(s, open, close, j)
    decreases j - i
  {
    if i < j {
      assert !(open <= s[i..]) by {
        assert s[i..][0] == s[i];
      }
      SearchSkips(s, open, close, i + 1, j);
    }
  }

  /** `w [r]`: the line of a plain column that names an attribute in brackets. */
  function ReferenceLine(w: string, r: string): string {
    w + (" [" + (r + "]"))
  }

  lemma BracketTail(line: string, d: nat, r: string)
    requires d <= |line| && line[d..] == "[" + (r + "]")
    ensures |line| == d + |r| + 2
    ensures line[d..d + 1] == "[" && line[d + 1..d + 1 + |r|] == r && line[d + 1 + |r|..d + 2 + |r|] == "]"
  {
    var t := line[d..];
    assert t[..1] == "[";
    assert t[1..1 + |r|] == r;
    assert t[1 + |r|..] == "]";
    assert line[d..d + 1] == t[..1];
    assert line[d + 1..d + 1 + |r|] == t[1..1 + |r|];
    assert line[d + 1 + |r|..d + 2 + |r|] == t[1 + |r|..];
  }

  lemma BracketGroupAt(line: string, d: nat, r: string)
    requires IsWord(r)
    requires d <= |line| && line[d..] == "[" + (r + "]")
    ensures WordGroupAt(line, d, "[", "]") == Some(r)
  {
    BracketTail(line, d, r);
    WordGroupOfWord(line, d, "[", r, "]");
  }

  lemma WordThenSpace(w: string, tail: string)
    requires IsWord(w)
    ensures forall k | 0 <= k < |w| :: (w + ([' '] + tail))[k] != '['
    ensures (w + ([' '] + tail))[|w|] == ' '
    ensures (w + ([' '] + tail))[|w| + 1..] == tail
  {
  }

  lemma ReferenceOfLine(w: string, r: string)
    requires IsWord(w) && IsWord(r)
    ensures BracketReference(ReferenceLine(w, r)) == Some(r)
  {
    var tail := "[" + (r + "]");
    var line := w + ([' '] + tail);
    assert line == ReferenceLine(w, r);
    WordThenSpace(w, tail);
    SearchSkips(line, "[", "]", 0, |w| + 1);
    BracketGroupAt(line, |w| + 1, r);
  }

  lemma ReferenceLineShape(w: string, r: string)
    requires IsWord(w) && IsWord(r)
    ensures ReferenceLine(w, r) != [] && ReferenceLine(w, r)[0] == w[0]
    ensures IsStripped(ReferenceLine(w, r))
    ensures ReferenceLine(w, r)[..Span(ReferenceLine(w, r), 0, NotSpace)] == w
  {
    var line := w + ([' '] + ("[" + (r + "]")));
    assert line == ReferenceLine(w, r);
    ReferenceLineEnds(w, line);
    FirstWordSpan(w, line);
  }

  lemma ReferenceLineEnds(w: string, line: string)
    requires IsWord(w) && |w| < |line| && line[..|w|] == w && line[|line| - 1] == ']'
    ensures line[0] == w[0] && IsStripped(line)
  {
    assert line[0] == line[..|w|][0];
    WordCharNotSpace(w[0]);
  }

  lemma FirstWordSpan(w: string, line: string)
    requires IsWord(w) && |w| < |line| && line[..|w|] == w && line[|w|] == ' '
    ensures line[..Span(line, 0, NotSpace)] == w
  {
    forall k | 0 <= k < |w|
      ensures NotSpace(line[k])
    {
      assert line[k] == line[..|w|][k];
      WordCharNotSpace(w[k]);
    }
    SpanSkip(line, 0, |w|, NotSpace);
  }

  /** A plain line that is not skipped yields `ColumnOf` of the stripped line, whatever the catalog. */
  lemma ParsedLineIsColumn(catalog: map<string, Attribute>, raw: string)
    requires !IsSkippedLine(Strip(raw))
    ensures ParseColumnLine(catalog, raw) == Some(ColumnOf(catalog, Strip(raw)))
  {
  }

  /**
   * Resolution on a plain line `w [r]`: the column takes the entry named `w`
   * when there is one, else the entry named `r`, else the defaults.
   */
  lemma ReferenceResolution(catalog: map<string, Attribute>, w: string, r: string)
    requires IsWord(w) && IsWord(r)
    requires !Contains(ReferenceLine(w, r), "primary_key") && !Contains(ReferenceLine(w, r), "foreign_key")
    ensures ReferenceLine(w, r) != [] && NotSpace(ReferenceLine(w, r)[0])
    ensures ParseColumnLine(catalog, ReferenceLine(w, r)) == Some(ColumnOf(catalog, ReferenceLine(w, r)))
    ensures ColumnOf(catalog, ReferenceLine(w, r)).name == Some(w)
    ensures w in catalog ==>
      ColumnOf(catalog, ReferenceLine(w, r)).japaneseName == Some(catalog[w].japaneseName)
      && ColumnOf(catalog, ReferenceLine(w, r)).dataType == Some(catalog[w].dataType)
      && ColumnOf(catalog, ReferenceLine(w, r)).description == catalog[w].description
    ensures w !in catalog && r in catalog ==>
      ColumnOf(catalog, ReferenceLine(w, r)).japaneseName == Some(catalog[r].japaneseName)
      && ColumnOf(catalog, ReferenceLine(w, r)).dataType == Some(catalog[r].dataType)
      && ColumnOf(catalog, ReferenceLine(w, r)).description == catalog[r].description
    ensures w !in catalog && r !in catalog ==>
      ColumnOf(catalog, ReferenceLine(w, r)).japaneseName == None
      && ColumnOf(catalog, ReferenceLine(w, r)).dataType == Some(DefaultType)
      && ColumnOf(catalog, ReferenceLine(w, r)).description == None
  {
    var line := ReferenceLine(w, r);
    ReferenceLineShape(w, r);
    ReferenceOfLine(w, r);
    StripStripped(line);
    assert line[0] != '-' && line[0] != '\'';
    assert !IsSkippedLine(Strip(line));
    ParsedLineIsColumn(catalog, line);
  }

  /** `primary_key(w) [r]`: a key column that also names an attribute in brackets. */
  function KeyReferenceLine(w: string, r: string): string {
    "primary_key(" + w + ")" + (" [" + (r + "]"))
  }

  lemma KeyReferenceLineFacts(w: string, r: string)
    requires IsWord(w)
    ensures KeyReferenceLine(w, r)[0] == 'p' && KeyReferenceLine(w, r)[|KeyReferenceLine(w, r)| - 1] == ']'
    ensures forall k | 0 <= k < 14 + |w| :: KeyReferenceLine(w, r)[k] != '['
    ensures KeyReferenceLine(w, r)[14 + |w|..] == "[" + (r + "]")
  {
    var line := KeyReferenceLine(w, r);
    assert line == "primary_key(" + (w + (") " + ("[" + (r + "]"))));
    forall k | 0 <= k < 14 + |w|
      ensures line[k] != '['
    {
      if 12 <= k < 12 + |w| {
        assert line[k] == w[k - 12];
      }
    }
  }

  /**
   * Resolution on a key line `primary_key(w) [r]`: the column is named `w` and
   * takes the entry named `w` when there is one, else the entry named `r`,
   * else the defaults.
   */
  lemma KeyReferenceResolution(catalog: map<string, Attribute>, w: string, r: string)
    requires IsWord(w) && IsWord(r)
    ensures KeyReferenceLine(w, r) != [] && NotSpace(KeyReferenceLine(w, r)[0])
    ensures ParseColumnLine(catalog, KeyReferenceLine(w, r)) == Some(ColumnOf(catalog, KeyReferenceLine(w, r)))
    ensures ColumnOf(catalog, KeyReferenceLine(w, r)).name == Some(w)
    ensures ColumnOf(catalog, KeyReferenceLine(w, r)).isPrimaryKey
    ensures w in catalog ==> TakesEntry(ColumnOf(catalog, KeyReferenceLine(w, r)), catalog[w])
    ensures w !in catalog && r in catalog ==> TakesEntry(ColumnOf(catalog, KeyReferenceLine(w, r)), catalog[r])
    ensures w !in catalog && r !in catalog ==>
      ColumnOf(catalog, KeyReferenceLine(w, r)).japaneseName == None
      && ColumnOf(catalog, KeyReferenceLine(w, r)).dataType == Some(DefaultType)
      && ColumnOf(catalog, KeyReferenceLine(w, r)).description == None
  {
    KeyReferenceShape(w, r);
    KeyReferenceGroups(w, r);
    ParsedLineIsColumn(catalog, KeyReferenceLine(w, r));
  }

  /** A key line `primary_key(w) [r]` is stripped, kept by the loop and marked as a key. */
  lemma KeyReferenceShape(w: string, r: string)
    requires IsWord(w)
    ensures KeyReferenceLine(w, r) != [] && NotSpace(KeyReferenceLine(w, r)[0])
    ensures Strip(KeyReferenceLine(w, r)) == KeyReferenceLine(w, r) && !IsSkippedLine(KeyReferenceLine(w, r))
    ensures Contains(KeyReferenceLine(w, r), "primary_key")
  {
    var line := KeyReferenceLine(w, r);
    KeyReferenceLineFacts(w, r);
    assert IsStripped(line);
    StripStripped(line);
    assert !IsSkippedLine(line);
    assert line[..11] == "primary_key";
  }

  /** On a key line `primary_key(w) [r]` the name is `w` and the bracket reference `r`. */
  lemma KeyReferenceGroups(w: string, r: string)
    requires IsWord(w) && IsWord(r)
    ensures ColumnName(KeyReferenceLine(w, r)) == Some(w) && BracketReference(KeyReferenceLine(w, r)) == Some(r)
  {
    PrimaryKeyWins(w, " [" + (r + "]"));
    KeyReferenceLineFacts(w, r);
    FirstBracket(KeyReferenceLine(w, r), 14 + |w|, r);
  }

  /** The bracket search finds the first `[word]`, behind a prefix holding no `[`. */
  lemma FirstBracket(line: string, d: nat, r: string)
    requires IsWord(r)
    requires d <= |line| && line[d..] == "[" + (r + "]")
    requires forall k | 0 <= k < d :: line[k] != '['
    ensures BracketReference(line) == Some(r)
  {
    SearchSkips(line, "[", "]", 0, d);
    BracketGroupAt(line, d, r);
  }

  /** try.py:185-186: the display name is the second line of the quoted description. */
  function DisplayName(description: string): (r: Option<string>)
    ensures r.Some? ==> '\n' !in r.value
  {
    SplitOnPieces(description, '\n');
    if |SplitOn(description, '\n')| > 1 then
      assert SplitOn(description, '\n')[1] in SplitOn(description, '\n');
      Some(SplitOn(description, '\n')[1])
    else None
  }

  /** A one-line description gives no display name. */
  lemma DisplayNameOneLine(description: string)
    requires '\n' !in description
    ensures DisplayName(description).None?
  {
    SplitOnFree(description, '\n');
  }

  /** A description of two or more lines gives its second line. */
  lemma DisplayNameSecondLine(first: string, second: string, rest: string)
    requires '\n' !in first && '\n' !in second
    ensures DisplayName(first + "\n" + (second + "\n" + rest)) == Some(second)
  {
    SplitOnCons(first, '\n', second + "\n" + rest);
    SplitOnCons(second, '\n', rest);
  }

  /** The `Table` built from a table block (try.py:184-233); `relationships` stays unset. */
  function BuildTable(catalog: map<string, Attribute>, block: TableBlock): (t: Table)
    ensures t.name == block.id && t.relationships.None?
    ensures |t.columns| <= |SplitOn(block.body, '\n')|
    ensures forall c <- t.columns :: c.dataType.Some?
  {
    Table(block.id, DisplayName(block.description), ColumnsOf(catalog, SplitOn(block.body, '\n')), None)
  }

  /** `self.tables` after the blocks have been stored in turn (try.py:233). */
  function TablesAfter(m: TableMap, catalog: map<string, Attribute>, blocks: seq<TableBlock>): (r: TableMap)
    ensures |m| <= |r| <= |m| + |blocks|
    decreases |blocks|
  {
    if blocks == [] then m
    else Put(TablesAfter(m, catalog, blocks[..|blocks| - 1]), blocks[|blocks| - 1].id, BuildTable(catalog, blocks[|blocks| - 1]))
  }

  /**
   * Storing the blocks loses no table, creates no second entry for a name,
   * and leaves every block's identifier among the keys.
   */
  lemma {:induction false} TablesAfterKeys(m: TableMap, catalog: map<string, Attribute>, blocks: seq<TableBlock>)
    ensures forall k <- Keys(m) :: k in Keys(TablesAfter(m, catalog, blocks))
    ensures UniqueKeys(m) ==> UniqueKeys(TablesAfter(m, catalog, blocks))
    ensures forall b <- blocks :: b.id in Keys(TablesAfter(m, catalog, blocks))
    decreases |blocks|
  {
    if blocks != [] {
      var front, b := blocks[..|blocks| - 1], blocks[|blocks| - 1];
      var prev := TablesAfter(m, catalog, front);
      TablesAfterKeys(m, catalog, front);
      assert forall x <- blocks :: x in front || x == b;
      if UniqueKeys(m) {
        PutUnique(prev, b.id, BuildTable(catalog, b));
      }
    }
  }


  /** The table stored under a name is built from the last block with that name. */
  lemma {:induction false} TablesLastBlockWins(m: TableMap, catalog: map<string, Attribute>, blocks: seq<TableBlock>, i: nat)
    requires i < |blocks|
    requires forall j | i < j < |blocks| :: blocks[j].id != blocks[i].id
    ensures Lookup(TablesAfter(m, catalog, blocks), blocks[i].id) == Some(BuildTable(catalog, blocks[i]))
    decreases |blocks|
  {
    if i < |blocks| - 1 {
      TablesLastBlockWins(m, catalog, blocks[..|blocks| - 1], i);
    }
  }

  /** Tables no block names are left as they were. */
  lemma {:induction false} TablesKeep(m: TableMap, catalog: map<string, Attribute>, blocks: seq<TableBlock>, k: string)
    requires forall b <- blocks :: b.id != k
    ensures Lookup(TablesAfter(m, catalog, blocks), k) == Lookup(m, k)
    decreases |blocks|
  {
    if blocks != [] {
      assert forall b <- blocks[..|blocks| - 1] :: b in blocks;
      assert blocks[|blocks| - 1] in blocks;
      TablesKeep(m, catalog, blocks[..|blocks| - 1], k);
    }
  }

  /** The relationship test of each variant: try.py:237 and ddlgeneratot.py:140. */
  predicate IsRelationshipLine(variant: Variant, line: string) {
    match variant
    case Basic => Contains(line, "||-o{")
    case Versioned(_) => ContainsAny(line, RelationshipOperators)
  }

  /** A relationship line of three or more words: `from kind to ...` (try.py:238-244). */
  function RelationshipOf(variant: Variant, line: string): (r: Option<Relationship>)
    ensures r.Some? ==> IsToken(r.value.fromTable) && IsToken(r.value.toTable) && IsToken(r.value.kind)
  {
    SplitWsTokens(Strip(line));
    if IsRelationshipLine(variant, line) && |SplitWs(Strip(line))| >= 3 then
      Some(Relationship(SplitWs(Strip(line))[0], SplitWs(Strip(line))[2], SplitWs(Strip(line))[1]))
    else None
  }

  /** Every relationship ddlgeneratot.py finds on a line, try.py finds too. */
  lemma BasicWithinVersioned(dialect: Dialect, line: string)
    requires RelationshipOf(Basic, line).Some?
    ensures RelationshipOf(Versioned(dialect), line) == RelationshipOf(Basic, line)
  {
    OperatorsReduce(line);
  }

  /** try.py reads a line as a relationship exactly when it holds `||-o{` or `--` and three words. */
  lemma VersionedDetection(dialect: Dialect, line: string)
    ensures RelationshipOf(Versioned(dialect), line).Some?
        <==> (Contains(line, "||-o{") || Contains(line, "--")) && |SplitWs(Strip(line))| >= 3
  {
    OperatorsReduce(line);
  }

  lemma JoinedTokensStripped(tokens: seq<string>)
    requires tokens != []
    requires forall t <- tokens :: IsToken(t)
    ensures IsStripped(Join(tokens, " "))
  {
    var first := tokens[0];
    var last := tokens[|tokens| - 1];
    assert first in tokens && last in tokens;
    if |tokens| > 1 {
      var init := tokens[..|tokens| - 1];
      JoinCons(first, tokens[1..], " ");
      assert [first] + tokens[1..] == tokens;
      JoinSnoc(init, last, " ");
      assert init + [last] == tokens;
      assert Join(tokens, " ")[0] == first[0];
    }
  }

  /** The tokens of a relationship line name the two tables and the operator, in that order. */
  lemma RelationshipFromTokens(variant: Variant, tokens: seq<string>)
    requires |tokens| >= 3
    requires forall t <- tokens :: IsToken(t)
    requires IsRelationshipLine(variant, Join(tokens, " "))
    ensures RelationshipOf(variant, Join(tokens, " ")) == Some(Relationship(tokens[0], tokens[2], tokens[1]))
  {
    JoinedTokensStripped(tokens);
    StripStripped(Join(tokens, " "));
    SplitWsJoin(tokens);
  }

  /** The relationships found on the lines, in line order. */
  function RelationshipsOf(variant: Variant, lines: seq<string>): (rs: seq<Relationship>)
    ensures |rs| <= |lines|
    ensures forall r <- rs :: IsToken(r.fromTable) && IsToken(r.toTable) && IsToken(r.kind)
  {
    if lines == [] then []
    else
      var last := RelationshipOf(variant, lines[|lines| - 1]);
      RelationshipsOf(variant, lines[..|lines| - 1]) + (if last.Some? then [last.value] else [])
  }

  /** Lines of other text between relationship lines contribute nothing. */
  lemma {:induction false} RelationshipsConcat(variant: Variant, a: seq<string>, b: seq<string>)
    ensures RelationshipsOf(variant, a + b) == RelationshipsOf(variant, a) + RelationshipsOf(variant, b)
    decreases |b|
  {
    if b == [] {
      assert a + b == a;
    } else {
      assert (a + b)[..|a + b| - 1] == a + b[..|b| - 1];
      assert (a + b)[|a + b| - 1] == b[|b| - 1];
      RelationshipsConcat(variant, a, b[..|b| - 1]);
    }
  }
}
