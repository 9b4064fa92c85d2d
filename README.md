# PlantUML ER to SQL DDL converter — Dafny model

The repository turns three PlantUML documents into SQL DDL text:

- an attribute catalog made of `!define` lines;
- the table definitions, written as `Table(id, "description") { ... }` blocks;
- an ER diagram of relationship lines.

The converter joins the three documents into one text, then scans that text in three passes:

1. it collects the attribute definitions;
2. it builds each table's columns, resolving the column names against the catalog;
3. it collects the relationship lines.

It then writes one `CREATE TABLE` block per table and one `ALTER TABLE ... FOREIGN KEY` statement for every foreign-key column of every relationship whose two tables exist.

The repository holds two versions of the program:

- **`ddlgeneratot.py`**, modelled as `Schema.Variant.Basic`. It has no dialect and always writes PostgreSQL-style output.
- **`try.py`**, modelled as `Schema.Variant.Versioned(dialect)`. It adds a target dialect, PostgreSQL or Oracle, with Oracle type conversion and comments. It also keeps a schema-version record with file fingerprints.

Every difference between the two programs is a branch on `Variant` in the model. The branches are:

- which lines of the ER document are kept;
- which lines count as relationships;
- how types are converted;
- where comments are placed.

Modules, one per file:

- `Wrappers`: `Option` and `Result`.
- `Text`: the Python string built-ins the code uses:
  - `isspace` and `strip`;
  - `split('\n')`, `split()` and `join`;
  - substring `in` and `upper`.
- `Patterns`: scanners for the fixed regular expressions, and `re.finditer` as a leftmost, non-overlapping search.
  - Every pattern used is a maximal run followed by a delimiter outside the run's class, so a deterministic scanner matches exactly what the regular expression matches.
  - `\w` is taken as ASCII letters, digits and `_`; `\d` as ASCII digits.
- `Schema`: the records `Column`, `Table`, `Relationship` and `SQLDialect`; the two variants; and `self.tables`.
  - `self.tables` is an insertion-ordered dictionary. It is modelled as a sequence of pairs in which re-assigning a key replaces the entry where it stands.
- `Combiner`: `_clean_content` and the text `combine_files` produces.
- `Parser`: what `parse_combined_content` computes, stated as functions:
  - the catalog;
  - one column line;
  - the table blocks;
  - the relationship lines.
- `Dialects`: `convert_data_type` and `get_identity_syntax`.
- `DdlGen`: what `generate_ddl` produces, stated as functions.
  - A primary-key column whose name could not be extracted makes `', '.join` raise in the source. The model reports that as `Err(UnnamedKey(table))`.
- `Versioning`: the version record and the class `VersionTracker` (`load_version_info`, `files_have_changed`, `get_next_version` and `update_version_info`).
  - The record file is a field.
  - The input files are a map from path to content.
  - SHA-256 is a function parameter of the tracker.
  - The current time is a parameter of the update.
- `Converter`: the class `PumlToDdlConverter`.
  - Its fields are the source's dictionaries and lists.
  - Its methods run the source's loops.
  - Each method is proved to compute what the `Parser`, `Combiner` and `DdlGen` functions describe, so the properties proved about those functions hold for the methods.

Behaviour of the code that the model keeps as written:

- **Filtering the ER document.** `try.py` drops only the lines that start with `!include` and keeps everything else. `ddlgeneratot.py` keeps only the lines that contain a relationship operator.
- **Relationship pass.** The relationship pass of `try.py` looks at every line of the combined text, table bodies included. Any line whose whitespace split has at least three tokens and that contains `--` becomes a relationship. For example, the `--` separator line inside a table does not, because it has only one token. `ddlgeneratot.py` only takes lines that contain `||-o{`.
- **Combined content.** `combine_files` returns the combined text and never stores it in `self.combined_content`, which stays `""`.
- **Oracle SERIAL identity clause.** Under Oracle, a `SERIAL` column marked `<<generated>>` gets the identity clause twice: once from the type mapping and once from the `<<generated>>` marker.

## Model

| member | source | states |
|---|---|---|
| Text.Strip | try.py:162 | the result has no leading or trailing white space and is the slice of the input that starts after its leading white space |
| Text.StripPadding | try.py:162 | what `strip` removes on either side is all white space |
| Text.StripStripped | try.py:192 | stripping text that is already stripped changes nothing |
| Text.SplitOnPieces | try.py:149 | no piece of `split(sep)` contains the separator |
| Text.JoinSplit | try.py:149 | joining the pieces of `split(sep)` with the separator gives back the text |
| Text.SplitJoin | try.py:191 | splitting a join of separator-free pieces gives back the pieces |
| Text.SplitOnConcat | try.py:236 | splitting `x + sep + y` gives the pieces of `x` followed by those of `y` |
| Text.SplitOnFree | try.py:186-187 | text without the separator splits into itself alone |
| Text.SplitWsTokens | try.py:238 | every piece of `split()` is a non-empty run of non-space characters |
| Text.SplitWsEmpty | try.py:238-239 | `split()` is empty exactly when the text is all white space |
| Text.SplitWsJoin | try.py:238 | `split()` of tokens joined by single spaces gives back the tokens |
| Text.SplitWsLeadingSpace | try.py:238 | leading white space does not change `split()` |
| Text.FirstToken | try.py:208 | on text starting with a non-space, the first piece of `split()` is the leading run of non-space characters |
| Text.ContainsIff | try.py:196-198 | substring `in` holds exactly when the pattern is a prefix of some suffix |
| Text.ContainsTrans | try.py:196-198 | a substring of a substring is a substring |
| Text.ContainsInfix | try.py:196-198 | a text contains anything that is concatenated into it |
| Text.Upper | try.py:118 | `upper()` keeps the length and maps each ASCII lower-case letter to its upper case, leaving other characters as they are |
| Patterns.OneOrMore | try.py:167 | a `+` repetition matches exactly when the maximal run is non-empty, and it ends at the end of that run |
| Patterns.AttributeAt | try.py:167 | a match consumes input and its five groups have the shape the pattern allows: word name and code, a non-empty bracket text without `]`, a sized type `word(digits)`, an optional non-empty description without a quote; `Patterns.AttributeChain` gives the converse |
| Patterns.FindAttributes | try.py:168-173 | every declaration `finditer` yields is well formed in that sense; `Patterns.AttributesFound` shows that the declarations of a document are all found, in order |
| Patterns.NamesChain | try.py:167 | `!define n c ` with words `n` and `c` yields the name `n` and the code `c` and stops before the next non-space character |
| Patterns.BracketTextChain | try.py:167 | `[j] ` with a non-empty `j` free of `]` yields `j` |
| Patterns.SizedTypeChain | try.py:167 | a type `word(digits)` is matched whole as the data-type group |
| Patterns.DescriptionChain | try.py:167 | ` /'x'` with a non-empty `x` free of quotes yields the description `x` when no `/` follows |
| Patterns.NoDescription | try.py:167 | text that does not open with white space and `/` followed by a quote has no description clause |
| Patterns.AttributeChain | try.py:167 | a well-formed declaration written out, with or without its description clause, is matched at its start with all five groups, and the match ends where the declaration does |
| Patterns.AttributeLine | try.py:167 | `!define N C [J] T` followed by text that opens no description clause matches with groups N, C, J, T and no description |
| Patterns.AttributeLineDescribed | try.py:167 | `!define N C [J] T /'X'` followed by text not starting with `/` matches with groups N, C, J, T and the description X |
| Patterns.FindAttributesText | try.py:168-173 | over declarations separated by gaps free of `!` and `/`, `finditer` yields exactly the declarations, in order |
| Patterns.AttributesFound | try.py:168-173 | the attribute pass over such a document finds every declaration, in document order, and nothing else |
| Patterns.TableAt | try.py:183 | a match consumes input and yields a word id, a non-empty description without a double quote and a non-empty body without `}`; `Patterns.TableChain` gives the converse |
| Patterns.TableHeadAt | try.py:183 | the head `Table(id, "description")` yields a word id and a non-empty description without a double quote; `Patterns.TableHeadChain` gives the converse |
| Patterns.BraceBodyAt | try.py:183 | the body between the braces is non-empty and holds no `}`; `Patterns.BraceBodyChain` gives the converse |
| Patterns.FindTables | try.py:184-190 | every block `finditer` yields is well formed; `Patterns.TablesFound` shows that the blocks of a document are all found, in order |
| Patterns.TableHeadChain | try.py:183 | `Table(id,` white space `"description")` with a word id and a non-empty description free of double quotes yields both groups |
| Patterns.BraceBodyChain | try.py:183 | a gap without `{` then `{body}` with a non-empty body free of `}` yields the body |
| Patterns.TableChain | try.py:183 | a well-formed block written out is matched at its start with its three groups, and the match ends after its closing brace |
| Patterns.TableLine | try.py:183 | `Table(id, "description")` gap `{body}` matches with the groups id, description and body |
| Patterns.FindTablesText | try.py:184-190 | over blocks separated by gaps free of `T`, `finditer` yields exactly the blocks, in order |
| Patterns.TablesFound | try.py:184-190 | the table pass over such a document finds every block, in document order, and nothing else |
| Patterns.WordGroupAt | try.py:202 | a `open(\w+)close` match yields a word |
| Patterns.SearchWordGroup | try.py:202-214 | `re.search` of `open(\w+)close` gives a word when it finds anything |
| Patterns.SearchNone | try.py:202-203 | `re.search` finds nothing exactly when the pattern matches at no position |
| Patterns.SearchLeftmost | try.py:202-206 | what `re.search` finds is the match at the first position where the pattern matches |
| Patterns.PrimaryKeyName | try.py:202-203 | the primary-key search finds nothing exactly when `primary_key(word)` occurs nowhere in the line; what it finds is a word |
| Patterns.ForeignKeyName | try.py:205-206 | the foreign-key search finds nothing exactly when `foreign_key(word)` occurs nowhere in the line; what it finds is a word |
| Patterns.BracketReference | try.py:212-214 | the bracket search finds nothing exactly when `[word]` occurs nowhere in the line; what it finds is a word |
| Patterns.SizeSuffixAt | try.py:114-116 | the optional size group is non-empty and contains no `)` |
| Patterns.MatchTypeName | try.py:114-116 | the type pattern matches exactly when the type starts with a word character; its base is a word and a prefix of the type |
| Patterns.OperatorsReduce | try.py:237 | a line contains one of the five relationship operators exactly when it contains the one-to-many operator (two bars, `-o{`) or `--` |
| Schema.Keys | try.py:251 | the keys of the table dictionary, position by position |
| Schema.Lookup | try.py:312-313 | `dict.get` finds a table exactly when the key is present, and returns the value of that key's entry |
| Schema.Put | try.py:233 | assignment keeps the key order (it appends a new key), makes the key map to the new table and leaves every other key's value unchanged |
| Schema.PutUnique | try.py:233 | assignment keeps the keys distinct |
| Combiner.RemoveStartTags | try.py:160 | removing `@startuml...` lines never lengthens the text and leaves text without `@startuml` unchanged |
| Combiner.RemoveLiteral | try.py:161 | removing `@enduml` never lengthens the text and leaves text without it unchanged |
| Combiner.CleanContent | try.py:158-162 | the cleaned text is stripped, and is plain `strip` on text without the tags |
| Combiner.StartTagLineRemoved | try.py:160 | a `@startuml` line is removed up to and including its line break, and scanning resumes after it |
| Combiner.RemoveLiteralPast | try.py:161 | text before a character that cannot be part of the tag passes through unchanged |
| Combiner.NotContainsJoin | try.py:161 | joining two tag-free texts by a character foreign to the tag creates no tag |
| Combiner.StartTagsEnvelope | try.py:160 | in a document `@startuml header NL body NL @enduml`, the start tag line is the only thing removed |
| Combiner.EndTagEnvelope | try.py:161 | on `body NL @enduml`, only the final tag is removed |
| Combiner.CleanEnvelope | try.py:158-162 | cleaning a complete PlantUML document gives its stripped body |
| Combiner.StripTrailingNewline | try.py:162 | a trailing line break does not change `strip` |
| Combiner.BasicKeepsOperatorLines | ddlgeneratot.py:53-55 | `ddlgeneratot.py` keeps an ER line exactly when it contains one of the five relationship operators |
| Combiner.KeptErLines | try.py:149-151 | the kept lines are lines of the document that pass the variant's filter, and every passing line is kept |
| Combiner.SplitTerminated | try.py:151 | lines written each followed by a line break split back into those lines |
| Combiner.SplitThreeBreaks | try.py:135-146 | a header line and three sections joined by line breaks split into the header and the lines of each section |
| Combiner.KeptLinesUnbroken | try.py:149-151 | no kept line contains a line break |
| Combiner.Combine | try.py:133-156 | the combined text starts with `@startuml tables` and a line break and ends with `@enduml`; `Combiner.CombinedLines` gives its line structure |
| Combiner.Framed | try.py:135-155 | header, three sections and footer joined in that order open with `@startuml tables` and a line break and close with `@enduml`, whatever the three sections |
| Combiner.CombinedLines | try.py:133-156 | the combined text's lines are the header `@startuml tables`, the lines of the cleaned attributes, the lines of the cleaned tables, the kept ER lines and `@enduml`, in that order |
| Parser.Catalog | try.py:168-180 | the catalog's keys are the old keys plus the names of all declarations |
| Parser.CatalogLastWins | try.py:175-180 | a name maps to the entry of its last declaration |
| Parser.CatalogKeeps | try.py:175-180 | a name that is never declared keeps its old entry |
| Parser.StoreWellFormed | try.py:175-180 | storing a well-formed declaration keeps the catalog well formed |
| Parser.CatalogWellFormed | try.py:168-180 | a catalog built from well-formed declarations is well formed: word keys and codes, non-empty names, types ending in `)` |
| Parser.ColumnName | try.py:201-208 | without key markers the name is the first token of the line; with a marker it is absent or a word |
| Parser.PrimaryKeyWins | try.py:201-203 | a line `primary_key(w)...` is named `w`, whatever follows |
| Parser.ForeignKeyNamed | try.py:204-206 | a line `foreign_key(w)...` without a primary-key marker is named `w` |
| Parser.UnmatchedKeyMarker | try.py:201-206 | a line with a key marker but no `key(word)` group has no name |
| Parser.SearchSkips | try.py:202 | positions before any character that could start the pattern do not change the search |
| Parser.WordGroupOfWord | try.py:212 | `open word close` with a close that is not a word character yields the word |
| Parser.BracketGroupAt | try.py:212-214 | a trailing `[r]` with a word `r` is found as the reference |
| Parser.ReferenceOfLine | try.py:212-214 | a line `w [r]` has reference `r` |
| Parser.ReferenceLineShape | try.py:192-208 | a line `w [r]` is already stripped, starts with `w`, and has `w` as its first token |
| Parser.ColumnOf | try.py:196-231 | the name is the extracted one; each flag holds exactly when its marker occurs in the line; the column takes the entry of its own name when that is a catalog key, otherwise the entry of its bracket reference when that is one, otherwise no display name, no description and type `VARCHAR(255)` |
| Parser.ParseColumnLine | try.py:192-194 | a line gives no column exactly when, once stripped, it is `--`, empty or starts with `'` |
| Parser.ParsedLineIsColumn | try.py:192-231 | a line that is not skipped becomes the column of its stripped text |
| Parser.ReferenceResolution | try.py:211-226 | for `w [r]`, the details come from `w`'s catalog entry if there is one, else from `r`'s, else the name and description are absent and the type is `VARCHAR(255)` |
| Parser.ColumnsOf | try.py:191-231 | a body yields at most one column per line, each with a type, non-empty under a well-formed catalog; `Parser.ColumnsOfConcat` and `Parser.ColumnsOfLine` give the columns line by line |
| Parser.ColumnsOfConcat | try.py:191-231 | the columns of two runs of lines are those of the first followed by those of the second |
| Parser.ColumnsOfLine | try.py:191-231 | a single line gives no column when it is skipped and otherwise exactly the column of its stripped text |
| Parser.KeyReferenceResolution | try.py:196-231 | a line `primary_key(w) [r]` is a primary-key column named `w` that takes the entry named `w` when there is one, else the entry named `r`, else the defaults |
| Parser.DisplayName | try.py:186-187 | a display name never contains a line break |
| Parser.DisplayNameOneLine | try.py:187 | a one-line description has no display name |
| Parser.DisplayNameSecondLine | try.py:186-187 | the display name is the description's second line |
| Parser.BuildTable | try.py:184-233 | the table is named by the block id, leaves `relationships` unset, and has at most one column per body line, each with a type |
| Parser.TablesAfter | try.py:184-233 | storing the blocks adds at most one entry per block and removes none |
| Parser.TablesAfterKeys | try.py:184-233 | after the table pass every old key and every block id is a key, and distinct keys stay distinct |
| Parser.TablesLastBlockWins | try.py:233 | a table id maps to the table built from its last block |
| Parser.TablesKeep | try.py:233 | a table no block names keeps its old entry |
| Parser.RelationshipOf | try.py:236-244 | a relationship's source, target and kind are tokens (non-empty, no white space) |
| Parser.BasicWithinVersioned | ddlgeneratot.py:139-147 | every relationship `ddlgeneratot.py` reads from a line, `try.py` reads the same |
| Parser.VersionedDetection | try.py:236-240 | `try.py` reads a relationship exactly when the line contains the one-to-many operator or `--` and splits into at least three tokens |
| Parser.JoinedTokensStripped | try.py:238 | tokens joined by single spaces are already stripped |
| Parser.RelationshipFromTokens | try.py:238-244 | on a relationship line of tokens `t0 t1 t2 ...`, the relationship is from `t0` to `t2` of kind `t1` |
| Parser.RelationshipsOf | try.py:236-244 | at most one relationship per line, each made of tokens |
| Parser.RelationshipsConcat | try.py:236 | the relationships of two runs of lines are those of the first followed by those of the second |
| Dialects.IdentitySyntax | try.py:127-131 | both dialects use `GENERATED ALWAYS AS IDENTITY` |
| Dialects.ConvertDataType | try.py:95-125 | PostgreSQL keeps the type; a type the pattern does not match is kept; under Oracle a matched type starts with the mapped upper-cased base |
| Dialects.PostgresKeepsType | try.py:97-98 | PostgreSQL keeps the type as written |
| Dialects.OracleKeepsUnmatched | try.py:114-120 | under Oracle a type that does not start with a word character is kept as written |
| Dialects.OracleSized | try.py:101-125 | under Oracle `base(size)rest` becomes the mapped upper-cased base, followed by `(size)` unless the mapped type is CLOB or BLOB; `rest` is dropped |
| Dialects.OracleBare | try.py:101-125 | under Oracle a type without a size becomes the mapped upper-cased base |
| Dialects.OracleVarcharSized | try.py:101-125 | `VARCHAR(50)` becomes `VARCHAR2(50)` |
| Dialects.OracleLowerCase | try.py:101-125 | `uuid` becomes `VARCHAR2(36)`, since the base is upper-cased before the mapping |
| Dialects.OracleTextDropsSize | try.py:101-125 | `TEXT(10)` becomes `CLOB`, without a size |
| Dialects.OracleSerial | try.py:101-125 | `SERIAL` becomes `NUMBER GENERATED ALWAYS AS IDENTITY` |
| Dialects.OracleUnmapped | try.py:101-125 | a base not in the table, such as `INTEGER`, is kept |
| Dialects.UpperKeeps | try.py:118 | text without lower-case letters is its own upper case |
| DdlGen.CommentParts | try.py:277-283 | the comment parts are non-empty strings, and there are some exactly when the column has a non-empty Japanese name or description |
| DdlGen.CommentTextShape | try.py:278-283 | the comment is the Japanese name, the description, or both joined by a bar between single spaces |
| DdlGen.ColumnPartsShape | try.py:267-274 | a column definition starts with the indented name and the converted type, and its third part is the identity clause exactly when the column is generated |
| DdlGen.CommentNotIdentity | try.py:273-283 | an inline comment cannot be mistaken for the identity clause |
| DdlGen.InlineComment | try.py:266-288 | a definition has two parts, plus one for a generated column, plus one for a comment outside Oracle; the comment comes last |
| DdlGen.BasicColumnType | ddlgeneratot.py:167-168 | `ddlgeneratot.py` writes the column's type, or `VARCHAR(255)` when it has none |
| DdlGen.IdentitySame | try.py:273-274 | both programs and both dialects write the same identity clause |
| DdlGen.AllNames | try.py:290-291 | the primary-key names can be joined exactly when none is missing, and then they are the names in order |
| DdlGen.KeyNamesEmpty | try.py:285-291 | no key constraint is written exactly when no column is a primary key |
| DdlGen.KeyNamesMembers | try.py:285-286 | the collected key names are exactly the names of the primary-key columns |
| DdlGen.KeyNamesConcat | try.py:266-286 | the key names of two runs of columns are those of the first followed by those of the second |
| DdlGen.KeyClausePresent | try.py:290-291 | the definitions are the column lines, plus the `CONSTRAINT pk_` line last exactly when some column is a primary key |
| DdlGen.TableStatementFails | try.py:290-291 | a table's block fails exactly when some primary-key column has no name |
| DdlGen.TableStatement | try.py:252-308 | the only error a table block can raise is the unnamed key of that table |
| DdlGen.CollectOkError | try.py:251-308 | a failed collection carries the error of one of the elements |
| DdlGen.CollectOkValues | try.py:251-308 | collecting blocks succeeds exactly when every block does, and gives them in order |
| DdlGen.TableStatementsOk | try.py:251-308 | the table blocks succeed exactly when every table's does, one block per table in dictionary order |
| DdlGen.ColumnCommentsCount | try.py:297-306 | outside Oracle there are no `COMMENT ON COLUMN` lines; under Oracle there is one per commented column, in order |
| DdlGen.CommentedColumnsMembers | try.py:299 | the commented columns are exactly those with a non-empty Japanese name or description |
| DdlGen.ForeignKeyColumnsMembers | try.py:316 | the foreign-key columns are exactly the columns marked as foreign keys |
| DdlGen.ForeignKeysFor | try.py:317-322 | one `ALTER TABLE` statement per foreign-key column, in order |
| DdlGen.RelationshipStatementsCount | try.py:311-322 | a relationship gives one statement per foreign-key column of its target table when both tables exist, and none otherwise |
| DdlGen.FlatMapConcat | try.py:311-322 | the statements of two runs of relationships are those of the first followed by those of the second |
| DdlGen.ForeignKeyStatementsConcat | try.py:311-322 | the same, for the foreign-key statements |
| DdlGen.DdlFails | try.py:246-324 | the DDL fails exactly when some table has an unnamed primary-key column |
| DdlGen.Ddl | try.py:246-324 | a failed generation reports the unnamed key of one of the tables |
| DdlGen.DdlOrder | try.py:246-324 | a successful DDL is the table blocks in dictionary order followed by the foreign-key statements, joined by blank lines |
| DdlGen.ColumnDefinitionBasic | ddlgeneratot.py:163-184 | `ddlgeneratot.py` writes each column as `try.py` does for PostgreSQL |
| DdlGen.TableStatementBasic | ddlgeneratot.py:154-193 | `ddlgeneratot.py` writes each table block as `try.py` does for PostgreSQL |
| DdlGen.BasicIsPostgres | ddlgeneratot.py:149-209 | `ddlgeneratot.py` produces the DDL `try.py` produces for PostgreSQL |
| Versioning.UnchangedIff | try.py:68-77 | `files_have_changed` answers `False` exactly when every file exists and its stored fingerprint is its current one |
| Versioning.Changed | try.py:68-77 | an error names one of the given files that is missing; no files means no change |
| Versioning.Fingerprints | try.py:84-87 | an error names one of the given files that is missing; on success the fingerprints cover exactly the given files |
| Versioning.ChangedWitness | try.py:68-77 | a `True` answer names an existing file whose fingerprint is missing or different |
| Versioning.FingerprintsOk | try.py:84-87 | the new fingerprints exist exactly when every file exists, and then they cover exactly the files, each with its current fingerprint |
| Versioning.UpdatedIsUnchanged | try.py:68-88 | right after an update, the same files read as unchanged |
| Versioning.VersionTracker.constructor | try.py:38-45 | the tracker starts with the given fingerprint function and record file |
| Versioning.VersionTracker.Load | try.py:52-61 | without a record file the record is version 0, no fingerprints and no time |
| Versioning.VersionTracker.FilesHaveChanged | try.py:68-77 | the loop answers what the stored fingerprints say, stopping at the first missing or changed file |
| Versioning.VersionTracker.GetNextVersion | try.py:90-93 | the next version is one past the stored one |
| Versioning.VersionTracker.UpdateVersionInfo | try.py:79-88 | on success the record holds the new version, the time and the fingerprints of exactly the given files, and the files then read as unchanged; a missing file leaves the record as it was and reports that file |
| Versioning.VersionTracker.PrefixFails | try.py:84-87 | a missing file among the first files makes the whole fingerprinting fail with the same error |
| Converter.PumlToDdlConverter.constructor | try.py:38-45 | a new converter has the given variant, no tables, no relationships, an empty catalog and empty combined content |
| Converter.PumlToDdlConverter.CombineFiles | try.py:133-156 | the combined text (whose lines `Combiner.CombinedLines` describes) is built by appending the kept lines one at a time |
| Converter.PumlToDdlConverter.ParseCombinedContent | try.py:164-244 | the three passes store the catalog of all declarations, then the tables of all blocks built against the finished catalog, then append the relationships of all lines; the combined content is untouched |
| Converter.PumlToDdlConverter.StoreAttributes | try.py:168-180 | the attribute pass leaves the catalog that `Parser.Catalog` describes and changes nothing else |
| Converter.PumlToDdlConverter.StoreTables | try.py:184-233 | the table pass leaves the tables `Parser.TablesAfter` describes and changes nothing else |
| Converter.PumlToDdlConverter.StoreTable | try.py:185-233 | one block's table is stored under its id, and nothing else changes |
| Converter.PumlToDdlConverter.ParseColumns | try.py:189-231 | the column loop yields the columns `Parser.ColumnsOf` describes |
| Converter.PumlToDdlConverter.ColumnOfLine | try.py:192-231 | one body line gives the column `Parser.ParseColumnLine` describes |
| Converter.PumlToDdlConverter.StoreRelationships | try.py:236-244 | the relationship pass appends the relationships of all lines in order and changes nothing else |
| Converter.PumlToDdlConverter.RelationshipOfLine | try.py:237-244 | one line gives the relationship `Parser.RelationshipOf` describes |
| Converter.PumlToDdlConverter.GenerateDdl | try.py:246-324 | `generate_ddl` yields exactly the DDL `DdlGen.Ddl` describes, including its failure |
| Converter.PumlToDdlConverter.TableBlockDdl | try.py:252-308 | one table's block is `DdlGen.TableStatement`'s |
| Converter.PumlToDdlConverter.ColumnLoop | try.py:263-288 | the column loop gives the definitions of all columns in order and the key names `DdlGen.KeyNames` collects |
| Converter.PumlToDdlConverter.ColumnDefinitionOf | try.py:267-288 | one definition is the parts joined by a space |
| Converter.PumlToDdlConverter.OracleComments | try.py:297-306 | the Oracle loop gives the `COMMENT ON COLUMN` lines `DdlGen.ColumnComments` describes |
| Converter.PumlToDdlConverter.AppendForeignKeys | try.py:311-322 | the relationship loop appends the foreign-key statements of all relationships in order |
| Converter.PumlToDdlConverter.AppendRelationship | try.py:312-322 | one relationship appends its statements |

## Left out

- `main` in both programs (try.py:326-392, ddlgeneratot.py:211-252): the command line, reading the three documents and writing the DDL. The model starts from the documents' contents and ends with the DDL text.
- The output files and the `schema_version.json` file: file reading and writing are I/O. `save_version_info` (try.py:63-66) is modelled only as the assignment of the record field, and JSON encoding is left out.
- Loading a record file that lacks a key is not modelled. The record is modelled as a complete `VersionInfo`, so the `.get` defaults in try.py:52-61 never apply.
- SHA-256 (try.py:47-50) is a function parameter of `VersionTracker`, with no property assumed of it.
- Reading a missing input file raises in the source. In the model this is the `MissingFile` error.
- The clock (`datetime.now()` in try.py:83) is the `now` parameter of `UpdateVersionInfo`.
- `\w`, `\d` and `upper()` are restricted to ASCII. Python's versions also accept other Unicode letters and digits.
- The exception handler of `main` and the printed messages are I/O.
- Whether the DDL produced is valid SQL is not a property of the program and is not stated.
- `Table.relationships` is never set by either program. It is carried as `None` and not otherwise modelled.
- `self.combined_content` is never written by `combine_files`, so the model leaves that field untouched as well.
- Combiner.KeptErLines: its contract states which lines are kept but not that their order is preserved. The order is fixed by its definition and by `Combiner.CombinedLines`.
- Combiner.RemoveStartTags: the contract bounds the length and states the no-tag case. What is removed is stated by `Combiner.StartTagLineRemoved` and `Combiner.StartTagsEnvelope` rather than for all inputs.
- Combiner.RemoveLiteral: the contract bounds the length and states the no-tag case. What is removed is stated by `Combiner.EndTagEnvelope` and `Combiner.RemoveLiteralPast` rather than for all inputs.
