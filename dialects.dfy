/**
 * Target-dialect rules of try.py: the PostgreSQL-to-Oracle type conversion
 * (try.py:95-125) and the identity clause (try.py:127-131).
 */
module Dialects {
  import opened Wrappers
  import opened Text
  import opened Patterns
  import opened Schema

  /** The base types try.py:101-111 renames for Oracle; any other base is kept. */
  function OracleBase(base: string): string {
    if base == "SERIAL" || base == "BIGSERIAL" then "NUMBER GENERATED ALWAYS AS IDENTITY"
    else if base == "VARCHAR" then "VARCHAR2"
    else if base == "TEXT" || base == "JSONB" then "CLOB"
    else if base == "BOOLEAN" then "NUMBER(1)"
    else if base == "TIMESTAMP" then "TIMESTAMP"
    else if base == "UUID" then "VARCHAR2(36)"
    else if base == "BYTEA" then "BLOB"
    else base
  }

  /** Large-object types, which take no size (try.py:123). */
  predicate IsLob(t: string) {
    t == "CLOB" || t == "BLOB"
  }

  /**
   * `convert_data_type`: PostgreSQL keeps the type as written. Oracle
   * renames the upper-cased base type and re-attaches the size unless the
   * new type is a large object; text after the size is dropped, and a type
   * that does not start with a word character is kept as written.
   */
  function ConvertDataType(dialect: Dialect, t: string): (r: string)
    ensures dialect == PostgreSQL ==> r == t
    ensures MatchTypeName(t).None? ==> r == t
    ensures dialect == Oracle && MatchTypeName(t).Some? ==> OracleBase(Upper(MatchTypeName(t).value.base)) <= r
  {
    match dialect
    case PostgreSQL => t
    case Oracle =>
      match MatchTypeName(t)
      case None => t
      case Some(m) =>
        if Truthy(m.size) && !IsLob(OracleBase(Upper(m.base))) then
          OracleBase(Upper(m.base)) + "(" + m.size.value + ")"
        else
          OracleBase(Upper(m.base))
  }

  const IdentityClause: string := "GENERATED ALWAYS AS IDENTITY"

  /** `get_identity_syntax`: both dialects use the same clause. */
  function IdentitySyntax(dialect: Dialect): (r: string)
    ensures r == IdentityClause
  {
    match dialect
    case PostgreSQL => "GENERATED ALWAYS AS IDENTITY"
    case Oracle => "GENERATED ALWAYS AS IDENTITY"
  }

  lemma PostgresKeepsType(t: string)
    ensures ConvertDataType(PostgreSQL, t) == t
  {
  }

  /** A type that does not start with a word character is left to Oracle as written. */
  lemma OracleKeepsUnmatched(t: string)
    requires t == [] || !IsWordChar(t[0])
    ensures ConvertDataType(Oracle, t) == t
  {
  }

  /** `base(size)rest` under Oracle: the renamed base, with the size unless it is a large object. */
  lemma OracleSized(base: string, size: string, rest: string)
    requires IsWord(base)
    requires size != [] && ')' !in size
    ensures ConvertDataType(Oracle, base + ("(" + (size + (")" + rest))))
         == if IsLob(OracleBase(Upper(base))) then OracleBase(Upper(base))
            else OracleBase(Upper(base)) + "(" + size + ")"
  {
    var t := base + ("(" + (size + (")" + rest)));
    var n := |base|;
    BaseSpan(base, "(" + (size + (")" + rest)));
    assert t[n..] == "(" + (size + (")" + rest));
    SizeGroup(t, n, size, rest);
    assert t[..n] == base;
  }

  /** A word followed by something other than `(` or a word character: the size is absent. */
  lemma OracleBare(base: string, rest: string)
    requires IsWord(base)
    requires rest == [] || (rest[0] != '(' && !IsWordChar(rest[0]))
    ensures ConvertDataType(Oracle, base + rest) == OracleBase(Upper(base))
  {
    var t := base + rest;
    BaseSpan(base, rest);
    assert t[..|base|] == base;
    if rest != [] {
      assert t[|base|..][0] == rest[0];
    }
  }

  lemma BaseSpan(base: string, rest: string)
    requires IsWord(base)
    requires rest == [] || !IsWordChar(rest[0])
    ensures Span(base + rest, 0, IsWordChar) == |base|
    ensures base + rest != [] && IsWordChar((base + rest)[0])
  {
    var t := base + rest;
    assert forall k | 0 <= k < |base| :: t[k] == base[k];
    SpanSkip(t, 0, |base|, IsWordChar);
    if rest != [] {
      assert t[|base|] == rest[0];
    }
  }

  lemma SizeGroup(t: string, n: nat, size: string, rest: string)
    requires n <= |t| && t[n..] == "(" + (size + (")" + rest))
    requires size != [] && ')' !in size
    ensures SizeSuffixAt(t, n) == Some(size)
  {
    assert t[n..][..1] == "(";
    LiteralHere(t, n, "(");
    SizeSpan(t, n + 1, size, rest);
    LiteralHere(t, n + 1 + |size|, ")");
  }

  lemma SizeSpan(t: string, i: nat, size: string, rest: string)
    requires 1 <= i <= |t| && t[i - 1..] == "(" + (size + (")" + rest))
    requires ')' !in size
    ensures i + |size| < |t| && Span(t, i, NotCloseParen) == |size|
    ensures t[i..i + |size|] == size && t[i + |size|..i + |size| + 1] == ")"
  {
    assert t[i..] == t[i - 1..][1..];
    SizeRun(t, i, size, ")" + rest);
    assert t[i + |size|..i + |size| + 1] == [t[i + |size|]];
  }

  /** From `i`, a run of `size` followed by `)`. */
  lemma SizeRun(t: string, i: nat, size: string, tail: string)
    requires i <= |t| && t[i..] == size + tail
    requires ')' !in size && tail != [] && tail[0] == ')'
    ensures i + |size| < |t| && Span(t, i, NotCloseParen) == |size|
    ensures t[i..i + |size|] == size && t[i + |size|] == ')'
  {
    var n := |size|;
    assert forall k | i <= k < i + n :: t[k] == t[i..][k - i] == size[k - i];
    assert t[i + n] == t[i..][n] == ')';
    SpanSkip(t, i, i + n, NotCloseParen);
    assert t[i..i + n] == t[i..][..n];
  }

  /** The mapping on a few types, as try.py's comments describe it. */
  lemma OracleVarcharSized()
    ensures ConvertDataType(Oracle, "VARCHAR(50)") == "VARCHAR2(50)"
  {
    VarcharFacts();
    OracleSized("VARCHAR", "50", "");
  }

  lemma VarcharFacts()
    ensures IsWord("VARCHAR") && Upper("VARCHAR") == "VARCHAR"
    ensures OracleBase("VARCHAR") == "VARCHAR2" && !IsLob("VARCHAR2")
    ensures "VARCHAR" + ("(" + ("50" + (")" + ""))) == "VARCHAR(50)"
    ensures "VARCHAR2" + "(" + "50" + ")" == "VARCHAR2(50)"
    ensures "50" != [] && ')' !in "50"
  {
    UpperKeeps("VARCHAR");
  }

  lemma OracleLowerCase()
    ensures ConvertDataType(Oracle, "uuid") == "VARCHAR2(36)"
  {
    UuidFacts();
    OracleBare("uuid", "");
  }

  lemma UuidFacts()
    ensures IsWord("uuid") && Upper("uuid") == "UUID" && "uuid" + "" == "uuid"
  {
    assert Upper("uuid")[0] == 'U';
  }

  lemma OracleTextDropsSize()
    ensures ConvertDataType(Oracle, "TEXT(10)") == "CLOB"
  {
    TextFacts();
    OracleSized("TEXT", "10", "");
  }

  lemma TextFacts()
    ensures IsWord("TEXT") && Upper("TEXT") == "TEXT" && OracleBase("TEXT") == "CLOB" && IsLob("CLOB")
    ensures "TEXT" + ("(" + ("10" + (")" + ""))) == "TEXT(10)"
    ensures "10" != [] && ')' !in "10"
  {
    UpperKeeps("TEXT");
  }

  lemma OracleSerial()
    ensures ConvertDataType(Oracle, "SERIAL") == "NUMBER GENERATED ALWAYS AS IDENTITY"
  {
    SerialFacts();
    OracleBare("SERIAL", "");
  }

  lemma SerialFacts()
    ensures IsWord("SERIAL") && Upper("SERIAL") == "SERIAL" && "SERIAL" + "" == "SERIAL"
  {
    UpperKeeps("SERIAL");
  }

  lemma OracleUnmapped()
    ensures ConvertDataType(Oracle, "INTEGER") == "INTEGER"
  {
    IntegerFacts();
    OracleBare("INTEGER", "");
  }

  lemma IntegerFacts()
    ensures IsWord("INTEGER") && Upper("INTEGER") == "INTEGER" && "INTEGER" + "" == "INTEGER"
    ensures OracleBase("INTEGER") == "INTEGER"
  {
    UpperKeeps("INTEGER");
  }

  /** Text without lower-case letters is its own upper case. */
  lemma UpperKeeps(s: string)
    requires forall k | 0 <= k < |s| :: !('a' <= s[k] <= 'z')
    ensures Upper(s) == s
  {
  }
}
