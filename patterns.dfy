/**
 * Hand-written scanners for the fixed regular expressions of the converter
 * (try.py:114, try.py:167, try.py:183, try.py:202, try.py:205, try.py:212;
 * the same patterns in ddlgeneratot.py).
 *
 * Every repetition in these patterns is followed by a character that the
 * repeated class excludes (`\w+` by `,` or `(`, `[^\]]+` by `]`, `\s+` by a
 * non-space, ...), so a backtracking match can only take the longest run.
 * Each pattern therefore has at most one match at a given position, and a
 * scanner that takes maximal runs finds exactly that match.
 */
module Patterns {
  import opened Wrappers
  import opened Text

  /** Groups 1 to 5 of the attribute declaration pattern. */
  datatype AttributeDecl = AttributeDecl(
    name: string,
    columnCode: string,
    japaneseName: string,
    dataType: string,
    description: Option<string>)

  /** Groups 1 to 3 of the table block pattern. */
  datatype TableBlock = TableBlock(id: string, description: string, body: string)

  /** A match and the position just after it. */
  datatype Match<T> = Match(value: T, end: nat)

  predicate NotCloseBracket(c: char) { c != ']' }
  predicate NotQuote(c: char) { c != '\'' }
  predicate NotDoubleQuote(c: char) { c != '"' }
  predicate NotOpenBrace(c: char) { c != '{' }
  predicate NotCloseBrace(c: char) { c != '}' }
  predicate NotCloseParen(c: char) { c != ')' }

  /** A literal at `i`; on success, the position after it. */
  function Literal(s: string, i: nat, lit: string): (r: Option<nat>)
    requires i <= |s|
    ensures r.Some? ==> r.value == i + |lit|
  {
    if lit <= s[i..] then Some(i + |lit|) else None
  }

  /** `p+` at `i`: the longest non-empty run of characters satisfying `p`. */
  function OneOrMore(s: string, i: nat, p: char -> bool): (r: Option<nat>)
    requires i <= |s|
    ensures r.None? <==> i == |s| || !p(s[i])
    ensures r.Some? ==> i < r.value <= |s| && forall k {:trigger p(s[k])} | i <= k < r.value :: p(s[k])
    ensures r.Some? ==> r.value == |s| || !p(s[r.value])
  {
    if Span(s, i, p) == 0 then None else Some(i + Span(s, i, p))
  }

  lemma LiteralHere(s: string, i: nat, lit: string)
    requires i + |lit| <= |s| && s[i..i + |lit|] == lit
    ensures Literal(s, i, lit) == Some(i + |lit|)
  {
    assert s[i..][..|lit|] == lit;
  }

  lemma WordHere(s: string, a: nat, b: nat)
    requires a < b <= |s|
    requires forall k | a <= k < b :: IsWordChar(s[k])
    requires b == |s| || !IsWordChar(s[b])
    ensures OneOrMore(s, a, IsWordChar) == Some(b)
  {
    SpanSkip(s, a, b, IsWordChar);
  }

  /** Where the leading run of word characters of `t` ends. */
  function WordEnd(t: string): nat {
    Span(t, 0, IsWordChar)
  }

  /** `\w+\(\d+\)` as a whole string: a word, then digits in parentheses. */
  predicate IsSizedType(t: string) {
    0 < WordEnd(t) && WordEnd(t) + 2 < |t| && t[WordEnd(t)] == '(' && t[|t| - 1] == ')'
    && forall k | WordEnd(t) < k < |t| - 1 :: IsDigit(t[k])
  }

  /** The shape Python gives the groups of a declaration: words, a bracket text, a sized type. */
  predicate WellFormedDecl(d: AttributeDecl) {
    IsWord(d.name) && IsWord(d.columnCode)
    && d.japaneseName != [] && ']' !in d.japaneseName
    && IsSizedType(d.dataType)
    && (d.description.Some? ==> d.description.value != [] && '\'' !in d.description.value)
  }

  /** `(?:\s+/'([^']+)'/?)?` at `i`: the optional description clause of a declaration. */
  function DescriptionAt(s: string, i: nat): (r: Option<Match<string>>)
    requires i <= |s|
    ensures r.Some? ==> i < r.value.end <= |s|
    ensures r.Some? ==> r.value.value != [] && '\'' !in r.value.value
  {
    var a :- OneOrMore(s, i, IsSpace);
    var b :- Literal(s, a, "/'");
    var c :- OneOrMore(s, b, NotQuote);
    var d :- Literal(s, c, "'");
    var e := if d < |s| && s[d] == '/' then d + 1 else d;
    Some(Match(s[b..c], e))
  }

  /** `(\w+)\s+` at `i`: a word and the whitespace after it. */
  function WordThenSpaceAt(s: string, i: nat): (r: Option<Match<string>>)
    requires i <= |s|
    ensures r.Some? ==> i < r.value.end <= |s|
    ensures r.Some? ==> IsWord(r.value.value)
  {
    var c :- OneOrMore(s, i, IsWordChar);
    var d :- OneOrMore(s, c, IsSpace);
    Some(Match(s[i..c], d))
  }

  /** `!define\s+(\w+)\s+(\w+)\s+` at `i`: the attribute name and the column code. */
  function NamesAt(s: string, i: nat): (r: Option<Match<(string, string)>>)
    requires i <= |s|
    ensures r.Some? ==> i < r.value.end <= |s|
    ensures r.Some? ==> IsWord(r.value.value.0) && IsWord(r.value.value.1)
  {
    var a :- Literal(s, i, "!define");
    var b :- OneOrMore(s, a, IsSpace);
    var name :- WordThenSpaceAt(s, b);
    var code :- WordThenSpaceAt(s, name.end);
    Some(Match((name.value, code.value), code.end))
  }

  /** `\[([^\]]+)\]\s+` at `i`: the display name in brackets. */
  function BracketTextAt(s: string, i: nat): (r: Option<Match<string>>)
    requires i <= |s|
    ensures r.Some? ==> i < r.value.end <= |s|
    ensures r.Some? ==> r.value.value != [] && ']' !in r.value.value
  {
    var g :- Literal(s, i, "[");
    var h :- OneOrMore(s, g, NotCloseBracket);
    var k :- Literal(s, h, "]");
    var l :- OneOrMore(s, k, IsSpace);
    Some(Match(s[g..h], l))
  }

  /** `\w+\(\d+\)` at `i`: a sized data type such as `VARCHAR(255)`. */
  function SizedTypeAt(s: string, i: nat): (r: Option<Match<string>>)
    requires i <= |s|
    ensures r.Some? ==> i < r.value.end <= |s|
    ensures r.Some? ==> r.value.end == i + |r.value.value| && IsSizedType(r.value.value)
  {
    var m :- OneOrMore(s, i, IsWordChar);
    var n :- Literal(s, m, "(");
    var o :- OneOrMore(s, n, IsDigit);
    var p :- Literal(s, o, ")");
    SizedTypeShape(s, i, m, o);
    Some(Match(s[i..p], p))
  }

  /** The text a successful `SizedTypeAt` returns has the shape `IsSizedType` describes. */
  lemma SizedTypeShape(s: string, i: nat, m: nat, o: nat)
    requires i < m < o < |s|
    requires forall k | i <= k < m :: IsWordChar(s[k])
    requires s[m] == '(' && m + 1 < o && s[o] == ')'
    requires forall k | m < k < o :: IsDigit(s[k])
    ensures IsSizedType(s[i..o + 1])
  {
    var t := s[i..o + 1];
    assert forall k | 0 <= k < m - i :: t[k] == s[i + k];
    SpanSkip(t, 0, m - i, IsWordChar);
    assert t[m - i] == '(';
    assert forall k | m - i < k < |t| - 1 :: t[k] == s[i + k];
  }

  /** `!define\s+(\w+)\s+(\w+)\s+\[([^\]]+)\]\s+(\w+\(\d+\))(?:\s+/'([^']+)'/?)?` anchored at `i`. */
  function AttributeAt(s: string, i: nat): (r: Option<Match<AttributeDecl>>)
    requires i <= |s|
    ensures r.Some? ==> i < r.value.end <= |s|
    ensures r.Some? ==> WellFormedDecl(r.value.value)
  {
    var names :- NamesAt(s, i);
    var display :- BracketTextAt(s, names.end);
    var dataType :- SizedTypeAt(s, display.end);
    var desc := DescriptionAt(s, dataType.end);
    Some(Match(
      AttributeDecl(names.value.0, names.value.1, display.value, dataType.value,
                    if desc.Some? then Some(desc.value.value) else None),
      if desc.Some? then desc.value.end else dataType.end))
  }

  /** `re.finditer` of the attribute pattern from `i`: leftmost matches, each scan resuming after the previous match. */
  function FindAttributes(s: string, i: nat): (r: seq<AttributeDecl>)
    requires i <= |s|
    ensures forall d <- r :: WellFormedDecl(d)
    decreases |s| - i
  {
    match AttributeAt(s, i)
    case Some(m) => [m.value] + FindAttributes(s, m.end)
    case None => if i == |s| then [] else FindAttributes(s, i + 1)
  }

  /** The shape of a table block match: a word, a quoted text and a brace-free body. */
  predicate WellFormedBlock(b: TableBlock) {
    IsWord(b.id) && b.description != [] && '"' !in b.description && b.body != [] && '}' !in b.body
  }

  /** `Table\((\w+),\s*"([^"]+)"\)[^{]*{([^}]+)}` anchored at `i`. */
  function TableAt(s: string, i: nat): (r: Option<Match<TableBlock>>)
    requires i <= |s|
    ensures r.Some? ==> i < r.value.end <= |s|
    ensures r.Some? ==> WellFormedBlock(r.value.value)
  {
    var head :- TableHeadAt(s, i);
    var body :- BraceBodyAt(s, head.end);
    Some(Match(TableBlock(head.value.0, head.value.1, body.value), body.end))
  }

  /** `Table\((\w+),\s*"([^"]+)"\)` at `i`: the identifier and the quoted description. */
  function TableHeadAt(s: string, i: nat): (r: Option<Match<(string, string)>>)
    requires i <= |s|
    ensures r.Some? ==> i < r.value.end <= |s|
    ensures r.Some? ==> IsWord(r.value.value.0) && r.value.value.1 != [] && '"' !in r.value.value.1
  {
    var a :- Literal(s, i, "Table(");
    var b :- OneOrMore(s, a, IsWordChar);
    var c :- Literal(s, b, ",");
    var q :- QuotedDescriptionAt(s, c);
    Some(Match((s[a..b], q.value), q.end))
  }

  /** `\s*"([^"]+)"\)` at `i`: the quoted description closing a table head. */
  function QuotedDescriptionAt(s: string, i: nat): (r: Option<Match<string>>)
    requires i <= |s|
    ensures r.Some? ==> i < r.value.end <= |s|
    ensures r.Some? ==> r.value.value != [] && '"' !in r.value.value
  {
    var d := i + Span(s, i, IsSpace);
    var e :- Literal(s, d, "\"");
    var f :- OneOrMore(s, e, NotDoubleQuote);
    var g :- Literal(s, f, "\")");
    Some(Match(s[e..f], g))
  }

  /** `[^{]*{([^}]+)}` at `i`: the body between the braces. */
  function BraceBodyAt(s: string, i: nat): (r: Option<Match<string>>)
    requires i <= |s|
    ensures r.Some? ==> i < r.value.end <= |s|
    ensures r.Some? ==> r.value.value != [] && '}' !in r.value.value
  {
    var h := i + Span(s, i, NotOpenBrace);
    var k :- Literal(s, h, "{");
    var l :- OneOrMore(s, k, NotCloseBrace);
    var m :- Literal(s, l, "}");
    Some(Match(s[k..l], m))
  }


  /** `re.finditer` of the table pattern from `i`. */
  function FindTables(s: string, i: nat): (r: seq<TableBlock>)
    requires i <= |s|
    ensures forall b <- r :: WellFormedBlock(b)
    decreases |s| - i
  {
    match TableAt(s, i)
    case Some(m) => [m.value] + FindTables(s, m.end)
    case None => if i == |s| then [] else FindTables(s, i + 1)
  }

  // ---------------------------------------------------------------------
  // Completeness: text of the expected shape is matched, with its groups.
  //
  // A step lemma consumes the front of the text that remains at a position
  // and returns the position after it; a chain of steps then needs no
  // arithmetic on positions.

  /** `x` is the text of `s` from position `i` on. */
  predicate Suffix(s: string, i: nat, x: string)
    decreases |x|
  {
    i + |x| == |s| && (x == [] || (s[i] == x[0] && Suffix(s, i + 1, x[1..])))
  }

  lemma {:induction false} SuffixIndex(s: string, i: nat, x: string)
    requires Suffix(s, i, x)
    ensures forall k | 0 <= k < |x| :: s[i + k] == x[k]
    decreases |x|
  {
    if x != [] {
      SuffixIndex(s, i + 1, x[1..]);
      forall k | 0 <= k < |x|
        ensures s[i + k] == x[k]
      {
        if k > 0 {
          assert s[i + 1 + (k - 1)] == x[1..][k - 1];
        }
      }
    }
  }

  lemma {:induction false} SuffixDrop(s: string, i: nat, p: string, q: string)
    requires Suffix(s, i, p + q)
    ensures Suffix(s, i + |p|, q)
    decreases |p|
  {
    if p != [] {
      assert (p + q)[1..] == p[1..] + q;
      SuffixDrop(s, i + 1, p[1..], q);
    } else {
      assert p + q == q;
    }
  }

  lemma SuffixFirst(s: string, i: nat, x: string)
    requires Suffix(s, i, x) && x != []
    ensures s[i] == x[0]
  {
  }

  /** Every position of a text starts the suffix `s[i..]`. */
  lemma {:induction false} SuffixOfSlice(s: string, i: nat)
    requires i <= |s|
    ensures Suffix(s, i, s[i..])
    decreases |s| - i
  {
    if i < |s| {
      assert s[i..][1..] == s[i + 1..];
      SuffixOfSlice(s, i + 1);
    }
  }

  /** The text between two suffix positions. */
  lemma SuffixSlice(s: string, i: nat, x: string, j: nat, rest: string)
    requires Suffix(s, i, x + rest) && Suffix(s, j, rest)
    ensures s[i..j] == x
  {
    SuffixIndex(s, i, x + rest);
    forall k | 0 <= k < |x|
      ensures s[i..j][k] == x[k]
    {
      assert s[i + k] == (x + rest)[k];
    }
  }

  /** A literal at the front of the remaining text. */
  lemma LiteralStep(s: string, i: nat, lit: string, rest: string) returns (j: nat)
    requires Suffix(s, i, lit + rest)
    ensures Literal(s, i, lit) == Some(j) && Suffix(s, j, rest)
  {
    SuffixDrop(s, i, lit, rest);
    j := i + |lit|;
    SuffixSlice(s, i, lit, j, rest);
  }

  /** A (possibly empty) run of `p`-characters followed by a character outside `p` is the maximal span. */
  lemma SpanStep(s: string, i: nat, p: char -> bool, x: string, rest: string) returns (j: nat)
    requires Suffix(s, i, x + rest)
    requires forall k | 0 <= k < |x| :: p(x[k])
    requires rest == [] || !p(rest[0])
    ensures i + Span(s, i, p) == j && s[i..j] == x && Suffix(s, j, rest)
  {
    SuffixIndex(s, i, x + rest);
    SuffixDrop(s, i, x, rest);
    j := i + |x|;
    forall k | i <= k < j
      ensures p(s[k])
    {
      assert s[i + (k - i)] == (x + rest)[k - i];
    }
    SpanSkip(s, i, j, p);
    if rest != [] {
      SuffixFirst(s, j, rest);
    }
    SuffixSlice(s, i, x, j, rest);
  }

  /** `p+` over a non-empty run followed by a character outside `p`. */
  lemma RunStep(s: string, i: nat, p: char -> bool, x: string, rest: string) returns (j: nat)
    requires Suffix(s, i, x + rest) && x != []
    requires forall k | 0 <= k < |x| :: p(x[k])
    requires rest == [] || !p(rest[0])
    ensures OneOrMore(s, i, p) == Some(j) && s[i..j] == x && Suffix(s, j, rest)
  {
    j := SpanStep(s, i, p, x, rest);
  }

  // One lemma per scanner: its result once each of its steps has succeeded.

  lemma WordThenSpaceSteps(s: string, i: nat, c: nat, d: nat)
    requires i <= |s| && OneOrMore(s, i, IsWordChar) == Some(c)
    requires c <= |s| && OneOrMore(s, c, IsSpace) == Some(d)
    ensures WordThenSpaceAt(s, i) == Some(Match(s[i..c], d))
  {
  }

  lemma NamesSteps(s: string, i: nat, a: nat, b: nat, name: Match<string>, code: Match<string>)
    requires i <= |s| && Literal(s, i, "!define") == Some(a)
    requires a <= |s| && OneOrMore(s, a, IsSpace) == Some(b)
    requires b <= |s| && WordThenSpaceAt(s, b) == Some(name)
    requires name.end <= |s| && WordThenSpaceAt(s, name.end) == Some(code)
    ensures NamesAt(s, i) == Some(Match((name.value, code.value), code.end))
  {
  }

  lemma BracketTextSteps(s: string, i: nat, g: nat, h: nat, k: nat, l: nat)
    requires i <= |s| && Literal(s, i, "[") == Some(g)
    requires g <= |s| && OneOrMore(s, g, NotCloseBracket) == Some(h)
    requires h <= |s| && Literal(s, h, "]") == Some(k)
    requires k <= |s| && OneOrMore(s, k, IsSpace) == Some(l)
    ensures BracketTextAt(s, i) == Some(Match(s[g..h], l))
  {
  }

  lemma SizedTypeSteps(s: string, i: nat, m: nat, n: nat, o: nat, p: nat)
    requires i <= |s| && OneOrMore(s, i, IsWordChar) == Some(m)
    requires m <= |s| && Literal(s, m, "(") == Some(n)
    requires n <= |s| && OneOrMore(s, n, IsDigit) == Some(o)
    requires o <= |s| && Literal(s, o, ")") == Some(p)
    ensures SizedTypeAt(s, i) == Some(Match(s[i..p], p))
  {
  }

  lemma DescriptionSteps(s: string, i: nat, a: nat, b: nat, c: nat, d: nat)
    requires i <= |s| && OneOrMore(s, i, IsSpace) == Some(a)
    requires a <= |s| && Literal(s, a, "/'") == Some(b)
    requires b <= |s| && OneOrMore(s, b, NotQuote) == Some(c)
    requires c <= |s| && Literal(s, c, "'") == Some(d)
    requires d == |s| || s[d] != '/'
    ensures DescriptionAt(s, i) == Some(Match(s[b..c], d))
  {
  }

  lemma AttributeSteps(s: string, i: nat, names: Match<(string, string)>, display: Match<string>, dataType: Match<string>)
    requires i <= |s| && NamesAt(s, i) == Some(names)
    requires names.end <= |s| && BracketTextAt(s, names.end) == Some(display)
    requires display.end <= |s| && SizedTypeAt(s, display.end) == Some(dataType)
    requires dataType.end <= |s|
    ensures DescriptionAt(s, dataType.end).None? ==>
      AttributeAt(s, i) == Some(Match(AttributeDecl(names.value.0, names.value.1, display.value, dataType.value, None), dataType.end))
    ensures DescriptionAt(s, dataType.end).Some? ==>
      AttributeAt(s, i) == Some(Match(AttributeDecl(names.value.0, names.value.1, display.value, dataType.value,
        Some(DescriptionAt(s, dataType.end).value.value)), DescriptionAt(s, dataType.end).value.end))
  {
  }

  lemma TableHeadSteps(s: string, i: nat, a: nat, b: nat, c: nat, d: nat, e: nat, f: nat, g: nat)
    requires i <= |s| && Literal(s, i, "Table(") == Some(a)
    requires a <= |s| && OneOrMore(s, a, IsWordChar) == Some(b)
    requires b <= |s| && Literal(s, b, ",") == Some(c)
    requires c <= |s| && c + Span(s, c, IsSpace) == d
    requires Literal(s, d, "\"") == Some(e)
    requires e <= |s| && OneOrMore(s, e, NotDoubleQuote) == Some(f)
    requires f <= |s| && Literal(s, f, "\")") == Some(g)
    ensures TableHeadAt(s, i) == Some(Match((s[a..b], s[e..f]), g))
  {
    QuotedDescriptionSteps(s, c, d, e, f, g);
  }

  lemma QuotedDescriptionSteps(s: string, c: nat, d: nat, e: nat, f: nat, g: nat)
    requires c <= |s| && c + Span(s, c, IsSpace) == d
    requires Literal(s, d, "\"") == Some(e)
    requires e <= |s| && OneOrMore(s, e, NotDoubleQuote) == Some(f)
    requires f <= |s| && Literal(s, f, "\")") == Some(g)
    ensures QuotedDescriptionAt(s, c) == Some(Match(s[e..f], g))
  {
  }

  lemma BraceBodySteps(s: string, i: nat, h: nat, k: nat, l: nat, m: nat)
    requires i <= |s| && i + Span(s, i, NotOpenBrace) == h
    requires Literal(s, h, "{") == Some(k)
    requires k <= |s| && OneOrMore(s, k, NotCloseBrace) == Some(l)
    requires l <= |s| && Literal(s, l, "}") == Some(m)
    ensures BraceBodyAt(s, i) == Some(Match(s[k..l], m))
  {
  }

  // One lemma per scanner: its result on text of the expected shape.

  /** `(\w+)\s+` on a word and one space. */
  lemma WordThenSpaceChain(s: string, i: nat, w: string, rest: string) returns (j: nat)
    requires IsWord(w) && Suffix(s, i, w + (" " + rest))
    requires rest == [] || !IsSpace(rest[0])
    ensures WordThenSpaceAt(s, i) == Some(Match(w, j)) && Suffix(s, j, rest)
  {
    assert (" " + rest)[0] == ' ';
    var c := RunStep(s, i, IsWordChar, w, " " + rest);
    j := RunStep(s, c, IsSpace, " ", rest);
    WordThenSpaceSteps(s, i, c, j);
  }

  /** `!define\s+(\w+)\s+(\w+)\s+` on `!define n c ` with single spaces. */
  lemma NamesChain(s: string, i: nat, n: string, c: string, rest: string) returns (f: nat)
    requires IsWord(n) && IsWord(c)
    requires Suffix(s, i, "!define" + (" " + (n + (" " + (c + (" " + rest))))))
    requires rest == [] || !IsSpace(rest[0])
    ensures NamesAt(s, i) == Some(Match((n, c), f)) && Suffix(s, f, rest)
  {
    var r2 := c + (" " + rest);
    var r1 := n + (" " + r2);
    var a := LiteralStep(s, i, "!define", " " + r1);
    assert r1[0] == n[0];
    WordCharNotSpace(n[0]);
    var b := RunStep(s, a, IsSpace, " ", r1);
    assert r2[0] == c[0];
    WordCharNotSpace(c[0]);
    var e := WordThenSpaceChain(s, b, n, r2);
    f := WordThenSpaceChain(s, e, c, rest);
    NamesSteps(s, i, a, b, Match(n, e), Match(c, f));
  }

  /** `\[([^\]]+)\]\s+` on `[j] ` with a single space. */
  lemma BracketTextChain(s: string, i: nat, j: string, rest: string) returns (l: nat)
    requires j != [] && ']' !in j
    requires Suffix(s, i, "[" + (j + ("]" + (" " + rest))))
    requires rest == [] || !IsSpace(rest[0])
    ensures BracketTextAt(s, i) == Some(Match(j, l)) && Suffix(s, l, rest)
  {
    var g := LiteralStep(s, i, "[", j + ("]" + (" " + rest)));
    assert ("]" + (" " + rest))[0] == ']';
    var h := RunStep(s, g, NotCloseBracket, j, "]" + (" " + rest));
    var k := LiteralStep(s, h, "]", " " + rest);
    l := RunStep(s, k, IsSpace, " ", rest);
    BracketTextSteps(s, i, g, h, k, l);
  }

  /** A sized type is a word, `(`, digits and `)`. */
  lemma SizedTypeParts(t: string, rest: string) returns (w: string, digits: string)
    requires IsSizedType(t)
    ensures t + rest == w + ("(" + (digits + (")" + rest)))
    ensures w != [] && (forall k | 0 <= k < |w| :: IsWordChar(w[k]))
    ensures digits != [] && forall k | 0 <= k < |digits| :: IsDigit(digits[k])
  {
    var a := WordEnd(t);
    w, digits := t[..a], t[a + 1..|t| - 1];
    assert t == w + ("(" + (digits + ")"));
    assert forall k | 0 <= k < |w| :: w[k] == t[k];
    assert forall k | 0 <= k < |digits| :: digits[k] == t[a + 1 + k];
  }

  /** `\w+\(\d+\)` on a sized type: the whole type is the match. */
  lemma SizedTypeChain(s: string, i: nat, t: string, rest: string) returns (p: nat)
    requires IsSizedType(t) && Suffix(s, i, t + rest)
    ensures SizedTypeAt(s, i) == Some(Match(t, p)) && Suffix(s, p, rest)
  {
    var w, digits := SizedTypeParts(t, rest);
    var m := RunStep(s, i, IsWordChar, w, "(" + (digits + (")" + rest)));
    var n := LiteralStep(s, m, "(", digits + (")" + rest));
    assert (")" + rest)[0] == ')';
    var o := RunStep(s, n, IsDigit, digits, ")" + rest);
    p := LiteralStep(s, o, ")", rest);
    SizedTypeSteps(s, i, m, n, o, p);
    SuffixSlice(s, i, t, p, rest);
  }

  /** The optional description clause as the declaration text writes it: ` /'x'`. */
  function DescriptionThen(description: Option<string>, tail: string): string {
    if description.None? then tail else " " + ("/'" + (description.value + ("'" + tail)))
  }

  /** Whether a text starts with white space followed by `/'`, as a description clause does. */
  predicate OpensDescription(t: string) {
    0 < Span(t, 0, IsSpace) && "/'" <= t[Span(t, 0, IsSpace)..]
  }

  /** The clause ` /'x'` is matched when no `/` follows it. */
  lemma DescriptionChain(s: string, i: nat, x: string, rest: string) returns (d: nat)
    requires x != [] && '\'' !in x
    requires Suffix(s, i, " " + ("/'" + (x + ("'" + rest))))
    requires rest == [] || rest[0] != '/'
    ensures DescriptionAt(s, i) == Some(Match(x, d)) && Suffix(s, d, rest)
  {
    assert ("/'" + (x + ("'" + rest)))[0] == '/';
    var a := RunStep(s, i, IsSpace, " ", "/'" + (x + ("'" + rest)));
    var b := LiteralStep(s, a, "/'", x + ("'" + rest));
    assert ("'" + rest)[0] == '\'';
    var c := RunStep(s, b, NotQuote, x, "'" + rest);
    d := LiteralStep(s, c, "'", rest);
    if rest != [] {
      SuffixFirst(s, d, rest);
    }
    DescriptionSteps(s, i, a, b, c, d);
  }

  /** Without white space followed by `/'`, there is no description clause. */
  lemma NoDescriptionAt(s: string, i: nat)
    requires i <= |s| && !OpensDescription(s[i..])
    ensures DescriptionAt(s, i).None?
  {
    SpanShift(s, i, IsSpace);
    assert s[i..][Span(s, i, IsSpace)..] == s[i + Span(s, i, IsSpace)..];
  }

  lemma {:induction false} SuffixIsSlice(s: string, i: nat, x: string)
    requires Suffix(s, i, x)
    ensures s[i..] == x
  {
    SuffixIndex(s, i, x);
    assert forall k | 0 <= k < |x| :: s[i..][k] == s[i + k];
  }

  lemma NoDescription(s: string, i: nat, rest: string)
    requires Suffix(s, i, rest) && !OpensDescription(rest)
    ensures DescriptionAt(s, i).None?
  {
    SuffixIsSlice(s, i, rest);
    NoDescriptionAt(s, i);
  }

  /**
   * The text of a declaration: `!define name code [japaneseName] dataType`,
   * the description clause when there is one, then `tail`.
   */
  function DeclarationThen(d: AttributeDecl, tail: string): string {
    "!define" + (" " + (d.name + (" " + (d.columnCode + (" " + ("[" + (d.japaneseName
      + ("]" + (" " + (d.dataType + DescriptionThen(d.description, tail)))))))))))
  }

  /** What may follow a declaration without extending it: no description clause, or no `/` after one. */
  predicate EndsDeclaration(d: AttributeDecl, tail: string) {
    if d.description.None? then !OpensDescription(tail) else tail == [] || tail[0] != '/'
  }

  /** A well-formed declaration written out is matched, with all five groups. */
  lemma AttributeChain(s: string, i: nat, d: AttributeDecl, tail: string) returns (f: nat)
    requires WellFormedDecl(d) && EndsDeclaration(d, tail)
    requires Suffix(s, i, DeclarationThen(d, tail))
    ensures AttributeAt(s, i) == Some(Match(d, f)) && Suffix(s, f, tail)
  {
    var r3 := DescriptionThen(d.description, tail);
    var r2 := d.dataType + r3;
    var r1 := "[" + (d.japaneseName + ("]" + (" " + r2)));
    var p1 := NamesChain(s, i, d.name, d.columnCode, r1);
    WordCharNotSpace(d.dataType[0]);
    assert r2[0] == d.dataType[0];
    var p2 := BracketTextChain(s, p1, d.japaneseName, r2);
    var p3 := SizedTypeChain(s, p2, d.dataType, r3);
    AttributeSteps(s, i, Match((d.name, d.columnCode), p1), Match(d.japaneseName, p2), Match(d.dataType, p3));
    if d.description.None? {
      NoDescription(s, p3, tail);
      f := p3;
    } else {
      f := DescriptionChain(s, p3, d.description.value, tail);
    }
  }

  /** The declaration text written left to right, as it appears in a document. */
  lemma DeclarationText(d: AttributeDecl, tail: string)
    ensures "!define " + d.name + " " + d.columnCode + " [" + d.japaneseName + "] " + d.dataType
      + DescriptionThen(d.description, tail) == DeclarationThen(d, tail)
  {
  }

  /** `!define name code [japaneseName] dataType` followed by text that opens no description clause. */
  lemma AttributeLine(name: string, code: string, japaneseName: string, dataType: string, tail: string)
    requires WellFormedDecl(AttributeDecl(name, code, japaneseName, dataType, None))
    requires !OpensDescription(tail)
    ensures AttributeAt("!define " + name + " " + code + " [" + japaneseName + "] " + dataType + tail, 0)
      == Some(Match(AttributeDecl(name, code, japaneseName, dataType, None),
                    |"!define " + name + " " + code + " [" + japaneseName + "] " + dataType|))
  {
    var d := AttributeDecl(name, code, japaneseName, dataType, None);
    var p := "!define " + name + " " + code + " [" + japaneseName + "] " + dataType;
    var s := p + tail;
    DeclarationText(d, tail);
    assert s == DeclarationThen(d, tail);
    SuffixOfSlice(s, 0);
    var f := AttributeChain(s, 0, d, tail);
    assert f == |p|;
  }

  /** The same line with a description clause ` /'description'`, followed by text that does not start with `/`. */
  lemma AttributeLineDescribed(name: string, code: string, japaneseName: string, dataType: string,
                               description: string, tail: string)
    requires WellFormedDecl(AttributeDecl(name, code, japaneseName, dataType, Some(description)))
    requires tail == [] || tail[0] != '/'
    ensures AttributeAt("!define " + name + " " + code + " [" + japaneseName + "] " + dataType
                        + " /'" + description + "'" + tail, 0)
      == Some(Match(AttributeDecl(name, code, japaneseName, dataType, Some(description)),
                    |"!define " + name + " " + code + " [" + japaneseName + "] " + dataType + " /'" + description + "'"|))
  {
    var d := AttributeDecl(name, code, japaneseName, dataType, Some(description));
    var q := "!define " + name + " " + code + " [" + japaneseName + "] " + dataType;
    var p := q + " /'" + description + "'";
    var s := p + tail;
    DeclarationText(d, tail);
    assert s == q + DescriptionThen(d.description, tail);
    SuffixOfSlice(s, 0);
    var f := AttributeChain(s, 0, d, tail);
    assert f == |p|;
  }

  /** No declaration starts at a position that does not hold `!`. */
  lemma NoAttributeHere(s: string, k: nat)
    requires k <= |s| && (k == |s| || s[k] != '!')
    ensures AttributeAt(s, k).None?
  {
    if k < |s| {
      assert s[k..][0] == s[k];
    }
  }

  /** Positions where no declaration starts are passed over by `finditer`. */
  lemma {:induction false} FindAttributesSkip(s: string, i: nat, j: nat)
    requires i <= j <= |s|
    requires forall k | i <= k < j :: AttributeAt(s, k).None?
    ensures FindAttributes(s, i) == FindAttributes(s, j)
    decreases j - i
  {
    if i < j {
      FindAttributesSkip(s, i + 1, j);
    }
  }

  /** A gap without the character `c` leads to the rest of the text. */
  lemma GapChars(s: string, i: nat, g: string, rest: string, c: char) returns (j: nat)
    requires Suffix(s, i, g + rest) && c !in g
    ensures Suffix(s, j, rest) && i <= j && forall k | i <= k < j :: s[k] != c
  {
    SuffixIndex(s, i, g + rest);
    SuffixDrop(s, i, g, rest);
    j := i + |g|;
    forall k | i <= k < j
      ensures s[k] != c
    {
      assert s[i + (k - i)] == (g + rest)[k - i] == g[k - i];
    }
  }

  /** Text without `!` holds no declaration, so `finditer` passes over it. */
  lemma AttributeGapStep(s: string, i: nat, g: string, rest: string) returns (j: nat)
    requires Suffix(s, i, g + rest) && '!' !in g
    ensures Suffix(s, j, rest) && FindAttributes(s, i) == FindAttributes(s, j)
  {
    j := GapChars(s, i, g, rest, '!');
    forall k | i <= k < j
      ensures AttributeAt(s, k).None?
    {
      NoAttributeHere(s, k);
    }
    FindAttributesSkip(s, i, j);
  }

  /**
   * A text made of declarations with `gaps[k]` before the `k`-th one and
   * the last gap after them all.
   */
  function AttributeText(decls: seq<AttributeDecl>, gaps: seq<string>): string
    requires |gaps| == |decls| + 1
    decreases |decls|
  {
    if decls == [] then gaps[0]
    else gaps[0] + DeclarationThen(decls[0], AttributeText(decls[1..], gaps[1..]))
  }

  /** Text that holds neither `!` nor `/` cannot start or extend a declaration. */
  predicate IsAttributeGap(g: string) {
    '!' !in g && '/' !in g
  }

  /** After its first gap, such a text is empty or starts a declaration with `!`. */
  lemma AttributeTextFront(decls: seq<AttributeDecl>, gaps: seq<string>) returns (after: string)
    requires |gaps| == |decls| + 1
    ensures AttributeText(decls, gaps) == gaps[0] + after && (after == [] || after[0] == '!')
  {
    if decls == [] {
      after := [];
      assert gaps[0] + after == gaps[0];
    } else {
      after := DeclarationThen(decls[0], AttributeText(decls[1..], gaps[1..]));
    }
  }

  /** A gap followed by nothing or by `!` ends the declaration before it. */
  lemma GapEndsDeclaration(d: AttributeDecl, g: string, after: string)
    requires IsAttributeGap(g) && (after == [] || after[0] == '!')
    ensures EndsDeclaration(d, g + after)
  {
    var t := g + after;
    var n := Span(t, 0, IsSpace);
    if t != [] {
      assert t[0] == if g != [] then g[0] else after[0];
    }
    assert n <= |g| by {
      if |g| < n {
        assert t[|g|] == after[0];
        SpanHolds(t, 0, IsSpace, |g|);
      }
    }
    if n < |t| {
      assert t[n..][0] == t[n];
      if n < |g| {
        assert t[n] == g[n];
      } else {
        assert t[n] == after[0];
      }
    }
  }

  /** A text holding only a gap without `!` has no declaration left. */
  lemma FindAttributesGapOnly(s: string, i: nat, g: string)
    requires Suffix(s, i, g) && '!' !in g
    ensures FindAttributes(s, i) == []
  {
    assert g + [] == g;
    var j := AttributeGapStep(s, i, g, []);
    NoAttributeHere(s, j);
  }

  /** The first gap is passed over and the first declaration is reported, with the rest of the text after it. */
  lemma FindAttributesFirst(s: string, i: nat, decls: seq<AttributeDecl>, gaps: seq<string>) returns (f: nat)
    requires |gaps| == |decls| + 1 && decls != []
    requires WellFormedDecl(decls[0]) && IsAttributeGap(gaps[0]) && IsAttributeGap(gaps[1])
    requires Suffix(s, i, AttributeText(decls, gaps))
    ensures f <= |s| && FindAttributes(s, i) == [decls[0]] + FindAttributes(s, f)
    ensures Suffix(s, f, AttributeText(decls[1..], gaps[1..]))
  {
    var rest := AttributeText(decls[1..], gaps[1..]);
    var j := AttributeGapStep(s, i, gaps[0], DeclarationThen(decls[0], rest));
    var after := AttributeTextFront(decls[1..], gaps[1..]);
    GapEndsDeclaration(decls[0], gaps[1], after);
    f := AttributeChain(s, j, decls[0], rest);
    FindAttributesHit(s, j, Match(decls[0], f));
  }

  /** `finditer` over such a text finds exactly the declarations, in order. */
  lemma {:induction false} FindAttributesText(s: string, i: nat, decls: seq<AttributeDecl>, gaps: seq<string>)
    requires |gaps| == |decls| + 1
    requires forall k | 0 <= k < |decls| :: WellFormedDecl(decls[k])
    requires forall k | 0 <= k < |gaps| :: IsAttributeGap(gaps[k])
    requires Suffix(s, i, AttributeText(decls, gaps))
    ensures FindAttributes(s, i) == decls
    decreases |decls|
  {
    if decls == [] {
      FindAttributesGapOnly(s, i, gaps[0]);
    } else {
      var f := FindAttributesFirst(s, i, decls, gaps);
      FindAttributesText(s, f, decls[1..], gaps[1..]);
      HeadTail(decls);
    }
  }

  lemma HeadTail<T>(xs: seq<T>)
    requires xs != []
    ensures [xs[0]] + xs[1..] == xs
  {
  }

  /** A declaration matched at `j` is the next one `finditer` reports. */
  lemma FindAttributesHit(s: string, j: nat, m: Match<AttributeDecl>)
    requires j <= |s| && AttributeAt(s, j) == Some(m)
    ensures FindAttributes(s, j) == [m.value] + FindAttributes(s, m.end)
  {
  }

  /** The attribute pass finds every declaration of such a document, in document order. */
  lemma AttributesFound(decls: seq<AttributeDecl>, gaps: seq<string>)
    requires |gaps| == |decls| + 1
    requires forall k | 0 <= k < |decls| :: WellFormedDecl(decls[k])
    requires forall k | 0 <= k < |gaps| :: IsAttributeGap(gaps[k])
    ensures FindAttributes(AttributeText(decls, gaps), 0) == decls
  {
    var s := AttributeText(decls, gaps);
    assert s[0..] == s;
    SuffixOfSlice(s, 0);
    FindAttributesText(s, 0, decls, gaps);
  }

  /**
   * The text of a table block: `Table(id,`, white space `ws`, the quoted
   * description and `)`, then `gap` before the braced body, then `tail`.
   */
  function TableThen(b: TableBlock, ws: string, gap: string, tail: string): string {
    "Table(" + (b.id + ("," + (ws + ("\"" + (b.description + ("\")" + (gap + ("{" + (b.body + ("}" + tail))))))))))
  }

  /** `Table\((\w+),\s*"([^"]+)"\)` on its expected text. */
  lemma TableHeadChain(s: string, i: nat, id: string, ws: string, description: string, rest: string) returns (g: nat)
    requires IsWord(id) && AllSpace(ws) && description != [] && '"' !in description
    requires Suffix(s, i, "Table(" + (id + ("," + (ws + ("\"" + (description + ("\")" + rest)))))))
    ensures TableHeadAt(s, i) == Some(Match((id, description), g)) && Suffix(s, g, rest)
  {
    var r3 := "\"" + (description + ("\")" + rest));
    var a := LiteralStep(s, i, "Table(", id + ("," + (ws + r3)));
    assert ("," + (ws + r3))[0] == ',';
    var b := RunStep(s, a, IsWordChar, id, "," + (ws + r3));
    var c := LiteralStep(s, b, ",", ws + r3);
    assert r3[0] == '"';
    var d := SpanStep(s, c, IsSpace, ws, r3);
    var e := LiteralStep(s, d, "\"", description + ("\")" + rest));
    assert ("\")" + rest)[0] == '"';
    var f := RunStep(s, e, NotDoubleQuote, description, "\")" + rest);
    g := LiteralStep(s, f, "\")", rest);
    TableHeadSteps(s, i, a, b, c, d, e, f, g);
  }

  /** `[^{]*{([^}]+)}` on a gap without `{` and a non-empty body without `}`. */
  lemma BraceBodyChain(s: string, i: nat, gap: string, body: string, rest: string) returns (m: nat)
    requires '{' !in gap && body != [] && '}' !in body
    requires Suffix(s, i, gap + ("{" + (body + ("}" + rest))))
    ensures BraceBodyAt(s, i) == Some(Match(body, m)) && Suffix(s, m, rest)
  {
    assert ("{" + (body + ("}" + rest)))[0] == '{';
    var h := SpanStep(s, i, NotOpenBrace, gap, "{" + (body + ("}" + rest)));
    var k := LiteralStep(s, h, "{", body + ("}" + rest));
    assert ("}" + rest)[0] == '}';
    var l := RunStep(s, k, NotCloseBrace, body, "}" + rest);
    m := LiteralStep(s, l, "}", rest);
    BraceBodySteps(s, i, h, k, l, m);
  }

  /** A well-formed table block written out is matched, with its three groups. */
  lemma TableChain(s: string, i: nat, b: TableBlock, ws: string, gap: string, tail: string) returns (m: nat)
    requires WellFormedBlock(b) && AllSpace(ws) && '{' !in gap
    requires Suffix(s, i, TableThen(b, ws, gap, tail))
    ensures TableAt(s, i) == Some(Match(b, m)) && Suffix(s, m, tail)
  {
    var rest := gap + ("{" + (b.body + ("}" + tail)));
    var g := TableHeadChain(s, i, b.id, ws, b.description, rest);
    m := BraceBodyChain(s, g, gap, b.body, tail);
  }

  /** The table text written left to right, as it appears in a document. */
  lemma TableText(b: TableBlock, ws: string, gap: string, tail: string)
    ensures "Table(" + b.id + "," + ws + "\"" + b.description + "\")" + gap + "{" + b.body + "}" + tail
      == TableThen(b, ws, gap, tail)
  {
  }

  /** `Table(id, "description")`, a gap without `{`, and `{body}`, then any text. */
  lemma TableLine(id: string, description: string, gap: string, body: string, tail: string)
    requires WellFormedBlock(TableBlock(id, description, body)) && '{' !in gap
    ensures TableAt("Table(" + id + ", \"" + description + "\")" + gap + "{" + body + "}" + tail, 0)
      == Some(Match(TableBlock(id, description, body),
                    |"Table(" + id + ", \"" + description + "\")" + gap + "{" + body + "}"|))
  {
    var b := TableBlock(id, description, body);
    var p := "Table(" + id + ", \"" + description + "\")" + gap + "{" + body + "}";
    var s := p + tail;
    TableText(b, " ", gap, tail);
    assert s == TableThen(b, " ", gap, tail);
    SuffixOfSlice(s, 0);
    var m := TableChain(s, 0, b, " ", gap, tail);
    assert m == |p|;
  }

  /** No table block starts at a position that does not hold `T`. */
  lemma NoTableHere(s: string, k: nat)
    requires k <= |s| && (k == |s| || s[k] != 'T')
    ensures TableAt(s, k).None?
  {
    if k < |s| {
      assert s[k..][0] == s[k];
    }
  }

  /** Positions where no table block starts are passed over by `finditer`. */
  lemma {:induction false} FindTablesSkip(s: string, i: nat, j: nat)
    requires i <= j <= |s|
    requires forall k | i <= k < j :: TableAt(s, k).None?
    ensures FindTables(s, i) == FindTables(s, j)
    decreases j - i
  {
    if i < j {
      FindTablesSkip(s, i + 1, j);
    }
  }

  /** Text without `T` holds no table block, so `finditer` passes over it. */
  lemma TableGapStep(s: string, i: nat, g: string, rest: string) returns (j: nat)
    requires Suffix(s, i, g + rest) && 'T' !in g
    ensures Suffix(s, j, rest) && FindTables(s, i) == FindTables(s, j)
  {
    j := GapChars(s, i, g, rest, 'T');
    forall k | i <= k < j
      ensures TableAt(s, k).None?
    {
      NoTableHere(s, k);
    }
    FindTablesSkip(s, i, j);
  }

  /**
   * A text made of table blocks, each written `Table(id, "description") {body}`,
   * with `gaps[k]` before the `k`-th one and the last gap after them all.
   */
  function TablesText(blocks: seq<TableBlock>, gaps: seq<string>): string
    requires |gaps| == |blocks| + 1
    decreases |blocks|
  {
    if blocks == [] then gaps[0]
    else gaps[0] + TableThen(blocks[0], " ", " ", TablesText(blocks[1..], gaps[1..]))
  }

  /** A text holding only a gap without `T` has no table block left. */
  lemma FindTablesGapOnly(s: string, i: nat, g: string)
    requires Suffix(s, i, g) && 'T' !in g
    ensures FindTables(s, i) == []
  {
    assert g + [] == g;
    var j := TableGapStep(s, i, g, []);
    NoTableHere(s, j);
  }

  /** A block matched at `j` is the next one `finditer` reports. */
  lemma FindTablesHit(s: string, j: nat, m: Match<TableBlock>)
    requires j <= |s| && TableAt(s, j) == Some(m)
    ensures FindTables(s, j) == [m.value] + FindTables(s, m.end)
  {
  }

  /** The first gap is passed over and the first block is reported, with the rest of the text after it. */
  lemma FindTablesFirst(s: string, i: nat, blocks: seq<TableBlock>, gaps: seq<string>) returns (m: nat)
    requires |gaps| == |blocks| + 1 && blocks != []
    requires WellFormedBlock(blocks[0]) && 'T' !in gaps[0]
    requires Suffix(s, i, TablesText(blocks, gaps))
    ensures m <= |s| && FindTables(s, i) == [blocks[0]] + FindTables(s, m)
    ensures Suffix(s, m, TablesText(blocks[1..], gaps[1..]))
  {
    var rest := TablesText(blocks[1..], gaps[1..]);
    var j := TableGapStep(s, i, gaps[0], TableThen(blocks[0], " ", " ", rest));
    assert AllSpace(" ");
    m := TableChain(s, j, blocks[0], " ", " ", rest);
    FindTablesHit(s, j, Match(blocks[0], m));
  }

  /** `finditer` over such a text finds exactly the table blocks, in order. */
  lemma {:induction false} FindTablesText(s: string, i: nat, blocks: seq<TableBlock>, gaps: seq<string>)
    requires |gaps| == |blocks| + 1
    requires forall k | 0 <= k < |blocks| :: WellFormedBlock(blocks[k])
    requires forall k | 0 <= k < |gaps| :: 'T' !in gaps[k]
    requires Suffix(s, i, TablesText(blocks, gaps))
    ensures FindTables(s, i) == blocks
    decreases |blocks|
  {
    if blocks == [] {
      FindTablesGapOnly(s, i, gaps[0]);
    } else {
      var m := FindTablesFirst(s, i, blocks, gaps);
      FindTablesText(s, m, blocks[1..], gaps[1..]);
      HeadTail(blocks);
    }
  }

  /** The table pass finds every block of such a document, in document order. */
  lemma TablesFound(blocks: seq<TableBlock>, gaps: seq<string>)
    requires |gaps| == |blocks| + 1
    requires forall k | 0 <= k < |blocks| :: WellFormedBlock(blocks[k])
    requires forall k | 0 <= k < |gaps| :: 'T' !in gaps[k]
    ensures FindTables(TablesText(blocks, gaps), 0) == blocks
  {
    var s := TablesText(blocks, gaps);
    assert s[0..] == s;
    SuffixOfSlice(s, 0);
    FindTablesText(s, 0, blocks, gaps);
  }

  /** `open(\w+)close` anchored at `i`, giving the word. */
  function WordGroupAt(s: string, i: nat, open: string, close: string): (r: Option<string>)
    requires i <= |s|
    ensures r.Some? ==> IsWord(r.value)
  {
    var a :- Literal(s, i, open);
    var b :- OneOrMore(s, a, IsWordChar);
    var _ :- Literal(s, b, close);
    Some(s[a..b])
  }

  /**
   * `re.search` of `open(\w+)close` from `i`: the group of the leftmost
   * position where the pattern matches, or `None` when it matches nowhere.
   */
  function SearchWordGroup(s: string, open: string, close: string, i: nat): (r: Option<string>)
    requires i <= |s|
    ensures r.Some? ==> IsWord(r.value)
    decreases |s| - i
  {
    if WordGroupAt(s, i, open, close).Some? then WordGroupAt(s, i, open, close)
    else if i == |s| then None
    else SearchWordGroup(s, open, close, i + 1)
  }

  /** The search comes back empty exactly when the pattern matches at no position from `i` on. */
  lemma {:induction false} SearchNone(s: string, open: string, close: string, i: nat)
    requires i <= |s|
    ensures SearchWordGroup(s, open, close, i).None? <==> forall j | i <= j <= |s| :: WordGroupAt(s, j, open, close).None?
    decreases |s| - i
  {
    if WordGroupAt(s, i, open, close).None? && i < |s| {
      SearchNone(s, open, close, i + 1);
      assert SearchWordGroup(s, open, close, i) == SearchWordGroup(s, open, close, i + 1);
    }
  }

  /** The search finds the group at the leftmost position where the pattern matches. */
  lemma {:induction false} SearchLeftmost(s: string, open: string, close: string, i: nat)
    requires i <= |s|
    requires SearchWordGroup(s, open, close, i).Some?
    ensures exists j | i <= j <= |s| ::
      WordGroupAt(s, j, open, close) == SearchWordGroup(s, open, close, i)
      && forall k | i <= k < j :: WordGroupAt(s, k, open, close).None?
    decreases |s| - i
  {
    if WordGroupAt(s, i, open, close).None? {
      assert SearchWordGroup(s, open, close, i) == SearchWordGroup(s, open, close, i + 1);
      SearchLeftmost(s, open, close, i + 1);
      var j :| i + 1 <= j <= |s| && WordGroupAt(s, j, open, close) == SearchWordGroup(s, open, close, i)
        && forall k | i + 1 <= k < j :: WordGroupAt(s, k, open, close).None?;
      assert forall k | i <= k < j :: WordGroupAt(s, k, open, close).None?;
    }
  }


  /** `re.search(r'primary_key\((\w+)\)', line)` */
  function PrimaryKeyName(line: string): (r: Option<string>)
    ensures r.Some? ==> IsWord(r.value)
    ensures r.None? <==> forall j | 0 <= j <= |line| :: WordGroupAt(line, j, "primary_key(", ")").None?
  {
    SearchNone(line, "primary_key(", ")", 0);
    SearchWordGroup(line, "primary_key(", ")", 0)
  }

  /** `re.search(r'foreign_key\((\w+)\)', line)` */
  function ForeignKeyName(line: string): (r: Option<string>)
    ensures r.Some? ==> IsWord(r.value)
    ensures r.None? <==> forall j | 0 <= j <= |line| :: WordGroupAt(line, j, "foreign_key(", ")").None?
  {
    SearchNone(line, "foreign_key(", ")", 0);
    SearchWordGroup(line, "foreign_key(", ")", 0)
  }

  /** `re.search(r'\[(\w+)\]', line)` */
  function BracketReference(line: string): (r: Option<string>)
    ensures r.Some? ==> IsWord(r.value)
    ensures r.None? <==> forall j | 0 <= j <= |line| :: WordGroupAt(line, j, "[", "]").None?
  {
    SearchNone(line, "[", "]", 0);
    SearchWordGroup(line, "[", "]", 0)
  }

  /** Groups of `(\w+)(?:\(([^)]+)\))?` matched at the start of a type name. */
  datatype TypeName = TypeName(base: string, size: Option<string>)

  /** The optional `\(([^)]+)\)` after the base type. */
  function SizeSuffixAt(t: string, i: nat): (r: Option<string>)
    requires i <= |t|
    ensures r.Some? ==> r.value != [] && ')' !in r.value
  {
    var a :- Literal(t, i, "(");
    var b :- OneOrMore(t, a, NotCloseParen);
    var _ :- Literal(t, b, ")");
    Some(t[a..b])
  }

  /** `re.match(r'(\w+)(?:\(([^)]+)\))?', t)`; `None` when `t` does not start with a word character. */
  function MatchTypeName(t: string): (r: Option<TypeName>)
    ensures r.Some? <==> t != [] && IsWordChar(t[0])
    ensures r.Some? ==> IsWord(r.value.base) && r.value.base <= t
  {
    var a :- OneOrMore(t, 0, IsWordChar);
    Some(TypeName(t[..a], SizeSuffixAt(t, a)))
  }

  /** The relationship operator tokens, in the order try.py:237 lists them. */
  const RelationshipOperators: seq<string> := ["||-o{", "--|>", "--", "o--o", "*--*"]

  /** `any(op in s for op in ops)` */
  predicate ContainsAny(s: string, ops: seq<string>) {
    exists op <- ops :: Contains(s, op)
  }

  /**
   * Three of the five operators contain `--`, so a line holds one of them
   * exactly when it holds `||-o{` or `--`.
   */
  lemma OperatorsReduce(s: string)
    ensures ContainsAny(s, RelationshipOperators) <==> Contains(s, "||-o{") || Contains(s, "--")
  {
    if ContainsAny(s, RelationshipOperators) {
      var op :| op in RelationshipOperators && Contains(s, op);
      if op in ["--|>", "o--o", "*--*"] {
        assert Contains(op, "--") by {
          ContainsIff(op, "--");
          var at := if op == "--|>" then 0 else 1;
          assert "--" <= op[at..];
        }
        ContainsTrans(s, op, "--");
      }
    }
    if Contains(s, "--") {
      assert "--" in RelationshipOperators;
    }
    if Contains(s, "||-o{") {
      assert "||-o{" in RelationshipOperators;
    }
  }
}
