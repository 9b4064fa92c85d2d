/**
 * Combining the three documents into one (try.py:133-162,
 * ddlgeneratot.py:37-65): each document loses its `@startuml`/`@enduml`
 * markers and surrounding whitespace, and the relationship document keeps
 * only the lines the variant's filter accepts.
 */
module Combiner {
  import opened Text
  import opened Patterns
  import opened Schema

  predicate NotNewline(c: char) { c != '\n' }

  /** The first and last lines of the combined document. */
  const HeaderLine: string := "@startuml tables"
  const Footer: string := "@enduml"

  /**
   * `re.sub(r'@startuml.*?\n', '', s)`: deletes each `@startuml` together
   * with the rest of its line and the line break. A `@startuml` on the last
   * line, with no line break after it, is not matched and stays.
   */
  function RemoveStartTags(s: string): (r: string)
    ensures |r| <= |s|
    ensures !Contains(s, "@startuml") ==> r == s
    decreases |s|
  {
    if s == [] then []
    else if "@startuml" <= s && 9 + Span(s, 9, NotNewline) < |s| then
      RemoveStartTags(s[9 + Span(s, 9, NotNewline) + 1..])
    else
      assert [s[0]] + s[1..] == s;
      [s[0]] + RemoveStartTags(s[1..])
  }

  /**
   * `re.sub(lit, '', s)` for a literal pattern: the occurrences found in one
   * left-to-right pass are deleted, and the text is not scanned again.
   */
  function RemoveLiteral(s: string, lit: string): (r: string)
    requires lit != []
    ensures |r| <= |s|
    ensures !Contains(s, lit) ==> r == s
    decreases |s|
  {
    if s == [] then []
    else if lit <= s then RemoveLiteral(s[|lit|..], lit)
    else
      assert [s[0]] + s[1..] == s;
      [s[0]] + RemoveLiteral(s[1..], lit)
  }

  /** `_clean_content` */
  function CleanContent(s: string): (r: string)
    ensures IsStripped(r)
    ensures !Contains(s, "@startuml") && !Contains(s, Footer) ==> r == Strip(s)
  {
    Strip(RemoveLiteral(RemoveStartTags(s), Footer))
  }

  /** A `@startuml` line, whatever follows the marker on it, is deleted with its line break. */
  lemma StartTagLineRemoved(rest: string, body: string)
    requires '\n' !in rest
    ensures RemoveStartTags("@startuml" + (rest + ("\n" + body))) == RemoveStartTags(body)
  {
    var s := "@startuml" + (rest + ("\n" + body));
    assert "@startuml" <= s;
    assert s[9..] == rest + ("\n" + body);
    LineSpan(s, 9, rest, body);
  }

  /** From `i`, the rest of the line is `rest`; past its line break comes `body`. */
  lemma LineSpan(s: string, i: nat, rest: string, body: string)
    requires i <= |s| && s[i..] == rest + ("\n" + body)
    requires '\n' !in rest
    ensures Span(s, i, NotNewline) == |rest| && i + |rest| < |s|
    ensures s[i + |rest| + 1..] == body
  {
    assert forall k | i <= k < i + |rest| :: s[k] == s[i..][k - i] == rest[k - i];
    SpanSkip(s, i, i + |rest|, NotNewline);
    assert s[i + |rest|] == s[i..][|rest|] == '\n';
    assert s[i + |rest| + 1..] == s[i..][|rest| + 1..];
  }

  /** A character that the literal does not contain cannot be part of an occurrence. */
  lemma {:induction false} RemoveLiteralPast(a: string, c: char, b: string, lit: string)
    requires lit != [] && c !in lit
    requires !Contains(a, lit)
    ensures RemoveLiteral(a + ([c] + b), lit) == a + ([c] + RemoveLiteral(b, lit))
    decreases |a|
  {
    var s := a + ([c] + b);
    NoMatchBefore(a, c, b, lit);
    if a == [] {
      assert s[1..] == b;
    } else {
      assert s[0] == a[0] && s[1..] == a[1..] + ([c] + b);
      assert RemoveLiteral(s, lit) == [a[0]] + RemoveLiteral(a[1..] + ([c] + b), lit);
      RemoveLiteralPast(a[1..], c, b, lit);
      ConsTail(a, [c] + RemoveLiteral(b, lit));
    }
  }

  lemma ConsTail(a: string, u: string)
    requires a != []
    ensures [a[0]] + (a[1..] + u) == a + u
  {
    assert a == [a[0]] + a[1..];
  }

  /** No occurrence of the literal starts at the front of `a + [c] + b`. */
  lemma NoMatchBefore(a: string, c: char, b: string, lit: string)
    requires lit != [] && c !in lit
    requires !Contains(a, lit)
    ensures !(lit <= a + ([c] + b))
  {
    var s := a + ([c] + b);
    assert s[|a|] == c;
    assert |lit| <= |a| ==> (lit <= s ==> lit <= a);
  }

  lemma CharOfMatch(s: string, t: string, i: nat, j: nat)
    requires i <= |s| && t <= s[i..]
    requires i <= j < i + |t|
    ensures s[j] in t
  {
    assert t[j - i] == s[j];
  }

  /** Joining two texts with a character the pattern lacks creates no occurrence of it. */
  lemma NotContainsJoin(a: string, c: char, b: string, t: string)
    requires t != [] && c !in t
    requires !Contains(a, t) && !Contains(b, t)
    ensures !Contains(a + ([c] + b), t)
  {
    var s := a + ([c] + b);
    if Contains(s, t) {
      var i := ContainsWitness(s, t);
      assert s[|a|] == c;
      MatchPlacement(s, |a|, t, i);
      if i + |t| <= |a| {
        MatchInLeft(a, s, t, i);
      } else if |a| < i {
        assert s[|a| + 1..] == b;
        MatchInRight(b, s, |a| + 1, t, i);
      }
    }
  }

  /** An occurrence of `t` cannot cover a position holding a character `t` lacks. */
  lemma MatchPlacement(s: string, j: nat, t: string, i: nat)
    requires j < |s| && s[j] !in t
    requires i <= |s| && t <= s[i..]
    ensures i + |t| <= j || j < i
  {
    if i <= j < i + |t| {
      CharOfMatch(s, t, i, j);
    }
  }

  lemma MatchInLeft(a: string, s: string, t: string, i: nat)
    requires |a| <= |s| && s[..|a|] == a
    requires i + |t| <= |a| && t <= s[i..]
    ensures Contains(a, t)
  {
    assert t <= a[i..] by {
      assert forall k | 0 <= k < |t| :: a[i..][k] == s[i + k] == s[i..][k];
    }
    ContainsAt(a, t, i);
  }

  lemma MatchInRight(b: string, s: string, d: nat, t: string, i: nat)
    requires d <= i <= |s| && s[d..] == b
    requires t <= s[i..]
    ensures Contains(b, t)
  {
    assert s[i..] == b[i - d..];
    ContainsAt(b, t, i - d);
  }

  lemma TrimRightSnoc(x: string, c: char)
    requires IsSpace(c)
    ensures TrimRight(x + [c]) == TrimRight(x)
  {
    assert (x + [c])[..|x|] == x;
  }

  lemma StripTrailingNewline(x: string)
    ensures Strip(x + "\n") == Strip(x)
  {
    assert x + "\n" == x + ['\n'];
    StripSnocSpace(x, '\n');
  }

  lemma StripSnocSpace(x: string, c: char)
    requires IsSpace(c)
    ensures Strip(x + [c]) == Strip(x)
  {
    var i := Span(x, 0, IsSpace);
    SpanSnoc(x, c);
    if i < |x| {
      assert (x + [c])[i..] == x[i..] + [c];
      TrimRightSnoc(x[i..], c);
    }
  }

  /** Leading whitespace of `x + [c]`: that of `x`, or all of it when `x` is blank. */
  lemma SpanSnoc(x: string, c: char)
    requires IsSpace(c)
    ensures Span(x + [c], 0, IsSpace) == if Span(x, 0, IsSpace) < |x| then Span(x, 0, IsSpace) else |x| + 1
  {
    var y, i := x + [c], Span(x, 0, IsSpace);
    assert forall k | 0 <= k < |x| :: y[k] == x[k];
    SpanSkip(y, 0, i, IsSpace);
    if i == |x| {
      assert y[i] == c;
    } else {
      assert y[i] == x[i];
    }
  }

  lemma StripEmpty()
    ensures Strip("") == ""
  {
  }

  lemma ContainsLonger(s: string, t: string)
    requires |s| < |t|
    ensures !Contains(s, t)
  {
  }

  lemma StartTagsEnvelope(header: string, body: string)
    requires '\n' !in header
    requires !Contains(body, "@startuml")
    ensures RemoveStartTags("@startuml" + (header + ("\n" + (body + ("\n" + Footer))))) == body + ("\n" + Footer)
  {
    var tail := body + ("\n" + Footer);
    StartTagLineRemoved(header, tail);
    ContainsLonger(Footer, "@startuml");
    NotContainsJoin(body, '\n', Footer, "@startuml");
  }

  lemma EndTagEnvelope(body: string)
    requires !Contains(body, Footer)
    ensures RemoveLiteral(body + ("\n" + Footer), Footer) == body + "\n"
  {
    RemoveLiteralPast(body, '\n', Footer, Footer);
    assert Footer[|Footer|..] == "";
    assert RemoveLiteral(Footer, Footer) == "";
  }

  /**
   * The document shape the cleaning is written for: a `@startuml` line,
   * a body, and `@enduml` on a line of its own. Only the trimmed body is left.
   */
  lemma CleanEnvelope(header: string, body: string)
    requires '\n' !in header
    requires !Contains(body, "@startuml") && !Contains(body, Footer)
    ensures CleanContent("@startuml" + header + "\n" + body + "\n" + Footer) == Strip(body)
  {
    assert "@startuml" + header + "\n" + body + "\n" + Footer
        == "@startuml" + (header + ("\n" + (body + ("\n" + Footer))));
    StartTagsEnvelope(header, body);
    EndTagEnvelope(body);
    StripTrailingNewline(body);
  }

  /** The operators ddlgeneratot.py:54 tests after `||-o{`. */
  const OtherOperators: seq<string> := ["--", "--|>", "o--o", "*--*"]

  /** Whether the combining loop keeps a line of the relationship document (try.py:150, ddlgeneratot.py:54). */
  predicate KeepsErLine(variant: Variant, line: string) {
    match variant
    case Basic => Contains(line, "||-o{") || ContainsAny(line, OtherOperators)
    case Versioned(_) => !("!include" <= Strip(line))
  }

  /** ddlgeneratot.py keeps exactly the lines that hold one of the five operators. */
  lemma BasicKeepsOperatorLines(line: string)
    ensures KeepsErLine(Basic, line) <==> ContainsAny(line, RelationshipOperators)
  {
    if ContainsAny(line, OtherOperators) {
      var op :| op in OtherOperators && Contains(line, op);
      assert op in RelationshipOperators;
    }
    if ContainsAny(line, RelationshipOperators) {
      var op :| op in RelationshipOperators && Contains(line, op);
      if op != "||-o{" {
        assert op in OtherOperators;
      }
    }
  }

  /** The lines the loop keeps, in document order. */
  function KeptErLines(variant: Variant, lines: seq<string>): (kept: seq<string>)
    ensures |kept| <= |lines|
    ensures forall l <- kept :: l in lines && KeepsErLine(variant, l)
    ensures forall l <- lines :: KeepsErLine(variant, l) ==> l in kept
  {
    if lines == [] then []
    else
      assert forall l <- lines[..|lines| - 1] :: l in lines;
      assert forall l <- lines :: l in lines[..|lines| - 1] || l == lines[|lines| - 1];
      KeptErLines(variant, lines[..|lines| - 1])
      + (if KeepsErLine(variant, lines[|lines| - 1]) then [lines[|lines| - 1]] else [])
  }

  /** Each line followed by a line break, as the loop appends them. */
  function Terminated(lines: seq<string>): string {
    if lines == [] then "" else Terminated(lines[..|lines| - 1]) + lines[|lines| - 1] + "\n"
  }

  /** `combine_files`: the attribute text, then the table text, then the kept relationship lines. */
  function Combine(variant: Variant, attributes: string, tables: string, er: string): (r: string)
    ensures IsFramed(r)
  {
    Framed(CleanContent(attributes), CleanContent(tables), KeptText(variant, er))
  }

  /** A text that opens with the header line and a line break and closes with the footer. */
  predicate IsFramed(r: string) {
    "@startuml tables\n" <= r && |Footer| <= |r| && r[|r| - |Footer|..] == "@enduml"
  }

  /** The relationship lines the loop keeps, each closed by a line break. */
  function KeptText(variant: Variant, er: string): string {
    Terminated(KeptErLines(variant, SplitOn(CleanContent(er), '\n')))
  }

  /** The header line, the three parts each closed by a line break, and the footer. */
  function Framed(a: string, b: string, c: string): (r: string)
    ensures IsFramed(r)
  {
    var r := HeaderLine + "\n" + (a + "\n" + (b + "\n" + (c + Footer)));
    assert r == (HeaderLine + "\n" + a + "\n" + b + "\n" + c) + Footer;
    r
  }

  lemma {:induction false} SplitTerminated(lines: seq<string>, last: string)
    requires forall l <- lines :: '\n' !in l
    requires '\n' !in last
    ensures SplitOn(Terminated(lines) + last, '\n') == lines + [last]
    decreases |lines|
  {
    if lines == [] {
      assert Terminated(lines) + last == last;
      SplitOnFree(last, '\n');
    } else {
      var init := lines[..|lines| - 1];
      var l := lines[|lines| - 1];
      assert forall x <- init :: x in lines;
      assert l in lines;
      SplitTerminated(init, l);
      assert Terminated(lines) + last == (Terminated(init) + l) + ['\n'] + last;
      SplitOnConcat(Terminated(init) + l, '\n', last);
      SplitOnFree(last, '\n');
      assert init + [l] == lines;
    }
  }

  lemma SplitThreeBreaks(h: string, a: string, t: string, tail: string)
    requires '\n' !in h
    ensures SplitOn(h + "\n" + (a + "\n" + (t + "\n" + tail)), '\n')
         == [h] + (SplitOn(a, '\n') + (SplitOn(t, '\n') + SplitOn(tail, '\n')))
  {
    SplitOnConcat(t, '\n', tail);
    SplitOnConcat(a, '\n', t + "\n" + tail);
    SplitOnConcat(h, '\n', a + "\n" + (t + "\n" + tail));
    SplitOnFree(h, '\n');
  }

  lemma KeptLinesUnbroken(variant: Variant, text: string)
    ensures forall l <- KeptErLines(variant, SplitOn(text, '\n')) :: '\n' !in l
  {
    SplitOnPieces(text, '\n');
  }

  lemma MarkersUnbroken()
    ensures '\n' !in HeaderLine && '\n' !in Footer
  {
    assert forall k | 0 <= k < |HeaderLine| :: HeaderLine[k] != '\n';
    assert forall k | 0 <= k < |Footer| :: Footer[k] != '\n';
  }

  /**
   * Read back line by line, the combined document is the header line, the
   * lines of the cleaned attribute text, those of the cleaned table text,
   * the kept relationship lines and the closing marker, in that order.
   */
  lemma CombinedLines(variant: Variant, attributes: string, tables: string, er: string)
    ensures SplitOn(Combine(variant, attributes, tables, er), '\n')
         == [HeaderLine] + (SplitOn(CleanContent(attributes), '\n') + (SplitOn(CleanContent(tables), '\n')
            + (KeptErLines(variant, SplitOn(CleanContent(er), '\n')) + [Footer])))
  {
    var a, t := CleanContent(attributes), CleanContent(tables);
    var kept := KeptErLines(variant, SplitOn(CleanContent(er), '\n'));
    var tail := Terminated(kept) + Footer;
    assert Combine(variant, attributes, tables, er) == HeaderLine + "\n" + (a + "\n" + (t + "\n" + tail));
    KeptLinesUnbroken(variant, CleanContent(er));
    MarkersUnbroken();
    SplitTerminated(kept, Footer);
    assert SplitOn(tail, '\n') == kept + [Footer];
    SplitThreeBreaks(HeaderLine, a, t, tail);
  }
}
