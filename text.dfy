/**
 * The parts of Python's `str` that the converter relies on: whitespace
 * classification, `strip()`, `split('\n')`, `split()`, `sep.join(parts)`,
 * `upper()` and the substring test `t in s`.
 */
module Text {

  /** `str.isspace()`: the characters that `\s`, `strip()` and `split()` treat as whitespace. */
  predicate IsSpace(c: char) {
    ('\t' <= c <= '\r') || ('\U{1C}' <= c <= '\U{1F}') || c == ' ' || c == '\U{85}' || c == '\U{A0}'
    || c == '\U{1680}' || ('\U{2000}' <= c <= '\U{200A}') || c == '\U{2028}' || c == '\U{2029}'
    || c == '\U{202F}' || c == '\U{205F}' || c == '\U{3000}'
  }

  predicate NotSpace(c: char) { !IsSpace(c) }

  lemma WordCharNotSpace(c: char)
    requires IsWordChar(c)
    ensures NotSpace(c)
  {
  }

  /** Stand-in for the regex class `\w`, restricted to ASCII letters, digits and `_`. */
  predicate IsWordChar(c: char) {
    ('a' <= c <= 'z') || ('A' <= c <= 'Z') || ('0' <= c <= '9') || c == '_'
  }

  /** The regex class `\d`, restricted to ASCII digits. */
  predicate IsDigit(c: char) { '0' <= c <= '9' }

  predicate AllSpace(s: string) { forall k | 0 <= k < |s| :: IsSpace(s[k]) }

  predicate IsWord(s: string) { s != [] && forall k | 0 <= k < |s| :: IsWordChar(s[k]) }

  /** A non-empty run of non-whitespace characters, as `split()` returns them. */
  predicate IsToken(s: string) { s != [] && forall k | 0 <= k < |s| :: NotSpace(s[k]) }

  /** No leading and no trailing whitespace. */
  predicate IsStripped(s: string) { s == [] || (!IsSpace(s[0]) && !IsSpace(s[|s| - 1])) }

  /** Length of the longest run of characters satisfying `p` that starts at `i`. */
  function Span(s: string, i: nat, p: char -> bool): (n: nat)
    requires i <= |s|
    ensures i + n <= |s|
    ensures forall k {:trigger p(s[k])} | i <= k < i + n :: p(s[k])
    ensures i + n == |s| || !p(s[i + n])
    decreases |s| - i
  {
    if i == |s| || !p(s[i]) then 0 else 1 + Span(s, i + 1, p)
  }

  /** Every character of a run satisfies the predicate. */
  lemma SpanHolds(s: string, i: nat, p: char -> bool, k: nat)
    requires i <= |s| && i <= k < i + Span(s, i, p)
    ensures p(s[k])
  {
  }

  /** Removes trailing whitespace. */
  function TrimRight(s: string): (r: string)
    ensures r <= s
    ensures AllSpace(s[|r|..])
    ensures r == [] || !IsSpace(r[|r| - 1])
  {
    if s != [] && IsSpace(s[|s| - 1]) then
      var r := TrimRight(s[..|s| - 1]);
      assert s[|r|..] == s[..|s| - 1][|r|..] + [s[|s| - 1]];
      r
    else
      s
  }

  /** Python's `s.strip()`. */
  function Strip(s: string): (r: string)
    ensures IsStripped(r)
    ensures Span(s, 0, IsSpace) + |r| <= |s|
    ensures r == s[Span(s, 0, IsSpace)..Span(s, 0, IsSpace) + |r|]
  {
    var i := Span(s, 0, IsSpace);
    var r := TrimRight(s[i..]);
    assert r == s[i..][..|r|];
    assert s[i + |r|..] == s[i..][|r|..];
    r
  }

  /** What `strip()` removes is whitespace on both sides. */
  lemma StripPadding(s: string)
    ensures AllSpace(s[..Span(s, 0, IsSpace)]) && AllSpace(s[Span(s, 0, IsSpace) + |Strip(s)|..])
  {
    var i := Span(s, 0, IsSpace);
    var r := TrimRight(s[i..]);
    assert s[i + |r|..] == s[i..][|r|..];
  }

  lemma StripStripped(s: string)
    requires IsStripped(s)
    ensures Strip(s) == s
  {
    if s != [] {
      assert Span(s, 0, IsSpace) == 0;
      assert TrimRight(s) == s;
    }
  }

  /** Python's `t in s`. */
  predicate Contains(s: string, t: string)
    decreases |s|
  {
    t <= s || (s != [] && Contains(s[1..], t))
  }

  lemma {:induction false} ContainsAt(s: string, t: string, i: nat)
    requires i <= |s| && t <= s[i..]
    ensures Contains(s, t)
    decreases i
  {
    if i > 0 {
      assert s[1..][i - 1..] == s[i..];
      ContainsAt(s[1..], t, i - 1);
    }
  }

  lemma {:induction false} ContainsWitness(s: string, t: string) returns (i: nat)
    requires Contains(s, t)
    ensures i <= |s| && t <= s[i..]
    decreases |s|
  {
    if t <= s {
      i := 0;
    } else {
      var j := ContainsWitness(s[1..], t);
      assert s[1..][j..] == s[j + 1..];
      i := j + 1;
    }
  }

  /** `t in s` holds exactly when `t` is a prefix of some suffix of `s`. */
  lemma ContainsIff(s: string, t: string)
    ensures Contains(s, t) <==> exists i :: 0 <= i <= |s| && t <= s[i..]
  {
    if Contains(s, t) {
      var i := ContainsWitness(s, t);
    }
    if exists i :: 0 <= i <= |s| && t <= s[i..] {
      var i :| 0 <= i <= |s| && t <= s[i..];
      ContainsAt(s, t, i);
    }
  }

  /** Containment of substrings is transitive. */
  lemma ContainsTrans(s: string, t: string, u: string)
    requires Contains(s, t) && Contains(t, u)
    ensures Contains(s, u)
  {
    var i := ContainsWitness(s, t);
    var j := ContainsWitness(t, u);
    assert u <= s[i + j..] by {
      forall k | 0 <= k < |u| ensures u[k] == s[i + j..][k] {
        assert u[k] == t[j + k] == s[i..][j + k];
      }
    }
    ContainsAt(s, u, i + j);
  }

  lemma ContainsInfix(a: string, t: string, b: string)
    ensures Contains(a + t + b, t)
  {
    assert (a + t + b)[|a|..] == t + b;
    ContainsAt(a + t + b, t, |a|);
  }

  /** Python's `sep.join(parts)`. */
  function Join(parts: seq<string>, sep: string): string
  {
    if parts == [] then ""
    else if |parts| == 1 then parts[0]
    else parts[0] + sep + Join(parts[1..], sep)
  }

  lemma JoinCons(p: string, parts: seq<string>, sep: string)
    requires parts != []
    ensures Join([p] + parts, sep) == p + sep + Join(parts, sep)
  {
    assert ([p] + parts)[1..] == parts;
  }

  lemma {:induction false} JoinSnoc(parts: seq<string>, p: string, sep: string)
    requires parts != []
    ensures Join(parts + [p], sep) == Join(parts, sep) + sep + p
    decreases |parts|
  {
    if |parts| == 1 {
      assert parts + [p] == [parts[0], p];
      assert [parts[0], p][1..] == [p];
    } else {
      JoinSnoc(parts[1..], p, sep);
      assert (parts + [p])[1..] == parts[1..] + [p];
    }
  }

  /** Python's `s.split(sep)` for a one-character separator: empty pieces are kept. */
  function SplitOn(s: string, sep: char): (parts: seq<string>)
    ensures |parts| >= 1
  {
    if s == [] then [""]
    else if s[0] == sep then [""] + SplitOn(s[1..], sep)
    else
      var rest := SplitOn(s[1..], sep);
      [[s[0]] + rest[0]] + rest[1..]
  }

  /** No piece contains the separator. */
  lemma {:induction false} SplitOnPieces(s: string, sep: char)
    ensures forall p <- SplitOn(s, sep) :: sep !in p
    decreases |s|
  {
    if s != [] {
      var rest := SplitOn(s[1..], sep);
      SplitOnPieces(s[1..], sep);
      if s[0] != sep {
        assert rest[0] in rest;
        assert forall p <- rest[1..] :: p in rest;
      }
    }
  }

  /** Joining the pieces with the separator gives back the text. */
  lemma {:induction false} JoinSplit(s: string, sep: char)
    ensures Join(SplitOn(s, sep), [sep]) == s
    decreases |s|
  {
    if s != [] {
      JoinSplit(s[1..], sep);
      var rest := SplitOn(s[1..], sep);
      if s[0] == sep {
        JoinCons("", rest, [sep]);
      } else if |rest| == 1 {
        assert SplitOn(s, sep) == [[s[0]] + rest[0]];
      } else {
        assert rest == [rest[0]] + rest[1..];
        JoinCons([s[0]] + rest[0], rest[1..], [sep]);
        JoinCons(rest[0], rest[1..], [sep]);
      }
    }
  }

  lemma {:induction false} SplitOnFree(s: string, sep: char)
    requires sep !in s
    ensures SplitOn(s, sep) == [s]
    decreases |s|
  {
    if s != [] {
      assert sep !in s[1..] by { assert forall k | 0 <= k < |s| - 1 :: s[1..][k] == s[k + 1]; }
      SplitOnFree(s[1..], sep);
      assert [s[0]] + s[1..] == s;
    }
  }

  /** Splitting text that has a separator at position `|x|` splits the two sides independently. */
  lemma {:induction false} SplitOnConcat(x: string, sep: char, y: string)
    ensures SplitOn(x + [sep] + y, sep) == SplitOn(x, sep) + SplitOn(y, sep)
    decreases |x|
  {
    var z := x + [sep] + y;
    if x == [] {
      assert z == [sep] + y;
      assert z[1..] == y;
    } else {
      assert z[1..] == x[1..] + [sep] + y;
      SplitOnConcat(x[1..], sep, y);
      SplitOnStep(x, z, SplitOn(y, sep), sep);
    }
  }

  /** One step of `SplitOnConcat`: `x` and `z` start alike and `z`'s tail splits into `x`'s tail's pieces and `right`. */
  lemma SplitOnStep(x: string, z: string, right: seq<string>, sep: char)
    requires x != [] && z != [] && z[0] == x[0]
    requires SplitOn(z[1..], sep) == SplitOn(x[1..], sep) + right
    ensures SplitOn(z, sep) == SplitOn(x, sep) + right
  {
    var left := SplitOn(x[1..], sep);
    if x[0] != sep {
      assert (left + right)[0] == left[0];
      assert (left + right)[1..] == left[1..] + right;
    }
  }

  lemma SplitOnCons(x: string, sep: char, y: string)
    requires sep !in x
    ensures SplitOn(x + [sep] + y, sep) == [x] + SplitOn(y, sep)
  {
    SplitOnConcat(x, sep, y);
    SplitOnFree(x, sep);
  }

  /** Splitting undoes joining, so `split('\n')` recovers the lines it was given. */
  lemma {:induction false} SplitJoin(parts: seq<string>, sep: char)
    requires parts != []
    requires forall p <- parts :: sep !in p
    ensures SplitOn(Join(parts, [sep]), sep) == parts
    decreases |parts|
  {
    if |parts| == 1 {
      SplitOnFree(parts[0], sep);
    } else {
      SplitJoin(parts[1..], sep);
      SplitOnCons(parts[0], sep, Join(parts[1..], [sep]));
      assert parts == [parts[0]] + parts[1..];
    }
  }

  /** Python's `s.split()`: the maximal runs of non-whitespace characters, in order. */
  function SplitWs(s: string): seq<string>
    decreases |s|
  {
    if Span(s, 0, IsSpace) == |s| then []
    else [s[Span(s, 0, IsSpace)..TokenEnd(s)]] + SplitWs(s[TokenEnd(s)..])
  }

  /** Every piece `split()` returns is a non-empty run of non-whitespace characters. */
  lemma {:induction false} SplitWsTokens(s: string)
    ensures forall t <- SplitWs(s) :: IsToken(t)
    decreases |s|
  {
    if Span(s, 0, IsSpace) < |s| {
      var i, e := Span(s, 0, IsSpace), TokenEnd(s);
      SplitWsTokens(s[e..]);
      assert forall k | i <= k < e :: NotSpace(s[k]);
      assert SplitWs(s) == [s[i..e]] + SplitWs(s[e..]);
    }
  }

  /** Where the first token of `s` ends. */
  function TokenEnd(s: string): (e: nat)
    requires Span(s, 0, IsSpace) < |s|
    ensures Span(s, 0, IsSpace) < e <= |s|
  {
    Span(s, 0, IsSpace) + Span(s, Span(s, 0, IsSpace), NotSpace)
  }

  lemma SplitWsUnfold(s: string)
    requires Span(s, 0, IsSpace) < |s|
    ensures SplitWs(s) == [s[Span(s, 0, IsSpace)..TokenEnd(s)]] + SplitWs(s[TokenEnd(s)..])
  {
  }

  /** `split()` finds no token exactly when the text is all whitespace. */
  lemma SplitWsEmpty(s: string)
    ensures SplitWs(s) == [] <==> AllSpace(s)
  {
    var i := Span(s, 0, IsSpace);
    if i == |s| {
      assert s[..i] == s;
    } else {
      SplitWsUnfold(s);
    }
  }

  /** A string that starts with a non-space character has `s[..n]` as its first token. */
  lemma FirstToken(s: string)
    requires s != [] && NotSpace(s[0])
    ensures SplitWs(s) != [] && SplitWs(s)[0] == s[..Span(s, 0, NotSpace)]
  {
    assert Span(s, 0, IsSpace) == 0;
    SplitWsUnfold(s);
  }

  /** A span over characters already known to satisfy `p` can be skipped. */
  lemma {:induction false} SpanSkip(s: string, i: nat, m: nat, p: char -> bool)
    requires i <= m <= |s|
    requires forall k | i <= k < m :: p(s[k])
    ensures Span(s, i, p) == (m - i) + Span(s, m, p)
    decreases m - i
  {
    if i < m {
      SpanSkip(s, i + 1, m, p);
    }
  }

  lemma LeadingSpaceSpan(w: string, s: string)
    requires AllSpace(w)
    ensures Span(w + s, 0, IsSpace) == |w| + Span(s, 0, IsSpace)
  {
    var x := w + s;
    assert x[|w|..] == s;
    SpanSkip(x, 0, |w|, IsSpace);
    SpanDrop(x, |w|, |w|, IsSpace);
  }

  lemma LeadingSpaceTokenEnd(w: string, s: string)
    requires AllSpace(w)
    requires Span(s, 0, IsSpace) < |s|
    ensures Span(w + s, 0, IsSpace) < |w + s|
    ensures TokenEnd(w + s) == |w| + TokenEnd(s)
  {
    var x := w + s;
    LeadingSpaceSpan(w, s);
    assert x[|w|..] == s;
    SpanDrop(x, |w|, Span(x, 0, IsSpace), NotSpace);
  }

  lemma SplitWsLeadingSpace(w: string, s: string)
    requires AllSpace(w)
    ensures SplitWs(w + s) == SplitWs(s)
  {
    var x := w + s;
    LeadingSpaceSpan(w, s);
    if Span(s, 0, IsSpace) < |s| {
      LeadingSpaceTokenEnd(w, s);
      var j, f := Span(s, 0, IsSpace), TokenEnd(s);
      var d := |w|;
      SplitWsUnfold(x);
      assert SplitWs(x) == [x[d + j..d + f]] + SplitWs(x[d + f..]);
      SliceAfterPrefix(w, s, j, f);
      SplitWsUnfold(s);
    }
  }

  /** Slices of `w + s` past `w` are slices of `s`. */
  lemma SliceAfterPrefix(w: string, s: string, j: nat, f: nat)
    requires j <= f <= |s|
    ensures (w + s)[|w| + j..|w| + f] == s[j..f] && (w + s)[|w| + f..] == s[f..]
  {
    var x := w + s;
    assert x[|w|..] == s;
    assert x[|w| + j..|w| + f] == x[|w|..][j..f];
    assert x[|w| + f..] == x[|w|..][f..];
  }

  /** Spans are invariant under dropping a prefix. */
  lemma {:induction false} SpanShift(s: string, d: nat, p: char -> bool)
    requires d <= |s|
    ensures Span(s, d, p) == Span(s[d..], 0, p)
  {
    SpanDrop(s, d, d, p);
  }

  lemma {:induction false} SpanDrop(s: string, d: nat, i: nat, p: char -> bool)
    requires d <= i <= |s|
    ensures Span(s, i, p) == Span(s[d..], i - d, p)
    decreases |s| - i
  {
    if i < |s| && p(s[i]) {
      assert s[d..][i - d] == s[i];
      SpanDrop(s, d, i + 1, p);
    }
  }

  /** Splitting on whitespace undoes joining with single spaces. */
  lemma {:induction false} SplitWsJoin(tokens: seq<string>)
    requires forall t <- tokens :: IsToken(t)
    ensures SplitWs(Join(tokens, " ")) == tokens
    decreases |tokens|
  {
    if tokens != [] {
      var t := tokens[0];
      assert t in tokens;
      if |tokens| == 1 {
        SplitWsOne(t);
        assert tokens == [t];
      } else {
        var tail := Join(tokens[1..], " ");
        assert Join(tokens, " ") == t + (" " + tail);
        SplitWsSingle(t, " " + tail);
        SplitWsJoin(tokens[1..]);
        SplitWsLeadingSpace(" ", tail);
        assert tokens == [t] + tokens[1..];
      }
    }
  }

  lemma SplitWsOne(t: string)
    requires IsToken(t)
    ensures SplitWs(t) == [t]
  {
    SplitWsSingle(t, "");
    assert t + "" == t;
    assert Span("", 0, IsSpace) == 0;
  }

  /** A token followed by nothing or by whitespace is split off first. */
  lemma SplitWsSingle(t: string, rest: string)
    requires IsToken(t)
    requires rest == [] || IsSpace(rest[0])
    ensures SplitWs(t + rest) == [t] + SplitWs(rest)
  {
    var s := t + rest;
    assert s[0] == t[0];
    assert Span(s, 0, IsSpace) == 0;
    SpanTokenLength(t, rest);
    assert TokenEnd(s) == |t|;
    assert s[..|t|] == t;
    assert s[|t|..] == rest;
    SplitWsUnfold(s);
  }

  lemma SpanTokenLength(t: string, rest: string)
    requires forall j | 0 <= j < |t| :: NotSpace(t[j])
    requires rest == [] || IsSpace(rest[0])
    ensures Span(t + rest, 0, NotSpace) == |t|
  {
    var s := t + rest;
    assert forall k | 0 <= k < |t| :: s[k] == t[k];
    SpanSkip(s, 0, |t|, NotSpace);
    assert |t| < |s| ==> s[|t|] == rest[0];
  }

  function UpperChar(c: char): char {
    if 'a' <= c <= 'z' then (c as int - 32) as char else c
  }

  /** Python's `s.upper()` on ASCII letters; other characters are left as they are. */
  function Upper(s: string): (r: string)
    ensures |r| == |s|
    ensures forall k | 0 <= k < |s| :: 'a' <= s[k] <= 'z' ==> r[k] as int == s[k] as int - 32
    ensures forall k | 0 <= k < |s| :: !('a' <= s[k] <= 'z') ==> r[k] == s[k]
  {
    seq(|s|, k requires 0 <= k < |s| => UpperChar(s[k]))
  }
}
