/**
 * The test-declaration scanner of the extension: recognising a `node:test`
 * declaration on one line, collecting the declarations of a document, and
 * turning a test name into an exact-match `--test-name-pattern`.
 *
 * The line pattern is
 *   ^\s*(?:test|it|describe)(?:\.(?:skip|only))?\s*\(\s*(['"`])((?:\\.|(?!\1).)+)\1
 * and is modelled directly (no general regular-expression engine).
 */
module NodeTestParser {
  import opened Wrappers

  // ---------------------------------------------------------------------------
  // Character classes
  // ---------------------------------------------------------------------------

  /** ECMAScript LineTerminator: the characters that `.` does not match. */
  predicate IsLineTerminator(c: char) {
    c == '\n' || c == '\r' || c == '\U{2028}' || c == '\U{2029}'
  }

  /** ECMAScript `\s`: WhiteSpace (TAB, VT, FF, ZWNBSP, the Zs separators) and LineTerminator. */
  predicate IsWhitespace(c: char) {
    || c == '\t' || c == '\U{000B}' || c == '\U{000C}' || c == ' '
    || c == '\U{00A0}' || c == '\U{1680}' || ('\U{2000}' <= c <= '\U{200A}')
    || c == '\U{202F}' || c == '\U{205F}' || c == '\U{3000}' || c == '\U{FEFF}'
    || IsLineTerminator(c)
  }

  /** The opening-quote class `['"`]`. */
  predicate IsQuote(c: char) {
    c == '\'' || c == '"' || c == '`'
  }

  predicate AllWhitespace(s: string) {
    forall k :: 0 <= k < |s| ==> IsWhitespace(s[k])
  }

  const Keywords: seq<string> := ["test", "it", "describe"]
  const Qualifiers: seq<string> := [".skip", ".only"]

  predicate StartsAt(s: string, i: nat, w: string) {
    i + |w| <= |s| && s[i..i + |w|] == w
  }

  // ---------------------------------------------------------------------------
  // The line pattern, part by part
  // ---------------------------------------------------------------------------

  /** `\s*` from position i: greedy, and no shorter run can lead to a match. */
  function SkipWhitespace(s: string, i: nat): (j: nat)
    requires i <= |s|
    ensures i <= j <= |s|
    ensures forall k :: i <= k < j ==> IsWhitespace(s[k])
    ensures j == |s| || !IsWhitespace(s[j])
    decreases |s| - i
  {
    if i < |s| && IsWhitespace(s[i]) then SkipWhitespace(s, i + 1) else i
  }

  /** `(?:test|it|describe)` at position i, alternatives tried in order. */
  function MatchKeyword(s: string, i: nat): (r: Option<nat>)
    requires i <= |s|
    ensures r.Some? ==> i < r.value <= |s|
  {
    if StartsAt(s, i, "test") then Some(i + 4)
    else if StartsAt(s, i, "it") then Some(i + 2)
    else if StartsAt(s, i, "describe") then Some(i + 8)
    else None
  }

  /**
   * `(?:\.(?:skip|only))?` at position i. The optional group is greedy; not
   * taking it when it is present cannot help, because `\s*\(` cannot start
   * at a `.`.
   */
  function MatchQualifier(s: string, i: nat): (j: nat)
    requires i <= |s|
    ensures i <= j <= |s|
    ensures j == i || (j == i + 5 && (s[i..j] == ".skip" || s[i..j] == ".only"))
    ensures j == i ==> !StartsAt(s, i, ".skip") && !StartsAt(s, i, ".only")
  {
    if StartsAt(s, i, ".skip") || StartsAt(s, i, ".only") then i + 5 else i
  }

  /** Where the name starts, and the quote that opened it. */
  datatype Opening = Opening(nameStart: nat, quote: char)

  /**
   * Everything up to and including the opening quote, anchored at the start
   * of the line. Every part is deterministic (each alternative the matcher
   * could backtrack to fails on its first character), so the result is the
   * position just after the opening quote, together with that quote.
   */
  function MatchOpening(s: string): (r: Option<Opening>)
    ensures r.Some? ==> 0 < r.value.nameStart <= |s| && IsQuote(r.value.quote) && s[r.value.nameStart - 1] == r.value.quote
  {
    var a := SkipWhitespace(s, 0);
    var kw := MatchKeyword(s, a);
    if kw.None? then None
    else
      var c := MatchQualifier(s, kw.value);
      var e := SkipWhitespace(s, c);
      if e < |s| && s[e] == '(' then
        var f := SkipWhitespace(s, e + 1);
        if f < |s| && IsQuote(s[f]) then Some(Opening(f + 1, s[f])) else None
      else None
  }

  /** The opening is accepted, the name starts at p and q opened it. */
  predicate OpensAt(s: string, p: nat, q: char) {
    MatchOpening(s).Some? && MatchOpening(s).value.nameStart == p && MatchOpening(s).value.quote == q
  }

  /**
   * The declarative form of `(?:\\.|(?!\1).)*` for quote q: a sequence of
   * atoms, each either a backslash followed by a non-terminator character or
   * a single non-terminator character other than q. A backslash may be taken
   * as a plain character, so a body may end with one.
   */
  predicate IsBody(t: string, q: char)
    decreases |t|
  {
    || t == []
    || (|t| >= 2 && t[0] == '\\' && !IsLineTerminator(t[1]) && IsBody(t[2..], q))
    || (!IsLineTerminator(t[0]) && t[0] != q && IsBody(t[1..], q))
  }

  /**
   * `((?:\\.|(?!\1).)+)\1` from position i, explored in the order a
   * backtracking matcher explores it: another iteration first (the escape
   * alternative before the plain character), then the closing quote.
   * `started` says whether at least one iteration has been taken. Returns the
   * end of the capture, where the closing quote stands.
   */
  function MatchBody(s: string, i: nat, q: char, started: bool): (r: Option<nat>)
    requires i <= |s|
    ensures r.Some? ==> i <= r.value < |s| && s[r.value] == q
    ensures r.Some? ==> (started || i < r.value) && IsBody(s[i..r.value], q)
    decreases |s| - i
  {
    var viaEscape :=
      if i + 1 < |s| && s[i] == '\\' && !IsLineTerminator(s[i + 1]) then MatchBody(s, i + 2, q, true) else None;
    if viaEscape.Some? then
      assert s[i..viaEscape.value][2..] == s[i + 2..viaEscape.value];
      viaEscape
    else
      var viaChar :=
        if i < |s| && !IsLineTerminator(s[i]) && s[i] != q then MatchBody(s, i + 1, q, true) else None;
      if viaChar.Some? then
        assert s[i..viaChar.value][1..] == s[i + 1..viaChar.value];
        viaChar
      else if started && i < |s| && s[i] == q then Some(i)
      else None
  }

  /**
   * `findTestNameInLine`: the text of the second capture group of the line
   * pattern, or None when the line is empty or does not match.
   */
  function FindTestNameInLine(line: string): (name: Option<string>)
    ensures line == [] ==> name.None?
    ensures name.Some? ==> name.value != []
  {
    if line == [] then None
    else
      match MatchOpening(line)
      case None => None
      case Some(Opening(p, q)) =>
        match MatchBody(line, p, q, false)
        case None => None
        case Some(e) => Some(line[p..e])
  }

  // ---------------------------------------------------------------------------
  // The language of the line pattern, stated declaratively
  // ---------------------------------------------------------------------------

  /** The pieces of a line that the pattern accepts. */
  datatype LineShape = LineShape(
    indent: string,       // \s*
    keyword: string,      // test | it | describe
    qualifier: string,    // "" | .skip | .only
    beforeParen: string,  // \s*
    afterParen: string,   // \s*
    quote: char,          // ' | " | `
    name: string)         // the capture

  ghost predicate IsShape(d: LineShape) {
    && AllWhitespace(d.indent)
    && d.keyword in Keywords
    && (d.qualifier == "" || d.qualifier in Qualifiers)
    && AllWhitespace(d.beforeParen)
    && AllWhitespace(d.afterParen)
    && IsQuote(d.quote)
    && d.name != []
    && IsBody(d.name, d.quote)
  }

  /** The line built from the pieces, followed by whatever the pattern leaves unread. */
  function Compose(d: LineShape, rest: string): string {
    d.indent + (d.keyword + (d.qualifier + (d.beforeParen + ("(" + (d.afterParen +
      ([d.quote] + (d.name + ([d.quote] + rest))))))))
  }

  /** Where the name starts in Compose(d, rest). */
  function NameStart(d: LineShape): nat {
    |d.indent| + |d.keyword| + |d.qualifier| + |d.beforeParen| + 1 + |d.afterParen| + 1
  }

  /** Cutting x off the front of s[i..] == x + y. */
  lemma Cut(s: string, i: nat, x: string, y: string) returns (j: nat)
    requires i <= |s| && s[i..] == x + y
    ensures j == i + |x| <= |s| && s[i..j] == x && s[j..] == y
  {
    j := i + |x|;
    assert s[i..][..|x|] == x;
    assert s[i..][|x|..] == y;
  }

  lemma SkipWhitespaceOver(s: string, i: nat, w: string)
    requires i <= |s| && StartsAt(s, i, w) && AllWhitespace(w)
    requires i + |w| == |s| || !IsWhitespace(s[i + |w|])
    ensures SkipWhitespace(s, i) == i + |w|
  {
    var j := SkipWhitespace(s, i);
    forall k | i <= k < i + |w| ensures IsWhitespace(s[k]) {
      assert s[k] == s[i..i + |w|][k - i] == w[k - i];
    }
  }

  lemma MatchBodyComplete(s: string, i: nat, q: char, started: bool, j: nat)
    requires i <= j < |s| && s[j] == q
    requires IsBody(s[i..j], q) && (started || i < j)
    ensures MatchBody(s, i, q, started).Some?
    decreases j - i
  {
    if i < j {
      var t := s[i..j];
      if |t| >= 2 && t[0] == '\\' && !IsLineTerminator(t[1]) && IsBody(t[2..], q) {
        assert t[2..] == s[i + 2..j];
        MatchBodyComplete(s, i + 2, q, true, j);
      } else {
        assert t[1..] == s[i + 1..j];
        MatchBodyComplete(s, i + 1, q, true, j);
      }
    }
  }

  /** The slices of s at the given cut points, put back together, give s. */
  lemma Glue(s: string, i: nat, j: nat, t: string)
    requires i <= j <= |s| && t == s[j..]
    ensures s[i..j] + t == s[i..]
  {
    assert s[i..] == s[i..j] + s[j..];
  }

  lemma GlueOne(s: string, i: nat, c: char, t: string)
    requires i < |s| && s[i] == c && t == s[i + 1..]
    ensures [c] + t == s[i..]
  {
    assert s[i..] == [s[i]] + s[i + 1..];
  }

  lemma ComposeSlices(s: string, a: nat, b: nat, c: nat, e: nat, f: nat, r: nat)
    requires a <= b <= c <= e && e < f < r < |s|
    requires s[e] == '(' && s[r] == s[f]
    ensures s == Compose(LineShape(s[..a], s[a..b], s[b..c], s[c..e], s[e + 1..f], s[f], s[f + 1..r]), s[r + 1..])
  {
    var q := s[f];
    var t8 := [q] + s[r + 1..];
    GlueOne(s, r, q, s[r + 1..]);
    var t7 := s[f + 1..r] + t8;
    Glue(s, f + 1, r, t8);
    var t6 := [q] + t7;
    GlueOne(s, f, q, t7);
    var t5 := s[e + 1..f] + t6;
    Glue(s, e + 1, f, t6);
    var t4 := "(" + t5;
    GlueOne(s, e, '(', t5);
    var t3 := s[c..e] + t4;
    Glue(s, c, e, t4);
    var t2 := s[b..c] + t3;
    Glue(s, b, c, t3);
    var t1 := s[a..b] + t2;
    Glue(s, a, b, t2);
    Glue(s, 0, a, t1);
    assert s[0..a] == s[..a] && s[0..] == s;
  }

  lemma KeywordSlice(s: string, a: nat)
    requires a <= |s| && MatchKeyword(s, a).Some?
    ensures s[a..MatchKeyword(s, a).value] in Keywords
  {
  }

  lemma QualifierSlice(s: string, b: nat)
    requires b <= |s|
    ensures var c := MatchQualifier(s, b); s[b..c] == "" || s[b..c] in Qualifiers
  {
  }

  lemma WhitespaceSlice(s: string, i: nat)
    requires i <= |s|
    ensures AllWhitespace(s[i..SkipWhitespace(s, i)])
  {
    var j := SkipWhitespace(s, i);
    forall k | 0 <= k < j - i ensures IsWhitespace(s[i..j][k]) {
      assert s[i..j][k] == s[i + k];
    }
  }

  /** The cut points of an accepted opening, and what stands between them. */
  lemma OpeningPieces(s: string) returns (a: nat, b: nat, c: nat, e: nat, f: nat)
    requires MatchOpening(s).Some?
    ensures a <= b <= c <= e && e < f < |s|
    ensures AllWhitespace(s[..a]) && s[a..b] in Keywords && (s[b..c] == "" || s[b..c] in Qualifiers)
    ensures AllWhitespace(s[c..e]) && s[e] == '(' && AllWhitespace(s[e + 1..f])
    ensures MatchOpening(s).value == Opening(f + 1, s[f])
  {
    a := SkipWhitespace(s, 0);
    b := MatchKeyword(s, a).value;
    c := MatchQualifier(s, b);
    e := SkipWhitespace(s, c);
    f := SkipWhitespace(s, e + 1);
    WhitespaceSlice(s, 0);
    assert s[..a] == s[0..a];
    KeywordSlice(s, a);
    QualifierSlice(s, b);
    WhitespaceSlice(s, c);
    WhitespaceSlice(s, e + 1);
  }

  lemma FindTestNameInLineUnfold(line: string)
    requires FindTestNameInLine(line).Some?
    ensures MatchOpening(line).Some?
    ensures var o := MatchOpening(line).value;
      && MatchBody(line, o.nameStart, o.quote, false).Some?
      && FindTestNameInLine(line).value == line[o.nameStart..MatchBody(line, o.nameStart, o.quote, false).value]
  {
  }

  /** The cut points of a line that yields a name. */
  lemma NamePieces(line: string) returns (a: nat, b: nat, c: nat, e: nat, f: nat, r: nat)
    requires FindTestNameInLine(line).Some?
    ensures a <= b <= c <= e && e < f < r < |line|
    ensures AllWhitespace(line[..a]) && line[a..b] in Keywords && (line[b..c] == "" || line[b..c] in Qualifiers)
    ensures AllWhitespace(line[c..e]) && line[e] == '(' && AllWhitespace(line[e + 1..f])
    ensures IsQuote(line[f]) && line[r] == line[f] && IsBody(line[f + 1..r], line[f])
    ensures FindTestNameInLine(line).value == line[f + 1..r]
  {
    FindTestNameInLineUnfold(line);
    var o := MatchOpening(line).value;
    r := MatchBody(line, o.nameStart, o.quote, false).value;
    a, b, c, e, f := OpeningPieces(line);
  }

  /** Every name returned comes from a line of the pattern's language, and is that line's capture. */
  lemma FindTestNameInLineSound(line: string)
    requires FindTestNameInLine(line).Some?
    ensures exists d: LineShape, rest: string ::
      IsShape(d) && d.name == FindTestNameInLine(line).value && line == Compose(d, rest)
  {
    var s := line;
    var a, b, c, e, f, r := NamePieces(s);
    var d := LineShape(s[..a], s[a..b], s[b..c], s[c..e], s[e + 1..f], s[f], s[f + 1..r]);
    assert IsShape(d);
    ComposeSlices(s, a, b, c, e, f, r);
    ShapeWitness(line, d.name, d, s[r + 1..]);
  }

  lemma ShapeWitness(line: string, name: string, d: LineShape, rest: string)
    requires IsShape(d) && d.name == name && line == Compose(d, rest)
    ensures exists d: LineShape, rest: string :: IsShape(d) && d.name == name && line == Compose(d, rest)
  {
  }

  /** Where the pieces of a shape stand in the line built from them. */
  lemma ShapeCuts(d: LineShape, rest: string) returns (a: nat, b: nat, c: nat, e: nat, f: nat, r: nat)
    ensures var s := Compose(d, rest);
      && a <= b <= c <= e && e < f < r < |s|
      && s[..a] == d.indent && s[a..b] == d.keyword && s[b..c] == d.qualifier && s[c..e] == d.beforeParen
      && s[e] == '(' && s[e + 1..f] == d.afterParen && s[f] == d.quote
      && s[f + 1..r] == d.name && s[r] == d.quote
      && f + 1 == NameStart(d)
  {
    a, b, c, e := HeadCuts(d, rest);
    f, r := TailCuts(Compose(d, rest), e, d, rest);
  }

  /** The text from the opening parenthesis on. */
  function Tail(d: LineShape, rest: string): string {
    "(" + (d.afterParen + ([d.quote] + (d.name + ([d.quote] + rest))))
  }

  lemma HeadCuts(d: LineShape, rest: string) returns (a: nat, b: nat, c: nat, e: nat)
    ensures var s := Compose(d, rest);
      && a <= b <= c <= e <= |s| && e == |d.indent| + |d.keyword| + |d.qualifier| + |d.beforeParen|
      && s[..a] == d.indent && s[a..b] == d.keyword && s[b..c] == d.qualifier && s[c..e] == d.beforeParen
      && s[e..] == Tail(d, rest)
  {
    var s := Compose(d, rest);
    var t4 := Tail(d, rest);
    var t3 := d.beforeParen + t4;
    var t2 := d.qualifier + t3;
    var t1 := d.keyword + t2;
    assert s[0..] == d.indent + t1;
    a := Cut(s, 0, d.indent, t1);
    b := Cut(s, a, d.keyword, t2);
    c := Cut(s, b, d.qualifier, t3);
    e := Cut(s, c, d.beforeParen, t4);
    assert s[..a] == s[0..a];
  }

  lemma TailCuts(s: string, e: nat, d: LineShape, rest: string) returns (f: nat, r: nat)
    requires e <= |s| && s[e..] == Tail(d, rest)
    ensures e < f < r < |s| && f == e + 1 + |d.afterParen|
    ensures s[e] == '(' && s[e + 1..f] == d.afterParen && s[f] == d.quote
    ensures s[f + 1..r] == d.name && s[r] == d.quote
  {
    var t8 := [d.quote] + rest;
    var t7 := d.name + t8;
    var t6 := [d.quote] + t7;
    var t5 := d.afterParen + t6;
    var e1 := Cut(s, e, "(", t5);
    f := Cut(s, e1, d.afterParen, t6);
    var f1 := Cut(s, f, [d.quote], t7);
    r := Cut(s, f1, d.name, t8);
    var r1 := Cut(s, r, [d.quote], rest);
    assert s[e] == s[e..e1][0];
    assert s[f] == s[f..f1][0];
    assert s[r] == s[r..r1][0];
  }

  /** A word that starts at i begins with its first character. */
  lemma StartsAtHead(s: string, i: nat, w: string)
    ensures StartsAt(s, i, w) && w != [] ==> s[i] == w[0]
  {
    if StartsAt(s, i, w) && w != [] {
      assert s[i..i + |w|][0] == s[i];
    }
  }

  /** The keyword alternatives are tried in order, and none is a prefix of a later one. */
  lemma KeywordMatch(s: string, a: nat, w: string)
    requires a <= |s| && w in Keywords && StartsAt(s, a, w)
    ensures MatchKeyword(s, a) == Some(a + |w|)
  {
    StartsAtHead(s, a, w);
    StartsAtHead(s, a, "test");
    StartsAtHead(s, a, "it");
  }

  /** The optional qualifier is taken exactly when it is there. */
  lemma QualifierMatch(s: string, b: nat, w: string)
    requires b <= |s| && (w == "" || w in Qualifiers) && StartsAt(s, b, w)
    requires w == "" ==> b < |s| && s[b] != '.'
    ensures MatchQualifier(s, b) == b + |w|
  {
    StartsAtHead(s, b, ".skip");
    StartsAtHead(s, b, ".only");
  }

  /** MatchOpening, once each of its parts is known. */
  lemma OpeningFromParts(s: string, a: nat, b: nat, c: nat, e: nat, f: nat)
    requires a <= b <= c <= e && e < f < |s|
    requires SkipWhitespace(s, 0) == a && MatchKeyword(s, a) == Some(b) && MatchQualifier(s, b) == c
    requires SkipWhitespace(s, c) == e && s[e] == '(' && SkipWhitespace(s, e + 1) == f && IsQuote(s[f])
    ensures OpensAt(s, f + 1, s[f])
  {
  }

  /** The indentation, keyword and qualifier parts of an opening laid out at the given cut points. */
  lemma PrefixFromCuts(s: string, a: nat, b: nat, c: nat, e: nat)
    requires a <= b <= c <= e < |s|
    requires AllWhitespace(s[..a]) && s[a..b] in Keywords && (s[b..c] == "" || s[b..c] in Qualifiers)
    requires AllWhitespace(s[c..e]) && s[e] == '('
    ensures SkipWhitespace(s, 0) == a && MatchKeyword(s, a) == Some(b) && MatchQualifier(s, b) == c
  {
    LeadFromCuts(s, a, b);
    QualifierFromCuts(s, b, c, e);
  }

  /** A keyword starts with a letter. */
  lemma KeywordHead(w: string)
    requires w in Keywords
    ensures |w| >= 2 && !IsWhitespace(w[0])
  {
  }

  lemma LeadFromCuts(s: string, a: nat, b: nat)
    requires a <= b <= |s| && AllWhitespace(s[..a]) && s[a..b] in Keywords
    ensures SkipWhitespace(s, 0) == a && MatchKeyword(s, a) == Some(b)
  {
    KeywordHead(s[a..b]);
    assert s[a] == s[a..b][0];
    assert s[0..a] == s[..a];
    SkipWhitespaceOver(s, 0, s[..a]);
    KeywordMatch(s, a, s[a..b]);
  }

  lemma QualifierFromCuts(s: string, b: nat, c: nat, e: nat)
    requires b <= c <= e < |s| && (s[b..c] == "" || s[b..c] in Qualifiers)
    requires AllWhitespace(s[c..e]) && s[e] == '('
    ensures MatchQualifier(s, b) == c
  {
    if b == c && c < e {
      assert s[c] == s[c..e][0];
    }
    QualifierMatch(s, b, s[b..c]);
  }

  /** The `\s*\(\s*` part of an opening laid out at the given cut points. */
  lemma ParenFromCuts(s: string, c: nat, e: nat, f: nat)
    requires c <= e < f < |s|
    requires AllWhitespace(s[c..e]) && s[e] == '(' && AllWhitespace(s[e + 1..f]) && IsQuote(s[f])
    ensures SkipWhitespace(s, c) == e && SkipWhitespace(s, e + 1) == f
  {
    SkipWhitespaceOver(s, c, s[c..e]);
    SkipWhitespaceOver(s, e + 1, s[e + 1..f]);
  }

  /** An opening laid out at the given cut points is accepted. */
  lemma OpeningFromCuts(s: string, a: nat, b: nat, c: nat, e: nat, f: nat)
    requires a <= b <= c <= e && e < f < |s|
    requires AllWhitespace(s[..a]) && s[a..b] in Keywords && (s[b..c] == "" || s[b..c] in Qualifiers)
    requires AllWhitespace(s[c..e]) && s[e] == '(' && AllWhitespace(s[e + 1..f]) && IsQuote(s[f])
    ensures OpensAt(s, f + 1, s[f])
  {
    PrefixFromCuts(s, a, b, c, e);
    ParenFromCuts(s, c, e, f);
    OpeningFromParts(s, a, b, c, e, f);
  }

  /** The opening of a line built from a shape is accepted, ending just before the name. */
  lemma ShapeOpening(d: LineShape, rest: string)
    requires IsShape(d)
    ensures OpensAt(Compose(d, rest), NameStart(d), d.quote)
  {
    var a, b, c, e, f := ShapeOpeningCuts(d, rest);
    OpeningFromCuts(Compose(d, rest), a, b, c, e, f);
  }

  lemma ShapeOpeningCuts(d: LineShape, rest: string) returns (a: nat, b: nat, c: nat, e: nat, f: nat)
    requires IsShape(d)
    ensures var s := Compose(d, rest);
      && a <= b <= c <= e && e < f < |s|
      && AllWhitespace(s[..a]) && s[a..b] in Keywords && (s[b..c] == "" || s[b..c] in Qualifiers)
      && AllWhitespace(s[c..e]) && s[e] == '(' && AllWhitespace(s[e + 1..f]) && IsQuote(s[f])
      && f + 1 == NameStart(d) && s[f] == d.quote
  {
    var r;
    a, b, c, e, f, r := ShapeCuts(d, rest);
  }

  /** Every line of the pattern's language yields a name, and the name starts where the shape's name starts. */
  lemma FindTestNameInLineComplete(d: LineShape, rest: string)
    requires IsShape(d)
    ensures var s := Compose(d, rest);
      && FindTestNameInLine(s).Some?
      && NameStart(d) + |FindTestNameInLine(s).value| < |s|
      && s[NameStart(d)..NameStart(d) + |FindTestNameInLine(s).value|] == FindTestNameInLine(s).value
  {
    ShapeOpening(d, rest);
    var r := ShapeBody(d, rest);
    NameAfterOpening(Compose(d, rest), NameStart(d), d.quote, r);
  }

  /** The name and the closing quote of a line built from a shape. */
  lemma ShapeBody(d: LineShape, rest: string) returns (r: nat)
    requires IsShape(d)
    ensures var s := Compose(d, rest);
      && NameStart(d) < r < |s| && s[r] == d.quote && s[NameStart(d)..r] == d.name
  {
    var a, b, c, e, f;
    a, b, c, e, f, r := ShapeCuts(d, rest);
  }

  /** After an accepted opening, a body and a closing quote give a name starting right after the quote. */
  lemma NameAfterOpening(s: string, p: nat, q: char, r: nat)
    requires p < r < |s| && OpensAt(s, p, q)
    requires s[r] == q && IsBody(s[p..r], q)
    ensures FindTestNameInLine(s).Some?
    ensures p + |FindTestNameInLine(s).value| < |s|
    ensures s[p..p + |FindTestNameInLine(s).value|] == FindTestNameInLine(s).value
  {
    MatchBodyComplete(s, p, q, false, r);
    var end := MatchBody(s, p, q, false).value;
    assert FindTestNameInLine(s) == Some(s[p..end]);
  }

  /** A run of plain characters up to a closing quote is read up to that quote. */
  lemma {:induction false} MatchBodyPlain(s: string, i: nat, q: char, started: bool, j: nat)
    requires i <= j < |s| && s[j] == q && q != '\\' && (started || i < j)
    requires forall k :: i <= k < j ==> s[k] != '\\' && s[k] != q && !IsLineTerminator(s[k])
    ensures MatchBody(s, i, q, started) == Some(j)
    decreases j - i
  {
    if i < j {
      MatchBodyPlain(s, i + 1, q, true, j);
    }
  }

  predicate HasNoBackslash(t: string) {
    forall k :: 0 <= k < |t| ==> t[k] != '\\'
  }

  /** Without backslashes every atom of a body is a plain character, so the quote does not occur. */
  lemma {:induction false} PlainBodyHasNoQuote(t: string, q: char)
    requires IsBody(t, q) && HasNoBackslash(t)
    ensures forall k :: 0 <= k < |t| ==> t[k] != q
    decreases |t|
  {
    if t != [] {
      assert forall k :: 1 <= k < |t| ==> t[k] == t[1..][k - 1];
      PlainBodyHasNoQuote(t[1..], q);
    }
  }

  /** A run of characters other than a backslash, the quote and a line terminator is a body. */
  lemma {:induction false} PlainIsBody(t: string, q: char)
    requires forall k :: 0 <= k < |t| ==> t[k] != '\\' && t[k] != q && !IsLineTerminator(t[k])
    ensures IsBody(t, q)
    decreases |t|
  {
    if t != [] {
      assert forall k :: 0 <= k < |t[1..]| ==> t[1..][k] == t[k + 1];
      PlainIsBody(t[1..], q);
    }
  }

  /** A name without a backslash is found exactly. */
  lemma FindTestNameInLinePlain(d: LineShape, rest: string)
    requires IsShape(d) && HasNoBackslash(d.name)
    ensures FindTestNameInLine(Compose(d, rest)) == Some(d.name)
  {
    var s := Compose(d, rest);
    ShapeOpening(d, rest);
    var r := PlainNameCuts(d, rest);
    MatchBodyPlain(s, NameStart(d), d.quote, false, r);
  }

  /** Where a name without a backslash ends, and what it is made of. */
  lemma PlainNameCuts(d: LineShape, rest: string) returns (r: nat)
    requires IsShape(d) && HasNoBackslash(d.name)
    ensures var s := Compose(d, rest); var p := NameStart(d);
      && p < r < |s| && s[r] == d.quote && d.quote != '\\' && s[p..r] == d.name
      && forall k :: p <= k < r ==> s[k] != '\\' && s[k] != d.quote && !IsLineTerminator(s[k])
  {
    var s := Compose(d, rest);
    r := ShapeBody(d, rest);
    var p := NameStart(d);
    BodyHasNoLineTerminator(d.name, d.quote);
    PlainBodyHasNoQuote(d.name, d.quote);
    assert forall k :: p <= k < r ==> s[k] == d.name[k - p];
  }

  // The lines of the parser's own test suite, each taken apart into its shape.
  // Each literal fact stands in a lemma of its own; the others only combine them.

  /** A composed line is the part up to the parenthesis and its whitespace, then the quoted name and the rest. */
  lemma ComposeParts(d: LineShape, rest: string, head: string, tail: string)
    requires head == d.indent + d.keyword + d.qualifier + d.beforeParen + "(" + d.afterParen
    requires tail == [d.quote] + d.name + [d.quote] + rest
    ensures Compose(d, rest) == head + tail
  {
  }

  lemma SpacesShape()
    ensures IsShape(LineShape("   ", "test", "", "", "", '"', "with spaces"))
    ensures HasNoBackslash("with spaces")
  {
    PlainIsBody("with spaces", '"');
  }

  lemma SpacesHead()
    ensures "   " + "test" + "" + "" + "(" + "" == "   test("
  {
  }

  lemma SpacesTail()
    ensures ['"'] + "with spaces" + ['"'] + ", () => {})" == "\"with spaces\", () => {})"
  {
  }

  lemma SpacesJoin()
    ensures "   test(" + "\"with spaces\", () => {})" == "   test(\"with spaces\", () => {})"
  {
  }

  lemma SpacesLine()
    ensures Compose(LineShape("   ", "test", "", "", "", '"', "with spaces"), ", () => {})") == "   test(\"with spaces\", () => {})"
  {
    SpacesHead();
    SpacesTail();
    SpacesJoin();
    ComposeParts(LineShape("   ", "test", "", "", "", '"', "with spaces"), ", () => {})", "   test(", "\"with spaces\", () => {})");
  }

  /** `   test("with spaces", () => {})` yields `with spaces`. */
  lemma SpacesExample()
    ensures FindTestNameInLine("   test(\"with spaces\", () => {})") == Some("with spaces")
  {
    SpacesShape();
    SpacesLine();
    FindTestNameInLinePlain(LineShape("   ", "test", "", "", "", '"', "with spaces"), ", () => {})");
  }

  lemma SingleQuotesShape()
    ensures IsShape(LineShape("\t", "it", ".only", "", "", '\'', "single quotes"))
    ensures HasNoBackslash("single quotes")
  {
    PlainIsBody("single quotes", '\'');
  }

  lemma SingleQuotesHead()
    ensures "\t" + "it" + ".only" + "" + "(" + "" == "\tit.only("
  {
  }

  lemma SingleQuotesTail()
    ensures ['\''] + "single quotes" + ['\''] + ", fn);" == "'single quotes', fn);"
  {
  }

  lemma SingleQuotesJoin()
    ensures "\tit.only(" + "'single quotes', fn);" == "\tit.only('single quotes', fn);"
  {
  }

  lemma SingleQuotesLine()
    ensures Compose(LineShape("\t", "it", ".only", "", "", '\'', "single quotes"), ", fn);") == "\tit.only('single quotes', fn);"
  {
    SingleQuotesHead();
    SingleQuotesTail();
    SingleQuotesJoin();
    ComposeParts(LineShape("\t", "it", ".only", "", "", '\'', "single quotes"), ", fn);", "\tit.only(", "'single quotes', fn);");
  }

  /** `	it.only('single quotes', fn);` yields `single quotes`. */
  lemma SingleQuotesExample()
    ensures FindTestNameInLine("\tit.only('single quotes', fn);") == Some("single quotes")
  {
    SingleQuotesShape();
    SingleQuotesLine();
    FindTestNameInLinePlain(LineShape("\t", "it", ".only", "", "", '\'', "single quotes"), ", fn);");
  }

  lemma TemplatedShape()
    ensures IsShape(LineShape("", "describe", ".skip", "", "", '`', "templated"))
    ensures HasNoBackslash("templated")
  {
    PlainIsBody("templated", '`');
  }

  lemma TemplatedHead()
    ensures "" + "describe" + ".skip" + "" + "(" + "" == "describe.skip("
  {
  }

  lemma TemplatedTail()
    ensures ['`'] + "templated" + ['`'] + ", fn);" == "`templated`, fn);"
  {
  }

  lemma TemplatedJoin()
    ensures "describe.skip(" + "`templated`, fn);" == "describe.skip(`templated`, fn);"
  {
  }

  lemma TemplatedLine()
    ensures Compose(LineShape("", "describe", ".skip", "", "", '`', "templated"), ", fn);") == "describe.skip(`templated`, fn);"
  {
    TemplatedHead();
    TemplatedTail();
    TemplatedJoin();
    ComposeParts(LineShape("", "describe", ".skip", "", "", '`', "templated"), ", fn);", "describe.skip(", "`templated`, fn);");
  }

  /** `describe.skip(`templated`, fn);` yields `templated`. */
  lemma TemplatedExample()
    ensures FindTestNameInLine("describe.skip(`templated`, fn);") == Some("templated")
  {
    TemplatedShape();
    TemplatedLine();
    FindTestNameInLinePlain(LineShape("", "describe", ".skip", "", "", '`', "templated"), ", fn);");
  }

  /** A line that starts with no keyword yields nothing. */
  lemma NoKeywordExample()
    ensures FindTestNameInLine("console.log(\"no match\")") == None
  {
    var s := "console.log(\"no match\")";
    StartsAtHead(s, 0, "test");
    StartsAtHead(s, 0, "it");
    StartsAtHead(s, 0, "describe");
    assert MatchKeyword(s, SkipWhitespace(s, 0)) == None;
  }

  /** A name never contains a line terminator: `.` does not match one. */
  lemma {:induction false} BodyHasNoLineTerminator(t: string, q: char)
    requires IsBody(t, q)
    ensures forall k :: 0 <= k < |t| ==> !IsLineTerminator(t[k])
    decreases |t|
  {
    if t != [] {
      if |t| >= 2 && t[0] == '\\' && !IsLineTerminator(t[1]) && IsBody(t[2..], q) {
        BodyHasNoLineTerminator(t[2..], q);
        assert forall k :: 2 <= k < |t| ==> t[k] == t[2..][k - 2];
      } else {
        BodyHasNoLineTerminator(t[1..], q);
        assert forall k :: 1 <= k < |t| ==> t[k] == t[1..][k - 1];
      }
    }
  }

  lemma NameHasNoLineTerminator(line: string)
    requires FindTestNameInLine(line).Some?
    ensures forall k :: 0 <= k < |FindTestNameInLine(line).value| ==> !IsLineTerminator(FindTestNameInLine(line).value[k])
  {
    var Opening(p, q) := MatchOpening(line).value;
    BodyHasNoLineTerminator(line[p..MatchBody(line, p, q, false).value], q);
  }

  // ---------------------------------------------------------------------------
  // Documents
  // ---------------------------------------------------------------------------

  /** The index of the first '\n' in t, or |t| when there is none. */
  function IndexOfNewline(t: string): (i: nat)
    ensures i <= |t| && (i < |t| ==> t[i] == '\n')
    ensures forall k :: 0 <= k < i ==> t[k] != '\n'
  {
    if t == [] || t[0] == '\n' then 0 else 1 + IndexOfNewline(t[1..])
  }

  /**
   * `text.split(/\r?\n/)`. Scanning from the left, a separator is "\r\n" when
   * the first '\n' is preceded by '\r' inside the current piece, otherwise "\n".
   */
  function SplitLines(text: string): (lines: seq<string>)
    ensures |lines| >= 1
    decreases |text|
  {
    var i := IndexOfNewline(text);
    if i == |text| then [text]
    else if 0 < i && text[i - 1] == '\r' then [text[..i - 1]] + SplitLines(text[i + 1..])
    else [text[..i]] + SplitLines(text[i + 1..])
  }

  /** One piece per '\n', plus one; no piece holds a '\n'. */
  lemma {:induction false} SplitLinesCounts(text: string)
    ensures |SplitLines(text)| == multiset(text)['\n'] + 1
    ensures forall k :: 0 <= k < |SplitLines(text)| ==> '\n' !in SplitLines(text)[k]
    decreases |text|
  {
    var i := IndexOfNewline(text);
    if i < |text| {
      SplitLinesCounts(text[i + 1..]);
      assert text == text[..i] + [text[i]] + text[i + 1..];
      assert '\n' !in text[..i];
      assert multiset(text[..i])['\n'] == 0;
      assert multiset(text) == multiset(text[..i]) + multiset([text[i]]) + multiset(text[i + 1..]);
      if 0 < i && text[i - 1] == '\r' {
        assert '\n' !in text[..i - 1] by { assert forall k :: 0 <= k < i - 1 ==> text[..i - 1][k] == text[k]; }
      }
    } else {
      assert '\n' !in text;
      assert multiset(text)['\n'] == 0;
    }
  }

  /** Lines joined with "\n", as an editor would store them. */
  function JoinLines(lines: seq<string>): string
    requires |lines| >= 1
  {
    if |lines| == 1 then lines[0] else lines[0] + "\n" + JoinLines(lines[1..])
  }

  lemma {:induction false} IndexOfNewlineAbsent(t: string)
    requires '\n' !in t
    ensures IndexOfNewline(t) == |t|
  {
    if t != [] {
      assert t[0] in t;
      assert forall x :: x in t[1..] ==> x in t;
      IndexOfNewlineAbsent(t[1..]);
    }
  }

  /** The first '\n' of a text that starts with a line holding none lies after that line. */
  lemma {:induction false} IndexOfNewlineAfter(l: string, t: string)
    requires '\n' !in l
    ensures IndexOfNewline(l + t) == |l| + IndexOfNewline(t)
  {
    if l != [] {
      assert l[0] in l;
      assert forall x :: x in l[1..] ==> x in l;
      IndexOfNewlineAfter(l[1..], t);
      assert (l + t)[1..] == l[1..] + t;
    } else {
      assert l + t == t;
    }
  }

  /** A line without '\n' that does not end in '\r', then "\n": the split takes off exactly that line. */
  lemma SplitLinesLf(l: string, rest: string)
    requires '\n' !in l && (l == [] || l[|l| - 1] != '\r')
    ensures SplitLines(l + "\n" + rest) == [l] + SplitLines(rest)
  {
    var text := l + "\n" + rest;
    IndexOfNewlineAfter(l, "\n" + rest);
    assert text == l + ("\n" + rest);
    assert IndexOfNewline("\n" + rest) == 0;
    var i := IndexOfNewline(text);
    assert i == |l|;
    assert text[..i] == l;
    assert text[i + 1..] == rest;
    assert !(0 < i && text[i - 1] == '\r');
  }

  /**
   * Splitting undoes joining with "\n", for lines that hold no '\n' and of
   * which none but the last ends in '\r' (a "\r\n" is one separator).
   */
  lemma {:induction false} SplitJoinLines(lines: seq<string>)
    requires |lines| >= 1
    requires forall k :: 0 <= k < |lines| ==> '\n' !in lines[k]
    requires forall k :: 0 <= k < |lines| - 1 ==> lines[k] == [] || lines[k][|lines[k]| - 1] != '\r'
    ensures SplitLines(JoinLines(lines)) == lines
  {
    if |lines| == 1 {
      IndexOfNewlineAbsent(lines[0]);
    } else {
      SplitLinesLf(lines[0], JoinLines(lines[1..]));
      SplitJoinLines(lines[1..]);
      assert [lines[0]] + lines[1..] == lines;
    }
  }

  /** Lines joined with "\r\n", as a Windows editor stores them. */
  function JoinCrlfLines(lines: seq<string>): string
    requires |lines| >= 1
  {
    if |lines| == 1 then lines[0] else lines[0] + "\r\n" + JoinCrlfLines(lines[1..])
  }

  /**
   * Splitting undoes joining with "\r\n", for any lines that hold no '\n'
   * (a line may itself end in '\r': only the '\r' just before the '\n' goes).
   */
  lemma {:induction false} SplitJoinCrlfLines(lines: seq<string>)
    requires |lines| >= 1
    requires forall k :: 0 <= k < |lines| ==> '\n' !in lines[k]
    ensures SplitLines(JoinCrlfLines(lines)) == lines
  {
    if |lines| == 1 {
      IndexOfNewlineAbsent(lines[0]);
    } else {
      SplitLinesCrlf(lines[0], JoinCrlfLines(lines[1..]));
      SplitJoinCrlfLines(lines[1..]);
      assert [lines[0]] + lines[1..] == lines;
    }
  }

  /** A line without '\n', then "\r\n": the split takes off exactly that line, whatever it ends in. */
  lemma SplitLinesCrlf(l: string, rest: string)
    requires '\n' !in l
    ensures SplitLines(l + "\r\n" + rest) == [l] + SplitLines(rest)
  {
    var text := l + "\r\n" + rest;
    IndexOfNewlineAfter(l, "\r\n" + rest);
    assert text == l + ("\r\n" + rest);
    assert IndexOfNewline("\r\n" + rest) == 1;
    var i := IndexOfNewline(text);
    assert i == |l| + 1;
    assert text[..i - 1] == l;
    assert text[i - 1] == '\r';
    assert text[i + 1..] == rest;
  }

  /** One entry of `findTestsInDocument`: a 0-based line index and the raw name. */
  datatype TestDeclaration = TestDeclaration(line: nat, name: string)

  /** `if (testName)`: a name was found and it is not empty. */
  predicate IsName(found: Option<string>) {
    found.Some? && found.value != []
  }

  /** The line yields a non-empty name. */
  predicate YieldsName(line: string) {
    IsName(FindTestNameInLine(line))
  }

  /** What each line of a document yields. */
  function ScanLines(lines: seq<string>): (found: seq<Option<string>>)
    ensures |found| == |lines|
    ensures forall i :: 0 <= i < |lines| ==> found[i] == FindTestNameInLine(lines[i])
  {
    seq(|lines|, i requires 0 <= i < |lines| => FindTestNameInLine(lines[i]))
  }

  /** The declarations among the first n scanned lines, in document order. */
  function DeclarationsIn(found: seq<Option<string>>, n: nat): seq<TestDeclaration>
    requires n <= |found|
  {
    if n == 0 then []
    else
      DeclarationsIn(found, n - 1) +
      (if IsName(found[n - 1]) then [TestDeclaration(n - 1, found[n - 1].value)] else [])
  }

  function Declarations(lines: seq<string>): seq<TestDeclaration> {
    DeclarationsIn(ScanLines(lines), |lines|)
  }

  /** Each declaration among the first n lines carries a line index below n and that line's name. */
  lemma {:induction false} DeclarationsInSound(found: seq<Option<string>>, n: nat)
    requires n <= |found|
    ensures forall k :: 0 <= k < |DeclarationsIn(found, n)| ==>
      && DeclarationsIn(found, n)[k].line < n
      && found[DeclarationsIn(found, n)[k].line] == Some(DeclarationsIn(found, n)[k].name)
      && DeclarationsIn(found, n)[k].name != []
  {
    if n > 0 {
      DeclarationsInSound(found, n - 1);
      var prev := DeclarationsIn(found, n - 1);
      var ds := DeclarationsIn(found, n);
      if IsName(found[n - 1]) {
        var entry := TestDeclaration(n - 1, found[n - 1].value);
        assert ds == prev + [entry];
        forall k | 0 <= k < |ds|
          ensures ds[k].line < n && found[ds[k].line] == Some(ds[k].name) && ds[k].name != []
        {
          if k < |prev| {
            assert ds[k] == prev[k];
          } else {
            assert ds[k] == entry;
          }
        }
      } else {
        assert ds == prev;
      }
    }
  }

  /** Line indices are strictly increasing. */
  lemma {:induction false} DeclarationsInOrdered(found: seq<Option<string>>, n: nat)
    requires n <= |found|
    ensures forall k, m :: 0 <= k < m < |DeclarationsIn(found, n)| ==>
      DeclarationsIn(found, n)[k].line < DeclarationsIn(found, n)[m].line
  {
    if n > 0 {
      DeclarationsInOrdered(found, n - 1);
      DeclarationsInSound(found, n - 1);
      var prev := DeclarationsIn(found, n - 1);
      var ds := DeclarationsIn(found, n);
      if IsName(found[n - 1]) {
        var entry := TestDeclaration(n - 1, found[n - 1].value);
        assert ds == prev + [entry];
        assert forall k :: 0 <= k < |ds| ==> ds[k] == if k < |prev| then prev[k] else entry;
      } else {
        assert ds == prev;
      }
    }
  }

  /** Every line among the first n that yields a name has its declaration. */
  lemma {:induction false} DeclarationsInComplete(found: seq<Option<string>>, n: nat, i: nat)
    requires i < n <= |found| && IsName(found[i])
    ensures exists k :: 0 <= k < |DeclarationsIn(found, n)| && DeclarationsIn(found, n)[k].line == i
  {
    var ds := DeclarationsIn(found, n);
    var prev := DeclarationsIn(found, n - 1);
    if i == n - 1 {
      assert ds == prev + [TestDeclaration(i, found[i].value)];
      assert ds[|prev|].line == i;
    } else {
      DeclarationsInComplete(found, n - 1, i);
      var k :| 0 <= k < |prev| && prev[k].line == i;
      assert ds[k] == prev[k];
    }
  }

  /** Each declaration of a document names a line of it and carries that line's non-empty name. */
  lemma DeclarationsSound(lines: seq<string>)
    ensures forall k :: 0 <= k < |Declarations(lines)| ==>
      && Declarations(lines)[k].line < |lines|
      && FindTestNameInLine(lines[Declarations(lines)[k].line]) == Some(Declarations(lines)[k].name)
      && Declarations(lines)[k].name != []
  {
    var found := ScanLines(lines);
    DeclarationsInSound(found, |lines|);
  }

  /** The declarations of a document are in strictly increasing line order. */
  lemma DeclarationsOrdered(lines: seq<string>)
    ensures forall k, m :: 0 <= k < m < |Declarations(lines)| ==>
      Declarations(lines)[k].line < Declarations(lines)[m].line
  {
    DeclarationsInOrdered(ScanLines(lines), |lines|);
  }

  /** Every line of a document that yields a non-empty name has its declaration. */
  lemma DeclarationsComplete(lines: seq<string>, i: nat)
    requires i < |lines| && YieldsName(lines[i])
    ensures exists k :: 0 <= k < |Declarations(lines)| && Declarations(lines)[k].line == i
  {
    var found := ScanLines(lines);
    assert IsName(found[i]);
    DeclarationsInComplete(found, |lines|, i);
    assert Declarations(lines) == DeclarationsIn(found, |lines|);
  }

  /**
   * `findTestsInDocument`: a non-string argument (None) gives no
   * declarations; otherwise the text is split into lines and every line that
   * yields a name contributes one entry.
   */
  method FindTestsInDocument(document: Option<string>) returns (tests: seq<TestDeclaration>)
    ensures document.None? ==> tests == []
    ensures document.Some? ==> tests == Declarations(SplitLines(document.value))
  {
    if document.None? {
      return [];
    }
    var lines := SplitLines(document.value);
    tests := [];
    var index := 0;
    while index < |lines|
      invariant index <= |lines|
      invariant tests == DeclarationsIn(ScanLines(lines), index)
    {
      var testName := FindTestNameInLine(lines[index]);
      if testName.Some? && testName.value != [] {
        tests := tests + [TestDeclaration(index, testName.value)];
      }
      index := index + 1;
    }
  }

  // ---------------------------------------------------------------------------
  // Exact-match patterns
  // ---------------------------------------------------------------------------

  /** The characters of `[.*+?^${}()|[\]\\]`. */
  predicate IsSpecial(c: char) {
    || c == '.' || c == '*' || c == '+' || c == '?' || c == '^' || c == '$' || c == '{' || c == '}'
    || c == '(' || c == ')' || c == '|' || c == '[' || c == ']' || c == '\\'
  }

  function CountSpecial(text: string): nat {
    if text == [] then 0 else (if IsSpecial(text[0]) then 1 else 0) + CountSpecial(text[1..])
  }

  /** `escapeForRegex`: every special character gets one backslash in front of it. */
  function EscapeForRegex(text: string): (escaped: string)
    ensures |escaped| == |text| + CountSpecial(text)
  {
    if text == [] then []
    else (if IsSpecial(text[0]) then ['\\', text[0]] else [text[0]]) + EscapeForRegex(text[1..])
  }

  /** `buildExactTestPattern`: the escaped name between `^` and `$`. */
  function BuildExactTestPattern(testName: string): (pattern: string)
    ensures |pattern| == |testName| + CountSpecial(testName) + 2
    ensures pattern[0] == '^' && pattern[|pattern| - 1] == '$'
  {
    "^" + EscapeForRegex(testName) + "$"
  }

  /**
   * A regular expression made only of literal atoms: a character that is not
   * special, or a backslash followed by a special character (an identity
   * escape). Such a pattern matches exactly one string, PatternText(p).
   */
  predicate IsLiteralPattern(p: string)
    decreases |p|
  {
    || p == []
    || (|p| >= 2 && p[0] == '\\' && IsSpecial(p[1]) && IsLiteralPattern(p[2..]))
    || (!IsSpecial(p[0]) && IsLiteralPattern(p[1..]))
  }

  /** The string a literal pattern matches: drop the backslash of every identity escape. */
  function PatternText(p: string): string
    decreases |p|
  {
    if p == [] then []
    else if |p| >= 2 && p[0] == '\\' && IsSpecial(p[1]) then [p[1]] + PatternText(p[2..])
    else [p[0]] + PatternText(p[1..])
  }

  /** Escaping yields a literal pattern, and removing the inserted backslashes recovers the input. */
  lemma {:induction false} EscapeRoundTrip(text: string)
    ensures IsLiteralPattern(EscapeForRegex(text))
    ensures PatternText(EscapeForRegex(text)) == text
  {
    if text != [] {
      EscapeRoundTrip(text[1..]);
      var tail := EscapeForRegex(text[1..]);
      var e := EscapeForRegex(text);
      if IsSpecial(text[0]) {
        assert e[2..] == tail;
      } else {
        assert e[1..] == tail;
        assert e[0] == text[0] != '\\';
      }
      assert [text[0]] + text[1..] == text;
    }
  }

  /** Escaping is compositional, so it treats every character on its own. */
  lemma {:induction false} EscapeConcat(x: string, y: string)
    ensures EscapeForRegex(x + y) == EscapeForRegex(x) + EscapeForRegex(y)
    decreases |x|
  {
    if x != [] {
      assert (x + y)[1..] == x[1..] + y;
      EscapeConcat(x[1..], y);
    } else {
      assert x + y == y;
    }
  }

  /**
   * The exact pattern is `^`, a literal pattern that matches the test name
   * and nothing else, and `$`.
   */
  lemma ExactPatternMatchesOnlyName(testName: string)
    ensures var p := BuildExactTestPattern(testName);
      IsLiteralPattern(p[1..|p| - 1]) && PatternText(p[1..|p| - 1]) == testName
  {
    var p := BuildExactTestPattern(testName);
    assert p[1..|p| - 1] == EscapeForRegex(testName);
    EscapeRoundTrip(testName);
  }

  /** Different names give different patterns. */
  lemma ExactPatternInjective(a: string, b: string)
    requires BuildExactTestPattern(a) == BuildExactTestPattern(b)
    ensures a == b
  {
    ExactPatternMatchesOnlyName(a);
    ExactPatternMatchesOnlyName(b);
  }

  /** Text without special characters is its own escape. */
  lemma {:induction false} EscapePlain(text: string)
    requires forall k :: 0 <= k < |text| ==> !IsSpecial(text[k])
    ensures EscapeForRegex(text) == text
  {
    if text != [] {
      EscapePlain(text[1..]);
      assert [text[0]] + text[1..] == text;
    }
  }

  /** A special character alone gets one backslash. */
  lemma EscapeSpecial(c: char)
    requires IsSpecial(c)
    ensures EscapeForRegex([c]) == ['\\', c]
  {
    assert [c][1..] == [];
  }

  /** A special character between two plain texts: only it gets a backslash. */
  lemma EscapeBetween(x: string, c: char, y: string)
    requires EscapeForRegex(x) == x && EscapeForRegex(y) == y && IsSpecial(c)
    ensures EscapeForRegex(x + [c] + y) == x + ['\\', c] + y
  {
    EscapeSpecial(c);
    EscapeConcat(x, [c]);
    EscapeConcat(x + [c], y);
  }

  /** Two texts without special characters join to one. */
  lemma EscapePlainJoin(x: string, y: string)
    requires EscapeForRegex(x) == x && EscapeForRegex(y) == y
    ensures EscapeForRegex(x + y) == x + y
  {
    EscapeConcat(x, y);
  }

  lemma HandChunk()
    ensures EscapeForRegex("hand") == "hand"
  {
  }

  lemma LesChunk()
    ensures EscapeForRegex("les ") == "les "
  {
  }

  lemma CompChunk()
    ensures EscapeForRegex("comp") == "comp"
  {
  }

  lemma LexChunk()
    ensures EscapeForRegex("lex") == "lex"
  {
  }

  lemma CasChunk()
    ensures EscapeForRegex(" cas") == " cas"
  {
  }

  lemma EsChunk()
    ensures EscapeForRegex("es") == "es"
  {
  }

  lemma ComplexJoins()
    ensures "hand" + "les " == "handles " && "comp" + "lex" == "complex" && " cas" + "es" == " cases"
  {
  }

  lemma ComplexWordsPlain()
    ensures EscapeForRegex("handles ") == "handles " && EscapeForRegex("complex") == "complex"
    ensures EscapeForRegex(" cases") == " cases"
  {
    HandChunk();
    LesChunk();
    CompChunk();
    LexChunk();
    CasChunk();
    EsChunk();
    ComplexJoins();
    EscapePlainJoin("hand", "les ");
    EscapePlainJoin("comp", "lex");
    EscapePlainJoin(" cas", "es");
  }

  lemma ComplexLeftEscaped()
    ensures EscapeForRegex("handles (complex") == "handles \\(complex"
  {
    ComplexWordsPlain();
    EscapeBetween("handles ", '(', "complex");
    ComplexLeftPieces();
  }

  lemma ComplexLeftPieces()
    ensures "handles " + ['('] + "complex" == "handles (complex"
    ensures "handles " + ['\\', '('] + "complex" == "handles \\(complex"
  {
  }

  lemma ComplexRightEscaped()
    ensures EscapeForRegex(") cases?") == "\\) cases\\?"
  {
    ComplexWordsPlain();
    EscapeSpecial(')');
    EscapeSpecial('?');
    EscapeConcat([')'], " cases");
    EscapeConcat([')'] + " cases", ['?']);
    ComplexRightPieces();
  }

  lemma ComplexRightPieces()
    ensures [')'] + " cases" + ['?'] == ") cases?"
    ensures ['\\', ')'] + " cases" + ['\\', '?'] == "\\) cases\\?"
  {
  }

  lemma ComplexEscaped()
    ensures EscapeForRegex("handles (complex) cases?") == "handles \\(complex\\) cases\\?"
  {
    ComplexLeftEscaped();
    ComplexRightEscaped();
    EscapeConcat("handles (complex", ") cases?");
    ComplexPieces();
  }

  lemma ComplexPieces()
    ensures "handles (complex" + ") cases?" == "handles (complex) cases?"
    ensures "handles \\(complex" + "\\) cases\\?" == "handles \\(complex\\) cases\\?"
  {
  }

  lemma ComplexAnchored()
    ensures "^" + "handles \\(complex\\) cases\\?" + "$" == "^handles \\(complex\\) cases\\?$"
  {
  }

  /** The exact pattern of the test-suite example: each bracket and the question mark get one backslash. */
  lemma ComplexPatternExample()
    ensures BuildExactTestPattern("handles (complex) cases?") == "^handles \\(complex\\) cases\\?$"
  {
    ComplexEscaped();
    ComplexAnchored();
    assert BuildExactTestPattern("handles (complex) cases?") == "^" + EscapeForRegex("handles (complex) cases?") + "$";
  }

  /** The empty name gives the pattern that matches only the empty name. */
  lemma EmptyPatternExample()
    ensures BuildExactTestPattern("") == "^$"
  {
  }
}
