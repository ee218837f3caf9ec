/**
 * `JSON.stringify` applied to a string: the QuoteJSONString operation of
 * ECMAScript, which produces a JSON string literal as described in section 7
 * of RFC 8259. The extension uses it to quote command-line arguments.
 *
 * A decoder for JSON string literals is the partner of the quoting function:
 * decoding the quoted text gives the original string back.
 */
module JsonString {
  import opened Wrappers

  /** The digits of a lowercase hexadecimal number. */
  function HexDigit(n: nat): (c: char)
    requires n < 16
    ensures HexValue(c) == Some(n)
  {
    if n < 10 then ('0' as int + n) as char else ('a' as int + n - 10) as char
  }

  /** The value of a hexadecimal digit, in either case. */
  function HexValue(c: char): (v: Option<nat>)
    ensures v.Some? ==> v.value < 16
  {
    if '0' <= c <= '9' then Some(c as int - '0' as int)
    else if 'a' <= c <= 'f' then Some(c as int - 'a' as int + 10)
    else if 'A' <= c <= 'F' then Some(c as int - 'A' as int + 10)
    else None
  }

  /**
   * One character of the quoted text: the seven characters with a short
   * escape get it, the other control characters below U+0020 become `\u00xx`
   * in lowercase hexadecimal, and every other character is kept.
   */
  function EscapeChar(c: char): (e: string)
    ensures 1 <= |e| <= 6
    ensures |e| == 1 <==> (c >= ' ' && c != '"' && c != '\\')
    ensures |e| == 1 ==> e == [c]
    ensures |e| > 1 ==> e[0] == '\\'
  {
    if c == '"' then "\\\""
    else if c == '\\' then "\\\\"
    else if c == '\U{0008}' then "\\b"
    else if c == '\U{000C}' then "\\f"
    else if c == '\n' then "\\n"
    else if c == '\r' then "\\r"
    else if c == '\t' then "\\t"
    else if c < ' ' then ['\\', 'u', '0', '0', HexDigit(c as int / 16), HexDigit(c as int % 16)]
    else [c]
  }

  /** The quoted text between the two double quotes. */
  function QuoteBody(s: string): string {
    if s == [] then [] else EscapeChar(s[0]) + QuoteBody(s[1..])
  }

  /** `JSON.stringify(s)` for a string s. */
  function Quote(s: string): (q: string)
    ensures |q| >= 2 && q[0] == '"' && q[|q| - 1] == '"'
  {
    "\"" + QuoteBody(s) + "\""
  }

  /** Whether the character may stand unescaped in a JSON string literal. */
  predicate IsUnescaped(c: char) {
    c >= ' ' && c != '"' && c != '\\'
  }

  /** The code point of a `\uXXXX` escape, when it is a scalar value. */
  function CodeUnit(h0: nat, h1: nat, h2: nat, h3: nat): (r: Option<char>)
    requires h0 < 16 && h1 < 16 && h2 < 16 && h3 < 16
    ensures r.Some? ==> r.value as int == 4096 * h0 + 256 * h1 + 16 * h2 + h3
  {
    var n := 4096 * h0 + 256 * h1 + 16 * h2 + h3;
    if 0xD800 <= n <= 0xDFFF then None else Some(n as char)
  }

  /**
   * Decodes the text between the quotes of a JSON string literal. None when
   * the text holds an unescaped `"`, a character below U+0020, an unknown escape,
   * or a `\u` escape that names a surrogate.
   */
  function DecodeBody(b: string): (r: Option<string>)
    decreases |b|
  {
    if b == [] then Some([])
    else if b[0] != '\\' then
      if IsUnescaped(b[0]) then Prepend(b[0], DecodeBody(b[1..])) else None
    else if |b| < 2 then None
    else
      var e := b[1];
      if e == '"' || e == '\\' || e == '/' then Prepend(e, DecodeBody(b[2..]))
      else if e == 'b' then Prepend('\U{0008}', DecodeBody(b[2..]))
      else if e == 'f' then Prepend('\U{000C}', DecodeBody(b[2..]))
      else if e == 'n' then Prepend('\n', DecodeBody(b[2..]))
      else if e == 'r' then Prepend('\r', DecodeBody(b[2..]))
      else if e == 't' then Prepend('\t', DecodeBody(b[2..]))
      else if e == 'u' && |b| >= 6 then
        var h0, h1, h2, h3 := HexValue(b[2]), HexValue(b[3]), HexValue(b[4]), HexValue(b[5]);
        if h0.Some? && h1.Some? && h2.Some? && h3.Some? then
          var c := CodeUnit(h0.value, h1.value, h2.value, h3.value);
          if c.Some? then Prepend(c.value, DecodeBody(b[6..])) else None
        else None
      else None
  }

  function Prepend(c: char, r: Option<string>): Option<string> {
    if r.Some? then Some([c] + r.value) else None
  }

  /** Decodes a whole JSON string literal, quotes included. */
  function Unquote(t: string): Option<string> {
    if |t| >= 2 && t[0] == '"' && t[|t| - 1] == '"' then DecodeBody(t[1..|t| - 1]) else None
  }

  /** Decoding undoes the escape of one character. */
  lemma DecodeEscapeChar(c: char, rest: string)
    ensures DecodeBody(EscapeChar(c) + rest) == Prepend(c, DecodeBody(rest))
  {
    var e := EscapeChar(c);
    var b := e + rest;
    if |e| == 1 {
      assert b[0] == c && b[1..] == rest;
    } else if |e| == 2 {
      assert b[0] == '\\' && b[1] == e[1] && b[2..] == rest;
    } else {
      var n := c as int;
      assert b[..6] == e && b[6..] == rest;
      assert HexValue(b[2]) == Some(0) && HexValue(b[3]) == Some(0);
      assert HexValue(b[4]) == Some(n / 16) && HexValue(b[5]) == Some(n % 16);
      assert CodeUnit(0, 0, n / 16, n % 16) == Some(c);
    }
  }

  /** Decoding the quoted body gives the original text. */
  lemma {:induction false} DecodeQuoteBody(s: string)
    ensures DecodeBody(QuoteBody(s)) == Some(s)
  {
    if s != [] {
      DecodeQuoteBody(s[1..]);
      DecodeEscapeChar(s[0], QuoteBody(s[1..]));
      assert [s[0]] + s[1..] == s;
    }
  }

  /** `JSON.parse(JSON.stringify(s)) === s`: quoting loses nothing. */
  lemma UnquoteQuote(s: string)
    ensures Unquote(Quote(s)) == Some(s)
  {
    var q := Quote(s);
    assert q[1..|q| - 1] == QuoteBody(s);
    DecodeQuoteBody(s);
  }

  /** Different strings are quoted differently. */
  lemma QuoteInjective(s: string, t: string)
    requires Quote(s) == Quote(t)
    ensures s == t
  {
    UnquoteQuote(s);
    UnquoteQuote(t);
  }

  /** The quoted body holds no character below U+0020 (so no `\n` or `\r`), so no line break reaches the terminal. */
  lemma {:induction false} QuoteBodyClean(s: string)
    ensures forall k :: 0 <= k < |QuoteBody(s)| ==> QuoteBody(s)[k] >= ' '
  {
    if s != [] {
      QuoteBodyClean(s[1..]);
      var e := EscapeChar(s[0]);
      var tail := QuoteBody(s[1..]);
      assert QuoteBody(s) == e + tail;
      forall k | |e| <= k < |e + tail| ensures (e + tail)[k] >= ' ' {
        assert (e + tail)[k] == tail[k - |e|];
      }
    }
  }

  /** A text with nothing to escape is quoted as it is. */
  lemma {:induction false} QuoteBodyPlain(s: string)
    requires forall k :: 0 <= k < |s| ==> IsUnescaped(s[k])
    ensures QuoteBody(s) == s
  {
    if s != [] {
      assert forall k :: 0 <= k < |s[1..]| ==> s[1..][k] == s[k + 1];
      QuoteBodyPlain(s[1..]);
      assert [s[0]] + s[1..] == s;
    }
  }

  /** Quoting treats every character on its own. */
  lemma {:induction false} QuoteBodyConcat(x: string, y: string)
    ensures QuoteBody(x + y) == QuoteBody(x) + QuoteBody(y)
    decreases |x|
  {
    if x != [] {
      assert (x + y)[1..] == x[1..] + y;
      QuoteBodyConcat(x[1..], y);
    } else {
      assert x + y == y;
    }
  }

  /** A text with nothing to escape, spaces included, is only wrapped in double quotes. */
  lemma QuotePlain(s: string)
    requires forall k :: 0 <= k < |s| ==> IsUnescaped(s[k])
    ensures Quote(s) == "\"" + s + "\""
  {
    QuoteBodyPlain(s);
  }

  /** An embedded double quote or backslash gets one backslash in front of it, wherever it stands. */
  lemma QuoteEscapesEmbedded(x: string, c: char, y: string)
    requires c == '"' || c == '\\'
    ensures QuoteBody(x + [c] + y) == QuoteBody(x) + ['\\', c] + QuoteBody(y)
  {
    QuoteBodyConcat(x, [c] + y);
    assert x + [c] + y == x + ([c] + y);
    assert ([c] + y)[1..] == y;
  }

  /** The simplest quoting of the terminal manager's own test suite. */
  lemma QuoteSimpleExample()
    ensures Quote("test") == "\"test\""
  {
    QuoteBodyPlain("test");
  }

  /** Two texts with nothing to escape join to one. */
  lemma PlainJoin(x: string, y: string)
    requires QuoteBody(x) == x && QuoteBody(y) == y
    ensures QuoteBody(x + y) == x + y
  {
    QuoteBodyConcat(x, y);
  }

  // The test-suite examples below are proved from small pieces: each lemma
  // either evaluates short literals or combines earlier facts, never both.

  lemma QuotesChunks()
    ensures QuoteBody("test") == "test" && QuoteBody(" wit") == " wit"
    ensures QuoteBody("h ") == "h " && QuoteBody("quot") == "quot" && QuoteBody("es") == "es"
  {
  }

  lemma QuotesJoins()
    ensures "test" + " wit" == "test wit" && "test wit" + "h " == "test with "
    ensures "quot" + "es" == "quotes"
  {
  }

  /** Two plain texts, each followed by a double quote: only the quotes are escaped. */
  lemma PlainThenQuoteTwice(x: string, y: string)
    requires QuoteBody(x) == x && QuoteBody(y) == y
    ensures QuoteBody(x + ['"'] + y + ['"']) == x + ['\\', '"'] + y + ['\\', '"']
  {
    QuoteEscapesEmbedded(y, '"', []);
    assert y + ['"'] + [] == y + ['"'];
    QuoteEscapesEmbedded(x, '"', y + ['"']);
    assert x + ['"'] + (y + ['"']) == x + ['"'] + y + ['"'];
  }

  lemma QuotesPieces()
    ensures "test with " + ['"'] + "quotes" + ['"'] == "test with \"quotes\""
    ensures "test with " + ['\\', '"'] + "quotes" + ['\\', '"'] == "test with \\\"quotes\\\""
  {
  }

  lemma QuotesBody()
    ensures QuoteBody("test with \"quotes\"") == "test with \\\"quotes\\\""
  {
    QuotesChunks();
    QuotesJoins();
    PlainJoin("test", " wit");
    PlainJoin("test wit", "h ");
    PlainJoin("quot", "es");
    PlainThenQuoteTwice("test with ", "quotes");
    QuotesPieces();
  }

  lemma QuotesWrapped()
    ensures "\"" + "test with \\\"quotes\\\"" + "\"" == "\"test with \\\"quotes\\\"\""
  {
  }

  /** An embedded pair of double quotes is escaped, and the rest kept. */
  lemma QuoteQuotesExample()
    ensures Quote("test with \"quotes\"") == "\"test with \\\"quotes\\\"\""
  {
    QuotesBody();
    QuotesWrapped();
    WrapQuoted("test with \"quotes\"", "test with \\\"quotes\\\"", "\"test with \\\"quotes\\\"\"");
  }

  /** Double quotes around a known quoted body. */
  lemma WrapQuoted(s: string, body: string, q: string)
    requires QuoteBody(s) == body && q == "\"" + body + "\""
    ensures Quote(s) == q
  {
  }

  lemma PathHeadChunks()
    ensures QuoteBody("/pat") == "/pat" && QuoteBody("h/to") == "h/to"
  {
  }

  lemma PathTailChunks()
    ensures QuoteBody("/my ") == "/my " && QuoteBody(".js") == ".js"
  {
  }

  lemma PathJoins()
    ensures "/pat" + "h/to" == "/path/to" && "/my " + "test" == "/my test" && "/my test" + ".js" == "/my test.js"
    ensures "/path/to" + "/my test.js" == "/path/to/my test.js"
  {
  }

  lemma PathPlain()
    ensures QuoteBody("/path/to/my test.js") == "/path/to/my test.js"
  {
    PathHeadChunks();
    PathTailChunks();
    QuoteSimpleExample();
    PathJoins();
    PlainJoin("/pat", "h/to");
    PlainJoin("/my ", "test");
    PlainJoin("/my test", ".js");
    PlainJoin("/path/to", "/my test.js");
  }

  lemma PathWrapped()
    ensures "\"" + "/path/to/my test.js" + "\"" == "\"/path/to/my test.js\""
  {
  }

  /** A path with a space is only wrapped in double quotes. */
  lemma QuotePathExample()
    ensures Quote("/path/to/my test.js") == "\"/path/to/my test.js\""
  {
    PathPlain();
    PathWrapped();
    WrapQuoted("/path/to/my test.js", "/path/to/my test.js", "\"/path/to/my test.js\"");
  }
}
