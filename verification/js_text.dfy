/**
 * Text helpers shared by the model: an Option type, JavaScript's notion of
 * white space and line terminators, `String.prototype.trim`, the decimal
 * rendering of a non-negative integer inside a template literal, and the
 * "one statement per line" concatenation the generator uses.
 */
module JsText {

  datatype Option<T> = None | Some(value: T)

  /** The characters matched by `\s` in a JavaScript regular expression and
      removed by `trim`: ECMAScript WhiteSpace plus LineTerminator. */
  predicate IsWhitespace(c: char) {
    || c == '\t' || c == '\n' || c == '\r' || c == ' '
    || c as int == 0x0B || c as int == 0x0C || c as int == 0xA0
    || c as int == 0x1680 || (0x2000 <= c as int <= 0x200A)
    || c as int == 0x2028 || c as int == 0x2029 || c as int == 0x202F
    || c as int == 0x205F || c as int == 0x3000 || c as int == 0xFEFF
  }

  /** The characters a regular-expression `.` does not match. */
  predicate IsLineTerminator(c: char) {
    c == '\n' || c == '\r' || c as int == 0x2028 || c as int == 0x2029
  }

  predicate StartsWith(s: string, prefix: string) {
    |prefix| <= |s| && s[..|prefix|] == prefix
  }

  predicate EndsWith(s: string, suffix: string) {
    |suffix| <= |s| && s[|s| - |suffix|..] == suffix
  }

  /** Leading white space removed. */
  function TrimStart(s: string): (r: string)
    ensures |r| <= |s| && r == s[|s| - |r|..]
    ensures forall i :: 0 <= i < |s| - |r| ==> IsWhitespace(s[i])
    ensures r == [] || !IsWhitespace(r[0])
    decreases |s|
  {
    if |s| > 0 && IsWhitespace(s[0]) then TrimStart(s[1..]) else s
  }

  /** Trailing white space removed. */
  function TrimEnd(s: string): (r: string)
    ensures |r| <= |s| && r == s[..|r|]
    ensures forall i :: |r| <= i < |s| ==> IsWhitespace(s[i])
    ensures r == [] || !IsWhitespace(r[|r| - 1])
    decreases |s|
  {
    if |s| > 0 && IsWhitespace(s[|s| - 1]) then TrimEnd(s[..|s| - 1]) else s
  }

  /** `String.prototype.trim`. */
  function Trim(s: string): string {
    TrimEnd(TrimStart(s))
  }

  /** Leading white space before a visible character is all TrimStart removes. */
  lemma {:induction false} TrimStartSkips(lead: string, rest: string)
    requires forall i :: 0 <= i < |lead| ==> IsWhitespace(lead[i])
    requires |rest| > 0 && !IsWhitespace(rest[0])
    ensures TrimStart(lead + rest) == rest
    decreases |lead|
  {
    if |lead| == 0 {
      assert lead + rest == rest;
    } else {
      assert (lead + rest)[1..] == lead[1..] + rest;
      TrimStartSkips(lead[1..], rest);
    }
  }

  /** Trailing white space after a visible character is all TrimEnd removes. */
  lemma {:induction false} TrimEndSkips(rest: string, trail: string)
    requires forall i :: 0 <= i < |trail| ==> IsWhitespace(trail[i])
    requires |rest| > 0 && !IsWhitespace(rest[|rest| - 1])
    ensures TrimEnd(rest + trail) == rest
    decreases |trail|
  {
    if |trail| == 0 {
      assert rest + trail == rest;
    } else {
      assert (rest + trail)[..|rest + trail| - 1] == rest + trail[..|trail| - 1];
      TrimEndSkips(rest, trail[..|trail| - 1]);
    }
  }

  /** Trimming a text that is white space, then a core that starts and ends
      with visible characters, then white space, yields the core. */
  lemma TrimFramed(lead: string, core: string, trail: string)
    requires forall i :: 0 <= i < |lead| ==> IsWhitespace(lead[i])
    requires forall i :: 0 <= i < |trail| ==> IsWhitespace(trail[i])
    requires |core| > 0 && !IsWhitespace(core[0]) && !IsWhitespace(core[|core| - 1])
    ensures Trim(lead + core + trail) == core
  {
    assert lead + core + trail == lead + (core + trail);
    TrimStartSkips(lead, core + trail);
    TrimEndSkips(core, trail);
  }

  predicate IsDigit(c: char) {
    '0' as int <= c as int <= '9' as int
  }

  function DigitChar(d: nat): (c: char)
    requires d < 10
    ensures IsDigit(c) && c as int - '0' as int == d
  {
    ('0' as int + d) as char
  }

  function DigitValue(c: char): (d: nat)
    requires IsDigit(c)
    ensures d < 10
  {
    c as int - '0' as int
  }

  /** `${n}` for a non-negative integer: its shortest decimal numeral. */
  function Decimal(n: nat): (r: string)
    ensures |r| >= 1
    ensures forall i :: 0 <= i < |r| ==> IsDigit(r[i])
    ensures r[0] == '0' ==> n == 0 && |r| == 1
    decreases n
  {
    if n < 10 then [DigitChar(n)] else Decimal(n / 10) + [DigitChar(n % 10)]
  }

  /** The value of a numeral. */
  function DecimalValue(s: string): nat
    requires forall i :: 0 <= i < |s| ==> IsDigit(s[i])
    decreases |s|
  {
    if |s| == 0 then 0
    else DecimalValue(s[..|s| - 1]) * 10 + DigitValue(s[|s| - 1])
  }

  /** Reading back the numeral gives the number. */
  lemma {:induction false} DecimalRoundTrip(n: nat)
    ensures DecimalValue(Decimal(n)) == n
    decreases n
  {
    var r := Decimal(n);
    if n >= 10 {
      DecimalRoundTrip(n / 10);
      assert r[..|r| - 1] == Decimal(n / 10);
    }
  }

  /** Distinct numbers have distinct numerals. */
  lemma DecimalInjective(m: nat, n: nat)
    requires m != n
    ensures Decimal(m) != Decimal(n)
  {
    DecimalRoundTrip(m);
    DecimalRoundTrip(n);
  }

  /** Each line preceded by a newline, as built by repeated `+= `\n...``. */
  function JoinLines(lines: seq<string>): (r: string)
    ensures |lines| > 0 ==> |r| > 0 && r[0] == '\n'
    decreases |lines|
  {
    if |lines| == 0 then "" else JoinLines(lines[..|lines| - 1]) + "\n" + lines[|lines| - 1]
  }

  lemma {:induction false} JoinLinesAppend(a: seq<string>, b: seq<string>)
    ensures JoinLines(a + b) == JoinLines(a) + JoinLines(b)
    decreases |b|
  {
    if |b| > 0 {
      assert (a + b)[..|a + b| - 1] == a + b[..|b| - 1];
      JoinLinesAppend(a, b[..|b| - 1]);
    } else {
      assert a + b == a;
    }
  }

  // ---------------------------------------------------------------------
  // `JSON.stringify` on a string: the QuoteJSONString operation of
  // ECMA-262. Characters here are Unicode scalar values, so the
  // lone-surrogate case of that operation cannot arise.

  function HexDigit(d: nat): (c: char)
    requires d < 16
  {
    if d < 10 then DigitChar(d) else ('a' as int + (d - 10)) as char
  }

  /** The escape sequence, or the character itself, for one character. */
  function JsonEscapeChar(c: char): (r: string)
    ensures |r| >= 1
  {
    if c as int == 0x08 then "\\b"
    else if c == '\t' then "\\t"
    else if c == '\n' then "\\n"
    else if c as int == 0x0C then "\\f"
    else if c == '\r' then "\\r"
    else if c == '"' then "\\\""
    else if c == '\\' then "\\\\"
    else if c as int < 0x20 then "\\u00" + [HexDigit(c as int / 16), HexDigit(c as int % 16)]
    else [c]
  }

  function JsonEscape(s: string): string
    decreases |s|
  {
    if |s| == 0 then "" else JsonEscapeChar(s[0]) + JsonEscape(s[1..])
  }

  /** `JSON.stringify(s)` for a string s. */
  function JsonQuote(s: string): (r: string)
    ensures |r| >= 2 && r[0] == '"' && r[|r| - 1] == '"'
  {
    "\"" + JsonEscape(s) + "\""
  }

  // The inverse: reading a string literal produced by JsonQuote back.

  predicate IsHexDigit(c: char) {
    IsDigit(c) || ('a' as int <= c as int <= 'f' as int)
  }

  function HexValue(c: char): (d: nat)
    requires IsHexDigit(c)
    ensures d < 16
  {
    if IsDigit(c) then DigitValue(c) else c as int - 'a' as int + 10
  }

  /** The character a one-letter escape `\e` stands for. */
  function Unescaped(e: char): char {
    if e == 'b' then 0x08 as char
    else if e == 't' then '\t'
    else if e == 'n' then '\n'
    else if e == 'f' then 0x0C as char
    else if e == 'r' then '\r'
    else e
  }

  /** The characters a string literal's body denotes: `\u00hh` escapes,
      one-letter escapes and plain characters. */
  function JsonUnescape(s: string): string
    decreases |s|
  {
    if |s| == 0 then ""
    else if s[0] == '\\' && |s| >= 6 && s[1] == 'u' && s[2] == '0' && s[3] == '0'
         && IsHexDigit(s[4]) && IsHexDigit(s[5]) then
      [(HexValue(s[4]) * 16 + HexValue(s[5])) as char] + JsonUnescape(s[6..])
    else if s[0] == '\\' && |s| >= 2 then [Unescaped(s[1])] + JsonUnescape(s[2..])
    else [s[0]] + JsonUnescape(s[1..])
  }

  /** The value of a double-quoted string literal. */
  function JsonUnquote(q: string): string
    requires |q| >= 2
  {
    JsonUnescape(q[1..|q| - 1])
  }

  lemma HexRoundTrip(d: nat)
    requires d < 16
    ensures IsHexDigit(HexDigit(d)) && HexValue(HexDigit(d)) == d
  {
  }

  /** Decoding undoes the escaping of one character. */
  lemma JsonUnescapeChar(c: char, rest: string)
    ensures JsonUnescape(JsonEscapeChar(c) + rest) == [c] + JsonUnescape(rest)
  {
    var e := JsonEscapeChar(c);
    var s := e + rest;
    if c as int == 0x08 || c == '\t' || c == '\n' || c as int == 0x0C || c == '\r'
       || c == '"' || c == '\\' {
      assert s[2..] == rest;
    } else if c as int < 0x20 {
      var hi, lo := c as int / 16, c as int % 16;
      HexRoundTrip(hi);
      HexRoundTrip(lo);
      assert s[..6] == "\\u00" + [HexDigit(hi), HexDigit(lo)];
      assert s[6..] == rest;
    } else {
      assert s[1..] == rest;
    }
  }

  lemma {:induction false} JsonUnescapeRoundTrip(s: string)
    ensures JsonUnescape(JsonEscape(s)) == s
    decreases |s|
  {
    if |s| > 0 {
      JsonUnescapeChar(s[0], JsonEscape(s[1..]));
      JsonUnescapeRoundTrip(s[1..]);
      assert [s[0]] + s[1..] == s;
    }
  }

  /** `JSON.parse(JSON.stringify(s)) === s`: the quoted literal denotes s,
      so distinct strings are quoted differently. */
  lemma JsonQuoteRoundTrip(s: string)
    ensures JsonUnquote(JsonQuote(s)) == s
  {
    var q := JsonQuote(s);
    assert q[1..|q| - 1] == JsonEscape(s);
    JsonUnescapeRoundTrip(s);
  }
}
