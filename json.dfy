/** The part of JSON the tag field uses: `JSON.stringify` of an array of
    strings, and `JSON.parse` of a text that is an array of strings
    (RFC 8259, sections 2, 5 and 7). Anything else fails to parse here. */
module Json {
  import Seqs

  datatype Option<T> = None | Some(value: T)

  /** Insignificant whitespace between tokens (RFC 8259 section 2). */
  predicate IsJsonWhitespace(c: char) {
    c == ' ' || c == '\t' || c == '\n' || c == '\r'
  }

  function SkipWhitespace(s: seq<char>): (r: seq<char>)
    ensures |r| <= |s|
  {
    if |s| > 0 && IsJsonWhitespace(s[0]) then SkipWhitespace(s[1..]) else s
  }

  /** The lower-case hexadecimal digit `JSON.stringify` writes for `n`. */
  function HexDigit(n: int): char
    requires 0 <= n < 16
  {
    if n < 10 then ('0' as int + n) as char else ('a' as int + n - 10) as char
  }

  /** The value of a hexadecimal digit of either case, or -1. */
  function HexValue(c: char): (v: int)
    ensures -1 <= v < 16
  {
    if '0' <= c <= '9' then c as int - '0' as int
    else if 'a' <= c <= 'f' then c as int - 'a' as int + 10
    else if 'A' <= c <= 'F' then c as int - 'A' as int + 10
    else -1
  }

  lemma HexDigitValue(n: int)
    requires 0 <= n < 16
    ensures HexValue(HexDigit(n)) == n
  {
  }

  /** The value of four hexadecimal digits, or -1 when one is not a digit. */
  function HexQuad(s: seq<char>): (v: int)
    requires |s| == 4
    ensures -1 <= v < 0x10000
  {
    var a, b, c, d := HexValue(s[0]), HexValue(s[1]), HexValue(s[2]), HexValue(s[3]);
    if a < 0 || b < 0 || c < 0 || d < 0 then -1 else ((a * 16 + b) * 16 + c) * 16 + d
  }

  /** How `JSON.stringify` writes one character inside a string literal:
      quote and backslash escaped, the five control characters with short
      escapes by name, other control characters as `\u00XX`, anything else
      as itself. */
  function EscapeChar(c: char): seq<char> {
    if c == '"' then ['\\', '"']
    else if c == '\\' then ['\\', '\\']
    else if c as int == 0x08 then ['\\', 'b']
    else if c == '\t' then ['\\', 't']
    else if c == '\n' then ['\\', 'n']
    else if c as int == 0x0C then ['\\', 'f']
    else if c == '\r' then ['\\', 'r']
    else if (c as int) < 0x20 then ['\\', 'u', '0', '0', HexDigit(c as int / 16), HexDigit(c as int % 16)]
    else [c]
  }

  function Escape(s: string): seq<char> {
    if |s| == 0 then [] else EscapeChar(s[0]) + Escape(s[1..])
  }

  function Quote(s: string): seq<char> {
    ['"'] + Escape(s) + ['"']
  }

  function Elements(xs: seq<string>): seq<char> {
    if |xs| == 0 then []
    else if |xs| == 1 then Quote(xs[0])
    else Quote(xs[0]) + [','] + Elements(xs[1..])
  }

  /** `JSON.stringify(xs)` for an array of strings: no whitespace at all. */
  function Stringify(xs: seq<string>): seq<char> {
    ['['] + Elements(xs) + [']']
  }

  /** The character a one-letter escape stands for. */
  function ShortEscape(e: char): Option<char> {
    if e == '"' then Some('"')
    else if e == '\\' then Some('\\')
    else if e == '/' then Some('/')
    else if e == 'b' then Some(0x08 as char)
    else if e == 'f' then Some(0x0C as char)
    else if e == 'n' then Some('\n')
    else if e == 'r' then Some('\r')
    else if e == 't' then Some('\t')
    else None
  }

  function Prepend(c: char, r: Option<(string, seq<char>)>): Option<(string, seq<char>)> {
    match r
    case None => None
    case Some((body, rest)) => Some(([c] + body, rest))
  }

  /** Decodes the characters of a string literal after its opening quote, up
      to and including the closing quote; gives the decoded text and what
      follows the literal. A raw control character, an unknown escape or a
      `\u` escape of a surrogate half fails. */
  function ParseStringBody(s: seq<char>): (r: Option<(string, seq<char>)>)
    ensures r.Some? ==> |r.value.1| < |s|
    decreases |s|
  {
    if |s| == 0 then None
    else if s[0] == '"' then Some(([], s[1..]))
    else if s[0] == '\\' then
      if |s| < 2 then None
      else if s[1] == 'u' then
        if |s| < 6 then None
        else
          var v := HexQuad(s[2..6]);
          if v < 0 || 0xD800 <= v < 0xE000 then None
          else Prepend(v as char, ParseStringBody(s[6..]))
      else
        match ShortEscape(s[1])
        case None => None
        case Some(c) => Prepend(c, ParseStringBody(s[2..]))
    else if (s[0] as int) < 0x20 then None
    else Prepend(s[0], ParseStringBody(s[1..]))
  }

  /** Parses `"..." , "..." ... ]` (with whitespace between tokens); gives
      the strings and what follows the closing bracket. */
  function ParseItems(s: seq<char>): (r: Option<(seq<string>, seq<char>)>)
    ensures r.Some? ==> |r.value.1| < |s|
    decreases |s|
  {
    if |s| == 0 || s[0] != '"' then None
    else
      match ParseStringBody(s[1..])
      case None => None
      case Some((x, rest)) =>
        var t := SkipWhitespace(rest);
        if |t| == 0 then None
        else if t[0] == ']' then Some(([x], t[1..]))
        else if t[0] == ',' then
          match ParseItems(SkipWhitespace(t[1..]))
          case None => None
          case Some((xs, after)) => Some(([x] + xs, after))
        else None
  }

  /** `JSON.parse(s)` when `s` is a JSON array of strings; `None` when `s` is
      not valid JSON or is some other JSON value. */
  function ParseStringArray(s: seq<char>): Option<seq<string>> {
    var t := SkipWhitespace(s);
    if |t| == 0 || t[0] != '[' then None
    else
      var u := SkipWhitespace(t[1..]);
      if |u| > 0 && u[0] == ']' then
        if SkipWhitespace(u[1..]) == [] then Some([]) else None
      else
        match ParseItems(u)
        case None => None
        case Some((items, rest)) => if SkipWhitespace(rest) == [] then Some(items) else None
  }

  /** Decoding the escaped form of one character gives that character back. */
  lemma EscapeCharRoundTrip(c: char, rest: seq<char>)
    ensures |EscapeChar(c)| > 0 && EscapeChar(c)[0] != '"'
    ensures ParseStringBody(EscapeChar(c) + rest) == Prepend(c, ParseStringBody(rest))
  {
    var s := EscapeChar(c) + rest;
    var n := c as int;
    if c == '"' || c == '\\' || n == 0x08 || c == '\t' || c == '\n' || n == 0x0C || c == '\r' {
      assert s[2..] == rest;
    } else if n < 0x20 {
      assert s[6..] == rest;
      assert s[2..6] == ['0', '0', HexDigit(n / 16), HexDigit(n % 16)];
      HexDigitValue(n / 16);
      HexDigitValue(n % 16);
      assert HexQuad(s[2..6]) == n;
      assert n as char == c;
    } else {
      assert s[1..] == rest;
    }
  }

  /** A string literal written by `Stringify` decodes to the original text. */
  lemma {:induction false} EscapeRoundTrip(x: string, rest: seq<char>)
    ensures ParseStringBody(Escape(x) + ['"'] + rest) == Some((x, rest))
    decreases |x|
  {
    if |x| == 0 {
      assert Escape(x) + ['"'] + rest == ['"'] + rest;
      assert (['"'] + rest)[1..] == rest;
    } else {
      var tail := Escape(x[1..]) + ['"'] + rest;
      assert Escape(x) + ['"'] + rest == EscapeChar(x[0]) + tail;
      EscapeCharRoundTrip(x[0], tail);
      EscapeRoundTrip(x[1..], rest);
      assert [x[0]] + x[1..] == x;
    }
  }

  lemma QuoteRoundTrip(x: string, rest: seq<char>)
    ensures |Quote(x) + rest| > 0 && (Quote(x) + rest)[0] == '"'
    ensures ParseStringBody((Quote(x) + rest)[1..]) == Some((x, rest))
  {
    assert (Quote(x) + rest)[1..] == Escape(x) + ['"'] + rest;
    EscapeRoundTrip(x, rest);
  }

  lemma ParseItemsLast(s: seq<char>, x: string, rest: seq<char>)
    requires |s| > 0 && s[0] == '"'
    requires ParseStringBody(s[1..]) == Some((x, [']'] + rest))
    ensures ParseItems(s) == Some(([x], rest))
  {
    var t := [']'] + rest;
    assert SkipWhitespace(t) == t;
    assert t[1..] == rest;
  }

  lemma ParseItemsNext(s: seq<char>, x: string, more: seq<char>, xs: seq<string>, rest: seq<char>)
    requires |s| > 0 && s[0] == '"'
    requires ParseStringBody(s[1..]) == Some((x, [','] + more))
    requires |more| > 0 && more[0] == '"'
    requires ParseItems(more) == Some((xs, rest))
    ensures ParseItems(s) == Some(([x] + xs, rest))
  {
    var t := [','] + more;
    assert SkipWhitespace(t) == t;
    assert t[1..] == more;
    assert SkipWhitespace(more) == more;
  }

  lemma ElementsStartWithQuote(xs: seq<string>, rest: seq<char>)
    requires |xs| > 0
    ensures |Elements(xs) + rest| > 0 && (Elements(xs) + rest)[0] == '"'
  {
  }

  lemma ElementsSplit(xs: seq<string>, rest: seq<char>)
    requires |xs| > 1
    ensures Elements(xs) + [']'] + rest == Quote(xs[0]) + ([','] + (Elements(xs[1..]) + ([']'] + rest)))
  {
    var q, e := Quote(xs[0]), Elements(xs[1..]);
    assert Elements(xs) == q + [','] + e;
    Seqs.AppendAssoc(q + [','] + e, [']'], rest);
    Seqs.AppendAssoc(q + [','], e, [']'] + rest);
    Seqs.AppendAssoc(q, [','], e + ([']'] + rest));
  }

  /** The items `Stringify` writes parse back to the same list. */
  lemma {:induction false} ElementsRoundTrip(xs: seq<string>, rest: seq<char>)
    requires |xs| > 0
    ensures ParseItems(Elements(xs) + [']'] + rest) == Some((xs, rest))
    decreases |xs|
  {
    var s := Elements(xs) + [']'] + rest;
    if |xs| == 1 {
      assert s == Quote(xs[0]) + ([']'] + rest);
      QuoteRoundTrip(xs[0], [']'] + rest);
      ParseItemsLast(s, xs[0], rest);
      assert [xs[0]] == xs;
    } else {
      var more := Elements(xs[1..]) + ([']'] + rest);
      ElementsSplit(xs, rest);
      QuoteRoundTrip(xs[0], [','] + more);
      ElementsRoundTrip(xs[1..], rest);
      ElementsStartWithQuote(xs[1..], [']'] + rest);
      assert Elements(xs[1..]) + [']'] + rest == more;
      ParseItemsNext(s, xs[0], more, xs[1..], rest);
      assert [xs[0]] + xs[1..] == xs;
    }
  }

  /** `JSON.parse(JSON.stringify(xs))` is `xs` for every list of strings. */
  lemma StringifyRoundTrip(xs: seq<string>)
    ensures ParseStringArray(Stringify(xs)) == Some(xs)
  {
    var s := Stringify(xs);
    assert SkipWhitespace(s) == s;
    assert s[1..] == Elements(xs) + [']'];
    if |xs| == 0 {
      assert s[1..] == [']'];
      assert SkipWhitespace(s[1..]) == s[1..];
    } else {
      ElementsRoundTrip(xs, []);
      assert Elements(xs) + [']'] + [] == s[1..];
      assert s[1..][0] == '"';
      assert SkipWhitespace(s[1..]) == s[1..];
    }
  }
}
