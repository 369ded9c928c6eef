/**
 * Percent-encoding as section 2.1 of RFC 3986 describes it, in the form
 * Python's `urllib.parse.quote(s)` produces with its default `safe='/'`:
 * `s` is encoded as UTF-8 and every byte other than an unreserved character
 * (section 2.3) or `/` becomes `%` and two upper-case hexadecimal digits.
 * The decoder beside it is the inverse the round-trip lemmas are about.
 */
module Percent {
  import opened Wrappers
  import opened Utf8

  /** ALPHA / DIGIT / "-" / "." / "_" / "~", section 2.3 of RFC 3986. */
  predicate IsUnreserved(c: char) {
    ('A' <= c <= 'Z') || ('a' <= c <= 'z') || ('0' <= c <= '9')
    || c == '-' || c == '.' || c == '_' || c == '~'
  }

  /** The characters `quote` copies unchanged: the unreserved ones and its default safe `/`. */
  predicate IsSafe(c: char) {
    IsUnreserved(c) || c == '/'
  }

  predicate IsUpperHex(c: char) {
    ('0' <= c <= '9') || ('A' <= c <= 'F')
  }

  /** The upper-case hexadecimal digit for `d`, as `quote` writes it. */
  function HexDigit(d: int): (c: char)
    requires 0 <= d < 16
    ensures IsUpperHex(c)
  {
    if d < 10 then ('0' as int + d) as char else ('A' as int + d - 10) as char
  }

  /** The value of a hexadecimal digit of either case (section 2.1 of RFC 3986 treats them alike). */
  function HexValue(c: char): (r: Option<int>)
    ensures r.Some? ==> 0 <= r.value < 16
  {
    if '0' <= c <= '9' then Some(c as int - '0' as int)
    else if 'A' <= c <= 'F' then Some(c as int - 'A' as int + 10)
    else if 'a' <= c <= 'f' then Some(c as int - 'a' as int + 10)
    else None
  }

  lemma HexValueDigit(d: int)
    requires 0 <= d < 16
    ensures HexValue(HexDigit(d)) == Some(d)
  {
  }

  /** One byte of the UTF-8 form, as `quote` writes it. */
  function QuoteByte(b: byte): (r: string)
    ensures |r| == 1 || |r| == 3
  {
    if b < 0x80 && IsSafe(b as int as char) then [b as int as char]
    else ['%', HexDigit(b as int / 16), HexDigit(b as int % 16)]
  }

  /** `urllib.parse.quote_from_bytes(bs)` with `safe='/'`: one or three characters per byte. */
  function QuoteBytes(bs: seq<byte>): (r: string)
    ensures |bs| <= |r| <= 3 * |bs|
  {
    if bs == [] then "" else QuoteByte(bs[0]) + QuoteBytes(bs[1..])
  }

  /**
   * `urllib.parse.quote(s)`: the UTF-8 form of `s`, percent-encoded. The
   * result has the shape `IsQuoted` describes and is at most twelve
   * characters per character of `s`.
   */
  function Quote(s: string): (r: string)
    ensures IsQuoted(r)
    ensures |s| <= |r| <= 12 * |s|
  {
    QuoteBytesIsQuoted(Encode(s));
    QuoteBytes(Encode(s))
  }

  /**
   * The shape of `quote`'s output: only safe characters and `%`, and every
   * `%` followed by two upper-case hexadecimal digits.
   */
  predicate IsQuoted(s: string) {
    && (forall i :: 0 <= i < |s| ==> IsSafe(s[i]) || s[i] == '%')
    && (forall i :: 0 <= i < |s| && s[i] == '%' ==> i + 2 < |s| && IsUpperHex(s[i + 1]) && IsUpperHex(s[i + 2]))
  }

  lemma {:induction false} QuoteBytesIsQuoted(bs: seq<byte>)
    ensures IsQuoted(QuoteBytes(bs))
  {
    if bs != [] {
      QuoteBytesIsQuoted(bs[1..]);
      var h, t := QuoteByte(bs[0]), QuoteBytes(bs[1..]);
      var s := h + t;
      assert QuoteBytes(bs) == s;
      forall i | 0 <= i < |s| ensures IsSafe(s[i]) || s[i] == '%' {
        if i >= |h| { assert s[i] == t[i - |h|]; }
      }
      forall i | 0 <= i < |s| && s[i] == '%'
        ensures i + 2 < |s| && IsUpperHex(s[i + 1]) && IsUpperHex(s[i + 2])
      {
        if i >= |h| {
          assert s[i] == t[i - |h|] && s[i + 1] == t[i - |h| + 1] && s[i + 2] == t[i - |h| + 2];
        }
      }
    }
  }

  /**
   * None of the query's punctuation survives: a quoted string holds only
   * ASCII, and no space, `"`, `:`, `|`, `&`, `=`, `+`, `?` or `#`.
   */
  lemma QuotedHasNoDelimiters(s: string, i: int)
    requires IsQuoted(s) && 0 <= i < |s|
    ensures s[i] as int < 0x80
    ensures s[i] !in {' ', '"', ':', '|', '&', '=', '+', '?', '#'}
  {
  }

  /** Percent-decoding to bytes: `%` and two hex digits of either case give one byte, an ASCII character itself. */
  function UnquoteBytes(s: string): Option<seq<byte>>
    decreases |s|
  {
    if s == [] then Some([])
    else if s[0] == '%' then
      if |s| >= 3 && HexValue(s[1]).Some? && HexValue(s[2]).Some? then
        match UnquoteBytes(s[3..])
        case None => None
        case Some(rest) => Some([(HexValue(s[1]).value * 16 + HexValue(s[2]).value) as byte] + rest)
      else None
    else if s[0] as int < 0x80 then
      match UnquoteBytes(s[1..])
      case None => None
      case Some(rest) => Some([s[0] as int as byte] + rest)
    else None
  }

  /** Percent-decoding followed by strict UTF-8 decoding. */
  function Unquote(s: string): Option<string> {
    match UnquoteBytes(s)
    case None => None
    case Some(bs) => Decode(bs)
  }

  lemma UnquoteQuoteByte(b: byte, rest: string)
    ensures UnquoteBytes(QuoteByte(b) + rest) ==
      match UnquoteBytes(rest)
      case None => None
      case Some(r) => Some([b] + r)
  {
  }

  /** Round trip on bytes: decoding what `quote_from_bytes` wrote gives the bytes back. */
  lemma {:induction false} UnquoteQuoteBytes(bs: seq<byte>)
    ensures UnquoteBytes(QuoteBytes(bs)) == Some(bs)
  {
    if bs != [] {
      UnquoteQuoteBytes(bs[1..]);
      UnquoteQuoteByte(bs[0], QuoteBytes(bs[1..]));
      assert [bs[0]] + bs[1..] == bs;
    }
  }

  /** Round trip: decoding the output of `quote(s)` gives back `s` exactly. */
  lemma UnquoteQuote(s: string)
    ensures Unquote(Quote(s)) == Some(s)
  {
    UnquoteQuoteBytes(Encode(s));
    DecodeEncode(s);
  }

  /** `quote` maps distinct strings to distinct encodings. */
  lemma QuoteInjective(a: string, b: string)
    requires Quote(a) == Quote(b)
    ensures a == b
  {
    UnquoteQuote(a);
    UnquoteQuote(b);
  }

  lemma {:induction false} EncodeAppend(a: string, b: string)
    ensures Encode(a + b) == Encode(a) + Encode(b)
  {
    if a != [] {
      assert (a + b)[0] == a[0] && (a + b)[1..] == a[1..] + b;
      EncodeAppend(a[1..], b);
    } else {
      assert a + b == b;
    }
  }

  lemma {:induction false} QuoteBytesAppend(a: seq<byte>, b: seq<byte>)
    ensures QuoteBytes(a + b) == QuoteBytes(a) + QuoteBytes(b)
  {
    if a != [] {
      assert (a + b)[0] == a[0] && (a + b)[1..] == a[1..] + b;
      QuoteBytesAppend(a[1..], b);
    } else {
      assert a + b == b;
    }
  }

  /** `quote` works character by character, so it distributes over concatenation. */
  lemma QuoteAppend(a: string, b: string)
    ensures Quote(a + b) == Quote(a) + Quote(b)
  {
    EncodeAppend(a, b);
    QuoteBytesAppend(Encode(a), Encode(b));
  }

  /** A string made only of safe characters is left exactly as it is. */
  lemma {:induction false} QuoteSafe(s: string)
    requires forall i :: 0 <= i < |s| ==> IsSafe(s[i])
    ensures Quote(s) == s
  {
    if s != [] {
      QuoteSafe(s[1..]);
      assert Encode([s[0]]) == [s[0] as int as byte];
      QuoteAppend([s[0]], s[1..]);
      assert [s[0]] + s[1..] == s;
    }
  }
}
