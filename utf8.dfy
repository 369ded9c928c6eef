/**
 * UTF-8, as RFC 3629 defines it: the byte form Python's `str.encode('utf-8')`
 * gives a string before `urllib.parse.quote` percent-encodes it, and a strict
 * decoder that accepts exactly the well-formed byte sequences.
 */
module Utf8 {
  import opened Wrappers

  newtype byte = x: int | 0 <= x < 256

  /** A continuation byte, 10xxxxxx. */
  predicate IsContinuation(b: byte) {
    0x80 <= b < 0xC0
  }

  /**
   * The one- to four-byte form of a Unicode scalar value (section 3 of
   * RFC 3629): ASCII stays one byte; larger code points are split into
   * six-bit groups under the lead bytes 110xxxxx, 1110xxxx, 11110xxx.
   */
  function EncodeChar(c: char): (bs: seq<byte>)
    ensures 1 <= |bs| <= 4
    ensures (|bs| == 1) == (c as int < 0x80)
    ensures |bs| == 1 ==> bs[0] as int == c as int
    ensures |bs| > 1 ==> bs[0] >= 0xC2 && forall k :: 1 <= k < |bs| ==> IsContinuation(bs[k])
  {
    var n := c as int;
    if n < 0x80 then
      [n as byte]
    else if n < 0x800 then
      [(0xC0 + n / 0x40) as byte, (0x80 + n % 0x40) as byte]
    else if n < 0x1_0000 then
      [(0xE0 + n / 0x40 / 0x40) as byte, (0x80 + n / 0x40 % 0x40) as byte, (0x80 + n % 0x40) as byte]
    else
      [(0xF0 + n / 0x40 / 0x40 / 0x40) as byte, (0x80 + n / 0x40 / 0x40 % 0x40) as byte,
       (0x80 + n / 0x40 % 0x40) as byte, (0x80 + n % 0x40) as byte]
  }

  /** `str.encode('utf-8')`: the characters' byte forms, in order, one to four bytes each. */
  function Encode(s: string): (bs: seq<byte>)
    ensures |s| <= |bs| <= 4 * |s|
  {
    if s == [] then [] else EncodeChar(s[0]) + Encode(s[1..])
  }

  /**
   * The character that the well-formed UTF-8 sequence at the front of `bs`
   * encodes, with the number of bytes it takes. Overlong forms, surrogates,
   * code points above U+10FFFF and truncated sequences are refused.
   */
  function DecodeFirst(bs: seq<byte>): (r: Option<(char, nat)>)
    ensures r.Some? ==> 1 <= r.value.1 <= |bs|
  {
    if |bs| == 0 then None
    else
      var b0 := bs[0] as int;
      if b0 < 0x80 then
        Some((b0 as char, 1))
      else if 0xC2 <= b0 < 0xE0 && |bs| >= 2 && IsContinuation(bs[1]) then
        Some((((b0 - 0xC0) * 0x40 + (bs[1] as int - 0x80)) as char, 2))
      else if 0xE0 <= b0 < 0xF0 && |bs| >= 3 && IsContinuation(bs[1]) && IsContinuation(bs[2]) then
        var n := (b0 - 0xE0) * 0x1000 + (bs[1] as int - 0x80) * 0x40 + (bs[2] as int - 0x80);
        if 0x800 <= n && !(0xD800 <= n < 0xE000) then Some((n as char, 3)) else None
      else if 0xF0 <= b0 < 0xF5 && |bs| >= 4
              && IsContinuation(bs[1]) && IsContinuation(bs[2]) && IsContinuation(bs[3]) then
        var n := (b0 - 0xF0) * 0x4_0000 + (bs[1] as int - 0x80) * 0x1000
                 + (bs[2] as int - 0x80) * 0x40 + (bs[3] as int - 0x80);
        if 0x1_0000 <= n < 0x11_0000 then Some((n as char, 4)) else None
      else None
  }

  /** The string `bs` encodes, if `bs` is well-formed UTF-8 throughout. */
  function Decode(bs: seq<byte>): Option<string>
    decreases |bs|
  {
    if |bs| == 0 then Some("")
    else
      match DecodeFirst(bs)
      case None => None
      case Some((c, k)) =>
        match Decode(bs[k..])
        case None => None
        case Some(rest) => Some([c] + rest)
  }

  /** Division by 64 is determined by any quotient-remainder split. */
  lemma SixBits(n: int, q: int, r: int)
    requires 0 <= r < 0x40 && n == q * 0x40 + r
    ensures n / 0x40 == q && n % 0x40 == r
  {
  }

  /** Decoding the byte form of `c` gives back `c`, whatever follows it. */
  lemma DecodeFirstEncodeChar(c: char, rest: seq<byte>)
    ensures DecodeFirst(EncodeChar(c) + rest) == Some((c, |EncodeChar(c)|))
  {
  }

  /** What `DecodeFirst` accepts is exactly the byte form of the character it returns. */
  lemma EncodeCharDecodeFirst(bs: seq<byte>)
    requires DecodeFirst(bs).Some?
    ensures bs[..DecodeFirst(bs).value.1] == EncodeChar(DecodeFirst(bs).value.0)
  {
    var (c, k) := DecodeFirst(bs).value;
    var n := c as int;
    if k == 2 {
      var b0, b1 := bs[0] as int - 0xC0, bs[1] as int - 0x80;
      SixBits(n, b0, b1);
      assert bs[..2] == [bs[0], bs[1]];
    } else if k == 3 {
      var b0, b1, b2 := bs[0] as int - 0xE0, bs[1] as int - 0x80, bs[2] as int - 0x80;
      SixBits(n, b0 * 0x40 + b1, b2);
      SixBits(n / 0x40, b0, b1);
      assert bs[..3] == [bs[0], bs[1], bs[2]];
    } else if k == 4 {
      var b0, b1, b2, b3 := bs[0] as int - 0xF0, bs[1] as int - 0x80, bs[2] as int - 0x80, bs[3] as int - 0x80;
      SixBits(n, (b0 * 0x40 + b1) * 0x40 + b2, b3);
      SixBits(n / 0x40, b0 * 0x40 + b1, b2);
      SixBits(n / 0x40 / 0x40, b0, b1);
      assert bs[..4] == [bs[0], bs[1], bs[2], bs[3]];
    }
  }

  /** Round trip: decoding the UTF-8 form of any string gives the string back. */
  lemma {:induction false} DecodeEncode(s: string)
    ensures Decode(Encode(s)) == Some(s)
  {
    if s != [] {
      var e := EncodeChar(s[0]);
      DecodeFirstEncodeChar(s[0], Encode(s[1..]));
      assert (e + Encode(s[1..]))[|e|..] == Encode(s[1..]);
      DecodeEncode(s[1..]);
      assert [s[0]] + s[1..] == s;
    }
  }

  /** A string that decodes is its first character followed by the decoding of the rest. */
  lemma DecodeCons(bs: seq<byte>)
    requires |bs| > 0 && Decode(bs).Some?
    ensures DecodeFirst(bs).Some?
    ensures Decode(bs[DecodeFirst(bs).value.1..]).Some?
    ensures Decode(bs).value == [DecodeFirst(bs).value.0] + Decode(bs[DecodeFirst(bs).value.1..]).value
  {
  }

  lemma EncodeCons(c: char, rest: string, bs: seq<byte>, k: nat)
    requires k <= |bs| && bs[..k] == EncodeChar(c) && Encode(rest) == bs[k..]
    ensures Encode([c] + rest) == bs
  {
  }

  /** The other round trip: every byte sequence that decodes is the UTF-8 form of what it decodes to. */
  lemma {:induction false} EncodeDecode(bs: seq<byte>)
    requires Decode(bs).Some?
    ensures Encode(Decode(bs).value) == bs
    decreases |bs|
  {
    if |bs| > 0 {
      DecodeCons(bs);
      var first := DecodeFirst(bs).value;
      EncodeCharDecodeFirst(bs);
      EncodeDecode(bs[first.1..]);
      EncodeCons(first.0, Decode(bs[first.1..]).value, bs, first.1);
    }
  }

  /** Distinct strings have distinct UTF-8 forms. */
  lemma EncodeInjective(a: string, b: string)
    requires Encode(a) == Encode(b)
    ensures a == b
  {
    DecodeEncode(a);
    DecodeEncode(b);
  }
}
