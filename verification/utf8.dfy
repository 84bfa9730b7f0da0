/** UTF-8 text, as Rust's `String` and `str` hold it.

    A SCALE string is a Vec<u8> of the text's UTF-8 bytes, and decoding
    refuses bytes that are not well-formed UTF-8. The well-formed byte
    sequences are those of the Unicode Standard's table of well-formed
    UTF-8 byte sequences (Table 3-7): no overlong forms, no surrogates,
    nothing above U+10FFFF. Dafny's `char` is a Unicode scalar value, which
    is exactly the set of values UTF-8 can carry. */
module Utf8 {
  import opened Bytes
  import opened Results

  /** The UTF-8 bytes of one scalar value: one to four bytes. */
  function EncodeChar(c: char): (r: seq<byte>)
    ensures 1 <= |r| <= 4
    ensures (c as int < 0x80) <==> |r| == 1
  {
    var x := c as int;
    if x < 0x80 then [x]
    else if x < 0x800 then [0xC0 + x / 0x40, 0x80 + x % 0x40]
    else if x < 0x1_0000 then [0xE0 + x / 0x1000, 0x80 + (x / 0x40) % 0x40, 0x80 + x % 0x40]
    else [0xF0 + x / 0x4_0000, 0x80 + (x / 0x1000) % 0x40, 0x80 + (x / 0x40) % 0x40, 0x80 + x % 0x40]
  }

  /** The UTF-8 bytes of a text: the concatenation of its characters' bytes. */
  function EncodeUtf8(s: string): (r: seq<byte>)
    ensures |r| >= |s|
  {
    if s == [] then [] else EncodeChar(s[0]) + EncodeUtf8(s[1..])
  }

  /** b lies in the inclusive range lo..hi. */
  predicate Between(b: byte, lo: int, hi: int) {
    lo <= b <= hi
  }

  /** The first character of bs and the number of bytes it occupies, when bs
      begins with a well-formed UTF-8 sequence; None otherwise. */
  function DecodeChar(bs: seq<byte>): (r: Option<(char, nat)>)
    ensures r.Some? ==> 1 <= r.value.1 <= |bs|
  {
    if bs == [] then None
    else
      var b0 := bs[0];
      if b0 < 0x80 then Some((b0 as char, 1))
      else if Between(b0, 0xC2, 0xDF) then
        if |bs| < 2 || !Between(bs[1], 0x80, 0xBF) then None
        else Two(b0, bs[1])
      else if Between(b0, 0xE0, 0xEF) then
        var lo := if b0 == 0xE0 then 0xA0 else 0x80;
        var hi := if b0 == 0xED then 0x9F else 0xBF;
        if |bs| < 3 || !Between(bs[1], lo, hi) || !Between(bs[2], 0x80, 0xBF) then None
        else Three(b0, bs[1], bs[2])
      else if Between(b0, 0xF0, 0xF4) then
        var lo := if b0 == 0xF0 then 0x90 else 0x80;
        var hi := if b0 == 0xF4 then 0x8F else 0xBF;
        if |bs| < 4 || !Between(bs[1], lo, hi) || !Between(bs[2], 0x80, 0xBF) || !Between(bs[3], 0x80, 0xBF) then None
        else Four(b0, bs[1], bs[2], bs[3])
      else None
  }

  function Two(b0: byte, b1: byte): (r: Option<(char, nat)>)
    requires Between(b0, 0xC2, 0xDF) && Between(b1, 0x80, 0xBF)
    ensures r.Some? && r.value.1 == 2
  {
    var x := (b0 as int - 0xC0) * 0x40 + (b1 as int - 0x80);
    Some((x as char, 2))
  }

  function Three(b0: byte, b1: byte, b2: byte): (r: Option<(char, nat)>)
    requires Between(b0, 0xE0, 0xEF) && Between(b2, 0x80, 0xBF)
    requires Between(b1, if b0 == 0xE0 then 0xA0 else 0x80, if b0 == 0xED then 0x9F else 0xBF)
    ensures r.Some? && r.value.1 == 3
  {
    var x := (b0 as int - 0xE0) * 0x1000 + (b1 as int - 0x80) * 0x40 + (b2 as int - 0x80);
    assert 0x800 <= x < 0xD800 || 0xE000 <= x < 0x1_0000;
    Some((x as char, 3))
  }

  function Four(b0: byte, b1: byte, b2: byte, b3: byte): (r: Option<(char, nat)>)
    requires Between(b0, 0xF0, 0xF4) && Between(b2, 0x80, 0xBF) && Between(b3, 0x80, 0xBF)
    requires Between(b1, if b0 == 0xF0 then 0x90 else 0x80, if b0 == 0xF4 then 0x8F else 0xBF)
    ensures r.Some? && r.value.1 == 4
  {
    var x := (b0 as int - 0xF0) * 0x4_0000 + (b1 as int - 0x80) * 0x1000 + (b2 as int - 0x80) * 0x40 + (b3 as int - 0x80);
    assert 0x1_0000 <= x <= 0x10_FFFF;
    Some((x as char, 4))
  }

  /** The text of a byte string, when the whole of it is well-formed UTF-8. */
  function DecodeUtf8(bs: seq<byte>): Option<string>
    decreases |bs|, 1
  {
    if bs == [] then Some([]) else DecodeNonEmpty(bs)
  }

  /** The text of a non-empty byte string: its first character, then the
      text of the bytes after that character. */
  function DecodeNonEmpty(bs: seq<byte>): Option<string>
    requires bs != []
    decreases |bs|, 0
  {
    match DecodeChar(bs)
    case None => None
    case Some((c, k)) =>
      match DecodeUtf8(bs[k..])
      case None => None
      case Some(s) => Some([c] + s)
  }

  /** bs is well-formed UTF-8. */
  predicate ValidUtf8(bs: seq<byte>) {
    DecodeUtf8(bs).Some?
  }

  /** The first character of an encoded text is read back from its bytes,
      whatever follows them. */
  lemma CharRoundTrip(c: char, rest: seq<byte>)
    ensures DecodeChar(EncodeChar(c) + rest) == Some((c, |EncodeChar(c)|))
  {
    var x := c as int;
    var bs := EncodeChar(c) + rest;
    if x < 0x80 {
    } else if x < 0x800 {
      TwoRoundTrip(x, bs);
    } else if x < 0x1_0000 {
      ThreeRoundTrip(x, bs);
    } else {
      FourRoundTrip(x, bs);
    }
  }

  lemma TwoRoundTrip(x: int, bs: seq<byte>)
    requires 0x80 <= x < 0x800
    requires |bs| >= 2 && bs[0] == 0xC0 + x / 0x40 && bs[1] == 0x80 + x % 0x40
    ensures DecodeChar(bs) == Some((x as char, 2))
  {
  }

  lemma ThreeRoundTrip(x: int, bs: seq<byte>)
    requires 0x800 <= x < 0xD800 || 0xE000 <= x < 0x1_0000
    requires |bs| >= 3 && bs[0] == 0xE0 + x / 0x1000
    requires bs[1] == 0x80 + (x / 0x40) % 0x40 && bs[2] == 0x80 + x % 0x40
    ensures DecodeChar(bs) == Some((x as char, 3))
  {
    assert x == (bs[0] as int - 0xE0) * 0x1000 + (bs[1] as int - 0x80) * 0x40 + (bs[2] as int - 0x80);
  }

  lemma FourRoundTrip(x: int, bs: seq<byte>)
    requires 0x1_0000 <= x <= 0x10_FFFF
    requires |bs| >= 4 && bs[0] == 0xF0 + x / 0x4_0000
    requires bs[1] == 0x80 + (x / 0x1000) % 0x40 && bs[2] == 0x80 + (x / 0x40) % 0x40
    requires bs[3] == 0x80 + x % 0x40
    ensures DecodeChar(bs) == Some((x as char, 4))
  {
    Digits(x);
    assert x == (bs[0] as int - 0xF0) * 0x4_0000 + (bs[1] as int - 0x80) * 0x1000 + (bs[2] as int - 0x80) * 0x40 + (bs[3] as int - 0x80);
  }

  /** A natural number is the sum of its base-64 digits. */
  lemma Digits(x: nat)
    ensures x == (x / 0x4_0000) * 0x4_0000 + ((x / 0x1000) % 0x40) * 0x1000 + ((x / 0x40) % 0x40) * 0x40 + x % 0x40
  {
    assert x / 0x1000 == x / 0x40 / 0x40;
    assert x / 0x4_0000 == x / 0x1000 / 0x40;
  }

  /** Quotient and remainder by 64 are determined by any split x == 64 * q + r with r < 64. */
  lemma DivUnique64(x: int, q: int, r: int)
    requires 0 <= r < 0x40 && x == q * 0x40 + r
    ensures x / 0x40 == q && x % 0x40 == r
  {
  }

  /** Whatever well-formed sequence the decoder reads is written exactly as
      the encoder writes the character it yields: no overlong or other
      alternative form is accepted. */
  lemma CharExact(bs: seq<byte>)
    requires DecodeChar(bs).Some?
    ensures bs[..DecodeChar(bs).value.1] == EncodeChar(DecodeChar(bs).value.0)
  {
    var k := DecodeChar(bs).value.1;
    if k == 2 {
      TwoExact(bs[0], bs[1]);
    } else if k == 3 {
      ThreeExact(bs[0], bs[1], bs[2]);
    } else if k == 4 {
      FourBytesExact(bs[0], bs[1], bs[2], bs[3]);
    }
  }

  lemma TwoExact(b0: byte, b1: byte)
    requires Between(b0, 0xC2, 0xDF) && Between(b1, 0x80, 0xBF)
    ensures EncodeChar(Two(b0, b1).value.0) == [b0, b1]
  {
    var x := (b0 as int - 0xC0) * 0x40 + (b1 as int - 0x80);
    DivUnique64(x, b0 as int - 0xC0, b1 as int - 0x80);
  }

  lemma ThreeExact(b0: byte, b1: byte, b2: byte)
    requires Between(b0, 0xE0, 0xEF) && Between(b2, 0x80, 0xBF)
    requires Between(b1, if b0 == 0xE0 then 0xA0 else 0x80, if b0 == 0xED then 0x9F else 0xBF)
    ensures EncodeChar(Three(b0, b1, b2).value.0) == [b0, b1, b2]
  {
    FourExact(0, b0 as int - 0xE0, b1 as int - 0x80, b2 as int - 0x80);
  }

  lemma FourBytesExact(b0: byte, b1: byte, b2: byte, b3: byte)
    requires Between(b0, 0xF0, 0xF4) && Between(b2, 0x80, 0xBF) && Between(b3, 0x80, 0xBF)
    requires Between(b1, if b0 == 0xF0 then 0x90 else 0x80, if b0 == 0xF4 then 0x8F else 0xBF)
    ensures EncodeChar(Four(b0, b1, b2, b3).value.0) == [b0, b1, b2, b3]
  {
    FourExact(b0 as int - 0xF0, b1 as int - 0x80, b2 as int - 0x80, b3 as int - 0x80);
  }

  /** The base-64 digits of a four-byte sequence's value are its payload bits. */
  lemma FourExact(a: nat, b: nat, c: nat, d: nat)
    requires a < 8 && b < 0x40 && c < 0x40 && d < 0x40
    ensures var x := a * 0x4_0000 + b * 0x1000 + c * 0x40 + d;
      x / 0x4_0000 == a && (x / 0x1000) % 0x40 == b && (x / 0x40) % 0x40 == c && x % 0x40 == d
  {
    var x := a * 0x4_0000 + b * 0x1000 + c * 0x40 + d;
    DivUnique64(x, a * 0x1000 + b * 0x40 + c, d);
    DivUnique64(x / 0x40, a * 0x40 + b, c);
    DivUnique64(x / 0x40 / 0x40, a, b);
    assert x / 0x1000 == x / 0x40 / 0x40;
    assert x / 0x4_0000 == x / 0x1000 / 0x40;
  }

  /** Decoding the UTF-8 bytes of a text gives the text back. */
  lemma {:induction false} Utf8RoundTrip(s: string)
    ensures DecodeUtf8(EncodeUtf8(s)) == Some(s)
  {
    if s != [] {
      var e := EncodeChar(s[0]);
      var bs := EncodeUtf8(s);
      CharRoundTrip(s[0], EncodeUtf8(s[1..]));
      assert bs[|e|..] == EncodeUtf8(s[1..]);
      Utf8RoundTrip(s[1..]);
      assert DecodeUtf8(bs) == DecodeNonEmpty(bs);
      assert [s[0]] + s[1..] == s;
    }
  }

  /** Every byte string the decoder accepts is the UTF-8 encoding of the
      text it yields. */
  lemma {:induction false} Utf8Exact(bs: seq<byte>)
    requires ValidUtf8(bs)
    ensures EncodeUtf8(DecodeUtf8(bs).value) == bs
    decreases |bs|
  {
    if bs != [] {
      var c, k := FirstChar(bs);
      Utf8Exact(bs[k..]);
      var s := DecodeUtf8(bs).value;
      assert s[0] == c && s[1..] == DecodeUtf8(bs[k..]).value;
      assert bs == bs[..k] + bs[k..];
    }
  }

  /** A non-empty well-formed byte string splits into the encoding of its
      first character and a well-formed rest. */
  lemma FirstChar(bs: seq<byte>) returns (c: char, k: nat)
    requires bs != [] && ValidUtf8(bs)
    ensures 1 <= k <= |bs| && bs[..k] == EncodeChar(c) && ValidUtf8(bs[k..])
    ensures DecodeUtf8(bs).value == [c] + DecodeUtf8(bs[k..]).value
  {
    assert DecodeUtf8(bs) == DecodeNonEmpty(bs);
    c, k := DecodeChar(bs).value.0, DecodeChar(bs).value.1;
    CharExact(bs);
  }
}
