/** The `output` helper of the test module: a byte string rendered as "0x"
    followed by two lower-case hexadecimal digits per byte, in order, as
    Rust's `{:02x?}` formats each `u8`. Its inverse parser shows that the
    rendering loses nothing. */
module Hex {
  import opened Bytes
  import opened Results

  /** The lower-case hexadecimal digit of d. */
  function HexDigit(d: nat): (c: char)
    requires d < 16
    ensures DigitValue(c) == Some(d)
  {
    if d < 10 then ('0' as int + d) as char else ('a' as int + d - 10) as char
  }

  /** The value of a lower-case hexadecimal digit; None for any other character. */
  function DigitValue(c: char): Option<nat> {
    if '0' <= c <= '9' then Some(c as int - '0' as int)
    else if 'a' <= c <= 'f' then Some(c as int - 'a' as int + 10)
    else None
  }

  /** One byte as exactly two digits, high nibble first, zero-padded. */
  function HexByte(b: byte): (r: string)
    ensures |r| == 2
    ensures DigitValue(r[0]).Some? && DigitValue(r[1]).Some?
    ensures 16 * DigitValue(r[0]).value + DigitValue(r[1]).value == b
  {
    [HexDigit(b / 16), HexDigit(b % 16)]
  }

  /** The digits of a byte string: two per byte, in order. */
  function HexDigits(bs: seq<byte>): (r: string)
    ensures |r| == 2 * |bs|
  {
    if bs == [] then [] else HexByte(bs[0]) + HexDigits(bs[1..])
  }

  /** The rendering of a byte string: "0x" and then its digits. */
  function Output(bs: seq<byte>): (r: string)
    ensures |r| == 2 + 2 * |bs| && r[..2] == "0x"
  {
    "0x" + HexDigits(bs)
  }

  /** The digits at positions 2i and 2i + 1 are those of byte i. */
  lemma {:induction false} HexDigitsAt(bs: seq<byte>)
    ensures forall i :: 0 <= i < |bs| ==> HexDigits(bs)[2 * i..2 * i + 2] == HexByte(bs[i])
    decreases |bs|
  {
    if bs != [] {
      HexDigitsAt(bs[1..]);
      var rest := HexDigits(bs[1..]);
      var r := HexDigits(bs);
      assert r == HexByte(bs[0]) + rest;
      forall i | 1 <= i < |bs|
        ensures r[2 * i..2 * i + 2] == HexByte(bs[i])
      {
        assert r[2 * i..2 * i + 2] == rest[2 * (i - 1)..2 * (i - 1) + 2];
      }
    }
  }

  /** In the rendering, byte i appears as the two digits after "0x" and the
      2i digits of the bytes before it. */
  lemma OutputAt(bs: seq<byte>)
    ensures forall i :: 0 <= i < |bs| ==> Output(bs)[2 + 2 * i..2 * i + 4] == HexByte(bs[i])
  {
    HexDigitsAt(bs);
    var r, digits := Output(bs), HexDigits(bs);
    forall i | 0 <= i < |bs|
      ensures r[2 + 2 * i..2 * i + 4] == HexByte(bs[i])
    {
      assert r[2 + 2 * i..2 * i + 4] == digits[2 * i..2 * i + 2];
    }
  }

  /** Appending a byte appends its two digits. */
  lemma {:induction false} HexDigitsSnoc(bs: seq<byte>, b: byte)
    ensures HexDigits(bs + [b]) == HexDigits(bs) + HexByte(b)
    decreases |bs|
  {
    if bs != [] {
      assert (bs + [b])[1..] == bs[1..] + [b];
      HexDigitsSnoc(bs[1..], b);
    }
  }

  /** The helper as the source writes it: format each byte, fold the pieces
      into one growing string, then prefix "0x". */
  method OutputFold(bs: seq<byte>) returns (r: string)
    ensures r == Output(bs)
  {
    var acc := "";
    var i := 0;
    while i < |bs|
      invariant i <= |bs|
      invariant acc == HexDigits(bs[..i])
    {
      HexDigitsSnoc(bs[..i], bs[i]);
      assert bs[..i + 1] == bs[..i] + [bs[i]];
      acc := acc + HexByte(bs[i]);
      i := i + 1;
    }
    assert bs[..i] == bs;
    r := "0x" + acc;
  }

  /** The bytes a string of digit pairs stands for; None if it is not one. */
  function ParseDigits(s: string): Option<seq<byte>>
    decreases |s|
  {
    if s == [] then Some([])
    else if |s| < 2 || DigitValue(s[0]).None? || DigitValue(s[1]).None? then None
    else
      var rest := ParseDigits(s[2..]);
      if rest.None? then None
      else Some([16 * DigitValue(s[0]).value + DigitValue(s[1]).value] + rest.value)
  }

  /** The bytes a rendering stands for; None if the string is not a rendering. */
  function ParseOutput(s: string): Option<seq<byte>> {
    if |s| < 2 || s[..2] != "0x" then None else ParseDigits(s[2..])
  }

  /** Parsing a rendering gives back the bytes rendered. */
  lemma {:induction false} ParseDigitsRoundTrip(bs: seq<byte>)
    ensures ParseDigits(HexDigits(bs)) == Some(bs)
    decreases |bs|
  {
    if bs != [] {
      ParseDigitsRoundTrip(bs[1..]);
      var s := HexDigits(bs);
      assert s[2..] == HexDigits(bs[1..]);
      assert s[..2] == HexByte(bs[0]);
      assert [bs[0]] + bs[1..] == bs;
    }
  }

  /** Every string the parser accepts is the rendering of the bytes it yields. */
  lemma {:induction false} ParseDigitsExact(s: string)
    requires ParseDigits(s).Some?
    ensures HexDigits(ParseDigits(s).value) == s
    decreases |s|
  {
    if s != [] {
      ParseDigitsExact(s[2..]);
      var bs := ParseDigits(s).value;
      assert bs[1..] == ParseDigits(s[2..]).value;
      var hi, lo := DigitValue(s[0]).value, DigitValue(s[1]).value;
      assert bs[0] / 16 == hi && bs[0] % 16 == lo;
      assert HexDigit(hi) == s[0] && HexDigit(lo) == s[1];
      assert s == s[..2] + s[2..];
    }
  }

  /** Output and ParseOutput are inverse: a string parses to bs exactly when it is the rendering of bs. */
  lemma OutputParse(bs: seq<byte>, s: string)
    ensures ParseOutput(s) == Some(bs) <==> s == Output(bs)
  {
    if s == Output(bs) {
      ParseDigitsRoundTrip(bs);
      assert s[2..] == HexDigits(bs);
    }
    if ParseOutput(s) == Some(bs) {
      ParseDigitsExact(s[2..]);
      assert s == s[..2] + s[2..];
    }
  }
}
