/** Fixed-width integers, booleans and the unit value.

    A fixed-width integer is written as exactly its declared number of
    bytes, little-endian, whatever its magnitude; signed integers use
    two's complement. A boolean is one byte, 0x00 or 0x01, and decoding
    refuses any other byte. Unit is written as nothing at all. */
module Primitive {
  import opened Bytes
  import opened Results

  /** The storage widths of Rust's integer types. */
  datatype Width = W8 | W16 | W32 | W64 | W128

  /** The number of bytes an integer of width w occupies. */
  function ByteCount(w: Width): (n: nat)
    ensures 1 <= n <= 16
  {
    match w
    case W8 => 1
    case W16 => 2
    case W32 => 4
    case W64 => 8
    case W128 => 16
  }

  /** The number of distinct values of width w: 2^(8 * ByteCount(w)). */
  function Modulus(w: Width): nat {
    match w
    case W8 => 0x100
    case W16 => 0x1_0000
    case W32 => 0x1_0000_0000
    case W64 => 0x1_0000_0000_0000_0000
    case W128 => 0x1_0000_0000_0000_0000_0000_0000_0000_0000
  }

  /** The modulus is 256 to the power of the byte count, and even. */
  lemma ModulusPow(w: Width)
    ensures Modulus(w) == Pow256(ByteCount(w))
    ensures Modulus(w) % 2 == 0
  {
    assert Pow256(1) == 0x100;
    assert Pow256(2) == 0x1_0000;
    Pow256Add(2, 2);
    Pow256Add(4, 4);
    Pow256Add(8, 8);
  }

  /** i is representable as a (signed or unsigned) integer of width w. */
  predicate InRange(signed: bool, w: Width, i: int) {
    if signed then -(Modulus(w) / 2) <= i < Modulus(w) / 2
    else 0 <= i < Modulus(w)
  }

  /** Encoding of a fixed-width integer: its two's-complement little-endian bytes. */
  function EncodeFixed(signed: bool, w: Width, i: int): (r: seq<byte>)
    requires InRange(signed, w, i)
    ensures |r| == ByteCount(w)
    ensures FromLE(r) == if i < 0 then i + Modulus(w) else i
  {
    var u := if i < 0 then i + Modulus(w) else i;
    TwosComplement(signed, i, Modulus(w));
    ModulusPow(w);
    ToLE(u, ByteCount(w))
  }

  /** The bytes of a fixed-width integer hold its residue modulo 2^(8 * width):
      two's complement for negative signed values. */
  lemma FixedResidue(signed: bool, w: Width, i: int)
    requires InRange(signed, w, i)
    ensures FromLE(EncodeFixed(signed, w, i)) == i % Modulus(w)
  {
    TwosComplement(signed, i, Modulus(w));
  }

  /** Adding the modulus to a negative in-range integer gives its residue. */
  lemma TwosComplement(signed: bool, i: int, m: nat)
    requires if signed then -(m / 2) <= i < m / 2 else 0 <= i < m
    ensures 0 <= (if i < 0 then i + m else i) < m
    ensures (if i < 0 then i + m else i) == i % m
  {
    if i < 0 {
      assert i + m == i % m by { assert i == -1 * m + (i + m); }
    }
  }

  /** Reading an unsigned residue back as a (possibly signed) integer undoes
      the two's-complement step of encoding. */
  lemma FromTwosComplement(signed: bool, u: nat, m: nat)
    requires u < m && m % 2 == 0
    ensures var i := FromResidue(signed, m, u);
      (if signed then -(m / 2) <= i < m / 2 else 0 <= i < m)
      && (if i < 0 then i + m else i) == u
  {
  }

  /** The integer whose encoding is the given window of ByteCount(w) bytes. */
  function FromWindow(signed: bool, w: Width, window: seq<byte>): (i: int)
    requires |window| == ByteCount(w)
    ensures InRange(signed, w, i) && EncodeFixed(signed, w, i) == window
  {
    FromWindowCorrect(signed, w, window);
    FromResidue(signed, Modulus(w), FromLE(window))
  }

  /** The integer of a residue u modulo m: u itself, or u - m for a signed
      type when the sign bit is set. */
  function FromResidue(signed: bool, m: nat, u: nat): int {
    if signed && u >= m / 2 then u - m else u
  }

  lemma FromWindowCorrect(signed: bool, w: Width, window: seq<byte>)
    requires |window| == ByteCount(w)
    ensures var i := FromResidue(signed, Modulus(w), FromLE(window));
      InRange(signed, w, i) && EncodeFixed(signed, w, i) == window
  {
    var n := ByteCount(w);
    var m := Modulus(w);
    var u := FromLE(window);
    FromLEBound(window);
    var i := FromResidue(signed, m, u);
    assert InRange(signed, w, i) && (if i < 0 then i + m else i) == u by {
      ModulusPow(w);
      FromTwosComplement(signed, u, m);
    }
    assert EncodeFixed(signed, w, i) == ToLE(u, n);
    ToLEFromLE(window);
  }

  /** Prefix decode of a fixed-width integer at pos: reads exactly ByteCount(w)
      bytes, or fails with EndOfInput when fewer remain. */
  function DecodeFixed(signed: bool, w: Width, bs: seq<byte>, pos: nat): (r: Result<(int, nat)>)
    requires pos <= |bs|
    ensures r.Ok? <==> pos + ByteCount(w) <= |bs|
    ensures r.Err? ==> r.error == EndOfInput
    ensures r.Ok? ==> InRange(signed, w, r.value.0) && r.value.1 == pos + ByteCount(w)
    ensures r.Ok? ==> EncodeFixed(signed, w, r.value.0) == bs[pos..r.value.1]
  {
    var n := ByteCount(w);
    if pos + n > |bs| then Err(EndOfInput)
    else Ok((FromWindow(signed, w, bs[pos..pos + n]), pos + n))
  }

  /** Two in-range integers with the same encoding are the same integer. */
  lemma FixedInjective(signed: bool, w: Width, a: int, b: int)
    requires InRange(signed, w, a) && InRange(signed, w, b)
    requires EncodeFixed(signed, w, a) == EncodeFixed(signed, w, b)
    ensures a == b
  {
    var m := Modulus(w);
    ModulusPow(w);
    assert (if a < 0 then a + m else a) == (if b < 0 then b + m else b);
  }

  /** Decoding the bytes of an encoded integer gives the integer back and
      consumes exactly its width. */
  lemma FixedRoundTrip(signed: bool, w: Width, i: int, bs: seq<byte>, pos: nat)
    requires InRange(signed, w, i)
    requires At(bs, pos, EncodeFixed(signed, w, i))
    ensures DecodeFixed(signed, w, bs, pos) == Ok((i, pos + ByteCount(w)))
  {
    var r := DecodeFixed(signed, w, bs, pos);
    FixedInjective(signed, w, r.value.0, i);
  }

  /** Encoding of a boolean: one byte, 1 for true and 0 for false. */
  function EncodeBool(b: bool): (r: seq<byte>)
    ensures |r| == 1 && (r[0] == 1 <==> b) && (r[0] == 0 <==> !b)
  {
    if b then [1] else [0]
  }

  /** Strict decode of a boolean: only 0x00 and 0x01 are accepted. */
  function DecodeBool(bs: seq<byte>, pos: nat): (r: Result<(bool, nat)>)
    requires pos <= |bs|
    ensures pos == |bs| <==> r == Err(EndOfInput)
    ensures r.Ok? <==> pos < |bs| && bs[pos] in {0, 1}
    ensures r.Ok? ==> r.value.1 == pos + 1 && EncodeBool(r.value.0) == [bs[pos]]
    ensures r.Err? && pos < |bs| ==> r.error == InvalidBool
  {
    if pos == |bs| then Err(EndOfInput)
    else if bs[pos] == 0 then Ok((false, pos + 1))
    else if bs[pos] == 1 then Ok((true, pos + 1))
    else Err(InvalidBool)
  }

  /** Decoding an encoded boolean gives it back. */
  lemma BoolRoundTrip(b: bool, bs: seq<byte>, pos: nat)
    requires At(bs, pos, EncodeBool(b))
    ensures DecodeBool(bs, pos) == Ok((b, pos + 1))
  {
    assert bs[pos] == bs[pos..pos + 1][0];
  }
}
