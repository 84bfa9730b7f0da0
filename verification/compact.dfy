/** SCALE compact integers.

    A compact integer uses the two low bits of its first byte as a mode tag
    and picks the shortest mode that holds the value:
      0b00  value < 2^6:          one byte, value << 2
      0b01  value < 2^14:         two little-endian bytes of (value << 2) | 1
      0b10  value < 2^30:         four little-endian bytes of (value << 2) | 2
      0b11  value >= 2^30:        a byte ((k - 4) << 2) | 3, then the k
                                  little-endian bytes of the value, where k
                                  (4..67) is the least byte count that holds it.
    Decoding is strict: it accepts only the shortest-mode encoding, so every
    accepted byte string is the encoding of the value it yields. */
module Compact {
  import opened Bytes
  import opened Results

  /** Upper bounds (exclusive) of the single-, two- and four-byte modes. */
  const SingleByteLimit: nat := 0x40
  const TwoByteLimit: nat := 0x4000
  const FourByteLimit: nat := 0x4000_0000

  /** The most payload bytes the big-integer mode's 6-bit count can announce. */
  const MaxBigBytes: nat := 67

  /** n can be written as a compact integer at all. */
  predicate Encodable(n: nat) {
    MinBytes(n) <= MaxBigBytes
  }

  /** Every value that fits k <= 67 bytes is encodable; in particular every
      value of a Rust integer type up to 128 bits. */
  lemma EncodableBelow(n: nat, k: nat)
    requires 1 <= k <= MaxBigBytes && n < Pow256(k)
    ensures Encodable(n)
  {
    MinBytesLeast(n, k);
  }

  /** The compact encoding of n in its shortest mode. */
  function EncodeCompact(n: nat): (r: seq<byte>)
    requires Encodable(n)
    ensures n < SingleByteLimit <==> |r| == 1
    ensures SingleByteLimit <= n < TwoByteLimit <==> |r| == 2
    ensures TwoByteLimit <= n < FourByteLimit <==> |r| == 4
    ensures FourByteLimit <= n <==> |r| >= 5
    ensures |r| == 1 ==> r[0] % 4 == 0
    ensures |r| == 2 ==> r[0] % 4 == 1
    ensures |r| == 4 ==> r[0] % 4 == 2
    ensures |r| >= 5 ==> r[0] % 4 == 3
    ensures |r| <= 4 ==> FromLE(r) / 4 == n
    ensures |r| >= 5 ==> r[0] / 4 + 4 == |r| - 1 == MinBytes(n) && FromLE(r[1..]) == n
  {
    if n < SingleByteLimit then [n * 4]
    else if n < TwoByteLimit then FixedMode(n, 1, 2)
    else if n < FourByteLimit then FixedMode(n, 2, 4)
    else BigMode(n)
  }

  /** The two- and four-byte modes: the len little-endian bytes of n shifted
      left by two, with the mode tag in the low bits. */
  function FixedMode(n: nat, tag: nat, len: nat): (r: seq<byte>)
    requires (tag == 1 && len == 2 && n < TwoByteLimit) || (tag == 2 && len == 4 && n < FourByteLimit)
    ensures |r| == len && r[0] % 4 == tag && FromLE(r) / 4 == n
  {
    var v := n * 4 + tag;
    assert v < Pow256(len) by { PowFacts(); }
    var r := ToLE(v, len);
    assert r[0] == v % 256;
    TagByte(n, tag);
    assert v / 4 == n;
    r
  }

  lemma PowFacts()
    ensures Pow256(2) == 0x1_0000 && Pow256(4) == 0x1_0000_0000
  {
    assert Pow256(2) == 0x1_0000;
  }

  /** The tag of a fixed mode survives in the low two bits of the first byte. */
  lemma TagByte(n: nat, tag: nat)
    requires tag < 4
    ensures (n * 4 + tag) % 256 % 4 == tag
  {
    assert n * 4 + tag == tag + 4 * (n % 64) + 256 * (n / 64);
  }

  /** The big-integer mode: a count byte announcing MinBytes(n) - 4 with tag
      0b11, then the MinBytes(n) little-endian bytes of n. */
  function BigMode(n: nat): (r: seq<byte>)
    requires FourByteLimit <= n && Encodable(n)
    ensures |r| >= 5 && r[0] % 4 == 3
    ensures r[0] / 4 + 4 == |r| - 1 == MinBytes(n) && FromLE(r[1..]) == n
  {
    var k := MinBytes(n);
    assert k >= 4 by { MinBytesLeast(n, 3); }
    MinBytesBounds(n);
    var r := [(k - 4) * 4 + 3] + ToLE(n, k);
    assert r[1..] == ToLE(n, k);
    r
  }

  /** Prefix decode of a compact integer at pos. Fails with EndOfInput when
      the mode needs more bytes than remain, and with NonCanonical when the
      value is not written in its shortest mode. */
  function DecodeCompact(bs: seq<byte>, pos: nat): (r: Result<(nat, nat)>)
    requires pos <= |bs|
    ensures r.Ok? ==> pos < r.value.1 <= |bs|
    ensures r.Err? ==> r.error in {EndOfInput, NonCanonical}
  {
    if pos == |bs| then Err(EndOfInput)
    else
      var tag := bs[pos] % 4;
      if tag == 0 then Ok((bs[pos] / 4, pos + 1))
      else if tag == 1 then
        if pos + 2 > |bs| then Err(EndOfInput)
        else
          var n := FromLE(bs[pos..pos + 2]) / 4;
          if n < SingleByteLimit then Err(NonCanonical) else Ok((n, pos + 2))
      else if tag == 2 then
        if pos + 4 > |bs| then Err(EndOfInput)
        else
          var n := FromLE(bs[pos..pos + 4]) / 4;
          if n < TwoByteLimit then Err(NonCanonical) else Ok((n, pos + 4))
      else
        var k := bs[pos] / 4 + 4;
        if pos + 1 + k > |bs| then Err(EndOfInput)
        else
          var n := FromLE(bs[pos + 1..pos + 1 + k]);
          if n < FourByteLimit || MinBytes(n) != k then Err(NonCanonical)
          else Ok((n, pos + 1 + k))
  }

  /** Every compact integer the decoder accepts is written exactly as the
      encoder writes it: decoding yields an encodable value and consumes
      precisely its canonical encoding. */
  lemma CompactDecodeExact(bs: seq<byte>, pos: nat)
    requires pos <= |bs|
    requires DecodeCompact(bs, pos).Ok?
    ensures Encodable(DecodeCompact(bs, pos).value.0)
    ensures bs[pos..DecodeCompact(bs, pos).value.1] == EncodeCompact(DecodeCompact(bs, pos).value.0)
  {
    var (n, next) := DecodeCompact(bs, pos).value;
    var tag := bs[pos] % 4;
    if tag == 0 {
      assert bs[pos..next] == [bs[pos]];
    } else if tag == 3 {
      BigModeExact(bs[pos..next], n);
    } else {
      FixedDecodeExact(bs, pos, n, next);
    }
  }

  /** The two- and four-byte cases of CompactDecodeExact. */
  lemma FixedDecodeExact(bs: seq<byte>, pos: nat, n: nat, next: nat)
    requires pos < |bs| && (bs[pos] % 4 == 1 || bs[pos] % 4 == 2)
    requires DecodeCompact(bs, pos) == Ok((n, next))
    ensures Encodable(n) && bs[pos..next] == EncodeCompact(n)
  {
    var window := bs[pos..next];
    FromLEBound(window);
    EncodableBelow(n, 4);
    FixedModeExact(window, bs[pos] % 4, n);
  }

  /** A two- or four-byte window whose tag matches its length and whose
      value is above the next smaller mode is the encoding of its payload. */
  lemma FixedModeExact(window: seq<byte>, tag: nat, n: nat)
    requires (tag == 1 && |window| == 2) || (tag == 2 && |window| == 4)
    requires window[0] % 4 == tag && n == FromLE(window) / 4
    requires if tag == 1 then SingleByteLimit <= n else TwoByteLimit <= n
    requires Encodable(n)
    ensures window == EncodeCompact(n)
  {
    var v := FromLE(window);
    FromLEBound(window);
    assert v % 4 == tag by {
      LowBits(window[0], FromLE(window[1..]));
    }
    assert v == n * 4 + tag;
    if tag == 1 {
      assert v < 0x1_0000;
      assert EncodeCompact(n) == ToLE(v, 2);
    } else {
      assert v < 0x1_0000_0000;
      assert EncodeCompact(n) == ToLE(v, 4);
    }
    ToLEFromLE(window);
  }

  /** The low two bits of a little-endian value are those of its first byte. */
  lemma LowBits(b: nat, x: nat)
    ensures (b + 256 * x) % 4 == b % 4
  {
    assert b + 256 * x == b + 4 * (64 * x);
  }

  /** A big-integer window whose count byte announces the minimal byte count
      of a value of at least 2^30 is the encoding of that value. */
  lemma BigModeExact(window: seq<byte>, n: nat)
    requires |window| >= 1 && window[0] % 4 == 3
    requires |window| == window[0] / 4 + 5
    requires n == FromLE(window[1..]) && FourByteLimit <= n && MinBytes(n) == |window| - 1
    ensures Encodable(n)
    ensures window == EncodeCompact(n)
  {
    ToLEFromLE(window[1..]);
    var e := EncodeCompact(n);
    assert e[0] == window[0];
    assert e[1..] == ToLE(n, MinBytes(n));
    assert window == [window[0]] + window[1..];
  }

  /** Decoding the canonical encoding of n gives n back and consumes the
      whole encoding, whatever follows it. */
  lemma CompactRoundTrip(n: nat, bs: seq<byte>, pos: nat)
    requires Encodable(n)
    requires At(bs, pos, EncodeCompact(n))
    ensures DecodeCompact(bs, pos) == Ok((n, pos + |EncodeCompact(n)|))
  {
    if n < SingleByteLimit {
      assert bs[pos] == EncodeCompact(n)[0];
    } else if n < TwoByteLimit {
      FixedModeRoundTrip(n, bs, pos, 2);
    } else if n < FourByteLimit {
      FixedModeRoundTrip(n, bs, pos, 4);
    } else {
      BigModeRoundTrip(n, bs, pos);
    }
  }

  /** The two- and four-byte modes decode back to their payload. */
  lemma FixedModeRoundTrip(n: nat, bs: seq<byte>, pos: nat, len: nat)
    requires Encodable(n) && At(bs, pos, EncodeCompact(n))
    requires len == |EncodeCompact(n)| && (len == 2 || len == 4)
    ensures DecodeCompact(bs, pos) == Ok((n, pos + len))
  {
    var e := EncodeCompact(n);
    assert bs[pos] == e[0];
    assert bs[pos..pos + len] == e;
  }

  /** The big-integer mode decodes back to its payload: the count byte
      announces MinBytes(n), which the decoder accepts. */
  lemma BigModeRoundTrip(n: nat, bs: seq<byte>, pos: nat)
    requires Encodable(n) && At(bs, pos, EncodeCompact(n))
    requires FourByteLimit <= n
    ensures DecodeCompact(bs, pos) == Ok((n, pos + |EncodeCompact(n)|))
  {
    var e := EncodeCompact(n);
    assert bs[pos] == e[0];
    assert bs[pos + 1..pos + |e|] == e[1..];
  }

  /** Acceptance by the decoder and canonical encoding coincide: the decoder
      yields (n, next) exactly when the bytes from pos to next are the
      encoding of n. */
  lemma CompactCanonical(n: nat, bs: seq<byte>, pos: nat, next: nat)
    requires pos <= next <= |bs|
    ensures DecodeCompact(bs, pos) == Ok((n, next))
        <==> Encodable(n) && bs[pos..next] == EncodeCompact(n)
  {
    if DecodeCompact(bs, pos) == Ok((n, next)) {
      AcceptedIsCanonical(n, bs, pos, next);
    }
    if Encodable(n) && bs[pos..next] == EncodeCompact(n) {
      CanonicalIsAccepted(n, bs, pos, next);
    }
  }

  lemma AcceptedIsCanonical(n: nat, bs: seq<byte>, pos: nat, next: nat)
    requires pos <= |bs| && DecodeCompact(bs, pos) == Ok((n, next))
    ensures Encodable(n) && bs[pos..next] == EncodeCompact(n)
  {
    CompactDecodeExact(bs, pos);
  }

  lemma CanonicalIsAccepted(n: nat, bs: seq<byte>, pos: nat, next: nat)
    requires pos <= next <= |bs| && Encodable(n) && bs[pos..next] == EncodeCompact(n)
    ensures DecodeCompact(bs, pos) == Ok((n, next))
  {
    assert At(bs, pos, EncodeCompact(n));
    CompactRoundTrip(n, bs, pos);
  }

  /** Distinct values never share a compact encoding. */
  lemma CompactInjective(a: nat, b: nat)
    requires Encodable(a) && Encodable(b)
    requires EncodeCompact(a) == EncodeCompact(b)
    ensures a == b
  {
    var e := EncodeCompact(a);
    CompactRoundTrip(a, e, 0);
    CompactRoundTrip(b, e, 0);
  }

  /** The payload capacity of the fixed modes: a len-byte mode (1, 2 or 4
      bytes) holds the values below 2^(8 * len - 2). */
  function ModeCapacity(len: nat): nat
    requires len in {1, 2, 4}
  {
    if len == 1 then SingleByteLimit
    else if len == 2 then TwoByteLimit
    else FourByteLimit
  }

  /** Shortest-mode selection below 2^30: whenever a fixed mode of len bytes
      could hold n, the encoder uses at most len bytes. */
  lemma CompactShortest(n: nat, len: nat)
    requires len in {1, 2, 4}
    requires n < ModeCapacity(len)
    ensures Encodable(n) && |EncodeCompact(n)| <= len
  {
    EncodableBelow(n, 4);
  }
}
