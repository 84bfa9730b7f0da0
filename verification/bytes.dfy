/** Bytes and little-endian integer packing.

    Every SCALE integer, fixed-width or compact, is ultimately written as
    its little-endian bytes. This module defines the byte type, powers of
    256, the little-endian conversions in both directions and the minimal
    byte count of a natural number, with the facts the codecs rely on. */
module Bytes {

  /** An octet, as the Rust `u8` the codec writes. */
  type byte = b: int | 0 <= b < 256

  /** 256^n: the number of distinct values n bytes can hold. */
  function Pow256(n: nat): (p: nat)
    ensures p >= 1
  {
    if n == 0 then 1 else 256 * Pow256(n - 1)
  }

  /** Powers of 256 multiply by adding exponents. */
  lemma {:induction false} Pow256Add(a: nat, b: nat)
    ensures Pow256(a + b) == Pow256(a) * Pow256(b)
    decreases a
  {
    if a > 0 {
      Pow256Add(a - 1, b);
    }
  }

  /** The unsigned value of a little-endian byte string (least significant byte first). */
  function FromLE(s: seq<byte>): nat
  {
    if s == [] then 0 else s[0] + 256 * FromLE(s[1..])
  }

  /** An s-byte string holds a value below 256^|s|. */
  lemma {:induction false} FromLEBound(s: seq<byte>)
    ensures FromLE(s) < Pow256(|s|)
  {
    if s != [] {
      FromLEBound(s[1..]);
      var rest := FromLE(s[1..]);
      assert 256 * (rest + 1) <= 256 * Pow256(|s| - 1);
    }
  }

  /** The w little-endian bytes of v, as Rust's `to_le_bytes` for a w-byte integer. */
  function ToLE(v: nat, w: nat): (r: seq<byte>)
    requires v < Pow256(w)
    ensures |r| == w
    ensures FromLE(r) == v
  {
    if w == 0 then []
    else
      assert v / 256 < Pow256(w - 1) by { DivBound(v, Pow256(w - 1)); }
      var r := [v % 256] + ToLE(v / 256, w - 1);
      assert r[1..] == ToLE(v / 256, w - 1);
      r
  }

  lemma DivBound(v: nat, p: nat)
    requires v < 256 * p
    ensures v / 256 < p
  {
  }

  /** The unsigned value of a big-endian byte string (most significant byte
      first), read as Horner's rule does: each further byte shifts the value
      read so far up by one byte. */
  function FromBE(s: seq<byte>): nat
  {
    if s == [] then 0 else 256 * FromBE(s[..|s| - 1]) + s[|s| - 1]
  }

  /** The bytes of s in reverse order. */
  function Reverse(s: seq<byte>): (r: seq<byte>)
    ensures |r| == |s|
    ensures forall i :: 0 <= i < |s| ==> r[i] == s[|s| - 1 - i]
  {
    if s == [] then [] else Reverse(s[1..]) + [s[0]]
  }

  /** Reversing a little-endian string gives the big-endian string of the same value. */
  lemma {:induction false} ReverseValue(s: seq<byte>)
    ensures FromBE(Reverse(s)) == FromLE(s)
  {
    if s != [] {
      var r := Reverse(s);
      assert r[..|r| - 1] == Reverse(s[1..]);
      ReverseValue(s[1..]);
    }
  }

  /** The w big-endian bytes of v, as Rust's `to_be_bytes`: w bytes whose
      big-endian value is v, the little-endian bytes in reverse order. */
  function ToBE(v: nat, w: nat): (r: seq<byte>)
    requires v < Pow256(w)
    ensures |r| == w
    ensures FromBE(r) == v
    ensures forall i :: 0 <= i < w ==> r[i] == ToLE(v, w)[w - 1 - i]
  {
    ReverseValue(ToLE(v, w));
    Reverse(ToLE(v, w))
  }

  /** Little-endian decoding is a left inverse of encoding at the string's own width:
      every byte string is the little-endian form of its value. */
  lemma {:induction false} ToLEFromLE(s: seq<byte>)
    ensures FromLE(s) < Pow256(|s|) && ToLE(FromLE(s), |s|) == s
  {
    FromLEBound(s);
    if s != [] {
      ToLEFromLE(s[1..]);
      var v := FromLE(s);
      assert v % 256 == s[0];
      assert v / 256 == FromLE(s[1..]);
    }
  }

  /** Two byte strings of equal length with equal values are equal. */
  lemma FromLEInjective(a: seq<byte>, b: seq<byte>)
    requires |a| == |b| && FromLE(a) == FromLE(b)
    ensures a == b
  {
    ToLEFromLE(a);
    ToLEFromLE(b);
  }

  /** The number of bytes needed to hold v: the least n >= 1 with v < 256^n. */
  function MinBytes(v: nat): (n: nat)
    ensures 1 <= n
  {
    if v < 256 then 1 else 1 + MinBytes(v / 256)
  }

  /** v fits MinBytes(v) bytes and, unless it is a single byte, not one fewer. */
  lemma {:induction false} MinBytesBounds(v: nat)
    ensures v < Pow256(MinBytes(v))
    ensures MinBytes(v) == 1 || Pow256(MinBytes(v) - 1) <= v
  {
    if v >= 256 {
      MinBytesBounds(v / 256);
    }
  }

  /** Powers of 256 grow with the exponent. */
  lemma {:induction false} Pow256Monotone(a: nat, b: nat)
    requires a <= b
    ensures Pow256(a) <= Pow256(b)
    decreases b
  {
    if a < b {
      Pow256Monotone(a, b - 1);
    }
  }

  /** MinBytes is the least width that holds v: v fits n bytes exactly when MinBytes(v) <= n. */
  lemma MinBytesLeast(v: nat, n: nat)
    requires n >= 1
    ensures v < Pow256(n) <==> MinBytes(v) <= n
  {
    var m := MinBytes(v);
    MinBytesBounds(v);
    if m > n {
      Pow256Monotone(n, m - 1);
    }
    if m <= n {
      Pow256Monotone(m, n);
    }
  }

  /** A window of bs starting at pos holds exactly e. */
  predicate At(bs: seq<byte>, pos: nat, e: seq<byte>) {
    pos + |e| <= |bs| && bs[pos..pos + |e|] == e
  }

  /** A concatenation sits at pos exactly when its halves sit side by side. */
  lemma AtConcat(bs: seq<byte>, pos: nat, a: seq<byte>, b: seq<byte>)
    ensures At(bs, pos, a + b) <==> At(bs, pos, a) && At(bs, pos + |a|, b)
  {
    if At(bs, pos, a) && At(bs, pos + |a|, b) {
      assert bs[pos..pos + |a + b|] == bs[pos..pos + |a|] + bs[pos + |a|..pos + |a| + |b|];
    }
    if At(bs, pos, a + b) {
      assert bs[pos..pos + |a|] == bs[pos..pos + |a + b|][..|a|];
      assert bs[pos + |a|..pos + |a| + |b|] == bs[pos..pos + |a + b|][|a|..];
    }
  }

  /** Adjacent windows join: the bytes from pos to next are the bytes from
      pos to mid followed by those from mid to next. */
  lemma SliceJoin(bs: seq<byte>, pos: nat, mid: nat, next: nat)
    requires pos <= mid <= next <= |bs|
    ensures bs[pos..next] == bs[pos..mid] + bs[mid..next]
  {
  }
}
