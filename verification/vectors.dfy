/** The byte vectors the repository's unit tests assert, one lemma per test.

    Each test lemma states the bytes the test expects (and, where the test
    also renders them with the `output` helper, the rendered string) for the
    model's encoder and decoder. The small lemmas before each test lemma
    unfold one value at a time. */
module Vectors {
  import opened Bytes
  import opened Results
  import opened Primitive
  import opened Compact
  import opened Codec
  import opened Hex

  const U8: Type := TInt(false, W8)
  const U16: Type := TInt(false, W16)
  const U32: Type := TInt(false, W32)
  const U64: Type := TInt(false, W64)
  const I8: Type := TInt(true, W8)

  /** A fixed-width integer value unfolds to its fixed-width bytes. */
  lemma FixedValue(signed: bool, w: Width, i: int)
    requires InRange(signed, w, i)
    ensures HasType(VInt(i), TInt(signed, w))
    ensures Encode(TInt(signed, w), VInt(i)) == EncodeFixed(signed, w, i)
  {
  }

  /** A compact value unfolds to its compact bytes. */
  lemma CompactValue(w: Width, n: nat)
    requires n < Modulus(w) && Encodable(n)
    ensures HasType(VInt(n), TCompact(w))
    ensures Encode(TCompact(w), VInt(n)) == EncodeCompact(n)
  {
  }

  /** Test `little_vs_big_endian`: `to_le_bytes` puts the least significant byte first. */
  lemma LittleVsBigEndian()
    ensures EncodeFixed(true, W8, 69) == [0x45]
    ensures ToLE(42, 2) == [0x2a, 0x00] && ToBE(42, 2) == [0x00, 0x2a]
    ensures ToLE(16777215, 4) == [0xff, 0xff, 0xff, 0x00]
    ensures ToBE(16777215, 4) == [0x00, 0xff, 0xff, 0xff]
  {
  }

  /** Test `fixed_width_integers`. */
  lemma FixedWidthIntegers()
    ensures Encode(I8, VInt(69)) == [0x45]
    ensures Encode(U16, VInt(42)) == [0x2a, 0x00]
    ensures Encode(U32, VInt(16777215)) == [0xff, 0xff, 0xff, 0x00]
  {
    FixedValue(true, W8, 69);
    FixedValue(false, W16, 42);
    FixedValue(false, W32, 16777215);
  }

  lemma CompactZero()
    ensures Encode(U8, VInt(0)) == [0x00]
    ensures Encode(U32, VInt(0)) == [0x00, 0x00, 0x00, 0x00]
    ensures Encode(TCompact(W8), VInt(0)) == [0x00]
    ensures Encode(TCompact(W32), VInt(0)) == [0x00]
  {
    FixedValue(false, W8, 0);
    FixedValue(false, W32, 0);
    CompactValue(W8, 0);
    CompactValue(W32, 0);
  }

  lemma Compact42()
    ensures Encode(U8, VInt(42)) == [0x2a]
    ensures Encode(U32, VInt(42)) == [0x2a, 0x00, 0x00, 0x00]
    ensures Encode(TCompact(W8), VInt(42)) == [0xa8]
    ensures Encode(TCompact(W32), VInt(42)) == [0xa8]
  {
    FixedValue(false, W8, 42);
    FixedValue(false, W32, 42);
    CompactValue(W8, 42);
    CompactValue(W32, 42);
  }

  lemma Compact69()
    ensures Encode(U8, VInt(69)) == [0x45]
    ensures Encode(U32, VInt(69)) == [0x45, 0x00, 0x00, 0x00]
    ensures Encode(TCompact(W8), VInt(69)) == [0x15, 0x01]
    ensures Encode(TCompact(W32), VInt(69)) == [0x15, 0x01]
  {
    FixedValue(false, W8, 69);
    FixedValue(false, W32, 69);
    CompactValue(W8, 69);
    CompactValue(W32, 69);
  }

  lemma Compact65535()
    ensures Encode(U16, VInt(65535)) == [0xff, 0xff]
    ensures Encode(U32, VInt(65535)) == [0xff, 0xff, 0x00, 0x00]
    ensures Encode(TCompact(W16), VInt(65535)) == [0xfe, 0xff, 0x03, 0x00]
    ensures Encode(TCompact(W32), VInt(65535)) == [0xfe, 0xff, 0x03, 0x00]
  {
    FixedValue(false, W16, 65535);
    FixedValue(false, W32, 65535);
    CompactValue(W16, 65535);
    CompactValue(W32, 65535);
  }

  /** Test `compact`: fixed-width encodings against compact ones; the compact
      bytes do not depend on the storage width. */
  lemma CompactVectors()
    ensures Encode(TCompact(W8), VInt(0)) == Encode(TCompact(W32), VInt(0)) == [0x00]
    ensures Encode(TCompact(W8), VInt(42)) == Encode(TCompact(W32), VInt(42)) == [0xa8]
    ensures Encode(TCompact(W8), VInt(69)) == Encode(TCompact(W32), VInt(69)) == [0x15, 0x01]
    ensures Encode(TCompact(W16), VInt(65535)) == Encode(TCompact(W32), VInt(65535)) == [0xfe, 0xff, 0x03, 0x00]
    ensures Encode(U32, VInt(0)) == [0x00, 0x00, 0x00, 0x00]
    ensures Encode(U32, VInt(42)) == [0x2a, 0x00, 0x00, 0x00]
    ensures Encode(U32, VInt(69)) == [0x45, 0x00, 0x00, 0x00]
    ensures Encode(U32, VInt(65535)) == [0xff, 0xff, 0x00, 0x00]
  {
    CompactZero();
    Compact42();
    Compact69();
    Compact65535();
  }

  /** Test `encode_unit`. */
  lemma EncodeUnit()
    ensures Encode(TUnit, VUnit) == []
    ensures Output([]) == "0x"
  {
  }

  /** Test `encode_boolean`. */
  lemma EncodeBoolean()
    ensures Encode(TBool, VBool(true)) == [0x01] && Output([0x01]) == "0x01"
    ensures Encode(TBool, VBool(false)) == [0x00] && Output([0x00]) == "0x00"
  {
  }

  /** Test `encode_ok_err`, for `Result<u32, ()>`. */
  lemma EncodeOkErr()
    ensures Encode(TResult(U32, TUnit), VOk(VInt(42))) == [0x00, 0x2a, 0x00, 0x00, 0x00]
    ensures Output([0x00, 0x2a, 0x00, 0x00, 0x00]) == "0x002a000000"
    ensures Encode(TResult(U32, TUnit), VErr(VUnit)) == [0x01]
    ensures Output([0x01]) == "0x01"
  {
    OkBytes();
    OkOutput();
  }

  lemma OkBytes()
    ensures HasType(VOk(VInt(42)), TResult(U32, TUnit))
    ensures Encode(TResult(U32, TUnit), VOk(VInt(42))) == [0x00, 0x2a, 0x00, 0x00, 0x00]
  {
    FixedValue(false, W32, 42);
    assert Encode(TResult(U32, TUnit), VOk(VInt(42))) == [0] + Encode(U32, VInt(42));
  }

  lemma OkOutput()
    ensures Output([0x00, 0x2a, 0x00, 0x00, 0x00]) == "0x002a000000"
  {
  }

  /** Test `some_none`, for `Option<u32>`. */
  lemma SomeNone()
    ensures Encode(TOption(U32), VSome(VInt(42))) == [0x01, 0x2a, 0x00, 0x00, 0x00]
    ensures Output([0x01, 0x2a, 0x00, 0x00, 0x00]) == "0x012a000000"
    ensures Encode(TOption(U32), VNone) == [0x00]
    ensures Output([0x00]) == "0x00"
  {
    SomeBytes();
    SomeOutput();
  }

  lemma SomeBytes()
    ensures HasType(VSome(VInt(42)), TOption(U32))
    ensures Encode(TOption(U32), VSome(VInt(42))) == [0x01, 0x2a, 0x00, 0x00, 0x00]
  {
    FixedValue(false, W32, 42);
    assert Encode(TOption(U32), VSome(VInt(42))) == [1] + Encode(U32, VInt(42));
  }

  lemma SomeOutput()
    ensures Output([0x01, 0x2a, 0x00, 0x00, 0x00]) == "0x012a000000"
  {
  }

  /** A Vec is written as its compact length, then its elements. */
  lemma VecOf(e: Type, items: seq<Value>)
    requires AllHaveType(items, e) && |items| < MaxLength
    ensures HasType(VSeq(items), TVec(e))
    ensures Encode(TVec(e), VSeq(items)) == EncodeLength(|items|) + EncodeItems(items, e)
  {
  }

  /** A single field is written as itself. */
  lemma OneField(v: Value, t: Type)
    requires HasType(v, t)
    ensures FieldsHaveTypes([v], [t]) && EncodeFields([v], [t]) == Encode(t, v)
  {
    assert [v][1..] == [] && [t][1..] == [];
  }

  /** An enum value is written as its index byte, then its fields. */
  lemma VariantOf(vs: seq<Variant>, k: nat, fs: seq<Value>)
    requires k < |vs| && k < 256 && FieldsHaveTypes(fs, vs[k].fields)
    ensures HasType(VVariant(k, fs), TEnum(vs))
    ensures Encode(TEnum(vs), VVariant(k, fs)) == [k] + EncodeFields(fs, vs[k].fields)
  {
  }

  /** Bytes 0 to 4 as u8 values. */
  const ZeroToFour: seq<Value> := [VInt(0), VInt(1), VInt(2), VInt(3), VInt(4)]

  /** A list of small values, each written as its single u8 byte. */
  lemma {:induction false} U8Items(items: seq<Value>, bytes: seq<byte>)
    requires |items| == |bytes|
    requires forall i :: 0 <= i < |items| ==> items[i] == VInt(bytes[i])
    ensures AllHaveType(items, U8) && EncodeItems(items, U8) == bytes
    decreases |items|
  {
    if items != [] {
      FixedValue(false, W8, bytes[0]);
      U8Items(items[1..], bytes[1..]);
    }
  }

  /** Test `encode_array`, for `[u8; 3]`. */
  lemma EncodeArray()
    ensures Encode(TArray(U8, 3), VSeq([VInt(1), VInt(2), VInt(3)])) == [0x01, 0x02, 0x03]
    ensures Output([0x01, 0x02, 0x03]) == "0x010203"
  {
    U8Items([VInt(1), VInt(2), VInt(3)], [1, 2, 3]);
  }

  /** Test `encode_vector`, for `Vec<u8>`. */
  lemma EncodeVector()
    ensures HasType(VSeq(ZeroToFour), TVec(U8))
    ensures Encode(TVec(U8), VSeq(ZeroToFour)) == [0x14, 0x00, 0x01, 0x02, 0x03, 0x04]
    ensures Output([0x14, 0x00, 0x01, 0x02, 0x03, 0x04]) == "0x140001020304"
  {
    VectorBytes();
    VectorOutput();
  }

  lemma VectorOutput()
    ensures Output([0x14, 0x00, 0x01, 0x02, 0x03, 0x04]) == "0x140001020304"
  {
  }

  lemma VectorBytes()
    ensures HasType(VSeq(ZeroToFour), TVec(U8))
    ensures Encode(TVec(U8), VSeq(ZeroToFour)) == [0x14, 0x00, 0x01, 0x02, 0x03, 0x04]
  {
    U8Items(ZeroToFour, [0, 1, 2, 3, 4]);
    VecOf(U8, ZeroToFour);
    assert EncodeLength(5) == [0x14];
  }

  /** Test `encode_string`. */
  lemma EncodeString()
    ensures HasType(VText("hello"), TString)
    ensures Encode(TString, VText("hello")) == [0x14, 0x68, 0x65, 0x6c, 0x6c, 0x6f]
    ensures Output([0x14, 0x68, 0x65, 0x6c, 0x6c, 0x6f]) == "0x1468656c6c6f"
  {
    StringBytes();
    StringOutput();
  }

  lemma StringOutput()
    ensures Output([0x14, 0x68, 0x65, 0x6c, 0x6c, 0x6f]) == "0x1468656c6c6f"
  {
  }

  lemma StringBytes()
    ensures HasType(VText("hello"), TString)
    ensures Encode(TString, VText("hello")) == [0x14, 0x68, 0x65, 0x6c, 0x6c, 0x6f]
  {
    var utf8 := Utf8.EncodeUtf8("hello");
    assert utf8 == [0x68, 0x65, 0x6c, 0x6c, 0x6f];
    assert HasType(VText("hello"), TString);
    assert EncodeLength(5) == [0x14];
    assert Encode(TString, VText("hello")) == EncodeLength(5) + utf8;
  }

  /** The fields of `(0u8, true, Some(69u32))`. */
  const ExampleFields: seq<Value> := [VInt(0), VBool(true), VSome(VInt(69))]
  const ExampleFieldTypes: seq<Type> := [U8, TBool, TOption(U32)]

  /** The struct `Example { number: u8, is_cool: bool, optional: Option<u32> }`. */
  const ExampleStruct: Type := TStruct(["number", "is_cool", "optional"], ExampleFieldTypes)

  lemma ExampleFieldBytes()
    ensures FieldsHaveTypes(ExampleFields, ExampleFieldTypes)
    ensures EncodeFields(ExampleFields, ExampleFieldTypes) == [0x00, 0x01, 0x01, 0x45, 0x00, 0x00, 0x00]
  {
    FixedValue(false, W8, 0);
    FixedValue(false, W32, 69);
    assert HasType(VSome(VInt(69)), TOption(U32));
    assert Encode(TOption(U32), VSome(VInt(69))) == [1, 0x45, 0, 0, 0];
    var vs, ts := ExampleFields, ExampleFieldTypes;
    assert FieldsHaveTypes(vs[3..], ts[3..]) && EncodeFields(vs[3..], ts[3..]) == [];
    assert FieldsHaveTypes(vs[2..], ts[2..]);
    assert EncodeFields(vs[2..], ts[2..]) == Encode(ts[2], vs[2]) + EncodeFields(vs[3..], ts[3..]);
    assert FieldsHaveTypes(vs[1..], ts[1..]);
    assert EncodeFields(vs[1..], ts[1..]) == Encode(ts[1], vs[1]) + EncodeFields(vs[2..], ts[2..]);
    assert EncodeFields(vs, ts) == Encode(ts[0], vs[0]) + EncodeFields(vs[1..], ts[1..]);
  }

  /** Test `tuple_struct`: the tuple and the struct write the same bytes. */
  lemma TupleStruct()
    ensures HasType(VTuple(ExampleFields), TTuple(ExampleFieldTypes))
    ensures HasType(VTuple(ExampleFields), ExampleStruct)
    ensures Encode(TTuple(ExampleFieldTypes), VTuple(ExampleFields)) == [0x00, 0x01, 0x01, 0x45, 0x00, 0x00, 0x00]
    ensures Encode(ExampleStruct, VTuple(ExampleFields)) == [0x00, 0x01, 0x01, 0x45, 0x00, 0x00, 0x00]
    ensures Output([0x00, 0x01, 0x01, 0x45, 0x00, 0x00, 0x00]) == "0x00010145000000"
  {
    ExampleFieldBytes();
    TupleOutput();
    assert HasType(VTuple(ExampleFields), TTuple(ExampleFieldTypes));
    assert HasType(VTuple(ExampleFields), ExampleStruct);
    assert Encode(TTuple(ExampleFieldTypes), VTuple(ExampleFields)) == EncodeFields(ExampleFields, ExampleFieldTypes);
    assert Encode(ExampleStruct, VTuple(ExampleFields)) == EncodeFields(ExampleFields, ExampleFieldTypes);
  }

  lemma TupleOutput()
    ensures Output([0x00, 0x01, 0x01, 0x45, 0x00, 0x00, 0x00]) == "0x00010145000000"
  {
  }

  /** The enum `Example { First, Second(u8), Third(Vec<u8>), Fourth }`. */
  const ExampleEnum: Type := TEnum([
    Variant("First", []),
    Variant("Second", [U8]),
    Variant("Third", [TVec(U8)]),
    Variant("Fourth", [])
  ])

  lemma SecondBytes()
    ensures HasType(VVariant(1, [VInt(2)]), ExampleEnum)
    ensures Encode(ExampleEnum, VVariant(1, [VInt(2)])) == [0x01, 0x02]
  {
    FixedValue(false, W8, 2);
    OneField(VInt(2), U8);
    VariantOf(ExampleEnum.variants, 1, [VInt(2)]);
  }

  lemma ThirdBytes()
    ensures HasType(VVariant(2, [VSeq(ZeroToFour)]), ExampleEnum)
    ensures Encode(ExampleEnum, VVariant(2, [VSeq(ZeroToFour)])) == [0x02, 0x14, 0x00, 0x01, 0x02, 0x03, 0x04]
  {
    VectorBytes();
    OneField(VSeq(ZeroToFour), TVec(U8));
    VariantOf(ExampleEnum.variants, 2, [VSeq(ZeroToFour)]);
  }

  /** Test `enumueration`. */
  lemma Enumeration()
    ensures HasType(VVariant(0, []), ExampleEnum) && HasType(VVariant(3, []), ExampleEnum)
    ensures HasType(VVariant(1, [VInt(2)]), ExampleEnum)
    ensures HasType(VVariant(2, [VSeq(ZeroToFour)]), ExampleEnum)
    ensures Encode(ExampleEnum, VVariant(0, [])) == [0x00] && Output([0x00]) == "0x00"
    ensures Encode(ExampleEnum, VVariant(1, [VInt(2)])) == [0x01, 0x02] && Output([0x01, 0x02]) == "0x0102"
    ensures Encode(ExampleEnum, VVariant(2, [VSeq(ZeroToFour)])) == [0x02, 0x14, 0x00, 0x01, 0x02, 0x03, 0x04]
    ensures Output([0x02, 0x14, 0x00, 0x01, 0x02, 0x03, 0x04]) == "0x02140001020304"
    ensures Encode(ExampleEnum, VVariant(3, [])) == [0x03] && Output([0x03]) == "0x03"
  {
    SecondBytes();
    ThirdBytes();
    UnitVariantBytes();
    EnumOutput();
  }

  lemma EnumOutput()
    ensures Output([0x00]) == "0x00" && Output([0x01, 0x02]) == "0x0102"
    ensures Output([0x02, 0x14, 0x00, 0x01, 0x02, 0x03, 0x04]) == "0x02140001020304"
    ensures Output([0x03]) == "0x03"
  {
    UnitOutput();
    SecondOutput();
    ThirdOutput();
  }

  lemma UnitOutput()
    ensures Output([0x00]) == "0x00" && Output([0x03]) == "0x03"
  {
  }

  lemma SecondOutput()
    ensures Output([0x01, 0x02]) == "0x0102"
  {
  }

  lemma ThirdOutput()
    ensures Output([0x02, 0x14, 0x00, 0x01, 0x02, 0x03, 0x04]) == "0x02140001020304"
  {
  }

  lemma UnitVariantBytes()
    ensures HasType(VVariant(0, []), ExampleEnum) && HasType(VVariant(3, []), ExampleEnum)
    ensures Encode(ExampleEnum, VVariant(0, [])) == [0x00]
    ensures Encode(ExampleEnum, VVariant(3, [])) == [0x03]
  {
    assert HasType(VVariant(0, []), ExampleEnum);
    assert HasType(VVariant(3, []), ExampleEnum);
  }

  /** The bytes of `[0u8, 1, 2, 3]`. */
  const Sample: seq<byte> := [0x00, 0x01, 0x02, 0x03]

  /** Test `decode`, with the outcomes its recorded output shows: a u32 reads
      all four bytes; a u16 in prefix mode reads two and leaves two; a u16 in
      total mode fails on the leftover bytes; a u64 runs out of input. The
      u32 value 50462976 is written as the same four bytes. */
  lemma DecodeVectors()
    ensures Encode(TArray(U8, 4), VSeq([VInt(0), VInt(1), VInt(2), VInt(3)])) == Sample
    ensures Encode(U32, VInt(50462976)) == Sample
    ensures Output(Sample) == "0x00010203"
    ensures Decode(U32, Sample, 0) == Ok((VInt(50462976), 4))
    ensures Decode(U16, Sample, 0) == Ok((VInt(256), 2))
    ensures DecodeAll(U16, Sample) == Err(TrailingData)
    ensures Decode(U64, Sample, 0) == Err(EndOfInput)
  {
    SampleBytes();
    SampleValueBytes();
    SampleOutput();
    SampleDecodes();
  }

  /** The u32 50462976 (0x03020100) is written as the bytes of the array. */
  lemma SampleValueBytes()
    ensures Encode(U32, VInt(50462976)) == Sample
  {
    FixedValue(false, W32, 50462976);
  }

  lemma SampleBytes()
    ensures Encode(TArray(U8, 4), VSeq([VInt(0), VInt(1), VInt(2), VInt(3)])) == Sample
  {
    U8Items([VInt(0), VInt(1), VInt(2), VInt(3)], Sample);
  }

  lemma SampleOutput()
    ensures Output(Sample) == "0x00010203"
  {
  }

  lemma SampleDecodes()
    ensures Decode(U32, Sample, 0) == Ok((VInt(50462976), 4))
    ensures Decode(U16, Sample, 0) == Ok((VInt(256), 2))
    ensures DecodeAll(U16, Sample) == Err(TrailingData)
    ensures Decode(U64, Sample, 0) == Err(EndOfInput)
  {
    SampleAsU32();
    SampleAsU16();
    SampleTrailing();
    SampleTooShort();
  }

  lemma SampleAsU32()
    ensures Decode(U32, Sample, 0) == Ok((VInt(50462976), 4))
  {
    assert Sample[0..4] == Sample;
    assert FromLE(Sample) == 50462976;
    assert FromWindow(false, W32, Sample) == 50462976;
    assert DecodeFixed(false, W32, Sample, 0) == Ok((50462976, 4));
  }

  lemma SampleAsU16()
    ensures Decode(U16, Sample, 0) == Ok((VInt(256), 2))
  {
    assert Sample[..2] == [0, 1];
    assert FromLE([1]) == 1;
    assert FromLE(Sample[..2]) == 256;
    assert DecodeFixed(false, W16, Sample, 0) == Ok((256, 2));
  }

  lemma SampleTrailing()
    ensures DecodeAll(U16, Sample) == Err(TrailingData)
  {
    SampleAsU16();
  }

  lemma SampleTooShort()
    ensures Decode(U64, Sample, 0) == Err(EndOfInput)
  {
    assert DecodeFixed(false, W64, Sample, 0) == Err(EndOfInput);
  }

  /** The compact mode boundaries: the length changes at 2^6, 2^14 and 2^30. */
  lemma CompactBoundaries()
    ensures |EncodeCompact(63)| == 1 && |EncodeCompact(64)| == 2
    ensures |EncodeCompact(16383)| == 2 && |EncodeCompact(16384)| == 4
    ensures |EncodeCompact(1073741823)| == 4
    ensures EncodeCompact(1073741824) == [0x03, 0x00, 0x00, 0x00, 0x40]
  {
  }
}
