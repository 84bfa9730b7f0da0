/** The SCALE codec over a schema.

    SCALE is not self-describing: the decoder must already know the type
    it expects. A `Type` is that schema, a `Value` is an in-memory value,
    and `HasType` says which values a type admits. Encoding is a pure
    function of the type and a value; decoding reads a byte string from a
    cursor position and either yields a value with the position after it
    or fails with the first error met.

    Composite rules, on top of the primitive and compact codecs:
      Option     0x00 for None, 0x01 then the payload for Some
      Result     0x00 then the Ok payload, 0x01 then the Err payload
      array      the elements concatenated, no length
      Vec        the compact length, then the elements
      String     the compact length of its UTF-8 bytes, then those bytes
      tuple      the fields concatenated in order
      struct     as the tuple of its field types; names never reach the wire
      enum       the variant's 0-based index byte, then its fields in order */
module Codec {
  import opened Bytes
  import opened Results
  import opened Primitive
  import opened Compact
  import Utf8

  /** One variant of an enum: a name that never reaches the wire and the
      ordered types of its fields (none for a unit variant). */
  datatype Variant = Variant(name: string, fields: seq<Type>)

  datatype Type =
    | TUnit
    | TBool
    | TInt(signed: bool, width: Width)            // fixed-width, little-endian
    | TCompact(compactWidth: Width)               // unsigned, compact-encoded
    | TOption(some: Type)
    | TResult(ok: Type, err: Type)
    | TArray(elem: Type, len: nat)                // [T; len]
    | TVec(elem: Type)                            // Vec<T>
    | TString
    | TTuple(fields: seq<Type>)
    | TStruct(names: seq<string>, fields: seq<Type>)
    | TEnum(variants: seq<Variant>)

  datatype Value =
    | VUnit
    | VBool(b: bool)
    | VInt(i: int)                                // fixed-width or compact
    | VNone
    | VSome(some: Value)
    | VOk(ok: Value)
    | VErr(err: Value)
    | VSeq(items: seq<Value>)                     // arrays and Vec
    | VText(text: string)
    | VTuple(fields: seq<Value>)                  // tuples and structs
    | VVariant(index: nat, fields: seq<Value>)    // enums

  /** Collection lengths are written as a compact u32, so they stay below 2^32. */
  const MaxLength: nat := 0x1_0000_0000

  /** v is a value of type t. */
  predicate HasType(v: Value, t: Type)
    decreases t, 0
  {
    match t
    case TUnit => v.VUnit?
    case TBool => v.VBool?
    case TInt(signed, w) => v.VInt? && InRange(signed, w, v.i)
    case TCompact(w) => v.VInt? && 0 <= v.i < Modulus(w)
    case TOption(e) => v.VNone? || (v.VSome? && HasType(v.some, e))
    case TResult(a, b) => (v.VOk? && HasType(v.ok, a)) || (v.VErr? && HasType(v.err, b))
    case TArray(e, n) => v.VSeq? && |v.items| == n && AllHaveType(v.items, e)
    case TVec(e) => v.VSeq? && |v.items| < MaxLength && AllHaveType(v.items, e)
    case TString => v.VText? && |Utf8.EncodeUtf8(v.text)| < MaxLength
    case TTuple(ts) => v.VTuple? && FieldsHaveTypes(v.fields, ts)
    case TStruct(_, ts) => v.VTuple? && FieldsHaveTypes(v.fields, ts)
    case TEnum(vs) =>
      v.VVariant? && v.index < |vs| && v.index < 256 && FieldsHaveTypes(v.fields, vs[v.index].fields)
  }

  /** Every item is a value of the element type e. */
  predicate AllHaveType(items: seq<Value>, e: Type)
    decreases e, 1, |items|
  {
    items == [] || (HasType(items[0], e) && AllHaveType(items[1..], e))
  }

  /** The fields are values of the field types ts, one for one. */
  predicate FieldsHaveTypes(vs: seq<Value>, ts: seq<Type>)
    decreases ts
  {
    |vs| == |ts| && (ts == [] || (HasType(vs[0], ts[0]) && FieldsHaveTypes(vs[1..], ts[1..])))
  }

  /** The compact length prefix of a Vec or String. */
  function EncodeLength(n: nat): (r: seq<byte>)
    requires n < MaxLength
    ensures Encodable(n)
  {
    EncodableBelow(n, 4);
    EncodeCompact(n)
  }

  /** The SCALE encoding of a value of type t. */
  function Encode(t: Type, v: Value): seq<byte>
    requires HasType(v, t)
    decreases t, 0
  {
    match t
    case TUnit => []
    case TBool => EncodeBool(v.b)
    case TInt(signed, w) => EncodeFixed(signed, w, v.i)
    case TCompact(w) =>
      ModulusPow(w);
      EncodableBelow(v.i, ByteCount(w));
      EncodeCompact(v.i)
    case TOption(e) => if v.VNone? then [0] else [1] + Encode(e, v.some)
    case TResult(a, b) => if v.VOk? then [0] + Encode(a, v.ok) else [1] + Encode(b, v.err)
    case TArray(e, _) => EncodeItems(v.items, e)
    case TVec(e) => EncodeLength(|v.items|) + EncodeItems(v.items, e)
    case TString =>
      var utf8 := Utf8.EncodeUtf8(v.text);
      EncodeLength(|utf8|) + utf8
    case TTuple(ts) => EncodeFields(v.fields, ts)
    case TStruct(_, ts) => EncodeFields(v.fields, ts)
    case TEnum(vs) => [v.index] + EncodeFields(v.fields, vs[v.index].fields)
  }

  /** The elements of an array or Vec, concatenated in order. */
  function EncodeItems(items: seq<Value>, e: Type): seq<byte>
    requires AllHaveType(items, e)
    decreases e, 1, |items|
  {
    if items == [] then [] else Encode(e, items[0]) + EncodeItems(items[1..], e)
  }

  /** The fields of a tuple, struct or enum variant, concatenated in order. */
  function EncodeFields(vs: seq<Value>, ts: seq<Type>): seq<byte>
    requires FieldsHaveTypes(vs, ts)
    decreases ts
  {
    if ts == [] then [] else Encode(ts[0], vs[0]) + EncodeFields(vs[1..], ts[1..])
  }

  /** Prefix decode of a collection length: a compact integer that must fit a u32. */
  function DecodeLength(bs: seq<byte>, pos: nat): (r: Result<(nat, nat)>)
    requires pos <= |bs|
    ensures r.Ok? ==> r.value.0 < MaxLength && pos < r.value.1 <= |bs|
  {
    var c :- DecodeCompact(bs, pos);
    if c.0 < MaxLength then Ok(c) else Err(Overflow)
  }

  /** Prefix decode of a value of type t starting at pos: the value and the
      position just after it, or the first error met. */
  function Decode(t: Type, bs: seq<byte>, pos: nat): (r: Result<(Value, nat)>)
    requires pos <= |bs|
    ensures r.Ok? ==> pos <= r.value.1 <= |bs|
    decreases t, 0
  {
    match t
    case TUnit => Ok((VUnit, pos))
    case TBool =>
      var b :- DecodeBool(bs, pos);
      Ok((VBool(b.0), b.1))
    case TInt(signed, w) =>
      var i :- DecodeFixed(signed, w, bs, pos);
      Ok((VInt(i.0), i.1))
    case TCompact(w) =>
      var c :- DecodeCompact(bs, pos);
      if c.0 < Modulus(w) then Ok((VInt(c.0), c.1)) else Err(Overflow)
    case TOption(e) =>
      if pos == |bs| then Err(EndOfInput)
      else if bs[pos] == 0 then Ok((VNone, pos + 1))
      else if bs[pos] == 1 then
        var x :- Decode(e, bs, pos + 1);
        Ok((VSome(x.0), x.1))
      else Err(InvalidDiscriminant)
    case TResult(a, b) =>
      if pos == |bs| then Err(EndOfInput)
      else if bs[pos] == 0 then
        var x :- Decode(a, bs, pos + 1);
        Ok((VOk(x.0), x.1))
      else if bs[pos] == 1 then
        var x :- Decode(b, bs, pos + 1);
        Ok((VErr(x.0), x.1))
      else Err(InvalidDiscriminant)
    case TArray(e, n) =>
      var xs :- DecodeItems(e, n, bs, pos);
      Ok((VSeq(xs.0), xs.1))
    case TVec(e) =>
      var len :- DecodeLength(bs, pos);
      var xs :- DecodeItems(e, len.0, bs, len.1);
      Ok((VSeq(xs.0), xs.1))
    case TString =>
      var len :- DecodeLength(bs, pos);
      var (n, start) := len;
      if start + n > |bs| then Err(EndOfInput)
      else
        var text := Utf8.DecodeUtf8(bs[start..start + n]);
        if text.None? then Err(InvalidText) else Ok((VText(text.value), start + n))
    case TTuple(ts) =>
      var xs :- DecodeFields(ts, bs, pos);
      Ok((VTuple(xs.0), xs.1))
    case TStruct(_, ts) =>
      var xs :- DecodeFields(ts, bs, pos);
      Ok((VTuple(xs.0), xs.1))
    case TEnum(vs) =>
      if pos == |bs| then Err(EndOfInput)
      else if bs[pos] >= |vs| then Err(InvalidDiscriminant)
      else
        var k := bs[pos];
        var xs :- DecodeFields(vs[k].fields, bs, pos + 1);
        Ok((VVariant(k, xs.0), xs.1))
  }

  /** Prefix decode of n consecutive elements of type e. */
  function DecodeItems(e: Type, n: nat, bs: seq<byte>, pos: nat): (r: Result<(seq<Value>, nat)>)
    requires pos <= |bs|
    ensures r.Ok? ==> |r.value.0| == n && pos <= r.value.1 <= |bs|
    decreases e, 1, n
  {
    if n == 0 then Ok(([], pos))
    else
      var x :- Decode(e, bs, pos);
      var xs :- DecodeItems(e, n - 1, bs, x.1);
      Ok(([x.0] + xs.0, xs.1))
  }

  /** Prefix decode of consecutive fields of the types ts, in order. */
  function DecodeFields(ts: seq<Type>, bs: seq<byte>, pos: nat): (r: Result<(seq<Value>, nat)>)
    requires pos <= |bs|
    ensures r.Ok? ==> |r.value.0| == |ts| && pos <= r.value.1 <= |bs|
    decreases ts
  {
    if ts == [] then Ok(([], pos))
    else
      var x :- Decode(ts[0], bs, pos);
      var xs :- DecodeFields(ts[1..], bs, x.1);
      Ok(([x.0] + xs.0, xs.1))
  }

  /** Total decode: the whole byte string must be exactly one value of type t. */
  function DecodeAll(t: Type, bs: seq<byte>): (r: Result<Value>)
  {
    var x :- Decode(t, bs, 0);
    if x.1 == |bs| then Ok(x.0) else Err(TrailingData)
  }
}
