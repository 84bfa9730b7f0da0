/** The laws of the SCALE codec.

    Two directions, proved over every schema by induction on the type:
      - round trip: decoding the encoding of a well-typed value, wherever it
        sits in a larger buffer, yields that value and stops right after it;
      - exactness: whatever the decoder accepts is a well-typed value and
        the bytes it consumed are exactly that value's encoding.
    Together they make encoding a bijection between the values of a type
    and the byte strings its total decode accepts: the encoding is
    canonical, and no two values share one. */
module CodecLaws {
  import opened Bytes
  import opened Results
  import opened Primitive
  import opened Compact
  import Utf8
  import opened Codec

  /** Decoding the encoding of v at pos yields v and the position right after it. */
  lemma {:induction false} RoundTrip(t: Type, v: Value, bs: seq<byte>, pos: nat)
    requires HasType(v, t)
    requires At(bs, pos, Encode(t, v))
    ensures Decode(t, bs, pos) == Ok((v, pos + |Encode(t, v)|))
    decreases t, 2
  {
    if t.TUnit? || t.TBool? || t.TInt? || t.TCompact? || t.TString? {
      RoundTripScalar(t, v, bs, pos);
    } else if t.TOption? || t.TResult? || t.TEnum? {
      RoundTripTagged(t, v, bs, pos);
    } else {
      RoundTripSequence(t, v, bs, pos);
    }
  }

  /** The round trip for the types without components. */
  lemma RoundTripScalar(t: Type, v: Value, bs: seq<byte>, pos: nat)
    requires t.TUnit? || t.TBool? || t.TInt? || t.TCompact? || t.TString?
    requires HasType(v, t)
    requires At(bs, pos, Encode(t, v))
    ensures Decode(t, bs, pos) == Ok((v, pos + |Encode(t, v)|))
  {
    match t
    case TUnit =>
    case TBool => BoolRoundTrip(v.b, bs, pos);
    case TInt(signed, w) => FixedRoundTrip(signed, w, v.i, bs, pos);
    case TCompact(_) => RoundTripCompact(t, v, bs, pos);
    case TString => RoundTripString(v, bs, pos);
  }

  /** The round trip for the types written as a tag byte and a payload. */
  lemma {:induction false} RoundTripTagged(t: Type, v: Value, bs: seq<byte>, pos: nat)
    requires t.TOption? || t.TResult? || t.TEnum?
    requires HasType(v, t)
    requires At(bs, pos, Encode(t, v))
    ensures Decode(t, bs, pos) == Ok((v, pos + |Encode(t, v)|))
    decreases t, 1
  {
    match t
    case TOption(_) => RoundTripOption(t, v, bs, pos);
    case TResult(_, _) => RoundTripResult(t, v, bs, pos);
    case TEnum(_) => RoundTripEnum(t, v, bs, pos);
  }

  /** The round trip for the types written as a run of components. */
  lemma {:induction false} RoundTripSequence(t: Type, v: Value, bs: seq<byte>, pos: nat)
    requires t.TArray? || t.TVec? || t.TTuple? || t.TStruct?
    requires HasType(v, t)
    requires At(bs, pos, Encode(t, v))
    ensures Decode(t, bs, pos) == Ok((v, pos + |Encode(t, v)|))
    decreases t, 1
  {
    match t
    case TArray(x, _) => RoundTripItems(v.items, x, bs, pos);
    case TVec(_) => RoundTripVec(t, v, bs, pos);
    case TTuple(ts) => RoundTripFields(v.fields, ts, bs, pos);
    case TStruct(_, ts) => RoundTripFields(v.fields, ts, bs, pos);
  }

  lemma RoundTripCompact(t: Type, v: Value, bs: seq<byte>, pos: nat)
    requires t.TCompact? && HasType(v, t)
    requires At(bs, pos, Encode(t, v))
    ensures Decode(t, bs, pos) == Ok((v, pos + |Encode(t, v)|))
  {
    var w := t.compactWidth;
    var n: nat := v.i;
    assert t == TCompact(w) && v == VInt(n);
    CompactUnfold(w, n);
    CompactRoundTrip(n, bs, pos);
    CompactDecodeUnfold(w, n, bs, pos, pos + |EncodeCompact(n)|);
  }

  /** The encoding of a compact value of any width is its compact integer encoding. */
  lemma CompactUnfold(w: Width, n: nat)
    requires n < Modulus(w)
    ensures Encodable(n)
    ensures Encode(TCompact(w), VInt(n)) == EncodeCompact(n)
  {
    var k := ByteCount(w);
    ModulusPow(w);
    EncodableBelow(n, k);
    assert HasType(VInt(n), TCompact(w));
  }

  /** A compact integer that fits the width decodes as a compact value of that width. */
  lemma CompactDecodeUnfold(w: Width, n: nat, bs: seq<byte>, pos: nat, next: nat)
    requires pos <= |bs| && n < Modulus(w)
    requires DecodeCompact(bs, pos) == Ok((n, next))
    ensures Decode(TCompact(w), bs, pos) == Ok((VInt(n), next))
  {
  }

  lemma {:induction false} RoundTripOption(t: Type, v: Value, bs: seq<byte>, pos: nat)
    requires t.TOption? && HasType(v, t)
    requires At(bs, pos, Encode(t, v))
    ensures Decode(t, bs, pos) == Ok((v, pos + |Encode(t, v)|))
    decreases t, 0
  {
    var e := t.some;
    if v.VNone? {
      assert bs[pos] == Encode(t, v)[0];
    } else {
      var payload := Encode(e, v.some);
      assert Encode(t, v) == [1] + payload;
      TagSplit(bs, pos, 1, payload);
      RoundTrip(e, v.some, bs, pos + 1);
      SomeStep(e, bs, pos, v.some, pos + 1 + |payload|);
    }
  }

  /** A tag byte followed by a payload sits at pos exactly when the tag is
      the byte at pos and the payload sits right after it. */
  lemma TagSplit(bs: seq<byte>, pos: nat, tag: byte, payload: seq<byte>)
    requires At(bs, pos, [tag] + payload)
    ensures pos < |bs| && bs[pos] == tag && At(bs, pos + 1, payload)
  {
    AtConcat(bs, pos, [tag], payload);
    assert bs[pos] == bs[pos..pos + 1][0];
  }

  /** Decoding a Some: tag 1, then the payload. */
  lemma SomeStep(e: Type, bs: seq<byte>, pos: nat, x: Value, next: nat)
    requires pos < |bs| && bs[pos] == 1
    requires Decode(e, bs, pos + 1) == Ok((x, next))
    ensures Decode(TOption(e), bs, pos) == Ok((VSome(x), next))
  {
  }

  lemma {:induction false} RoundTripResult(t: Type, v: Value, bs: seq<byte>, pos: nat)
    requires t.TResult? && HasType(v, t)
    requires At(bs, pos, Encode(t, v))
    ensures Decode(t, bs, pos) == Ok((v, pos + |Encode(t, v)|))
    decreases t, 0
  {
    var (a, b) := (t.ok, t.err);
    if v.VOk? {
      var payload := Encode(a, v.ok);
      assert Encode(t, v) == [0] + payload;
      TagSplit(bs, pos, 0, payload);
      RoundTrip(a, v.ok, bs, pos + 1);
      ResultStep(a, b, bs, pos, v.ok, pos + 1 + |payload|);
    } else {
      var payload := Encode(b, v.err);
      assert Encode(t, v) == [1] + payload;
      TagSplit(bs, pos, 1, payload);
      RoundTrip(b, v.err, bs, pos + 1);
      ResultStep(a, b, bs, pos, v.err, pos + 1 + |payload|);
    }
  }

  /** Decoding a Result: tag 0 then an Ok payload, or tag 1 then an Err payload. */
  lemma ResultStep(a: Type, b: Type, bs: seq<byte>, pos: nat, x: Value, next: nat)
    requires pos < |bs| && bs[pos] in {0, 1}
    requires Decode(if bs[pos] == 0 then a else b, bs, pos + 1) == Ok((x, next))
    ensures Decode(TResult(a, b), bs, pos) == Ok((if bs[pos] == 0 then VOk(x) else VErr(x), next))
  {
  }

  lemma {:induction false} RoundTripVec(t: Type, v: Value, bs: seq<byte>, pos: nat)
    requires t.TVec? && HasType(v, t)
    requires At(bs, pos, Encode(t, v))
    ensures Decode(t, bs, pos) == Ok((v, pos + |Encode(t, v)|))
    decreases t, 0
  {
    var e, items := t.elem, v.items;
    var prefix, body := EncodeLength(|items|), EncodeItems(items, e);
    var start := pos + |prefix|;
    assert Encode(t, v) == prefix + body;
    AtConcat(bs, pos, prefix, body);
    CompactRoundTrip(|items|, bs, pos);
    RoundTripItems(items, e, bs, start);
    VecStep(e, bs, pos, |items|, start, items, start + |body|);
  }

  /** Decoding a Vec: a length that fits a u32, then that many elements. */
  lemma VecStep(e: Type, bs: seq<byte>, pos: nat, n: nat, start: nat, xs: seq<Value>, next: nat)
    requires pos <= start <= |bs|
    requires DecodeCompact(bs, pos) == Ok((n, start)) && n < MaxLength
    requires DecodeItems(e, n, bs, start) == Ok((xs, next))
    ensures Decode(TVec(e), bs, pos) == Ok((VSeq(xs), next))
  {
    assert DecodeLength(bs, pos) == Ok((n, start));
  }

  lemma RoundTripString(v: Value, bs: seq<byte>, pos: nat)
    requires HasType(v, TString)
    requires At(bs, pos, Encode(TString, v))
    ensures Decode(TString, bs, pos) == Ok((v, pos + |Encode(TString, v)|))
  {
    var utf8 := Utf8.EncodeUtf8(v.text);
    var prefix := EncodeLength(|utf8|);
    var start := pos + |prefix|;
    assert Encode(TString, v) == prefix + utf8;
    AtConcat(bs, pos, prefix, utf8);
    CompactRoundTrip(|utf8|, bs, pos);
    Utf8.Utf8RoundTrip(v.text);
    StringStep(bs, pos, |utf8|, start, v.text);
  }

  /** A String decode is a length decode followed by the UTF-8 decode of
      that many bytes. */
  lemma StringStep(bs: seq<byte>, pos: nat, n: nat, start: nat, text: string)
    requires pos <= |bs| && start + n <= |bs|
    requires DecodeCompact(bs, pos) == Ok((n, start)) && n < MaxLength
    requires Utf8.DecodeUtf8(bs[start..start + n]) == Some(text)
    ensures Decode(TString, bs, pos) == Ok((VText(text), start + n))
  {
    assert DecodeLength(bs, pos) == Ok((n, start));
  }

  lemma {:induction false} RoundTripEnum(t: Type, v: Value, bs: seq<byte>, pos: nat)
    requires t.TEnum? && HasType(v, t)
    requires At(bs, pos, Encode(t, v))
    ensures Decode(t, bs, pos) == Ok((v, pos + |Encode(t, v)|))
    decreases t, 0
  {
    var fields := t.variants[v.index].fields;
    AtConcat(bs, pos, [v.index], EncodeFields(v.fields, fields));
    assert bs[pos] == Encode(t, v)[0];
    RoundTripFields(v.fields, fields, bs, pos + 1);
  }

  lemma {:induction false} RoundTripItems(items: seq<Value>, e: Type, bs: seq<byte>, pos: nat)
    requires AllHaveType(items, e)
    requires At(bs, pos, EncodeItems(items, e))
    ensures DecodeItems(e, |items|, bs, pos) == Ok((items, pos + |EncodeItems(items, e)|))
    decreases e, 3, |items|
  {
    if items != [] {
      var x, rest := items[0], items[1..];
      var mid := ItemsSplit(items, e, bs, pos);
      var next := pos + |EncodeItems(items, e)|;
      assert Decode(e, bs, pos) == Ok((x, mid)) by {
        RoundTrip(e, x, bs, pos);
      }
      assert DecodeItems(e, |rest|, bs, mid) == Ok((rest, next)) by {
        RoundTripItems(rest, e, bs, mid);
      }
      DecodeItemsStep(e, bs, pos, items, mid, next);
    } else {
      assert EncodeItems(items, e) == [];
    }
  }

  /** The encoding of a run of elements splits into the first element's
      encoding, ending at mid, and the encoding of the rest. */
  lemma ItemsSplit(items: seq<Value>, e: Type, bs: seq<byte>, pos: nat) returns (mid: nat)
    requires items != [] && AllHaveType(items, e)
    requires At(bs, pos, EncodeItems(items, e))
    ensures HasType(items[0], e) && AllHaveType(items[1..], e)
    ensures mid == pos + |Encode(e, items[0])| && At(bs, pos, Encode(e, items[0]))
    ensures At(bs, mid, EncodeItems(items[1..], e))
    ensures mid + |EncodeItems(items[1..], e)| == pos + |EncodeItems(items, e)|
  {
    var head, rest := Encode(e, items[0]), EncodeItems(items[1..], e);
    mid := pos + |head|;
    assert EncodeItems(items, e) == head + rest;
    AtConcat(bs, pos, head, rest);
  }

  /** One step of DecodeItems: the first element, then the rest. */
  lemma DecodeItemsStep(e: Type, bs: seq<byte>, pos: nat, items: seq<Value>, mid: nat, next: nat)
    requires items != [] && pos <= |bs|
    requires Decode(e, bs, pos) == Ok((items[0], mid))
    requires DecodeItems(e, |items[1..]|, bs, mid) == Ok((items[1..], next))
    ensures DecodeItems(e, |items|, bs, pos) == Ok((items, next))
  {
    assert [items[0]] + items[1..] == items;
  }

  lemma {:induction false} RoundTripFields(vs: seq<Value>, ts: seq<Type>, bs: seq<byte>, pos: nat)
    requires FieldsHaveTypes(vs, ts)
    requires At(bs, pos, EncodeFields(vs, ts))
    ensures DecodeFields(ts, bs, pos) == Ok((vs, pos + |EncodeFields(vs, ts)|))
    decreases ts
  {
    if ts == [] {
      assert EncodeFields(vs, ts) == [];
    } else {
      var mid := FieldsSplit(vs, ts, bs, pos);
      var next := pos + |EncodeFields(vs, ts)|;
      assert Decode(ts[0], bs, pos) == Ok((vs[0], mid)) by {
        RoundTrip(ts[0], vs[0], bs, pos);
      }
      assert DecodeFields(ts[1..], bs, mid) == Ok((vs[1..], next)) by {
        RoundTripFields(vs[1..], ts[1..], bs, mid);
      }
      DecodeFieldsStep(ts, bs, pos, vs, mid, next);
    }
  }

  /** The encoding of fields splits into the first field's encoding, ending
      at mid, and the encoding of the rest. */
  lemma FieldsSplit(vs: seq<Value>, ts: seq<Type>, bs: seq<byte>, pos: nat) returns (mid: nat)
    requires ts != [] && FieldsHaveTypes(vs, ts)
    requires At(bs, pos, EncodeFields(vs, ts))
    ensures HasType(vs[0], ts[0]) && FieldsHaveTypes(vs[1..], ts[1..])
    ensures mid == pos + |Encode(ts[0], vs[0])| && At(bs, pos, Encode(ts[0], vs[0]))
    ensures At(bs, mid, EncodeFields(vs[1..], ts[1..]))
    ensures mid + |EncodeFields(vs[1..], ts[1..])| == pos + |EncodeFields(vs, ts)|
  {
    var head, rest := Encode(ts[0], vs[0]), EncodeFields(vs[1..], ts[1..]);
    mid := pos + |head|;
    assert EncodeFields(vs, ts) == head + rest;
    AtConcat(bs, pos, head, rest);
  }

  /** One step of DecodeFields: the first field, then the rest. */
  lemma DecodeFieldsStep(ts: seq<Type>, bs: seq<byte>, pos: nat, vs: seq<Value>, mid: nat, next: nat)
    requires ts != [] && |vs| == |ts| && pos <= |bs|
    requires Decode(ts[0], bs, pos) == Ok((vs[0], mid))
    requires DecodeFields(ts[1..], bs, mid) == Ok((vs[1..], next))
    ensures DecodeFields(ts, bs, pos) == Ok((vs, next))
  {
    assert [vs[0]] + vs[1..] == vs;
  }

  /** Whatever the decoder accepts is a value of type t, and the bytes it
      consumed are exactly that value's encoding. */
  lemma {:induction false} Exact(t: Type, bs: seq<byte>, pos: nat)
    requires pos <= |bs|
    requires Decode(t, bs, pos).Ok?
    ensures HasType(Decode(t, bs, pos).value.0, t)
    ensures bs[pos..Decode(t, bs, pos).value.1] == Encode(t, Decode(t, bs, pos).value.0)
    decreases t, 2
  {
    if t.TUnit? || t.TBool? || t.TInt? || t.TCompact? || t.TString? {
      ExactScalar(t, bs, pos);
    } else if t.TOption? || t.TResult? || t.TEnum? {
      ExactTagged(t, bs, pos);
    } else {
      ExactSequence(t, bs, pos);
    }
  }

  /** Exactness for the types without components. */
  lemma ExactScalar(t: Type, bs: seq<byte>, pos: nat)
    requires t.TUnit? || t.TBool? || t.TInt? || t.TCompact? || t.TString?
    requires pos <= |bs| && Decode(t, bs, pos).Ok?
    ensures HasType(Decode(t, bs, pos).value.0, t)
    ensures bs[pos..Decode(t, bs, pos).value.1] == Encode(t, Decode(t, bs, pos).value.0)
  {
    match t
    case TUnit =>
    case TBool =>
    case TInt(_, _) =>
    case TCompact(_) => ExactCompact(t, bs, pos);
    case TString => ExactString(bs, pos);
  }

  /** Exactness for the types written as a tag byte and a payload. */
  lemma {:induction false} ExactTagged(t: Type, bs: seq<byte>, pos: nat)
    requires t.TOption? || t.TResult? || t.TEnum?
    requires pos <= |bs| && Decode(t, bs, pos).Ok?
    ensures HasType(Decode(t, bs, pos).value.0, t)
    ensures bs[pos..Decode(t, bs, pos).value.1] == Encode(t, Decode(t, bs, pos).value.0)
    decreases t, 1
  {
    match t
    case TOption(_) => ExactOption(t, bs, pos);
    case TResult(_, _) => ExactResult(t, bs, pos);
    case TEnum(_) => ExactEnum(t, bs, pos);
  }

  /** Exactness for the types written as a run of components. */
  lemma {:induction false} ExactSequence(t: Type, bs: seq<byte>, pos: nat)
    requires t.TArray? || t.TVec? || t.TTuple? || t.TStruct?
    requires pos <= |bs| && Decode(t, bs, pos).Ok?
    ensures HasType(Decode(t, bs, pos).value.0, t)
    ensures bs[pos..Decode(t, bs, pos).value.1] == Encode(t, Decode(t, bs, pos).value.0)
    decreases t, 1
  {
    match t
    case TArray(x, n) => ExactItems(x, n, bs, pos);
    case TVec(_) => ExactVec(t, bs, pos);
    case TTuple(ts) => ExactFields(ts, bs, pos);
    case TStruct(_, ts) => ExactFields(ts, bs, pos);
  }

  lemma ExactCompact(t: Type, bs: seq<byte>, pos: nat)
    requires t.TCompact? && pos <= |bs| && Decode(t, bs, pos).Ok?
    ensures HasType(Decode(t, bs, pos).value.0, t)
    ensures bs[pos..Decode(t, bs, pos).value.1] == Encode(t, Decode(t, bs, pos).value.0)
  {
    var (n, next) := DecodeCompact(bs, pos).value;
    assert n < Modulus(t.compactWidth);
    CompactDecodeExact(bs, pos);
    CompactUnfold(t.compactWidth, n);
    CompactDecodeUnfold(t.compactWidth, n, bs, pos, next);
  }

  lemma {:induction false} ExactOption(t: Type, bs: seq<byte>, pos: nat)
    requires t.TOption? && pos <= |bs| && Decode(t, bs, pos).Ok?
    ensures HasType(Decode(t, bs, pos).value.0, t)
    ensures bs[pos..Decode(t, bs, pos).value.1] == Encode(t, Decode(t, bs, pos).value.0)
    decreases t, 0
  {
    if bs[pos] == 1 {
      var e := t.some;
      var (x, next) := Decode(e, bs, pos + 1).value;
      assert Decode(t, bs, pos) == Ok((VSome(x), next));
      Exact(e, bs, pos + 1);
      TagJoin(bs, pos, next, 1, Encode(e, x));
    }
  }

  /** The byte at pos followed by the payload read after it is the tag and
      the payload. */
  lemma TagJoin(bs: seq<byte>, pos: nat, next: nat, tag: byte, payload: seq<byte>)
    requires pos < next <= |bs| && bs[pos] == tag
    requires bs[pos + 1..next] == payload
    ensures bs[pos..next] == [tag] + payload
  {
    SliceJoin(bs, pos, pos + 1, next);
  }

  lemma {:induction false} ExactResult(t: Type, bs: seq<byte>, pos: nat)
    requires t.TResult? && pos <= |bs| && Decode(t, bs, pos).Ok?
    ensures HasType(Decode(t, bs, pos).value.0, t)
    ensures bs[pos..Decode(t, bs, pos).value.1] == Encode(t, Decode(t, bs, pos).value.0)
    decreases t, 0
  {
    var (a, b) := (t.ok, t.err);
    if bs[pos] == 0 {
      var (x, next) := Decode(a, bs, pos + 1).value;
      assert Decode(t, bs, pos) == Ok((VOk(x), next));
      Exact(a, bs, pos + 1);
      TagJoin(bs, pos, next, 0, Encode(a, x));
    } else {
      var (x, next) := Decode(b, bs, pos + 1).value;
      assert Decode(t, bs, pos) == Ok((VErr(x), next));
      Exact(b, bs, pos + 1);
      TagJoin(bs, pos, next, 1, Encode(b, x));
    }
  }

  lemma {:induction false} ExactVec(t: Type, bs: seq<byte>, pos: nat)
    requires t.TVec? && pos <= |bs| && Decode(t, bs, pos).Ok?
    ensures HasType(Decode(t, bs, pos).value.0, t)
    ensures bs[pos..Decode(t, bs, pos).value.1] == Encode(t, Decode(t, bs, pos).value.0)
    decreases t, 0
  {
    var (n, start) := DecodeLength(bs, pos).value;
    CompactDecodeExact(bs, pos);
    ExactItems(t.elem, n, bs, start);
    SliceJoin(bs, pos, start, Decode(t, bs, pos).value.1);
  }

  lemma ExactString(bs: seq<byte>, pos: nat)
    requires pos <= |bs| && Decode(TString, bs, pos).Ok?
    ensures HasType(Decode(TString, bs, pos).value.0, TString)
    ensures bs[pos..Decode(TString, bs, pos).value.1] == Encode(TString, Decode(TString, bs, pos).value.0)
  {
    var (n, start) := DecodeLength(bs, pos).value;
    var next := start + n;
    var bytes := bs[start..next];
    var text := Utf8.DecodeUtf8(bytes).value;
    assert Decode(TString, bs, pos) == Ok((VText(text), next));
    LengthExact(bs, pos);
    Utf8.Utf8Exact(bytes);
    assert HasType(VText(text), TString);
    assert Encode(TString, VText(text)) == EncodeLength(n) + bytes;
    SliceJoin(bs, pos, start, next);
  }

  /** A collection length the decoder accepts is written as EncodeLength writes it. */
  lemma LengthExact(bs: seq<byte>, pos: nat)
    requires pos <= |bs| && DecodeLength(bs, pos).Ok?
    ensures bs[pos..DecodeLength(bs, pos).value.1] == EncodeLength(DecodeLength(bs, pos).value.0)
  {
    CompactDecodeExact(bs, pos);
  }

  /** A collection length below 2^32, written by EncodeLength anywhere in the
      input, is read back by DecodeLength, which stops just after it. */
  lemma LengthRoundTrip(n: nat, bs: seq<byte>, pos: nat)
    requires n < MaxLength && At(bs, pos, EncodeLength(n))
    ensures DecodeLength(bs, pos) == Ok((n, pos + |EncodeLength(n)|))
  {
    CompactRoundTrip(n, bs, pos);
  }

  lemma {:induction false} ExactEnum(t: Type, bs: seq<byte>, pos: nat)
    requires t.TEnum? && pos <= |bs| && Decode(t, bs, pos).Ok?
    ensures HasType(Decode(t, bs, pos).value.0, t)
    ensures bs[pos..Decode(t, bs, pos).value.1] == Encode(t, Decode(t, bs, pos).value.0)
    decreases t, 0
  {
    var k: nat := bs[pos];
    var fields := t.variants[k].fields;
    var (fs, next) := DecodeFields(fields, bs, pos + 1).value;
    assert Decode(t, bs, pos) == Ok((VVariant(k, fs), next));
    ExactFields(fields, bs, pos + 1);
    VariantExact(t.variants, k, fs, bs, pos, next);
  }

  /** A variant index byte followed by the encoding of that variant's fields
      is the encoding of the enum value. */
  lemma VariantExact(vs: seq<Variant>, k: nat, fs: seq<Value>, bs: seq<byte>, pos: nat, next: nat)
    requires pos < next <= |bs| && k < |vs| && bs[pos] == k
    requires FieldsHaveTypes(fs, vs[k].fields)
    requires bs[pos + 1..next] == EncodeFields(fs, vs[k].fields)
    ensures HasType(VVariant(k, fs), TEnum(vs))
    ensures bs[pos..next] == Encode(TEnum(vs), VVariant(k, fs))
  {
    SliceJoin(bs, pos, pos + 1, next);
  }

  lemma {:induction false} ExactItems(e: Type, n: nat, bs: seq<byte>, pos: nat)
    requires pos <= |bs|
    requires DecodeItems(e, n, bs, pos).Ok?
    ensures AllHaveType(DecodeItems(e, n, bs, pos).value.0, e)
    ensures bs[pos..DecodeItems(e, n, bs, pos).value.1] == EncodeItems(DecodeItems(e, n, bs, pos).value.0, e)
    decreases e, 3, n
  {
    if n > 0 {
      var (x, mid) := Decode(e, bs, pos).value;
      var (xs, next) := DecodeItems(e, n - 1, bs, mid).value;
      Exact(e, bs, pos);
      ExactItems(e, n - 1, bs, mid);
      SliceJoin(bs, pos, mid, next);
      assert ([x] + xs)[1..] == xs;
    }
  }

  lemma {:induction false} ExactFields(ts: seq<Type>, bs: seq<byte>, pos: nat)
    requires pos <= |bs|
    requires DecodeFields(ts, bs, pos).Ok?
    ensures FieldsHaveTypes(DecodeFields(ts, bs, pos).value.0, ts)
    ensures bs[pos..DecodeFields(ts, bs, pos).value.1] == EncodeFields(DecodeFields(ts, bs, pos).value.0, ts)
    decreases ts
  {
    if ts != [] {
      var (x, mid) := Decode(ts[0], bs, pos).value;
      var (xs, next) := DecodeFields(ts[1..], bs, mid).value;
      Exact(ts[0], bs, pos);
      ExactFields(ts[1..], bs, mid);
      SliceJoin(bs, pos, mid, next);
      assert ([x] + xs)[1..] == xs;
    }
  }

  /** Prefix mode: decoding from the start of an encoding followed by any
      further bytes yields the value and leaves the further bytes unread. */
  lemma PrefixDecode(t: Type, v: Value, rest: seq<byte>)
    requires HasType(v, t)
    ensures Decode(t, Encode(t, v) + rest, 0) == Ok((v, |Encode(t, v)|))
  {
    var e := Encode(t, v);
    assert (e + rest)[0..|e|] == e;
    RoundTrip(t, v, e + rest, 0);
  }

  /** Total mode: a byte string decodes to v exactly when it is the encoding of v. */
  lemma DecodeAllExact(t: Type, bs: seq<byte>, v: Value)
    ensures DecodeAll(t, bs) == Ok(v) <==> HasType(v, t) && bs == Encode(t, v)
  {
    if DecodeAll(t, bs) == Ok(v) {
      Exact(t, bs, 0);
      assert bs[0..|bs|] == bs;
    }
    if HasType(v, t) && bs == Encode(t, v) {
      PrefixDecode(t, v, []);
      assert bs + [] == bs;
    }
  }

  /** Total mode refuses an encoding followed by anything more. */
  lemma TrailingDataRejected(t: Type, v: Value, rest: seq<byte>)
    requires HasType(v, t) && rest != []
    ensures DecodeAll(t, Encode(t, v) + rest) == Err(TrailingData)
  {
    PrefixDecode(t, v, rest);
  }

  /** Distinct values of one type never share an encoding. */
  lemma EncodeInjective(t: Type, a: Value, b: Value)
    requires HasType(a, t) && HasType(b, t)
    requires Encode(t, a) == Encode(t, b)
    ensures a == b
  {
    DecodeAllExact(t, Encode(t, a), a);
    DecodeAllExact(t, Encode(t, b), b);
  }

  /** A struct is written exactly as the tuple of its field types: the same
      values, the same bytes, whatever the field names. */
  lemma StructIsTuple(names: seq<string>, ts: seq<Type>, v: Value)
    ensures HasType(v, TStruct(names, ts)) <==> HasType(v, TTuple(ts))
    ensures HasType(v, TTuple(ts)) ==> Encode(TStruct(names, ts), v) == Encode(TTuple(ts), v)
  {
  }

  /** n copies of the type e: the field types of an array of length n. */
  function Repeat(e: Type, n: nat): (ts: seq<Type>)
    ensures |ts| == n && forall i :: 0 <= i < n ==> ts[i] == e
  {
    if n == 0 then [] else [e] + Repeat(e, n - 1)
  }

  /** A fixed array of n elements is written as a tuple of n fields of the
      element type: no length, no separators. */
  lemma {:induction false} ArrayIsTuple(e: Type, items: seq<Value>)
    requires AllHaveType(items, e)
    ensures FieldsHaveTypes(items, Repeat(e, |items|))
    ensures Encode(TArray(e, |items|), VSeq(items)) == Encode(TTuple(Repeat(e, |items|)), VTuple(items))
    decreases |items|
  {
    if items != [] {
      ArrayIsTuple(e, items[1..]);
      assert Repeat(e, |items|)[1..] == Repeat(e, |items| - 1);
    }
  }

  /** A Vec is its compact length followed by the array of its elements. */
  lemma VecIsLengthThenArray(e: Type, items: seq<Value>)
    requires AllHaveType(items, e) && |items| < MaxLength
    ensures Encodable(|items|)
    ensures Encode(TVec(e), VSeq(items)) == EncodeCompact(|items|) + Encode(TArray(e, |items|), VSeq(items))
  {
    var v := VSeq(items);
    assert HasType(v, TArray(e, |items|));
    assert Encode(TVec(e), v) == EncodeLength(|items|) + EncodeItems(items, e);
  }

  /** The byte values of a byte string, as elements of a Vec<u8>. */
  function ByteValues(bs: seq<byte>): (vs: seq<Value>)
    ensures |vs| == |bs| && forall i :: 0 <= i < |bs| ==> vs[i] == VInt(bs[i])
  {
    if bs == [] then [] else [VInt(bs[0])] + ByteValues(bs[1..])
  }

  /** A byte string is a well-typed list of u8 values, written as its own bytes. */
  lemma {:induction false} BytesAsItems(bs: seq<byte>)
    ensures AllHaveType(ByteValues(bs), TInt(false, W8))
    ensures EncodeItems(ByteValues(bs), TInt(false, W8)) == bs
    decreases |bs|
  {
    if bs != [] {
      BytesAsItems(bs[1..]);
      assert ByteValues(bs)[1..] == ByteValues(bs[1..]);
      assert EncodeFixed(false, W8, bs[0]) == [bs[0]];
    }
  }

  /** A String is written as the Vec<u8> of its UTF-8 bytes. */
  lemma StringIsByteVec(s: string)
    requires HasType(VText(s), TString)
    ensures HasType(VSeq(ByteValues(Utf8.EncodeUtf8(s))), TVec(TInt(false, W8)))
    ensures Encode(TString, VText(s)) == Encode(TVec(TInt(false, W8)), VSeq(ByteValues(Utf8.EncodeUtf8(s))))
  {
    BytesAsItems(Utf8.EncodeUtf8(s));
  }

  /** A compact integer is written the same whatever its storage width. */
  lemma CompactWidthIndependent(n: nat, w1: Width, w2: Width)
    requires HasType(VInt(n), TCompact(w1)) && HasType(VInt(n), TCompact(w2))
    ensures Encode(TCompact(w1), VInt(n)) == Encode(TCompact(w2), VInt(n))
  {
  }

  /** A fixed-width integer takes exactly its declared width, whatever its magnitude. */
  lemma FixedWidthSize(signed: bool, w: Width, v: Value)
    requires HasType(v, TInt(signed, w))
    ensures |Encode(TInt(signed, w), v)| == ByteCount(w)
  {
  }
}
