# SCALE codec, as the `scale` crate's tests pin it down

The repository is a single Rust test module, `src/lib.rs`. Its tests check
SCALE ("Simple Concatenated Aggregate Little-Endian") encodings, as produced
by the `parity_scale_codec` crate, against literal byte strings:

- fixed-width little-endian integers;
- compact integers, for the values 0, 42, 69 and 65535;
- unit and bool;
- `Result` and `Option`;
- arrays, `Vec` and `String`;
- tuples, a derived struct and a derived enum;
- decoding a `u32` from four bytes.

It also has a small `output` helper that renders a byte string as
`0x` followed by lower-case hex digits.

This project models the codec those tests exercise and the `output` helper,
and it proves the following about the model:

- every test vector;
- the round trip `Decode(Encode(v)) == v`, for every schema type;
- exactness: every accepted byte string is the encoding of the value it yields;
- the compact integer mode rules, including canonicality of the shortest mode;
- the prefix/total decode distinction;
- that `output` can be parsed back.

Layout, one module per file:

| file | module | contents |
|---|---|---|
| `bytes.dfy` | `Bytes` | bytes, powers of 256, little- and big-endian packing, minimal byte counts |
| `results.dfy` | `Results` | `Option`, the decode error kinds, `Result` |
| `primitive.dfy` | `Primitive` | fixed-width integers (signed and unsigned, 8 to 128 bits) and booleans |
| `compact.dfy` | `Compact` | compact integers in all four modes, with a strict decoder |
| `utf8.dfy` | `Utf8` | UTF-8 encoding and strict decoding of text |
| `codec.dfy` | `Codec` | the schema `Type`, values `Value`, `HasType`, `Encode`, prefix `Decode`, total `DecodeAll` |
| `laws.dfy` | `CodecLaws` | round trip, exactness, injectivity, prefix/total mode, structural identities |
| `hex.dfy` | `Hex` | the `output` rendering and its inverse |
| `vectors.dfy` | `Vectors` | one lemma per test function, stating the bytes (and renderings) it asserts |

SCALE is not self-describing, so decoding is driven by a schema. `Type`
lists the shapes the tests use:

- unit, bool;
- `TInt(signed, width)`, a fixed-width integer;
- `TCompact(width)`, a compact integer;
- Option, Result;
- `TArray(elem, n)`, `TVec(elem)`, String;
- tuple, struct (named fields) and enum (named variants with fields).

`Value` holds the untyped data, and `HasType(v, t)` says which values a type
admits; in particular, integers must be in range for their width. `Encode`
requires a well-typed value. `Decode(t, bs, pos)` reads from a cursor
position and returns either the value and the position after it (prefix
mode, like `Decode::decode`) or the first error. `DecodeAll` additionally
refuses leftover bytes (total mode, like `decode_all`).

## Model

| member | source | states |
|---|---|---|
| Hex.Output | src/lib.rs:12-23 | the rendering is "0x" followed by two characters per byte |
| Hex.HexByte | src/lib.rs:15-16 | `{:02x?}` of one byte: exactly two lower-case digits, high nibble first, whose values recombine to the byte |
| Hex.OutputAt | src/lib.rs:12-23 | byte i of the input appears, zero-padded, as the two characters at offset 2 + 2i of the rendering |
| Hex.OutputFold | src/lib.rs:12-23 | folding each byte's two digits into a growing string and prefixing "0x", as the helper does, gives the rendering |
| Hex.HexDigitsSnoc | src/lib.rs:17-21 | the fold step: appending one byte appends exactly its two digits |
| Hex.ParseOutput | src/lib.rs:12-23 | reads a rendering back: by `Hex.OutputParse` it yields bs exactly when the string is the rendering of bs |
| Hex.ParseDigitsRoundTrip | src/lib.rs:12-23 | the digit string of any byte string parses back to those bytes |
| Hex.ParseDigitsExact | src/lib.rs:12-23 | every digit string the parser accepts is the digit string of the bytes it yields |
| Hex.OutputParse | src/lib.rs:12-23 | a string parses to bs exactly when it is the rendering of bs, so the rendering is injective |
| Bytes.ToLE | src/lib.rs:28-31 | `to_le_bytes`: exactly w bytes whose little-endian value is v |
| Bytes.ToBE | src/lib.rs:31-39 | `to_be_bytes`: exactly w bytes whose big-endian value (most significant byte first) is v, and which are the little-endian bytes in reverse order |
| Bytes.ReverseValue | src/lib.rs:31-39 | a little-endian byte string read backwards, most significant byte first, holds the same value |
| Bytes.FromLE | src/lib.rs:28-31 | the value of a little-endian byte string, least significant byte first; `Bytes.ToLE` and `Bytes.ToLEFromLE` make it the inverse of `to_le_bytes` at every width |
| Bytes.FromLEBound | src/lib.rs:43-48 | an n-byte little-endian string holds a value below 256^n |
| Bytes.ToLEFromLE | src/lib.rs:43-48 | every byte string is the little-endian form, at its own width, of the value it holds |
| Bytes.FromLEInjective | src/lib.rs:43-48 | two byte strings of equal length and equal value are equal |
| Bytes.MinBytesBounds | src/lib.rs:50-90 | the minimal byte count of v holds v, and one byte fewer does not (above one byte) |
| Bytes.MinBytesLeast | src/lib.rs:50-90 | v fits n bytes exactly when its minimal byte count is at most n |
| Primitive.ModulusPow | src/lib.rs:43-48 | a width's value count is 256 to the power of its byte count |
| Primitive.EncodeFixed | src/lib.rs:43-48 | a fixed-width integer is written in exactly its width's byte count, holding the integer's two's-complement residue |
| Primitive.FixedResidue | src/lib.rs:28 | the bytes of a signed or unsigned integer hold its value modulo 2^(8 * width) |
| Primitive.FromWindow | src/lib.rs:215 | every window of width-many bytes is the encoding of exactly one in-range integer |
| Primitive.DecodeFixed | src/lib.rs:215 | reading an integer succeeds exactly when its width's bytes remain, consumes exactly them, yields an in-range integer whose encoding they are, and otherwise fails with end of input |
| Primitive.FixedInjective | src/lib.rs:43-48 | distinct in-range integers never share an encoding |
| Primitive.FixedRoundTrip | src/lib.rs:215 | decoding an encoded integer gives it back and advances by its width |
| Primitive.EncodeBool | src/lib.rs:100-109 | a boolean is one byte: 0x01 for true, 0x00 for false |
| Primitive.DecodeBool | src/lib.rs:100-109 | only the bytes 0x00 and 0x01 decode, to the boolean they encode; any other byte is an invalid-boolean error, and an exhausted input is the end-of-input error |
| Primitive.BoolRoundTrip | src/lib.rs:100-109 | decoding an encoded boolean gives it back |
| Compact.EncodableBelow | src/lib.rs:50-90 | every value of at most 67 bytes, so every Rust integer value, has a compact encoding |
| Compact.EncodeCompact | src/lib.rs:50-90 | the mode is chosen by the value: 1 byte below 2^6, 2 below 2^14, 4 below 2^30, 5 or more above; the mode tag sits in the low two bits and the value sits in the remaining bits, or in the bytes after the count byte |
| Compact.FixedMode | src/lib.rs:69-89 | the two- and four-byte modes carry the tag in the low bits and the value in the bits above them |
| Compact.BigMode | src/lib.rs:50-90 | the big-integer mode announces the value's minimal byte count, minus 4, in the count byte, then holds the value |
| Compact.DecodeCompact | src/lib.rs:50-90 | a successful compact read advances and stays in the input; it fails only with end of input or a non-canonical mode |
| Compact.CompactDecodeExact | src/lib.rs:50-90 | every compact integer the decoder accepts is written exactly as the encoder writes it |
| Compact.FixedDecodeExact | src/lib.rs:69-89 | an accepted two- or four-byte compact integer is the encoder's bytes for its value |
| Compact.FixedModeExact | src/lib.rs:69-89 | a two- or four-byte window with a matching tag, holding a value too large for the next smaller mode, is that value's encoding |
| Compact.BigModeExact | src/lib.rs:50-90 | a big-mode window announcing the minimal byte count of a value of at least 2^30 is that value's encoding |
| Compact.CompactRoundTrip | src/lib.rs:50-90 | decoding a compact encoding gives the value back and consumes exactly the encoding, whatever follows |
| Compact.FixedModeRoundTrip | src/lib.rs:69-89 | the round trip for the two- and four-byte modes |
| Compact.BigModeRoundTrip | src/lib.rs:50-90 | the round trip for the big-integer mode |
| Compact.CompactCanonical | src/lib.rs:50-90 | the decoder yields n exactly when the bytes read are the shortest-mode encoding of n (both directions) |
| Compact.AcceptedIsCanonical | src/lib.rs:50-90 | one direction of the above: accepted bytes are canonical |
| Compact.CanonicalIsAccepted | src/lib.rs:50-90 | the other direction: canonical bytes are accepted |
| Compact.CompactInjective | src/lib.rs:50-90 | distinct values never share a compact encoding |
| Compact.CompactShortest | src/lib.rs:50-90 | below 2^30, whenever a 1-, 2- or 4-byte mode could hold n, the encoding is no longer than that mode |
| Utf8.EncodeChar | src/lib.rs:149-155 | a character takes one to four UTF-8 bytes, and one exactly when it is ASCII |
| Utf8.EncodeUtf8 | src/lib.rs:149-155 | a text's UTF-8 form is at least as long as the text |
| Utf8.DecodeChar | src/lib.rs:149-155 | a decoded character occupies one byte or more, all inside the input |
| Utf8.CharRoundTrip | src/lib.rs:149-155 | the first character of an encoded text is read back, with its byte length, whatever follows |
| Utf8.CharExact | src/lib.rs:149-155 | every well-formed sequence the decoder reads is the encoder's bytes for the character it yields (no overlong forms, no surrogates) |
| Utf8.DecodeUtf8 | src/lib.rs:149-155 | the `from_utf8` step of String decoding: by `Utf8.Utf8RoundTrip` it reads back every text's UTF-8 form, and by `Utf8.Utf8Exact` it accepts nothing else |
| Utf8.Utf8RoundTrip | src/lib.rs:149-155 | decoding the UTF-8 bytes of a text gives the text back |
| Utf8.FirstChar | src/lib.rs:149-155 | a non-empty well-formed byte string is one character's encoding followed by a well-formed rest |
| Utf8.Utf8Exact | src/lib.rs:149-155 | every byte string the decoder accepts is the UTF-8 encoding of the text it yields |
| Codec.HasType | src/lib.rs:92-205 | which values a type admits: in-range integers, well-typed payloads, one value per field, a valid variant index, and fewer than 2^32 elements or UTF-8 bytes in a collection; `CodecLaws.Exact` shows that everything the decoder yields is admitted |
| Codec.Encode | src/lib.rs:92-205 | `.encode()` of a well-typed value; its meaning is stated by `CodecLaws.RoundTrip` (decoding gives the value back) and `CodecLaws.Exact` (every accepted byte string is an encoding) |
| Codec.EncodeItems | src/lib.rs:133-147 | the elements of an array or Vec written one after another; `CodecLaws.RoundTripItems` and `CodecLaws.ExactItems` give its inverse |
| Codec.EncodeFields | src/lib.rs:157-205 | the fields of a tuple, struct or variant written one after another; `CodecLaws.RoundTripFields` and `CodecLaws.ExactFields` give its inverse |
| Codec.DecodeAll | src/lib.rs:220-227 | `decode_all`: by `CodecLaws.DecodeAllExact` it yields v exactly when the bytes are the encoding of v, and by `CodecLaws.TrailingDataRejected` it refuses leftover bytes |
| Codec.DecodeLength | src/lib.rs:141-155 | an accepted collection length fits a u32 and occupies at least one byte of the input |
| Codec.Decode | src/lib.rs:207-229 | a successful prefix decode ends inside the input, at or after the start |
| Codec.DecodeItems | src/lib.rs:133-147 | a successful decode of n elements yields exactly n of them |
| Codec.DecodeFields | src/lib.rs:157-205 | a successful decode of fields yields one value per field type |
| CodecLaws.RoundTrip | src/lib.rs:92-215 | for every type and every value of it, decoding its encoding, wherever it sits, gives the value back and the position just after it |
| CodecLaws.RoundTripScalar | src/lib.rs:43-155 | the round trip for unit, bool, integers, compact integers and strings |
| CodecLaws.RoundTripTagged | src/lib.rs:111-205 | the round trip for Option, Result and enums |
| CodecLaws.RoundTripSequence | src/lib.rs:133-178 | the round trip for arrays, Vecs, tuples and structs |
| CodecLaws.RoundTripCompact | src/lib.rs:50-90 | the round trip for compact values of any width |
| CodecLaws.RoundTripOption | src/lib.rs:122-131 | the round trip for Option: tag 0 for None, tag 1 then the payload for Some |
| CodecLaws.SomeStep | src/lib.rs:122-126 | proof step of `CodecLaws.RoundTripOption`: tag 1 followed by a decodable payload decodes as Some of that payload |
| CodecLaws.RoundTripResult | src/lib.rs:111-120 | the round trip for Result: tag 0 then Ok, tag 1 then Err |
| CodecLaws.ResultStep | src/lib.rs:111-120 | proof step of `CodecLaws.RoundTripResult`: tag 0 followed by a payload decodes as Ok of it, and tag 1 as Err of it |
| CodecLaws.RoundTripVec | src/lib.rs:141-147 | the round trip for Vec: length, then elements |
| CodecLaws.VecStep | src/lib.rs:141-147 | proof step of `CodecLaws.RoundTripVec`: a length that fits a u32 followed by that many decodable elements decodes as the Vec of those elements |
| CodecLaws.RoundTripString | src/lib.rs:149-155 | the round trip for String: length, then UTF-8 bytes |
| CodecLaws.StringStep | src/lib.rs:149-155 | proof step of `CodecLaws.RoundTripString`: a length followed by that many well-formed UTF-8 bytes decodes as the text they spell |
| CodecLaws.RoundTripEnum | src/lib.rs:180-205 | the round trip for enums: variant index, then fields |
| CodecLaws.RoundTripItems | src/lib.rs:133-147 | a run of encoded elements decodes back to the elements |
| CodecLaws.DecodeItemsStep | src/lib.rs:133-147 | proof step of `CodecLaws.RoundTripItems`: decoding a run of elements is decoding the first, then the rest |
| CodecLaws.RoundTripFields | src/lib.rs:157-205 | a run of encoded fields decodes back to the fields |
| CodecLaws.DecodeFieldsStep | src/lib.rs:157-205 | proof step of `CodecLaws.RoundTripFields`: decoding fields is decoding the first, then the rest |
| CodecLaws.Exact | src/lib.rs:207-229 | whatever the decoder accepts is a well-typed value, and the bytes it consumed are exactly that value's encoding |
| CodecLaws.ExactScalar | src/lib.rs:43-155 | exactness for unit, bool, integers, compact integers and strings |
| CodecLaws.ExactTagged | src/lib.rs:111-205 | exactness for Option, Result and enums |
| CodecLaws.ExactSequence | src/lib.rs:133-178 | exactness for arrays, Vecs, tuples and structs |
| CodecLaws.ExactCompact | src/lib.rs:50-90 | exactness for compact values |
| CodecLaws.ExactOption | src/lib.rs:122-131 | exactness for Option |
| CodecLaws.ExactResult | src/lib.rs:111-120 | exactness for Result |
| CodecLaws.ExactVec | src/lib.rs:141-147 | exactness for Vec |
| CodecLaws.ExactString | src/lib.rs:149-155 | exactness for String: an accepted string's bytes are its length and its UTF-8 form |
| CodecLaws.LengthRoundTrip | src/lib.rs:141-155 | a collection length below 2^32, written as a compact integer by `Codec.EncodeLength`, is read back wherever it sits, and the read stops just after it |
| CodecLaws.LengthExact | src/lib.rs:141-155 | an accepted collection length is written as the encoder writes lengths |
| CodecLaws.ExactEnum | src/lib.rs:180-205 | exactness for enums |
| CodecLaws.VariantExact | src/lib.rs:180-205 | proof step of `CodecLaws.ExactEnum`: a variant index byte followed by the encoding of that variant's fields is the encoding of the enum value |
| CodecLaws.ExactItems | src/lib.rs:133-147 | accepted elements are well typed and consumed exactly their encodings |
| CodecLaws.ExactFields | src/lib.rs:157-205 | accepted fields are well typed and consumed exactly their encodings |
| CodecLaws.PrefixDecode | src/lib.rs:215-226 | prefix mode: decoding an encoding followed by anything yields the value and leaves the rest unread |
| CodecLaws.DecodeAllExact | src/lib.rs:220-227 | total mode: a byte string decodes to v exactly when it is the encoding of v |
| CodecLaws.TrailingDataRejected | src/lib.rs:220-227 | total mode refuses an encoding followed by further bytes, with the trailing-data error |
| CodecLaws.EncodeInjective | src/lib.rs:92-205 | distinct values of one type never share an encoding |
| CodecLaws.StructIsTuple | src/lib.rs:157-178 | a struct admits the same values as the tuple of its field types and writes the same bytes, whatever its field names |
| CodecLaws.ArrayIsTuple | src/lib.rs:133-139 | an array is written as a tuple of its elements: no length, no separators |
| CodecLaws.VecIsLengthThenArray | src/lib.rs:141-147 | a Vec is its compact length followed by the array of its elements |
| CodecLaws.BytesAsItems | src/lib.rs:149 | a byte string is a well-typed list of u8 values, written as its own bytes |
| CodecLaws.StringIsByteVec | src/lib.rs:149-155 | a String is written as the Vec<u8> of its UTF-8 bytes |
| CodecLaws.CompactWidthIndependent | src/lib.rs:55-89 | a compact value's bytes do not depend on its storage width |
| CodecLaws.FixedWidthSize | src/lib.rs:43-48 | a fixed-width integer takes its declared width whatever its magnitude |
| Vectors.LittleVsBigEndian | src/lib.rs:26-40 | 69i8 is [45]; 42u16 is [2a, 00] little-endian and [00, 2a] big-endian; 16777215u32 is [ff, ff, ff, 00] little-endian and [00, ff, ff, ff] big-endian |
| Vectors.FixedWidthIntegers | src/lib.rs:43-48 | 69i8 encodes as [45], 42u16 as [2a, 00], 16777215u32 as [ff, ff, ff, 00] |
| Vectors.CompactZero | src/lib.rs:55-59 | 0 as u8, u32 and compact of both widths |
| Vectors.Compact42 | src/lib.rs:61-67 | 42 as u8, u32 and compact: [2a], [2a, 00, 00, 00], [a8] |
| Vectors.Compact69 | src/lib.rs:69-75 | 69 as u8, u32 and compact: [45], [45, 00, 00, 00], [15, 01] |
| Vectors.Compact65535 | src/lib.rs:77-89 | 65535 as u16, u32 and compact: [ff, ff], [ff, ff, 00, 00], [fe, ff, 03, 00] |
| Vectors.CompactVectors | src/lib.rs:50-90 | every assertion of the compact test; the compact bytes agree across widths |
| Vectors.EncodeUnit | src/lib.rs:92-98 | unit encodes as no bytes, rendered "0x" |
| Vectors.EncodeBoolean | src/lib.rs:100-109 | true is [01] ("0x01") and false is [00] ("0x00") |
| Vectors.EncodeOkErr | src/lib.rs:111-120 | Ok(42) as Result<u32, ()> is [00, 2a, 00, 00, 00]; Err(()) is [01]; both rendered |
| Vectors.OkBytes | src/lib.rs:113-114 | the bytes of Ok(42) |
| Vectors.SomeNone | src/lib.rs:122-131 | Some(42u32) is [01, 2a, 00, 00, 00]; None is [00]; both rendered |
| Vectors.SomeBytes | src/lib.rs:124-125 | the bytes of Some(42u32) |
| Vectors.EncodeArray | src/lib.rs:133-139 | [1u8, 2, 3] is [01, 02, 03], rendered "0x010203" |
| Vectors.EncodeVector | src/lib.rs:141-147 | vec![0u8, 1, 2, 3, 4] is [14, 00, 01, 02, 03, 04], rendered "0x140001020304" |
| Vectors.VectorBytes | src/lib.rs:144-145 | the bytes of vec![0u8, 1, 2, 3, 4] |
| Vectors.EncodeString | src/lib.rs:149-155 | "hello" is [14, 68, 65, 6c, 6c, 6f], rendered "0x1468656c6c6f" |
| Vectors.StringBytes | src/lib.rs:152-153 | the bytes of "hello" |
| Vectors.ExampleFieldBytes | src/lib.rs:166-167 | the fields (0u8, true, Some(69u32)) are written as [00, 01, 01, 45, 00, 00, 00] |
| Vectors.TupleStruct | src/lib.rs:157-178 | the tuple and the derived struct with the same fields both encode as [00, 01, 01, 45, 00, 00, 00] |
| Vectors.SecondBytes | src/lib.rs:194-195 | Second(2) is [01, 02] |
| Vectors.ThirdBytes | src/lib.rs:198-199 | Third(vec![0, 1, 2, 3, 4]) is [02, 14, 00, 01, 02, 03, 04] |
| Vectors.UnitVariantBytes | src/lib.rs:190-203 | First is [00] and Fourth is [03] |
| Vectors.Enumeration | src/lib.rs:180-205 | every assertion of the enum test: index byte then fields, bytes and renderings |
| Vectors.SampleBytes | src/lib.rs:209-213 | the array [0u8, 1, 2, 3] encodes as its own four bytes |
| Vectors.SampleOutput | src/lib.rs:214 | those bytes render as "0x00010203" |
| Vectors.SampleAsU32 | src/lib.rs:215 | as a u32 they decode to 50462976 (0x03020100), consuming all four |
| Vectors.SampleAsU16 | src/lib.rs:219-226 | as a u16 they decode, in prefix mode, to 256 and leave two bytes |
| Vectors.SampleTrailing | src/lib.rs:220-227 | as a u16 in total mode they fail with trailing data |
| Vectors.SampleTooShort | src/lib.rs:221-228 | as a u64 they fail for lack of input |
| Vectors.SampleDecodes | src/lib.rs:215-228 | all four decode outcomes of the decode test |
| Vectors.SampleValueBytes | src/lib.rs:210-223 | the u32 50462976 is written as [00, 01, 02, 03], as the recorded output of `value.encode()` shows |
| Vectors.DecodeVectors | src/lib.rs:207-229 | every assertion and recorded outcome of the decode test, including that the u32 50462976 is written as the array's four bytes |
| Vectors.CompactBoundaries | src/lib.rs:50-90 | the compact length changes at 2^6, 2^14 and 2^30, and 2^30 takes the five-byte big mode |

## Left out

- The `#[derive(Encode)]` macros (src/lib.rs:5-10, 52-53, 159, 182) are not modelled as code generation. A derived struct is the schema `TStruct`, a derived enum is `TEnum` with its variants in declaration order, and the `AsCompact` wrapper is `TCompact`. The unused struct at lines 5-10 is not modelled.
- `format!("{:b}", …)` (src/lib.rs:27, 29, 32) renders a number in binary. It is not modelled: it is string formatting of the integer itself, not part of the codec.
- `format!("{:02x?}", …)` on a byte list (for example src/lib.rs:28, 96, 103) is not modelled as a string. The model states the asserted bytes directly. Per-byte `{:02x?}` inside `output` is modelled (`Hex.HexByte`).
- `String::with_capacity` (src/lib.rs:16) is only an allocation hint. `Hex.OutputFold` starts from the empty string.
- The library's error values carry message strings (src/lib.rs:227-228). The model has abstract error kinds (`EndOfInput`, `TrailingData`, …) and does not model the messages.
- Decoding from a mutable `&mut &[u8]` input is modelled as a pure function of the bytes and a cursor position. The position returned is where the input would be left.
- Only the types the tests use are modelled. Other `parity_scale_codec` types are not part of this model: maps, sets, `Box`, `Cow`, `char`, floating point, `Compact` wrappers of structs, and custom codec attributes.
- Compact mode 3 (values of 2^30 and above) and 128-bit integers never appear in the tests. The model includes them, with payloads up to 67 bytes, as the SCALE format defines them. Nothing in the source pins their bytes down beyond the format.
- Compact decoding is strict, as the crate's decoder is: an integer written in a longer mode than needed is rejected as `NonCanonical`. A looser reading would accept any mode that round-trips. The model follows the crate, which only accepts canonical forms.
- Codec.Encode: its precondition `HasType` admits only Vec and String values with fewer than 2^32 elements or bytes. The crate panics when asked to encode a longer collection, because the length does not fit its `Compact<u32>` prefix; the model leaves that panic out by excluding those values.
- Codec.Decode: its own contract only bounds the position. What it decodes is stated by `CodecLaws.RoundTrip` and `CodecLaws.Exact`.
- Codec.DecodeItems: its own contract only counts the elements. Their values are stated by `CodecLaws.RoundTripItems` and `CodecLaws.ExactItems`.
- Codec.DecodeFields: its own contract only counts the fields. Their values are stated by `CodecLaws.RoundTripFields` and `CodecLaws.ExactFields`.
- Utf8.EncodeUtf8: its own contract only bounds the length. Its meaning is stated by `Utf8.Utf8RoundTrip` and `Utf8.Utf8Exact`.
- Utf8.DecodeChar: its own contract only bounds the length read. What it reads is stated by `Utf8.CharRoundTrip` and `Utf8.CharExact`.
