# Data inspector decoders

This project models the byte decoders behind the hex editor's data inspector
(`media/editor/dataInspectorProperties.tsx`). The inspector shows the bytes
under the cursor as integers of several widths and as varints. The model covers:

- `getUint24`, the 24-bit reader, in both byte orders, and the `int24` entry's
  two's-complement reading of its result (module `ThreeByte`);
- `getUVarInt`, which decodes unsigned LEB128 for at most `MaxVarintLen64 = 10`
  bytes and flags a tenth byte that overflows 64 bits. It is modelled as a method
  with a loop, proved against the function `UVarint`;
- `getVarInt`, its zig-zag signed form, also a method, proved against `VarintSpec`
  (module `Varints`);
- the 32-bit JavaScript meaning of `|`, `<<`, `>>` and `~` in those decoders, and
  the point where it departs from the mathematical decoder (modules `JsBits` and
  `JsVarint`);
- the `inspectableTypes` registry: its order, its labels, its `minBytes` column,
  and the conversion of every integer entry, including the RangeError a
  `DataView` getter throws on a short buffer (module `Inspector`).

Shared pieces:

- Bytes are `Byte = 0..255`.
- A buffer is a `seq<Byte>` and is always read from byte 0.
- Little- and big-endian readings, and two's complement, are in module `Bytes`.
- Decimal rendering and its inverse are in module `Render`.

## Model

| member | source | states |
|---|---|---|
| ThreeByte.GetUint24 | media/editor/dataInspectorProperties.tsx:4-7 | the result lies in [0, 2^24) for every buffer, short ones included |
| ThreeByte.Uint24Assembles | media/editor/dataInspectorProperties.tsx:6 | the bitwise-or and shift assembly equals b0 + 256*b1 + 65536*b2 little-endian and 65536*b0 + 256*b1 + b2 big-endian |
| ThreeByte.Uint24IsStandard | media/editor/dataInspectorProperties.tsx:4-7 | with three bytes present, getUint24 is the standard unsigned 24-bit reading in the chosen byte order |
| ThreeByte.Uint24ShortBuffer | media/editor/dataInspectorProperties.tsx:5-6 | bytes missing from a short buffer read as zero |
| ThreeByte.Uint24RoundTrip | media/editor/dataInspectorProperties.tsx:4-7 | encoding any v < 2^24 in three bytes and reading it back gives v, whatever follows |
| ThreeByte.Uint24Examples | media/editor/dataInspectorProperties.tsx:6 | [1,0,0] reads as 1 little-endian and 65536 big-endian |
| ThreeByte.Int24 | media/editor/dataInspectorProperties.tsx:83-87 | the int24 reading lies in [-2^23, 2^23) |
| ThreeByte.Int24Value | media/editor/dataInspectorProperties.tsx:84-86 | int24 is u - 2^24 when bit 23 of u = getUint24 is set, and u otherwise |
| ThreeByte.Int24IsStandard | media/editor/dataInspectorProperties.tsx:83-87 | with three bytes present, int24 is the standard 24-bit two's-complement reading |
| ThreeByte.Int24RoundTrip | media/editor/dataInspectorProperties.tsx:83-87 | every 24-bit signed value, encoded in two's complement, reads back as itself |
| ThreeByte.Int24Examples | media/editor/dataInspectorProperties.tsx:83-87 | [FF,FF,FF] reads as -1 in both byte orders |
| Varints.ScanLength | media/editor/dataInspectorProperties.tsx:37-49 | size is in [1, 10]; it is 1 plus the index of the first byte below 0x80 among the first ten, and it is 10 exactly when the first nine all continue |
| Varints.GetUVarInt | media/editor/dataInspectorProperties.tsx:32-50 | the loop returns the value, size and annotation of UVarint, on every path including the early returns |
| Varints.UVarintStopsAt | media/editor/dataInspectorProperties.tsx:39-45 | when byte i is the first to end the encoding, the result is the sum of payload_j * 128^j, or the overflow result when i = 9 and the byte exceeds 1 |
| Varints.UVarintLocal | media/editor/dataInspectorProperties.tsx:37-49 | two buffers that agree on the bytes read give the same result |
| Varints.IgnoresTrailingBytes | media/editor/dataInspectorProperties.tsx:37-49 | bytes after the terminating byte never affect the result |
| Varints.ReadsAtMostTenBytes | media/editor/dataInspectorProperties.tsx:37 | bytes beyond index 9 never affect the result |
| Varints.MissingBytesReadAs0x80 | media/editor/dataInspectorProperties.tsx:39-46 | a position past the end of the buffer acts as a continuation byte with zero payload |
| Varints.UVarintBound | media/editor/dataInspectorProperties.tsx:40-47 | the value is below 2^(7*size) |
| Varints.OverflowCase | media/editor/dataInspectorProperties.tsx:41-42 | a tenth terminating byte above 1 gives the accumulator without that byte, size 10, the overflow flag, and "overflows" in the text |
| Varints.UnterminatedCase | media/editor/dataInspectorProperties.tsx:49 | ten continuation bytes give size 10, the payloads of all ten, no overflow flag and no "overflows" in the text |
| Varints.TextFlagsOverflow | media/editor/dataInspectorProperties.tsx:42-44 | the annotation ends in ", overflows)" exactly when the result is flagged overflow |
| Varints.SingularExactlyForOneByte | media/editor/dataInspectorProperties.tsx:36-49 | the unit word is "byte" exactly when size is 1, in the plain annotation and in the overflow annotation alike |
| Varints.UVarintExamples | media/editor/dataInspectorProperties.tsx:40-47 | [0x00] gives 0 in 1 byte and [0x96,0x01] gives 150 in 2 bytes |
| Varints.TextExamples | media/editor/dataInspectorProperties.tsx:42-44 | the annotations read "0 (1 byte)", "150 (2 bytes)" and "0, (10 bytes, overflows)" |
| Varints.OverflowExample | media/editor/dataInspectorProperties.tsx:41-42 | nine 0x80 bytes followed by 0x02 are flagged overflow with value 0 |
| Varints.Leb128Canonical | media/editor/dataInspectorProperties.tsx:40-47 | the LEB128 encoding of n sets the continuation bit on every byte but the last, has no redundant final zero, and uses the least number of 7-bit groups that hold n |
| Varints.Leb128Fits | media/editor/dataInspectorProperties.tsx:37-42 | every value below 2^64 takes at most ten bytes, and a tenth byte is at most 1, so it never trips the overflow test |
| Varints.Leb128RoundTrip | media/editor/dataInspectorProperties.tsx:32-50 | decoding the LEB128 encoding of any n < 2^64 gives n and the encoding's length, without overflow, whatever follows |
| Varints.DecodeThenEncode | media/editor/dataInspectorProperties.tsx:32-50 | a terminated, canonical, non-overflowing encoding is the LEB128 encoding of its decoded value |
| Varints.ZigZagDecode | media/editor/dataInspectorProperties.tsx:54-57 | the signed value is non-negative exactly when u is even, and twice it lies between -u-1 and u |
| Varints.ZigZagRoundTrip | media/editor/dataInspectorProperties.tsx:54-57 | zig-zag encoding then decoding gives back any integer |
| Varints.ZigZagDecodeRoundTrip | media/editor/dataInspectorProperties.tsx:54-57 | zig-zag decoding then encoding gives back any natural |
| Varints.GetVarInt | media/editor/dataInspectorProperties.tsx:52-60 | the method returns the value, size and annotation of VarintSpec: the zig-zag decoding of the unsigned result, with its size |
| Varints.VarintRoundTrip | media/editor/dataInspectorProperties.tsx:52-60 | every signed 64-bit x, zig-zag encoded and then LEB128 encoded, decodes back to x |
| Varints.VarintNeverFlagsOverflow | media/editor/dataInspectorProperties.tsx:58-59 | the signed annotation never carries the overflow marker, and its size is the unsigned size |
| JsVarint.JsUVarintAgreesUpToFourBytes | media/editor/dataInspectorProperties.tsx:44-46 | with 32-bit bitwise or and `<<`, the loop equals the mathematical decoder for encodings of at most four bytes |
| JsVarint.JsVarintAgreesUpToFourBytes | media/editor/dataInspectorProperties.tsx:52-60 | with 32-bit `>>`, `&` and `~`, getVarInt equals the mathematical zig-zag decoder for encodings of at most four bytes |
| JsVarint.JsWrapsAt2To31 | media/editor/dataInspectorProperties.tsx:44-57 | the five-byte encoding of 2^31 decodes, as written, to -2^31, and to -2^30 as a varint |
| Inspector.MinBytes | media/editor/dataInspectorProperties.tsx:72-120 | every entry needs between 1 and 8 bytes |
| Inspector.FixedIntegersAreStandard | media/editor/dataInspectorProperties.tsx:73-94 | each fixed-width integer entry shows the standard little- or big-endian, unsigned or two's-complement value of its first minBytes bytes |
| Inspector.EightBitIgnoresEndianness | media/editor/dataInspectorProperties.tsx:73-74 | the uint8 and int8 entries do not depend on the byte order |
| Inspector.MinBytesSuffice | media/editor/dataInspectorProperties.tsx:72-100 | no modelled entry fails when given minBytes bytes |
| Inspector.MinBytesNecessary | media/editor/dataInspectorProperties.tsx:72-100 | a DataView entry throws RangeError exactly when the buffer is shorter than its minBytes; the 24-bit and varint entries never throw |
| Inspector.IndexOf | media/editor/dataInspectorProperties.tsx:72-120 | each type has a position in the table holding it |
| Inspector.TableListsEachTypeOnce | media/editor/dataInspectorProperties.tsx:72-120 | the table lists every type, each exactly once |
| Inspector.FromLabelInvertsLabel | media/editor/dataInspectorProperties.tsx:72-120 | each entry's label reads back as that entry |
| Inspector.LabelsAreDistinct | media/editor/dataInspectorProperties.tsx:72-120 | no two entries share a label |
| Bytes.UnsignedRoundTrip | media/editor/dataInspectorProperties.tsx:76-94 | re-encoding the unsigned reading of n bytes gives those n bytes back, in both byte orders |
| Bytes.TwosComplementRoundTrip | media/editor/dataInspectorProperties.tsx:74-93 | reading a two's-complement pattern back gives the signed value |
| Render.DecimalRoundTrip | media/editor/dataInspectorProperties.tsx:73-100 | the decimal text standing in for `toString()` reads back as the number it shows |

## Left out

- The float32 and float64 entries (lines 96-97): IEEE-754 floating point is not modelled. Only their minBytes is kept.
- The UTF-8 and UTF-16 entries (lines 102-119): they depend on the external `TextDecoder`, on replacement-character handling and on iterating by code point. Only their minBytes is kept.
- Inspector.Convert: requires IsModelled(t), because of the two omissions above.
- Varints.UVarint: uses unbounded integers, so it is exact only while the result fits in 31 bits. JsVarint proves that the two decoders agree for encodings of at most four bytes, and shows them part at 2^31 (see Findings).
- Varints.VarintSpec: the same holds for the `>>`, `&` and `~` of getVarInt.
- `toString()`, `String(x)` and template literals: modelled as Render.Decimal, which is enough for integral values.
- The overflow annotation has an extra comma after the value (line 42): it is modelled as written.
- The `IInspectableType` interface, the `DataView` object and the `ArrayBuffer` plumbing (lines 63-70): a conversion takes a tag, a byte sequence and the byte order instead.
- The window always starts at byte 0, because `convert` reads `dv.buffer` (lines 79, 84, 99, 100).
- The commented-out `getUint40`, `getUint48`, `getUint56` and `lshift` (lines 9-30): they are dead code.

## Findings

| source | as written | input that shows it | evidently intended | confidence | as-written member | corrected member |
|---|---|---|---|---|---|---|
| media/editor/dataInspectorProperties.tsx:44-46 | the bitwise or and `<<` work on signed 32-bit values, and `<<` takes `s` modulo 32 | [0x80, 0x80, 0x80, 0x80, 0x08], the LEB128 encoding of 2^31: as written it decodes to -2^31, and getVarInt shows -2^30 | the mathematical LEB128 value 2^31, with zig-zag reading 2^30, exact up to 64 bits as `MaxVarintLen64` implies | medium, not executed | JsVarint.JsWrapsAt2To31 | Varints.Leb128RoundTrip |
