# OPC UA binary codec helpers, modelled in Dafny

This project models the lowest layer of the OPC UA binary encoding in the
`opcua` Rust crate, the helpers in `core/src/types/helpers.rs`. It has three
parts, each in its own module:

- **Error translation** (`EncodingResults`). An I/O result becomes an
  `EncodingResult`. Every write failure becomes `BadEncoding`, every read
  failure becomes `BadDecoding`, and a success keeps its value.
- **Fixed-width integers** (`Integers`, `LittleEndian`, `Primitives`).
  `write_u8` … `write_u64` each write one buffer of exactly the type's width,
  in little-endian byte order and two's complement for signed types.
  `read_bytes` and `read_u8` … `read_u64` read exactly that many bytes back.
  A short read is a `BadDecoding`, never a partial value.
- **Optional arrays** (`Arrays`). An array is written as an Int32 element
  count followed by the elements, with `-1` for an absent array, so absent
  and empty stay distinct (section 5.2.5 of OPC 10000-6). `byte_len_array`
  predicts the size, `write_array` writes it, and `read_array` reads it back.

The stream is a class `Streams.ByteStream`:

- `data` holds every byte written so far and `pos` how many have been read.
- `capacity` bounds the stream, so a write that does not fit fails.
- `Write` appends a whole buffer or fails with nothing appended.
- `ReadExact` fills a buffer or fails. A failed `ReadExact` moves `pos` to
  the end, as a cursor does.

Element types reach the array codec through the crate's `BinaryEncoder`
trait. Here that trait is a datatype, `Arrays.ElementCodec<T>`, holding three
functions:

- `byteLen`, the element's reported size;
- `encode`, its bytes;
- `decode`, which takes the unread bytes and returns the value and the number
  of bytes it consumed.

Three ghost predicates state the laws a well-behaved element type keeps:

- `DecodeWithinInput`: decoding never consumes more bytes than it is given.
- `LengthMatchesEncoding`: the reported size is the encoding's length.
- `DecodeInvertsEncode`: decoding an encoding gives the value back and
  consumes exactly the encoding.

`Arrays.UInt16Codec` is one concrete element codec. It is built from
`LeBytes` and `LeValue`, the functions that specify `WriteUInt16` and
`ReadUInt16`, and it is proved to keep all three laws.

What is proved, in brief:

- **Integers.** Every integer width round-trips through a new stream that
  already holds some bytes, has read all of them, and has room for at least
  the value. On any stream, the bytes written are the value's little-endian
  (two's complement) form, and a read gives back the value of the bytes it
  consumed. `-1` as an Int32 is `FF FF FF FF`. A short read is a
  `BadDecoding`.
- **Predicted size.** `byte_len_array` is 4 plus the elements' reported
  sizes. When elements report their size truthfully, that is exactly the
  number of bytes `write_array` writes and returns.
- **Write failures.** `write_array` either writes the whole wire form, or
  stops at the first buffer that does not fit. It then returns `BadEncoding`,
  having written exactly the buffers before that one.
- **Read failures.** `read_array` reads exactly the wire form back.
  Otherwise it returns `BadDecoding`, and an element that fails loses the
  whole array (no partial array).
- **Round trip.** `read_array` after `write_array` gives back the absent,
  empty or populated array, for any element codec that keeps the laws.
- **Absent versus empty.** Absent is written as `FF FF FF FF` and empty as
  `00 00 00 00`.
- **Concrete encoding.** `Some([1u16, 256u16])` is written as
  `02 00 00 00 01 00 00 01`.
- **Negative counts.** A count of `-1` reads as absent. Any other negative
  count reads as an empty array, because the range `0..len` is then empty.
- **Count wrap-around.** The count `len() as i32` wraps modulo 2^32. An array
  of 2^32 − 1 elements is therefore written with the absent array's prefix.

The code gives `-1` a meaning of its own: the absent array. At
`for _ in 0..len` (line 60) it reads every other negative count as an empty
array. The model follows the code (`Arrays.OtherNegativeCountIsEmpty`).

The files are `integers.dfy`, `little_endian.dfy`, `encoding_result.dfy`,
`streams.dfy`, `primitives.dfy` and `arrays.dfy`, one module each.

## Model

| member | source | states |
|---|---|---|
| EncodingResults.ProcessEncodeIoResult | core/src/types/helpers.rs:9-16 | the result is Ok exactly when the I/O result is, with the same byte count; every I/O error becomes BadEncoding |
| EncodingResults.ProcessDecodeIoResult | core/src/types/helpers.rs:19-26 | the result is Ok exactly when the I/O result is, with the same value; every I/O error becomes BadDecoding |
| LittleEndian.LeBytes | core/src/types/helpers.rs:78-106 | the unsigned value as exactly `w` bytes, least significant first; their little-endian value is the value written |
| LittleEndian.LeValue | core/src/types/helpers.rs:140-173 | the unsigned little-endian value of a byte string is below 256^length |
| LittleEndian.LeBytesOfLeValue | core/src/types/helpers.rs:140-145 | re-encoding the value read from any bytes gives those same bytes, so little-endian encoding and decoding are inverse both ways |
| LittleEndian.ToTwosComplement | core/src/types/helpers.rs:72-100 | the signed value reduced modulo 256^w, in range |
| LittleEndian.FromTwosComplement | core/src/types/helpers.rs:133-166 | the signed value of a w-byte pattern is in the signed range, congruent to the pattern, and negative exactly when the top bit is set |
| LittleEndian.EncodeSigned | core/src/types/helpers.rs:72-100 | a signed value as exactly `w` two's-complement little-endian bytes, which decode back to the value |
| LittleEndian.DecodeSigned | core/src/types/helpers.rs:133-166 | the signed value of a byte pattern lies in the signed range of its width |
| LittleEndian.SignedBytesRoundTrip | core/src/types/helpers.rs:133-138 | re-encoding the signed value read from any bytes gives those same bytes |
| LittleEndian.MinusOneInt32 | core/src/types/helpers.rs:48 | -1 as an Int32 is FF FF FF FF |
| Streams.ByteStream.Write | core/src/types/helpers.rs:69 | the whole buffer is appended and its length returned when it fits, otherwise StorageFull and nothing is appended; the read position is unchanged |
| Streams.ByteStream.ReadExact | core/src/types/helpers.rs:121 | when enough bytes remain, the buffer receives the next bytes and the position advances by its length; otherwise UnexpectedEof, the buffer is unchanged and the position moves to the end |
| Primitives.WriteUInt8 | core/src/types/helpers.rs:67-70 | one byte, the value, is appended and 1 returned, or BadEncoding with nothing appended |
| Primitives.WriteInt16 | core/src/types/helpers.rs:72-76 | the 2-byte two's-complement little-endian form is appended and 2 returned, or BadEncoding with nothing appended |
| Primitives.WriteUInt16 | core/src/types/helpers.rs:78-82 | the 2-byte little-endian form is appended and 2 returned, or BadEncoding with nothing appended |
| Primitives.WriteInt32 | core/src/types/helpers.rs:84-88 | the 4-byte two's-complement little-endian form is appended and 4 returned, or BadEncoding with nothing appended |
| Primitives.WriteUInt32 | core/src/types/helpers.rs:90-94 | the 4-byte little-endian form is appended and 4 returned, or BadEncoding with nothing appended |
| Primitives.WriteInt64 | core/src/types/helpers.rs:96-100 | the 8-byte two's-complement little-endian form is appended and 8 returned, or BadEncoding with nothing appended |
| Primitives.WriteUInt64 | core/src/types/helpers.rs:102-106 | the 8-byte little-endian form is appended and 8 returned, or BadEncoding with nothing appended |
| Primitives.ReadBytes | core/src/types/helpers.rs:120-124 | the buffer is filled from the stream and its length returned, or BadDecoding on a short read |
| Primitives.ReadUInt8 | core/src/types/helpers.rs:126-131 | succeeds exactly when a byte remains, and returns the byte consumed; otherwise BadDecoding |
| Primitives.ReadInt16 | core/src/types/helpers.rs:133-138 | succeeds exactly when 2 bytes remain, and returns the signed value of the bytes consumed; otherwise BadDecoding |
| Primitives.ReadUInt16 | core/src/types/helpers.rs:140-145 | succeeds exactly when 2 bytes remain, and returns the little-endian value of the bytes consumed; otherwise BadDecoding |
| Primitives.ReadInt32 | core/src/types/helpers.rs:147-152 | succeeds exactly when 4 bytes remain, and returns the signed value of the bytes consumed; otherwise BadDecoding |
| Primitives.ReadUInt32 | core/src/types/helpers.rs:154-159 | succeeds exactly when 4 bytes remain, and returns the little-endian value of the bytes consumed; otherwise BadDecoding |
| Primitives.ReadInt64 | core/src/types/helpers.rs:161-166 | succeeds exactly when 8 bytes remain, and returns the signed value of the bytes consumed; otherwise BadDecoding |
| Primitives.ReadUInt64 | core/src/types/helpers.rs:168-173 | succeeds exactly when 8 bytes remain, and returns the little-endian value of the bytes consumed; otherwise BadDecoding |
| Primitives.UInt8RoundTrip | core/src/types/helpers.rs:126-131 | writing a u8 on a new stream that has read all its prior bytes and has room for it, then reading it back, gives the value, one byte consumed |
| Primitives.Int16RoundTrip | core/src/types/helpers.rs:133-138 | writing an i16 on a new stream that has read all its prior bytes and has room for it, then reading it back, gives the value, two bytes consumed |
| Primitives.UInt16RoundTrip | core/src/types/helpers.rs:140-145 | writing a u16 on a new stream that has read all its prior bytes and has room for it, then reading it back, gives the value, two bytes consumed |
| Primitives.Int32RoundTrip | core/src/types/helpers.rs:147-152 | writing an i32 on a new stream that has read all its prior bytes and has room for it, then reading it back, gives the value, four bytes consumed |
| Primitives.UInt32RoundTrip | core/src/types/helpers.rs:154-159 | writing a u32 on a new stream that has read all its prior bytes and has room for it, then reading it back, gives the value, four bytes consumed |
| Primitives.Int64RoundTrip | core/src/types/helpers.rs:161-166 | writing an i64 on a new stream that has read all its prior bytes and has room for it, then reading it back, gives the value, eight bytes consumed |
| Primitives.UInt64RoundTrip | core/src/types/helpers.rs:168-173 | writing a u64 on a new stream that has read all its prior bytes and has room for it, then reading it back, gives the value, eight bytes consumed |
| Arrays.ElementCodec | core/src/types/helpers.rs:29 | the `BinaryEncoder` bound on array elements: an element's reported size, its bytes, and a decoder from the unread bytes to a value and the count consumed |
| Arrays.LengthPrefix | core/src/types/helpers.rs:43 | `len() as i32`: the count itself below 2^31, and in every case congruent to it modulo 2^32 |
| Arrays.EncodeElements | core/src/types/helpers.rs:44-46 | the bytes the element loop appends: each element's encoding, in order, with nothing between them |
| Arrays.ArrayBytes | core/src/types/helpers.rs:40-51 | the wire form of an absent array is FF FF FF FF; a present one is 4 bytes longer than its elements' encodings |
| Arrays.SumByteLen | core/src/types/helpers.rs:32-34 | the sum the size loop adds to 4: each element's reported size, in order |
| Arrays.FitElements | core/src/types/helpers.rs:44-46 | the number of leading elements whose encodings fit in the room left, stopping at the first that overflows |
| Arrays.PartialArrayBytes | core/src/types/helpers.rs:43-48 | what a failed write_array leaves written never exceeds the room there was |
| Arrays.ParseElements | core/src/types/helpers.rs:59-62 | parsing n elements yields n values and a position within the data |
| Arrays.ParseArray | core/src/types/helpers.rs:54-65 | a successful parse consumes at least the 4-byte count and stays within the data |
| Arrays.EncodeElementsPrefixStep | core/src/types/helpers.rs:44-46 | encoding one more element appends that element's encoding |
| Arrays.EncodeElementsPrefixMonotone | core/src/types/helpers.rs:44-46 | the encoding of a longer prefix of elements is never shorter |
| Arrays.FitElementsUnique | core/src/types/helpers.rs:44-45 | the first element whose write overflows is exactly where FitElements stops, and then the whole array does not fit |
| Arrays.SomeArrayBytes | core/src/types/helpers.rs:42-46 | (proof step, unpacking the definitions) a present array's wire form is the count and then the elements; the partial form is the count and the elements that fit |
| Arrays.SumByteLenIsEncodedLength | core/src/types/helpers.rs:32-34 | with truthful element sizes, the summed sizes equal the length of the elements' encodings |
| Arrays.ParseElementsStep | core/src/types/helpers.rs:60-61 | (proof step, unpacking the definition) decoding one more element at the position reached extends the parse by that element and its length |
| Arrays.ElementFailureAborts | core/src/types/helpers.rs:61 | once an element fails to decode, parsing any larger count fails: no partial array |
| Arrays.ParseElementsOfEncoding | core/src/types/helpers.rs:59-62 | decoding the elements' encodings, whatever precedes and follows them, gives the elements back and stops right after them |
| Arrays.SplitLastElement | core/src/types/helpers.rs:44-46 | (proof step, sequence bookkeeping) the elements' encoding is the encoding of all but the last, followed by the last's encoding |
| Arrays.ParseArrayOfEncoding | core/src/types/helpers.rs:54-65 | read_array's parse of write_array's wire form gives back the absent, empty or populated array and stops right after it, when the count fits an Int32 |
| Arrays.PresentArrayOfEncoding | core/src/types/helpers.rs:55-63 | a present array's count reads back as its length, and its elements follow |
| Arrays.MinusOneIsAbsent | core/src/types/helpers.rs:55-57 | a count of -1 at any position parses as the absent array 4 bytes on, whatever precedes and follows it |
| Arrays.OtherNegativeCountIsEmpty | core/src/types/helpers.rs:58-63 | a negative count other than -1 at any position parses as the empty array 4 bytes on, whatever precedes and follows it |
| Arrays.AbsentAndEmptyDiffer | core/src/types/helpers.rs:42-49 | absent is written FF FF FF FF and empty 00 00 00 00 |
| Arrays.HugeArrayLooksAbsent | core/src/types/helpers.rs:43 | an array of 2^32 - 1 elements is written with the absent array's count prefix, because the cast wraps |
| Arrays.ByteLenArray | core/src/types/helpers.rs:29-37 | 4 for an absent array, 4 plus the summed element sizes for a present one; with truthful sizes, the length of the wire form |
| Arrays.EncodeElement | core/src/types/helpers.rs:45 | the element's encoding is appended and its length returned, or BadEncoding with nothing appended |
| Arrays.DecodeElement | core/src/types/helpers.rs:61 | when the element decodes from the unread bytes, its value is returned and the position advances by its length; otherwise BadDecoding |
| Arrays.Appended | core/src/types/helpers.rs:40-51 | write_array's two outcomes: when the bytes fit, all of them appended and their count returned; otherwise BadEncoding with only the bytes before the failing write appended |
| Arrays.WriteElements | core/src/types/helpers.rs:44-46 | all elements' encodings are appended and their length returned, or BadEncoding with exactly the elements before the first overflowing one appended |
| Arrays.CountDoesNotFit | core/src/types/helpers.rs:43 | a count prefix that does not fit leaves nothing of the array written and the call reports BadEncoding |
| Arrays.PresentArrayAppended | core/src/types/helpers.rs:42-46 | after the count is written, the elements' outcome is the array's outcome, with 4 more bytes counted |
| Arrays.WritePresentArray | core/src/types/helpers.rs:42-46 | a present array's wire form is appended and its length returned, or BadEncoding with exactly the buffers before the failing one appended |
| Arrays.WriteArray | core/src/types/helpers.rs:40-51 | the wire form (count or -1, then elements) is appended and its length returned when it fits; otherwise BadEncoding, with every buffer before the first that overflows appended |
| Arrays.ReadElements | core/src/types/helpers.rs:59-62 | returns the parsed elements and moves past them, or BadDecoding with no elements returned |
| Arrays.ReadArray | core/src/types/helpers.rs:54-65 | returns what ParseArray makes of the unread bytes and moves past it, or BadDecoding when that parse fails |
| Arrays.ArrayRoundTrip | core/src/types/helpers.rs:29-65 | byte_len_array predicts exactly what write_array writes and returns, and read_array from the write's start gives the array back |
| Arrays.UInt16CodecIsLawful | core/src/types/helpers.rs:78-82 | the UInt16 element codec never over-consumes, reports its true size, and decodes its own encodings |
| Arrays.UInt16Codec | core/src/types/helpers.rs:78-82 | the u16 element: size 2, the bytes write_u16 writes, and read_u16's reading of the first two unread bytes, failing when fewer remain |
| Arrays.UInt16ArrayExample | core/src/types/helpers.rs:40-51 | Some([1, 256]) of UInt16 is written as 02 00 00 00 01 00 00 01 |

## Left out

- `write_f32`, `write_f64`, `read_f32` and `read_f64` (lines 108-118 and 175-187): floating point is not modelled.
- The `debug!` logging in the two error translators: it has no effect on results.
- Streams.ByteStream.Write: Rust's `Write::write` may accept only part of a buffer and report the shorter count. The model's stream accepts a whole buffer or fails, and a failure is triggered by a capacity rather than by the environment's I/O.
- Streams.ByteStream.ReadExact: on a short read the standard library leaves the buffer contents unspecified. The model leaves the buffer unchanged and consumes the rest of the stream.
- The `byteorder` crate's `LittleEndian` functions are external. They are modelled by their documented meaning, as little-endian two's-complement bytes.
- The concrete `BinaryEncoder` implementations of other types are not part of this model. Only the UInt16 codec built from `write_u16`/`read_u16` is given.
- Generic stream types (`S: Write`, `S: Read`, `&mut Write`) are one concrete stream class.
- The trait `BinaryEncoder<T>` is a datatype of three functions, `Arrays.ElementCodec`, so an element's encoder cannot keep state of its own.
- Arrays.EncodeElement: an element's encoder is one whole-buffer write that fails only with BadEncoding. A real encoder may issue several writes and return any error.
- Arrays.DecodeElement: an element's decoder is a pure function of the unread bytes that fails only with BadDecoding. A real decoder may return another error. After a failed element decode the model moves the position to the end, where a real decoder may stop anywhere.
- Arrays.ByteLenArray: the total is an unbounded natural. The `usize` overflow of `size += value.byte_len()` is not modelled.
- Arrays.ArrayRoundTrip: the round trip holds only for arrays shorter than 2^31 elements. Longer arrays' counts wrap (`Arrays.HugeArrayLooksAbsent`).
