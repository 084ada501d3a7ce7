/**
 * Fixed-width codec: each integer is written as one buffer of exactly its
 * width in little-endian order, and read back from exactly that many bytes.
 */
module Primitives {
  import opened Integers
  import opened LittleEndian
  import opened EncodingResults
  import opened Streams

  /**
   * What writing one buffer does: on success the bytes are appended and their
   * count returned; on failure BadEncoding and nothing is appended. The read
   * side of the stream is untouched.
   */
  twostate predicate WroteBuffer(s: ByteStream, bytes: seq<uint8>, new r: EncodingResult<nat>)
    reads s
  {
    && s.Valid() && s.pos == old(s.pos) && s.capacity == old(s.capacity)
    && (if |bytes| <= old(s.capacity) - |old(s.data)|
        then r == Ok(|bytes|) && s.data == old(s.data) + bytes
        else r == BadEncoding && s.data == old(s.data))
  }

  /**
   * What reading `width` bytes does to the stream: ok exactly when that many
   * remained; then they are consumed, otherwise the rest is.
   */
  twostate predicate ReadExactly(s: ByteStream, width: nat, ok: bool)
    reads s
  {
    && s.Valid() && s.data == old(s.data) && s.capacity == old(s.capacity)
    && ok == (old(s.pos) + width <= |s.data|)
    && s.pos == (if ok then old(s.pos) + width else |s.data|)
  }

  method WriteUInt8(s: ByteStream, value: uint8) returns (r: EncodingResult<nat>)
    requires s.Valid()
    modifies s
    ensures WroteBuffer(s, [value], r)
  {
    var buf := [value];
    var io := s.Write(buf);
    r := ProcessEncodeIoResult(io);
  }

  method WriteInt16(s: ByteStream, value: int16) returns (r: EncodingResult<nat>)
    requires s.Valid()
    modifies s
    ensures WroteBuffer(s, EncodeSigned(value as int, 2), r)
  {
    var buf := EncodeSigned(value as int, 2);
    var io := s.Write(buf);
    r := ProcessEncodeIoResult(io);
  }

  method WriteUInt16(s: ByteStream, value: uint16) returns (r: EncodingResult<nat>)
    requires s.Valid()
    modifies s
    ensures WroteBuffer(s, LeBytes(value as nat, 2), r)
  {
    var buf := LeBytes(value as nat, 2);
    var io := s.Write(buf);
    r := ProcessEncodeIoResult(io);
  }

  method WriteInt32(s: ByteStream, value: int32) returns (r: EncodingResult<nat>)
    requires s.Valid()
    modifies s
    ensures WroteBuffer(s, EncodeSigned(value as int, 4), r)
  {
    var buf := EncodeSigned(value as int, 4);
    var io := s.Write(buf);
    r := ProcessEncodeIoResult(io);
  }

  method WriteUInt32(s: ByteStream, value: uint32) returns (r: EncodingResult<nat>)
    requires s.Valid()
    modifies s
    ensures WroteBuffer(s, LeBytes(value as nat, 4), r)
  {
    var buf := LeBytes(value as nat, 4);
    var io := s.Write(buf);
    r := ProcessEncodeIoResult(io);
  }

  method WriteInt64(s: ByteStream, value: int64) returns (r: EncodingResult<nat>)
    requires s.Valid()
    modifies s
    ensures WroteBuffer(s, EncodeSigned(value as int, 8), r)
  {
    var buf := EncodeSigned(value as int, 8);
    var io := s.Write(buf);
    r := ProcessEncodeIoResult(io);
  }

  method WriteUInt64(s: ByteStream, value: uint64) returns (r: EncodingResult<nat>)
    requires s.Valid()
    modifies s
    ensures WroteBuffer(s, LeBytes(value as nat, 8), r)
  {
    var buf := LeBytes(value as nat, 8);
    var io := s.Write(buf);
    r := ProcessEncodeIoResult(io);
  }

  /** read_bytes: fills the caller's buffer exactly and returns its length, or fails with BadDecoding. */
  method ReadBytes(s: ByteStream, buf: array<uint8>) returns (r: EncodingResult<nat>)
    requires s.Valid()
    modifies s, buf
    ensures ReadExactly(s, buf.Length, r.Ok?)
    ensures r.Ok? ==> r.value == buf.Length && buf[..] == s.data[old(s.pos)..s.pos]
    ensures !r.Ok? ==> r == BadDecoding && buf[..] == old(buf[..])
  {
    var io := s.ReadExact(buf);
    var _ :- ProcessDecodeIoResult(io);
    r := Ok(buf.Length);
  }

  method ReadUInt8(s: ByteStream) returns (r: EncodingResult<uint8>)
    requires s.Valid()
    modifies s
    ensures ReadExactly(s, 1, r.Ok?)
    ensures r.Ok? ==> r.value == s.data[old(s.pos)]
    ensures !r.Ok? ==> r == BadDecoding
  {
    var buf := new uint8[1];
    var io := s.ReadExact(buf);
    var _ :- ProcessDecodeIoResult(io);
    r := Ok(buf[0]);
  }

  method ReadInt16(s: ByteStream) returns (r: EncodingResult<int16>)
    requires s.Valid()
    modifies s
    ensures ReadExactly(s, 2, r.Ok?)
    ensures r.Ok? ==> r.value as int == DecodeSigned(s.data[old(s.pos)..s.pos])
    ensures !r.Ok? ==> r == BadDecoding
  {
    var buf := new uint8[2];
    var io := s.ReadExact(buf);
    var _ :- ProcessDecodeIoResult(io);
    Pow256Widths();
    r := Ok(DecodeSigned(buf[..]) as int16);
  }

  method ReadUInt16(s: ByteStream) returns (r: EncodingResult<uint16>)
    requires s.Valid()
    modifies s
    ensures ReadExactly(s, 2, r.Ok?)
    ensures r.Ok? ==> r.value as int == LeValue(s.data[old(s.pos)..s.pos])
    ensures !r.Ok? ==> r == BadDecoding
  {
    var buf := new uint8[2];
    var io := s.ReadExact(buf);
    var _ :- ProcessDecodeIoResult(io);
    Pow256Widths();
    r := Ok(LeValue(buf[..]) as uint16);
  }

  method ReadInt32(s: ByteStream) returns (r: EncodingResult<int32>)
    requires s.Valid()
    modifies s
    ensures ReadExactly(s, 4, r.Ok?)
    ensures r.Ok? ==> r.value as int == DecodeSigned(s.data[old(s.pos)..s.pos])
    ensures !r.Ok? ==> r == BadDecoding
  {
    var buf := new uint8[4];
    var io := s.ReadExact(buf);
    var _ :- ProcessDecodeIoResult(io);
    Pow256Widths();
    r := Ok(DecodeSigned(buf[..]) as int32);
  }

  method ReadUInt32(s: ByteStream) returns (r: EncodingResult<uint32>)
    requires s.Valid()
    modifies s
    ensures ReadExactly(s, 4, r.Ok?)
    ensures r.Ok? ==> r.value as int == LeValue(s.data[old(s.pos)..s.pos])
    ensures !r.Ok? ==> r == BadDecoding
  {
    var buf := new uint8[4];
    var io := s.ReadExact(buf);
    var _ :- ProcessDecodeIoResult(io);
    Pow256Widths();
    r := Ok(LeValue(buf[..]) as uint32);
  }

  method ReadInt64(s: ByteStream) returns (r: EncodingResult<int64>)
    requires s.Valid()
    modifies s
    ensures ReadExactly(s, 8, r.Ok?)
    ensures r.Ok? ==> r.value as int == DecodeSigned(s.data[old(s.pos)..s.pos])
    ensures !r.Ok? ==> r == BadDecoding
  {
    var buf := new uint8[8];
    var io := s.ReadExact(buf);
    var _ :- ProcessDecodeIoResult(io);
    Pow256Widths();
    r := Ok(DecodeSigned(buf[..]) as int64);
  }

  method ReadUInt64(s: ByteStream) returns (r: EncodingResult<uint64>)
    requires s.Valid()
    modifies s
    ensures ReadExactly(s, 8, r.Ok?)
    ensures r.Ok? ==> r.value as int == LeValue(s.data[old(s.pos)..s.pos])
    ensures !r.Ok? ==> r == BadDecoding
  {
    var buf := new uint8[8];
    var io := s.ReadExact(buf);
    var _ :- ProcessDecodeIoResult(io);
    Pow256Widths();
    r := Ok(LeValue(buf[..]) as uint64);
  }

  // Reading right after writing: on a stream whose reader has reached the end
  // of `prior` and whose capacity leaves room for the value, write_N(value)
  // appends exactly the value's bytes, and read_N returns that value and
  // advances the read position by the width.

  method UInt8RoundTrip(prior: seq<uint8>, value: uint8, capacity: nat) returns (written: EncodingResult<nat>, bytes: seq<uint8>, back: EncodingResult<uint8>, endPos: nat)
    requires |prior| + 1 <= capacity
    ensures written == Ok(1) && bytes == prior + [value]
    ensures back == Ok(value) && endPos == |prior| + 1
  {
    var s := new ByteStream(prior, |prior|, capacity);
    written := WriteUInt8(s, value);
    bytes := s.data;
    assert bytes[|prior|..|prior| + 1] == [value];
    back := ReadUInt8(s);
    endPos := s.pos;
  }

  method Int16RoundTrip(prior: seq<uint8>, value: int16, capacity: nat) returns (written: EncodingResult<nat>, bytes: seq<uint8>, back: EncodingResult<int16>, endPos: nat)
    requires |prior| + 2 <= capacity
    ensures written == Ok(2) && bytes == prior + EncodeSigned(value as int, 2)
    ensures back == Ok(value) && endPos == |prior| + 2
  {
    var s := new ByteStream(prior, |prior|, capacity);
    written := WriteInt16(s, value);
    bytes := s.data;
    assert bytes[|prior|..|prior| + 2] == EncodeSigned(value as int, 2);
    back := ReadInt16(s);
    endPos := s.pos;
  }

  method UInt16RoundTrip(prior: seq<uint8>, value: uint16, capacity: nat) returns (written: EncodingResult<nat>, bytes: seq<uint8>, back: EncodingResult<uint16>, endPos: nat)
    requires |prior| + 2 <= capacity
    ensures written == Ok(2) && bytes == prior + LeBytes(value as nat, 2)
    ensures back == Ok(value) && endPos == |prior| + 2
  {
    var s := new ByteStream(prior, |prior|, capacity);
    written := WriteUInt16(s, value);
    bytes := s.data;
    assert bytes[|prior|..|prior| + 2] == LeBytes(value as nat, 2);
    back := ReadUInt16(s);
    endPos := s.pos;
  }

  method Int32RoundTrip(prior: seq<uint8>, value: int32, capacity: nat) returns (written: EncodingResult<nat>, bytes: seq<uint8>, back: EncodingResult<int32>, endPos: nat)
    requires |prior| + 4 <= capacity
    ensures written == Ok(4) && bytes == prior + EncodeSigned(value as int, 4)
    ensures back == Ok(value) && endPos == |prior| + 4
  {
    var s := new ByteStream(prior, |prior|, capacity);
    written := WriteInt32(s, value);
    bytes := s.data;
    assert bytes[|prior|..|prior| + 4] == EncodeSigned(value as int, 4);
    back := ReadInt32(s);
    endPos := s.pos;
  }

  method UInt32RoundTrip(prior: seq<uint8>, value: uint32, capacity: nat) returns (written: EncodingResult<nat>, bytes: seq<uint8>, back: EncodingResult<uint32>, endPos: nat)
    requires |prior| + 4 <= capacity
    ensures written == Ok(4) && bytes == prior + LeBytes(value as nat, 4)
    ensures back == Ok(value) && endPos == |prior| + 4
  {
    var s := new ByteStream(prior, |prior|, capacity);
    written := WriteUInt32(s, value);
    bytes := s.data;
    assert bytes[|prior|..|prior| + 4] == LeBytes(value as nat, 4);
    back := ReadUInt32(s);
    endPos := s.pos;
  }

  method Int64RoundTrip(prior: seq<uint8>, value: int64, capacity: nat) returns (written: EncodingResult<nat>, bytes: seq<uint8>, back: EncodingResult<int64>, endPos: nat)
    requires |prior| + 8 <= capacity
    ensures written == Ok(8) && bytes == prior + EncodeSigned(value as int, 8)
    ensures back == Ok(value) && endPos == |prior| + 8
  {
    var s := new ByteStream(prior, |prior|, capacity);
    written := WriteInt64(s, value);
    bytes := s.data;
    assert bytes[|prior|..|prior| + 8] == EncodeSigned(value as int, 8);
    back := ReadInt64(s);
    endPos := s.pos;
  }

  method UInt64RoundTrip(prior: seq<uint8>, value: uint64, capacity: nat) returns (written: EncodingResult<nat>, bytes: seq<uint8>, back: EncodingResult<uint64>, endPos: nat)
    requires |prior| + 8 <= capacity
    ensures written == Ok(8) && bytes == prior + LeBytes(value as nat, 8)
    ensures back == Ok(value) && endPos == |prior| + 8
  {
    var s := new ByteStream(prior, |prior|, capacity);
    written := WriteUInt64(s, value);
    bytes := s.data;
    assert bytes[|prior|..|prior| + 8] == LeBytes(value as nat, 8);
    back := ReadUInt64(s);
    endPos := s.pos;
  }
}
