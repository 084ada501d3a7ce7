/**
 * Array codec (section 5.2.5 of OPC 10000-6): an optional array is written as
 * an Int32 element count followed by the elements' encodings, with -1 standing
 * for an absent (null) array, so that absent and empty stay distinct.
 */
module Arrays {
  import opened Integers
  import opened LittleEndian
  import opened EncodingResults
  import opened Streams
  import opened Primitives

  datatype Option<T> = None | Some(value: T)

  /**
   * What an element type supplies to the array codec (the BinaryEncoder
   * contract): its reported byte length, its encoding, and a decoder that
   * takes the unread bytes and yields a value and how many bytes it consumed.
   */
  datatype ElementCodec<!T> = ElementCodec(
    byteLen: T -> nat,
    encode: T -> seq<uint8>,
    decode: seq<uint8> -> Option<(T, nat)>)

  /** A decoder never consumes more bytes than it is given. */
  ghost predicate DecodeWithinInput<T>(c: ElementCodec<T>) {
    forall bs :: c.decode(bs).Some? ==> c.decode(bs).value.1 <= |bs|
  }

  /** The reported byte length is the length of the encoding. */
  ghost predicate LengthMatchesEncoding<T(!new)>(c: ElementCodec<T>) {
    forall v :: c.byteLen(v) == |c.encode(v)|
  }

  /** Decoding an encoding gives the value back and consumes exactly the encoding, whatever follows it. */
  ghost predicate DecodeInvertsEncode<T(!new)>(c: ElementCodec<T>) {
    forall v, rest ::
      c.decode(c.encode(v) + rest).Some? &&
      c.decode(c.encode(v) + rest).value.0 == v &&
      c.decode(c.encode(v) + rest).value.1 == |c.encode(v)|
  }

  /** The count written for n elements: `len() as i32`, which wraps modulo 2^32. */
  function LengthPrefix(n: nat): (p: int32)
    ensures n < 0x8000_0000 ==> p as int == n
    ensures (p as int - n) % 0x1_0000_0000 == 0
  {
    var m := n % 0x1_0000_0000;
    if m < 0x8000_0000 then m as int32 else (m - 0x1_0000_0000) as int32
  }

  /** The elements' encodings, one after another. */
  function EncodeElements<T>(c: ElementCodec<T>, xs: seq<T>): seq<uint8> {
    if xs == [] then [] else EncodeElements(c, xs[..|xs| - 1]) + c.encode(xs[|xs| - 1])
  }

  /** The wire form of an optional array: the Int32 count (-1 when absent), then the elements. */
  function ArrayBytes<T>(c: ElementCodec<T>, values: Option<seq<T>>): (bs: seq<uint8>)
    ensures values.None? ==> bs == [0xFF, 0xFF, 0xFF, 0xFF]
    ensures values.Some? ==> |bs| == 4 + |EncodeElements(c, values.value)|
  {
    MinusOneInt32();
    match values
    case None => EncodeSigned(-1, 4)
    case Some(xs) => EncodeSigned(LengthPrefix(|xs|) as int, 4) + EncodeElements(c, xs)
  }

  /** The sum of the elements' reported byte lengths. */
  function SumByteLen<T>(c: ElementCodec<T>, xs: seq<T>): nat {
    if xs == [] then 0 else SumByteLen(c, xs[..|xs| - 1]) + c.byteLen(xs[|xs| - 1])
  }

  /**
   * How many leading elements have encodings that fit, whole, into `room`
   * bytes: all those before the first one that overflows.
   */
  function FitElements<T>(c: ElementCodec<T>, room: nat, xs: seq<T>): (k: nat)
    ensures k <= |xs|
    ensures |EncodeElements(c, xs[..k])| <= room
    ensures k < |xs| ==> |EncodeElements(c, xs[..k + 1])| > room
  {
    if |EncodeElements(c, xs)| <= room then
      assert xs[..|xs|] == xs;
      |xs|
    else
      var k := FitElements(c, room, xs[..|xs| - 1]);
      assert xs[..|xs| - 1][..k] == xs[..k];
      assert k < |xs| - 1 ==> xs[..|xs| - 1][..k + 1] == xs[..k + 1];
      assert k == |xs| - 1 ==> xs[..k + 1] == xs;
      k
  }

  /**
   * What write_array leaves on a stream with only `room` bytes free when the
   * whole array does not fit: every buffer before the first that overflows.
   */
  function PartialArrayBytes<T>(c: ElementCodec<T>, values: Option<seq<T>>, room: nat): (bs: seq<uint8>)
    ensures |bs| <= room
  {
    match values
    case None => []
    case Some(xs) =>
      if room < 4 then []
      else EncodeSigned(LengthPrefix(|xs|) as int, 4) + EncodeElements(c, xs[..FitElements(c, room - 4, xs)])
  }

  /**
   * Decodes n elements one after another from position `start` of data:
   * the elements and the position after the last one, or None as soon as one
   * fails.
   */
  function ParseElements<T>(c: ElementCodec<T>, data: seq<uint8>, start: nat, n: nat): (res: Option<(seq<T>, nat)>)
    requires DecodeWithinInput(c) && start <= |data|
    ensures res.Some? ==> |res.value.0| == n && start <= res.value.1 <= |data|
  {
    if n == 0 then Some(([], start))
    else
      var prev := ParseElements(c, data, start, n - 1);
      if prev.None? then None
      else
        var next := c.decode(data[prev.value.1..]);
        if next.None? then None
        else Some((prev.value.0 + [next.value.0], prev.value.1 + next.value.1))
  }

  /**
   * What read_array makes of data from position `start`: the array and the
   * position after it, or None for a decoding error. A count of -1 is the
   * absent array; any other negative count gives an empty array, since the
   * range `0..len` is then empty.
   */
  function ParseArray<T>(c: ElementCodec<T>, data: seq<uint8>, start: nat): (res: Option<(Option<seq<T>>, nat)>)
    requires DecodeWithinInput(c) && start <= |data|
    ensures res.Some? ==> start + 4 <= res.value.1 <= |data|
  {
    if |data| - start < 4 then None
    else
      var len := DecodeSigned(data[start..start + 4]);
      if len == -1 then Some((None, start + 4))
      else
        var elements := ParseElements(c, data, start + 4, if len < 0 then 0 else len);
        if elements.None? then None
        else Some((Some(elements.value.0), elements.value.1))
  }

  // ----- Lemmas about the wire form -----

  lemma EncodeElementsPrefixStep<T>(c: ElementCodec<T>, xs: seq<T>, k: nat)
    requires k < |xs|
    ensures EncodeElements(c, xs[..k + 1]) == EncodeElements(c, xs[..k]) + c.encode(xs[k])
  {
    assert xs[..k + 1][..k] == xs[..k];
  }

  lemma {:induction false} EncodeElementsPrefixMonotone<T>(c: ElementCodec<T>, xs: seq<T>, i: nat, j: nat)
    requires i <= j <= |xs|
    ensures |EncodeElements(c, xs[..i])| <= |EncodeElements(c, xs[..j])|
    decreases j
  {
    if i < j {
      EncodeElementsPrefixStep(c, xs, j - 1);
      EncodeElementsPrefixMonotone(c, xs, i, j - 1);
    }
  }

  /** The first element that overflows is the one FitElements stops at, and then the whole does not fit. */
  lemma FitElementsUnique<T>(c: ElementCodec<T>, room: nat, xs: seq<T>, j: nat)
    requires j < |xs|
    requires |EncodeElements(c, xs[..j])| <= room < |EncodeElements(c, xs[..j + 1])|
    ensures FitElements(c, room, xs) == j
    ensures |EncodeElements(c, xs)| > room
  {
    var k := FitElements(c, room, xs);
    if k < j {
      EncodeElementsPrefixMonotone(c, xs, k + 1, j);
      assert false;
    } else if k > j {
      EncodeElementsPrefixMonotone(c, xs, j + 1, k);
      assert false;
    }
    EncodeElementsPrefixMonotone(c, xs, j + 1, |xs|);
    assert xs[..|xs|] == xs;
  }

  /** A present array is its count and then its elements, cut where the room runs out. */
  lemma SomeArrayBytes<T>(c: ElementCodec<T>, xs: seq<T>, room: nat)
    requires 4 <= room
    ensures ArrayBytes(c, Some(xs)) == EncodeSigned(LengthPrefix(|xs|) as int, 4) + EncodeElements(c, xs)
    ensures PartialArrayBytes(c, Some(xs), room)
         == EncodeSigned(LengthPrefix(|xs|) as int, 4) + EncodeElements(c, xs[..FitElements(c, room - 4, xs)])
  { }

  /** With truthful element lengths, the summed lengths are the length of the elements' encodings. */
  lemma {:induction false} SumByteLenIsEncodedLength<T(!new)>(c: ElementCodec<T>, xs: seq<T>)
    requires LengthMatchesEncoding(c)
    ensures SumByteLen(c, xs) == |EncodeElements(c, xs)|
  {
    if xs != [] {
      SumByteLenIsEncodedLength(c, xs[..|xs| - 1]);
    }
  }

  lemma AppendAssoc(a: seq<uint8>, b: seq<uint8>, c: seq<uint8>)
    ensures (a + b) + c == a + (b + c)
  {
  }

  /** One more element decoded at the position reached extends the parse by it. */
  lemma ParseElementsStep<T>(c: ElementCodec<T>, data: seq<uint8>, start: nat, n: nat, values: seq<T>, pos: nat)
    requires DecodeWithinInput(c) && start <= |data|
    requires ParseElements(c, data, start, n).Some?
    requires ParseElements(c, data, start, n).value.0 == values
    requires ParseElements(c, data, start, n).value.1 == pos
    requires c.decode(data[pos..]).Some?
    ensures ParseElements(c, data, start, n + 1).Some?
    ensures ParseElements(c, data, start, n + 1).value.0 == values + [c.decode(data[pos..]).value.0]
    ensures ParseElements(c, data, start, n + 1).value.1 == pos + c.decode(data[pos..]).value.1
  {
  }

  /** Once an element fails to decode, reading more elements cannot succeed: no partial array. */
  lemma {:induction false} ElementFailureAborts<T>(c: ElementCodec<T>, data: seq<uint8>, start: nat, n: nat, k: nat)
    requires DecodeWithinInput(c) && start <= |data|
    requires k < n
    requires ParseElements(c, data, start, k).Some?
    requires c.decode(data[ParseElements(c, data, start, k).value.1..]).None?
    ensures ParseElements(c, data, start, n).None?
  {
    if n > k + 1 {
      ElementFailureAborts(c, data, start, n - 1, k);
    }
  }

  /** Decoding the elements' encodings gives them back and stops exactly after them. */
  lemma {:induction false} ParseElementsOfEncoding<T(!new)>(c: ElementCodec<T>, xs: seq<T>, prior: seq<uint8>, rest: seq<uint8>)
    requires DecodeWithinInput(c) && DecodeInvertsEncode(c)
    ensures ParseElements(c, prior + EncodeElements(c, xs) + rest, |prior|, |xs|).Some?
    ensures ParseElements(c, prior + EncodeElements(c, xs) + rest, |prior|, |xs|).value.0 == xs
    ensures ParseElements(c, prior + EncodeElements(c, xs) + rest, |prior|, |xs|).value.1
         == |prior| + |EncodeElements(c, xs)|
  {
    if xs != [] {
      var n := |xs|;
      var ys, x := xs[..n - 1], xs[n - 1];
      var e := EncodeElements(c, ys);
      var tail := c.encode(x) + rest;
      var data := prior + EncodeElements(c, xs) + rest;
      SplitLastElement(c, xs, prior, rest);
      ParseElementsOfEncoding(c, ys, prior, tail);
      ParseElementsStep(c, data, |prior|, n - 1, ys, |prior| + |e|);
      assert ys + [x] == xs;
    }
  }

  /** The wire form with its last element split off, and where that element's encoding starts. */
  lemma SplitLastElement<T>(c: ElementCodec<T>, xs: seq<T>, prior: seq<uint8>, rest: seq<uint8>)
    requires xs != []
    ensures var ys, x := xs[..|xs| - 1], xs[|xs| - 1];
      && prior + EncodeElements(c, xs) + rest == prior + EncodeElements(c, ys) + (c.encode(x) + rest)
      && (prior + EncodeElements(c, xs) + rest)[|prior| + |EncodeElements(c, ys)|..] == c.encode(x) + rest
  {
    var ys, x := xs[..|xs| - 1], xs[|xs| - 1];
    AppendAssoc(prior + EncodeElements(c, ys), c.encode(x), rest);
  }

  /**
   * read_array inverts write_array for all three states (absent, empty,
   * populated), provided the element codec round-trips and the count fits
   * an Int32, whatever bytes come before and after the array.
   */
  lemma ParseArrayOfEncoding<T(!new)>(c: ElementCodec<T>, values: Option<seq<T>>, prior: seq<uint8>, rest: seq<uint8>)
    requires DecodeWithinInput(c) && DecodeInvertsEncode(c)
    requires values.Some? ==> |values.value| < 0x8000_0000
    ensures ParseArray(c, prior + ArrayBytes(c, values) + rest, |prior|).Some?
    ensures ParseArray(c, prior + ArrayBytes(c, values) + rest, |prior|).value.0 == values
    ensures ParseArray(c, prior + ArrayBytes(c, values) + rest, |prior|).value.1 == |prior| + |ArrayBytes(c, values)|
  {
    match values
    case None =>
      var data := prior + ArrayBytes(c, values) + rest;
      assert data[|prior|..|prior| + 4] == EncodeSigned(-1, 4);
    case Some(xs) =>
      var prefix := EncodeSigned(LengthPrefix(|xs|) as int, 4);
      assert prior + ArrayBytes(c, values) + rest == prior + prefix + EncodeElements(c, xs) + rest;
      PresentArrayOfEncoding(c, xs, prior, rest);
  }

  /** The populated half of ParseArrayOfEncoding: the count read back is the number of elements. */
  lemma PresentArrayOfEncoding<T(!new)>(c: ElementCodec<T>, xs: seq<T>, prior: seq<uint8>, rest: seq<uint8>)
    requires DecodeWithinInput(c) && DecodeInvertsEncode(c)
    requires |xs| < 0x8000_0000
    ensures var data := prior + EncodeSigned(LengthPrefix(|xs|) as int, 4) + EncodeElements(c, xs) + rest;
      && ParseArray(c, data, |prior|).Some?
      && ParseArray(c, data, |prior|).value.0 == Some(xs)
      && ParseArray(c, data, |prior|).value.1 == |prior| + 4 + |EncodeElements(c, xs)|
  {
    var prefix := EncodeSigned(LengthPrefix(|xs|) as int, 4);
    var data := prior + prefix + EncodeElements(c, xs) + rest;
    assert data[|prior|..|prior| + 4] == prefix;
    ParseElementsOfEncoding(c, xs, prior + prefix, rest);
  }

  /** A count of -1 is the absent array, and nothing after it is read. */
  lemma MinusOneIsAbsent<T>(c: ElementCodec<T>, prior: seq<uint8>, rest: seq<uint8>)
    requires DecodeWithinInput(c)
    ensures ParseArray(c, prior + EncodeSigned(-1, 4) + rest, |prior|) == Some((None, (|prior| + 4) as nat))
  {
    assert (prior + EncodeSigned(-1, 4) + rest)[|prior|..|prior| + 4] == EncodeSigned(-1, 4);
  }

  /** A negative count other than -1 reads as an empty array, and nothing after it is read. */
  lemma OtherNegativeCountIsEmpty<T>(c: ElementCodec<T>, len: int32, prior: seq<uint8>, rest: seq<uint8>)
    requires DecodeWithinInput(c)
    requires len < -1
    ensures ParseArray(c, prior + EncodeSigned(len as int, 4) + rest, |prior|) == Some((Some([]), (|prior| + 4) as nat))
  {
    Pow256Widths();
    assert (prior + EncodeSigned(len as int, 4) + rest)[|prior|..|prior| + 4] == EncodeSigned(len as int, 4);
  }

  /** Absent and empty arrays have different wire forms: FF FF FF FF and 00 00 00 00. */
  lemma AbsentAndEmptyDiffer<T>(c: ElementCodec<T>)
    ensures ArrayBytes(c, None) == [0xFF, 0xFF, 0xFF, 0xFF]
    ensures ArrayBytes(c, Some([])) == [0x00, 0x00, 0x00, 0x00]
  {
  }

  /**
   * The count wraps: an array of 2^32 - 1 elements is written with the count
   * -1, the same prefix as the absent array.
   */
  lemma HugeArrayLooksAbsent<T>(c: ElementCodec<T>, xs: seq<T>)
    requires |xs| == 0xFFFF_FFFF
    ensures ArrayBytes(c, Some(xs))[..4] == ArrayBytes(c, None)
  {
    assert LengthPrefix(|xs|) == -1;
  }

  // ----- The operations on a stream -----

  /** byte_len_array: 4 for the count plus, when present, the elements' reported lengths. */
  method ByteLenArray<T(!new)>(c: ElementCodec<T>, values: Option<seq<T>>) returns (size: nat)
    ensures values.None? ==> size == 4
    ensures values.Some? ==> size == 4 + SumByteLen(c, values.value)
    ensures LengthMatchesEncoding(c) ==> size == |ArrayBytes(c, values)|
  {
    size := 4;
    if values.Some? {
      var xs := values.value;
      var i := 0;
      while i < |xs|
        invariant 0 <= i <= |xs|
        invariant size == 4 + SumByteLen(c, xs[..i])
      {
        assert xs[..i + 1][..i] == xs[..i];
        size := size + c.byteLen(xs[i]);
        i := i + 1;
      }
      assert xs[..|xs|] == xs;
    }
    if LengthMatchesEncoding(c) && values.Some? {
      SumByteLenIsEncodedLength(c, values.value);
    }
  }

  /** BinaryEncoder::encode for one element: its bytes as one buffer. */
  method EncodeElement<T>(s: ByteStream, c: ElementCodec<T>, v: T) returns (r: EncodingResult<nat>)
    requires s.Valid()
    modifies s
    ensures WroteBuffer(s, c.encode(v), r)
  {
    var io := s.Write(c.encode(v));
    r := ProcessEncodeIoResult(io);
  }

  /**
   * BinaryEncoder::decode for one element: the value and the bytes it used,
   * or BadDecoding with the rest of the stream consumed.
   */
  method DecodeElement<T>(s: ByteStream, c: ElementCodec<T>) returns (r: EncodingResult<T>)
    requires s.Valid() && DecodeWithinInput(c)
    modifies s
    ensures s.Valid() && s.data == old(s.data) && s.capacity == old(s.capacity)
    ensures var d := c.decode(old(s.data)[old(s.pos)..]);
      if d.Some? then r == Ok(d.value.0) && s.pos == old(s.pos) + d.value.1
      else r == BadDecoding && s.pos == |s.data|
  {
    var d := c.decode(s.data[s.pos..]);
    if d.Some? {
      s.pos := s.pos + d.value.1;
      r := Ok(d.value.0);
    } else {
      s.pos := |s.data|;
      r := BadDecoding;
    }
  }

  /**
   * What a sequence of writes into `room` free bytes leaves behind: `bytes` in
   * full with their count when they fit, otherwise BadEncoding with only the
   * `partial` bytes that were written before the failing one.
   */
  ghost predicate Appended(before: seq<uint8>, after: seq<uint8>, room: nat, bytes: seq<uint8>, partial: seq<uint8>, r: EncodingResult<nat>)
  {
    if |bytes| <= room then r == Ok(|bytes|) && after == before + bytes
    else r == BadEncoding && after == before + partial
  }

  /**
   * The element loop of write_array: each element is written in turn, and the
   * first failing write ends the call, leaving the elements before it written.
   */
  method WriteElements<T>(s: ByteStream, c: ElementCodec<T>, xs: seq<T>) returns (r: EncodingResult<nat>)
    requires s.Valid()
    modifies s
    ensures s.Valid() && s.pos == old(s.pos) && s.capacity == old(s.capacity)
    ensures Appended(old(s.data), s.data, old(s.Room()), EncodeElements(c, xs),
                     EncodeElements(c, xs[..FitElements(c, old(s.Room()), xs)]), r)
  {
    ghost var room, before := s.Room(), s.data;
    var size := 0;
    var i := 0;
    while i < |xs|
      invariant 0 <= i <= |xs|
      invariant s.Valid() && s.pos == old(s.pos) && s.capacity == old(s.capacity)
      invariant s.data == before + EncodeElements(c, xs[..i])
      invariant size == |EncodeElements(c, xs[..i])|
    {
      EncodeElementsPrefixStep(c, xs, i);
      var m := EncodeElement(s, c, xs[i]);
      if !m.Ok? {
        FitElementsUnique(c, room, xs, i);
        r := m;
        return;
      }
      size := size + m.value;
      i := i + 1;
    }
    assert xs[..|xs|] == xs;
    r := Ok(size);
  }

  /** A count that does not fit leaves nothing of the array written. */
  lemma CountDoesNotFit<T>(c: ElementCodec<T>, values: Option<seq<T>>, before: seq<uint8>, room: nat)
    requires room < 4
    ensures Appended(before, before, room, ArrayBytes(c, values), PartialArrayBytes(c, values, room), BadEncoding)
  {
    assert before + [] == before;
  }

  /** The count written, the elements' outcome is the array's outcome, four bytes on. */
  lemma PresentArrayAppended<T>(c: ElementCodec<T>, xs: seq<T>, before: seq<uint8>, after: seq<uint8>, room: nat, m: EncodingResult<nat>)
    requires 4 <= room
    requires Appended(before + EncodeSigned(LengthPrefix(|xs|) as int, 4), after, room - 4, EncodeElements(c, xs),
                      EncodeElements(c, xs[..FitElements(c, room - 4, xs)]), m)
    ensures Appended(before, after, room, ArrayBytes(c, Some(xs)), PartialArrayBytes(c, Some(xs), room),
                     if m.Ok? then Ok(4 + m.value) else m)
  {
    var prefix := EncodeSigned(LengthPrefix(|xs|) as int, 4);
    SomeArrayBytes(c, xs, room);
    AppendAssoc(before, prefix, EncodeElements(c, xs));
    AppendAssoc(before, prefix, EncodeElements(c, xs[..FitElements(c, room - 4, xs)]));
  }

  /** write_array on a present array: the count, then the elements. */
  method WritePresentArray<T>(s: ByteStream, c: ElementCodec<T>, xs: seq<T>) returns (r: EncodingResult<nat>)
    requires s.Valid()
    modifies s
    ensures s.Valid() && s.pos == old(s.pos) && s.capacity == old(s.capacity)
    ensures Appended(old(s.data), s.data, old(s.Room()), ArrayBytes(c, Some(xs)), PartialArrayBytes(c, Some(xs), old(s.Room())), r)
  {
    ghost var room, before := s.Room(), s.data;
    var n := WriteInt32(s, LengthPrefix(|xs|));
    if !n.Ok? {
      CountDoesNotFit(c, Some(xs), before, room);
      return n;
    }
    ghost var mid, midRoom := s.data, s.Room();
    assert mid == before + EncodeSigned(LengthPrefix(|xs|) as int, 4) && midRoom == room - 4;
    var m := WriteElements(s, c, xs);
    PresentArrayAppended(c, xs, before, s.data, room, m);
    r := if m.Ok? then Ok(n.value + m.value) else m;
  }

  /**
   * write_array: the count (or -1 when absent), then each element; returns
   * the bytes written. The first write that fails ends the call with
   * BadEncoding, leaving the buffers before it written and nothing after.
   */
  method WriteArray<T>(s: ByteStream, c: ElementCodec<T>, values: Option<seq<T>>) returns (r: EncodingResult<nat>)
    requires s.Valid()
    modifies s
    ensures s.Valid() && s.pos == old(s.pos) && s.capacity == old(s.capacity)
    ensures Appended(old(s.data), s.data, old(s.Room()), ArrayBytes(c, values), PartialArrayBytes(c, values, old(s.Room())), r)
  {
    match values
    case Some(xs) =>
      r := WritePresentArray(s, c, xs);
    case None =>
      ghost var room, before := s.Room(), s.data;
      r := WriteInt32(s, -1);
      if !r.Ok? {
        CountDoesNotFit(c, values, before, room);
      }
  }

  /**
   * The element loop of read_array: `count` elements in turn. The first that
   * fails ends the call with BadDecoding, and the elements read before it are
   * dropped.
   */
  method ReadElements<T>(s: ByteStream, c: ElementCodec<T>, count: nat) returns (r: EncodingResult<seq<T>>)
    requires s.Valid() && DecodeWithinInput(c)
    modifies s
    ensures s.Valid() && s.data == old(s.data) && s.capacity == old(s.capacity)
    ensures var parsed := ParseElements(c, old(s.data), old(s.pos), count);
      if parsed.Some? then r == Ok(parsed.value.0) && s.pos == parsed.value.1
      else r == BadDecoding && s.pos == |s.data|
  {
    var values: seq<T> := [];
    var i := 0;
    while i < count
      invariant 0 <= i <= count
      invariant s.Valid() && s.data == old(s.data) && s.capacity == old(s.capacity)
      invariant ParseElements(c, s.data, old(s.pos), i).Some?
      invariant ParseElements(c, s.data, old(s.pos), i).value.0 == values
      invariant ParseElements(c, s.data, old(s.pos), i).value.1 == s.pos
    {
      ghost var pos := s.pos;
      var v := DecodeElement(s, c);
      if !v.Ok? {
        ElementFailureAborts(c, s.data, old(s.pos), count, i);
        return BadDecoding;
      }
      ParseElementsStep(c, s.data, old(s.pos), i, values, pos);
      values := values + [v.value];
      i := i + 1;
    }
    r := Ok(values);
  }

  /**
   * read_array: the count, then that many elements. The first read that
   * fails ends the call with BadDecoding and no partial array.
   */
  method ReadArray<T>(s: ByteStream, c: ElementCodec<T>) returns (r: EncodingResult<Option<seq<T>>>)
    requires s.Valid() && DecodeWithinInput(c)
    modifies s
    ensures s.Valid() && s.data == old(s.data) && s.capacity == old(s.capacity)
    ensures var parsed := ParseArray(c, old(s.data), old(s.pos));
      if parsed.Some? then r == Ok(parsed.value.0) && s.pos == parsed.value.1
      else r == BadDecoding && s.pos == |s.data|
  {
    ghost var data, start := s.data, s.pos;
    var len :- ReadInt32(s);
    assert data[start..start + 4] == s.data[old(s.pos)..s.pos];
    if len == -1 {
      r := Ok(None);
    } else {
      var values :- ReadElements(s, c, if len < 0 then 0 else len as int);
      r := Ok(Some(values));
    }
  }

  /**
   * All three operations together: byte_len_array predicts what write_array
   * writes and returns, and read_array, reading from where the write began,
   * gets the array back.
   */
  method ArrayRoundTrip<T(!new)>(c: ElementCodec<T>, values: Option<seq<T>>, prior: seq<uint8>)
    returns (predicted: nat, written: EncodingResult<nat>, back: EncodingResult<Option<seq<T>>>)
    requires DecodeWithinInput(c) && LengthMatchesEncoding(c) && DecodeInvertsEncode(c)
    requires values.Some? ==> |values.value| < 0x8000_0000
    ensures predicted == |ArrayBytes(c, values)|
    ensures written == Ok(predicted)
    ensures back == Ok(values)
  {
    predicted := ByteLenArray(c, values);
    var s := new ByteStream(prior, |prior|, |prior| + predicted);
    written := WriteArray(s, c, values);
    assert s.data == prior + ArrayBytes(c, values) + [];
    ParseArrayOfEncoding(c, values, prior, []);
    back := ReadArray(s, c);
  }

  // ----- A concrete element codec: UInt16 -----

  /** UInt16 elements, encoded as by write_u16 and decoded as by read_u16. */
  function UInt16Codec(): ElementCodec<uint16> {
    ElementCodec(
      (v: uint16) => 2,
      (v: uint16) => LeBytes(v as nat, 2),
      (bs: seq<uint8>) =>
        if |bs| < 2 then None
        else Pow256Widths(); Some((LeValue(bs[..2]) as uint16, 2)))
  }

  lemma UInt16CodecIsLawful()
    ensures DecodeWithinInput(UInt16Codec())
    ensures LengthMatchesEncoding(UInt16Codec())
    ensures DecodeInvertsEncode(UInt16Codec())
  {
    var c := UInt16Codec();
    forall v: uint16, rest: seq<uint8>
      ensures c.decode(c.encode(v) + rest) == Some((v, 2))
    {
      assert (c.encode(v) + rest)[..2] == c.encode(v);
    }
  }

  /** Some([1, 256]) of UInt16 is written as 02 00 00 00 01 00 00 01. */
  lemma UInt16ArrayExample()
    ensures ArrayBytes(UInt16Codec(), Some([1, 256])) == [0x02, 0x00, 0x00, 0x00, 0x01, 0x00, 0x00, 0x01]
  {
    var c := UInt16Codec();
    var xs: seq<uint16> := [1, 256];
    assert xs[..1] == [1];
    assert EncodeElements(c, xs) == [0x01, 0x00, 0x00, 0x01];
  }
}
