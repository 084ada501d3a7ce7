/**
 * The byte stream the codec reads from and writes to, kept in memory:
 * writes append at the end, reads consume from a read position.
 */
module Streams {
  import opened Integers
  import opened EncodingResults

  class ByteStream {
    /** Every byte ever written, in order. */
    var data: seq<uint8>
    /** How many of them have been read. */
    var pos: nat
    /** The most bytes the stream can hold; a write that does not fit fails. */
    var capacity: nat

    ghost predicate Valid()
      reads this
    {
      pos <= |data| <= capacity
    }

    /** Bytes still to be read. */
    function Remaining(): nat
      reads this
      requires Valid()
    {
      |data| - pos
    }

    /** Bytes that can still be written. */
    function Room(): nat
      reads this
      requires Valid()
    {
      capacity - |data|
    }

    constructor (contents: seq<uint8>, readPos: nat, limit: nat)
      requires readPos <= |contents| <= limit
      ensures Valid()
      ensures data == contents && pos == readPos && capacity == limit
    {
      data, pos, capacity := contents, readPos, limit;
    }

    /** Write::write, assumed to append the whole buffer or fail without writing anything. */
    method Write(buf: seq<uint8>) returns (io: IoResult<nat>)
      requires Valid()
      modifies this
      ensures Valid() && pos == old(pos) && capacity == old(capacity)
      ensures |buf| <= old(Room()) ==> io == IoOk(|buf|) && data == old(data) + buf
      ensures |buf| > old(Room()) ==> io == IoErr(StorageFull) && data == old(data)
    {
      if |buf| <= capacity - |data| {
        data := data + buf;
        io := IoOk(|buf|);
      } else {
        io := IoErr(StorageFull);
      }
    }

    /**
     * Read::read_exact: fills buf with the next buf.Length bytes, or fails with
     * UnexpectedEof when fewer remain; a failed read consumes what was left and
     * leaves buf as it was.
     */
    method ReadExact(buf: array<uint8>) returns (io: IoResult<()>)
      requires Valid()
      modifies this, buf
      ensures Valid() && data == old(data) && capacity == old(capacity)
      ensures buf.Length <= old(Remaining()) ==>
        io == IoOk(()) && pos == old(pos) + buf.Length && buf[..] == data[old(pos)..pos]
      ensures buf.Length > old(Remaining()) ==>
        io == IoErr(UnexpectedEof) && pos == |data| && buf[..] == old(buf[..])
    {
      if buf.Length <= |data| - pos {
        forall i | 0 <= i < buf.Length {
          buf[i] := data[pos + i];
        }
        pos := pos + buf.Length;
        io := IoOk(());
      } else {
        pos := |data|;
        io := IoErr(UnexpectedEof);
      }
    }
  }
}
