/**
 * A `java.io.InputStream` as an object: the bytes it holds, optionally the
 * number of successful reads after which every further `read()` raises an
 * `IOException`, how many reads have succeeded so far, and whether it was
 * closed. A `null` stream is a `null` reference: reading it through a
 * `BufferedInputStream` fails on the first `read()`, and closing it does
 * nothing.
 */
module Streams {
  import opened Wrappers
  import opened Bytes

  /** What the stream holds: its bytes, and the read count at which it starts failing. */
  datatype Source = Source(data: seq<byte>, failAt: Option<nat>)

  /** What one `read()` yields: a byte (0..255), end of stream (-1), or an exception. */
  datatype ReadResult = Byte(value: byte) | EndOfStream | ReadFailure

  /** The bytes the stream delivers from its start before it ends or a read fails. */
  function Consumed(s: Source): (c: seq<byte>)
    ensures c <= s.data
    ensures s.failAt.None? ==> c == s.data
    ensures s.failAt.Some? ==> |c| == if s.failAt.value <= |s.data| then s.failAt.value else |s.data|
  {
    if s.failAt.Some? && s.failAt.value <= |s.data| then s.data[..s.failAt.value] else s.data
  }

  /**
   * The read made after `pos` successful reads of an open stream: a byte
   * exactly while `pos` is inside the consumed prefix, and then that
   * prefix's byte.
   */
  function ReadAt(s: Source, pos: nat): (r: ReadResult)
    ensures r.Byte? <==> pos < |Consumed(s)|
    ensures r.Byte? ==> r.value == Consumed(s)[pos]
  {
    if s.failAt.Some? && s.failAt.value <= pos then ReadFailure
    else if pos < |s.data| then Byte(s.data[pos])
    else EndOfStream
  }

  class ByteStream {
    const source: Source
    var position: nat
    var closed: bool

    /** A fresh, open stream over `source`. */
    constructor (source: Source)
      ensures this.source == source && position == 0 && !closed
    {
      this.source := source;
      position, closed := 0, false;
    }

    /**
     * The bytes the remaining reads deliver before end of stream or the first
     * failure; none once the stream is closed.
     */
    function Pending(): seq<byte>
      reads this
    {
      if closed || |Consumed(source)| <= position then [] else Consumed(source)[position..]
    }

    /** `read()`: the next byte, end of stream, or an exception (always, once closed). */
    method Read() returns (r: ReadResult)
      modifies this`position
      ensures position == old(position) + if r.Byte? then 1 else 0
      ensures !closed ==> r == ReadAt(source, old(position))
      ensures closed ==> r == ReadFailure
    {
      if closed {
        return ReadFailure;
      }
      r := ReadAt(source, position);
      if r.Byte? {
        position := position + 1;
      }
    }

    /** `close()`: later reads fail. */
    method Close()
      modifies this`closed
      ensures closed && Pending() == []
    {
      closed := true;
    }
  }

  /** What is still to be read from a stream that may be `null`. */
  function PendingOf(stream: ByteStream?): seq<byte>
    reads stream
  {
    if stream == null then [] else stream.Pending()
  }
}
