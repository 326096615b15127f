/** The growable writer of mpack.c:1130-1254 and 1327-1544: a buffer that a flush makes larger instead of
    emptying it. Allocation is taken to succeed. */
module GrowableWriter {
  import opened Bytes

  const BUFFER_SIZE: nat := 4096
  const MINIMUM_BUFFER: nat := 32  // MPACK_WRITER_MINIMUM_BUFFER_SIZE

  class Writer {
    var buffer: array<byte>
    var position: nat

    ghost predicate Valid()
      reads this
    {
      position <= buffer.Length && buffer.Length >= MINIMUM_BUFFER
    }

    /** Everything written so far. */
    ghost function Contents(): seq<byte>
      requires Valid()
      reads this, buffer
    {
      buffer[..position]
    }

    /** mpack_writer_init_growable. */
    constructor ()
      ensures Valid() && fresh(buffer) && Contents() == []
    {
      buffer := new byte[BUFFER_SIZE](_ => 0);
      position := 0;
    }

    /** mpack_writer_buffer_left. */
    function Left(): nat
      requires Valid()
      reads this
    {
      buffer.Length - position
    }

    /** mpack_memcpy to the current position. */
    method Put(p: seq<byte>)
      requires Valid() && |p| <= Left()
      modifies this`position, buffer
      ensures Valid() && Contents() == old(Contents()) + p
    {
      forall i | 0 <= i < |p| {
        buffer[position + i] := p[i];
      }
      position := position + |p|;
      assert buffer[..position] == old(buffer[..position]) + p;
    }

    /** The growing part of mpack_growable_writer_flush: at least doubles the buffer, until `count` more
        bytes fit. */
    method Grow(count: nat)
      requires Valid()
      modifies this`buffer
      ensures Valid() && fresh(buffer) && Contents() == old(Contents())
      ensures buffer.Length >= 2 * old(buffer.Length) && count <= Left()
    {
      var used := position;
      var newSize := 2 * buffer.Length;
      while newSize < used + count
        invariant newSize >= 2 * buffer.Length
      {
        newSize := 2 * newSize;
      }
      var from := buffer;
      buffer := new byte[newSize](i requires 0 <= i < newSize reads from => if i < from.Length then from[i] else 0);
      assert buffer[..position] == from[..position];
    }

    /** mpack_growable_writer_flush. The data is either what the buffer held, whose position the caller has
        reset, or extra data that does not fit. */
    method Flush(fromBuffer: bool, count: nat, p: seq<byte>)
      requires Valid()
      requires if fromBuffer then p == [] && count <= buffer.Length && position in {0, count} else |p| == count > Left()
      modifies this, buffer
      ensures Valid() && (buffer == old(buffer) || fresh(buffer))
      ensures fromBuffer ==> buffer[..position] == old(buffer[..count])
      ensures fromBuffer ==> if old(position) == count then buffer == old(buffer) else buffer.Length >= 2 * old(buffer.Length)
      ensures !fromBuffer ==> Contents() == old(Contents()) + p
    {
      var extra := count;
      if fromBuffer {
        if position == count {
          return;  // teardown
        }
        position := count;
        extra := 0;
      }
      Grow(extra);
      Put(p);
    }

    /** mpack_writer_flush_unchecked. */
    method FlushUnchecked()
      requires Valid()
      modifies this, buffer
      ensures Valid() && (buffer == old(buffer) || fresh(buffer)) && Contents() == old(Contents())
      ensures old(position) > 0 ==> buffer.Length >= 2 * old(buffer.Length)
      ensures old(position) == 0 ==> buffer == old(buffer)
    {
      var used := position;
      position := 0;
      Flush(true, used, []);
    }

    /** mpack_writer_ensure, which is only called when `count` bytes do not fit: it always makes room. */
    method Ensure(count: nat) returns (ok: bool)
      requires Valid() && Left() < count <= MINIMUM_BUFFER
      modifies this, buffer
      ensures Valid() && (buffer == old(buffer) || fresh(buffer)) && Contents() == old(Contents())
      ensures ok && count <= Left()
    {
      FlushUnchecked();
      ok := Left() >= count;
    }

    /** mpack_write_native with mpack_write_native_straddle. */
    method WriteNative(p: seq<byte>)
      requires Valid()
      modifies this, buffer
      ensures Valid() && (buffer == old(buffer) || fresh(buffer)) && Contents() == old(Contents()) + p
    {
      if |p| <= Left() {
        Put(p);
        return;
      }
      FlushUnchecked();
      if |p| > Left() {
        Flush(false, |p|, p);
      } else {
        Put(p);
      }
    }

    /** MPACK_WRITE_ENCODED: at most 32 bytes that are written in one piece. */
    method WriteEncoded(p: seq<byte>)
      requires Valid() && |p| <= MINIMUM_BUFFER
      modifies this, buffer
      ensures Valid() && (buffer == old(buffer) || fresh(buffer)) && Contents() == old(Contents()) + p
    {
      var ok := true;
      if Left() < |p| {
        ok := Ensure(|p|);
      }
      if ok {
        Put(p);
      }
    }

    /** mpack_writer_destroy with mpack_growable_writer_teardown: the caller gets exactly the bytes written,
        in a block that is never empty. */
    method Destroy() returns (data: array<byte>, size: nat)
      requires Valid()
      modifies this, buffer
      ensures size <= data.Length && data.Length > 0 && data[..size] == old(Contents())
      ensures data.Length <= old(buffer.Length) && (data == old(buffer) || fresh(data))
    {
      if position != 0 {
        Flush(true, position, []);
      }
      var used := position;
      if used < buffer.Length / 2 {
        var from := buffer;
        var capacity := if used != 0 then used else 1;
        buffer := new byte[capacity](i requires 0 <= i < capacity <= from.Length reads from => from[i]);
        assert buffer[..used] == from[..used];
      }
      data, size := buffer, used;
    }
  }
}
