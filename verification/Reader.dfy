/** The buffered reader of mpack.c:2979-3328 over a stream that a callback delivers in arbitrary
    pieces, and the tag reader, expect functions and mpack_discard on top of it. */
module Reader {
  import opened Bytes
  import opened MessagePack

  datatype Error = Ok | Io | Invalid | Unsupported | TypeMismatch | TooBig

  /** A stream of bytes behind a read callback. `plan` is the environment's choice of how much each
      call delivers; nothing is assumed about it. */
  class Source {
    const bytes: seq<byte>
    var pos: nat
    var plan: seq<nat>

    ghost predicate Valid()
      reads this
    {
      pos <= |bytes|
    }

    constructor (bytes: seq<byte>, plan: seq<nat>)
      ensures Valid() && this.bytes == bytes && pos == 0
    {
      this.bytes, this.pos, this.plan := bytes, 0, plan;
    }

    /** Delivers at most `max` of the bytes that come next; a blocking call delivers none only at the
        end of the stream, a non-blocking one may deliver none at any time. */
    method Read(max: nat, blocking: bool) returns (chunk: seq<byte>)
      requires Valid() && max > 0
      modifies this
      ensures Valid() && |chunk| <= max
      ensures pos == old(pos) + |chunk| && chunk == bytes[old(pos)..pos]
      ensures blocking && old(pos) < |bytes| ==> chunk != []
    {
      var n := if plan == [] then 0 else plan[0];
      plan := if plan == [] then [] else plan[1..];
      n := Min(Min(if blocking && n == 0 then 1 else n, max), |bytes| - pos);
      chunk := bytes[pos..pos + n];
      pos := pos + n;
    }
  }

  /** The array holds s at `off` and is otherwise as before. */
  twostate predicate Wrote(p: array<byte>, off: nat, s: seq<byte>)
    reads p
  {
    && off + |s| <= p.Length
    && (forall i | off <= i < off + |s| :: p[i] == s[i - off])
    && (forall i | 0 <= i < p.Length && !(off <= i < off + |s|) :: p[i] == old(p[i]))
  }

  /** mpack_memcpy into an array. */
  method Copy(p: array<byte>, off: nat, s: seq<byte>)
    requires off + |s| <= p.Length
    modifies p
    ensures Wrote(p, off, s)
  {
    forall i | 0 <= i < |s| {
      p[off + i] := s[i];
    }
  }

  /** READER_MINIMUM_BUFFER_SIZE and READER_SMALL_FRACTION_DENOMINATOR. */
  const MINIMUM_BUFFER: nat := 32
  const SMALL_FRACTION: nat := 32

  class Reader {
    const source: Source?  // null: a block of data without fill function
    const buffer: array<byte>
    var data: nat
    var end: nat
    var error: Error
    // The flat stream this reader is a view of, and the cursor in it.
    ghost const input: seq<byte>
    ghost var at: nat

    ghost predicate Valid()
      reads this, buffer, source
    {
      && data <= end <= buffer.Length
      && (error != Ok ==> data == end)
      && at <= |input|
      && (source != null ==> source.Valid() && source.bytes == input && buffer.Length >= MINIMUM_BUFFER)
      && (error == Ok ==> at + (end - data) <= |input| && forall i | data <= i < end :: buffer[i] == input[at + (i - data)])
      && (error == Ok ==> if source == null then at + (end - data) == |input| else at + (end - data) == source.pos)
    }

    /** mpack_reader_init_data. */
    constructor FromData(bytes: seq<byte>)
      ensures Valid() && error == Ok && source == null
      ensures input == bytes && at == 0 && fresh(buffer)
    {
      source := null;
      buffer := new byte[|bytes|](i requires 0 <= i < |bytes| => bytes[i]);
      data, end, error := 0, |bytes|, Ok;
      input, at := bytes, 0;
      new;
    }

    /** mpack_reader_init with mpack_reader_set_fill. */
    constructor FromSource(stream: Source, size: nat)
      requires stream.Valid() && size >= MINIMUM_BUFFER
      ensures Valid() && error == Ok && source == stream
      ensures input == stream.bytes && at == stream.pos && fresh(buffer) && buffer.Length == size
    {
      source := stream;
      buffer := new byte[size](_ => 0);
      data, end, error := 0, 0, Ok;
      input, at := stream.bytes, stream.pos;
    }

    /** mpack_reader_flag_error: only the first error counts, and it empties the buffer. */
    method FlagError(e: Error)
      requires Valid() && e != Ok
      modifies this
      ensures Valid() && error == (if old(error) == Ok then e else old(error)) && at == old(at)
    {
      if error == Ok {
        error := e;
        end := data;
      }
    }

    /** mpack_fill_range: between min and max bytes into p. Fails exactly when the stream ends first. */
    method FillRange(p: array<byte>, off: nat, min: nat, max: nat) returns (count: nat)
      requires source != null && source.Valid() && source.bytes == input && error == Ok
      requires data <= end <= buffer.Length && at <= |input| && buffer.Length >= MINIMUM_BUFFER
      requires 0 < min <= max && off + max <= p.Length
      modifies this`error, this`end, source, p
      ensures source.Valid() && old(source.pos) <= source.pos
      ensures error == if old(source.pos) + min <= |input| then Ok else Io
      ensures error == Ok ==>
                && min <= count <= max && end == old(end) && source.pos == old(source.pos) + count
                && Wrote(p, off, input[old(source.pos)..source.pos])
      ensures error != Ok ==> end == data
      ensures forall i | 0 <= i < off :: p[i] == old(p[i])
    {
      count := 0;
      while count < min
        invariant source.Valid() && source.pos == old(source.pos) + count && count <= max
        invariant error == Ok && end == old(end)
        invariant Wrote(p, off, input[old(source.pos)..source.pos])
      {
        var chunk := source.Read(max - count, true);
        if chunk == [] {
          error := Io;
          end := data;
          return 0;
        }
        Copy(p, off + count, chunk);
        count := count + |chunk|;
      }
    }

    /** mpack_reader_ensure: at least count bytes in the buffer. */
    method Ensure(count: nat) returns (ok: bool)
      requires Valid() && error == Ok && count > 0
      modifies this, buffer, source
      ensures Valid() && at == old(at)
      ensures ok <==> count <= |input| - at && (source == null || count <= buffer.Length || count <= old(end - data))
      ensures ok ==> error == Ok && count <= end - data
      ensures !ok ==> error == if source == null then Invalid else if count > buffer.Length then TooBig else Io
    {
      if count <= end - data {
        return true;
      }
      if source == null {
        FlagError(Invalid);
        return false;
      }
      if count > buffer.Length {
        FlagError(TooBig);
        return false;
      }
      var left := end - data;
      var kept := buffer[data..end];
      Copy(buffer, 0, kept);
      data, end := 0, left;
      var read := FillRange(buffer, left, count - left, buffer.Length - left);
      if error != Ok {
        return false;
      }
      end := left + read;
      return true;
    }

    /** The tail of mpack_read_native_straddle, once the buffer is used up: a small rest comes through
        the buffer, a large one directly. */
    method ReadRest(p: array<byte>, off: nat, more: nat)
      requires Valid() && error == Ok && source != null && data == end && more > 0
      requires p != buffer && off + more <= p.Length
      modifies this, buffer, source, p
      ensures Valid()
      ensures error == Ok <==> more <= |input| - old(at)
      ensures error == Ok ==> at == old(at) + more && Wrote(p, off, input[old(at)..at])
      ensures old(at) <= at
    {
      if more <= buffer.Length / SMALL_FRACTION {
        var read := FillRange(buffer, 0, more, buffer.Length);
        if error != Ok {
          return;
        }
        Copy(p, off, buffer[..more]);
        data, end := more, read;
        at := at + more;
      } else {
        var read := FillRange(p, off, more, more);
        if error == Ok {
          at := at + more;
        }
      }
    }

    /** mpack_read_native_straddle: more than is in the buffer. */
    method ReadStraddle(p: array<byte>, off: nat, count: nat)
      requires Valid() && p != buffer && off + count <= p.Length && count > end - data
      modifies this, buffer, source, p
      ensures Valid()
      ensures error == Ok <==> old(error) == Ok && count <= |input| - old(at)
      ensures error == Ok ==> at == old(at) + count && Wrote(p, off, input[old(at)..at])
      ensures source == null && error != Ok ==> forall i | off <= i < off + count :: p[i] == 0
      ensures old(at) <= at
      ensures old(error) != Ok ==> error == old(error) && at == old(at) && (source != null ==> source.pos == old(source.pos))
    {
      if error != Ok || source == null {
        FlagError(Invalid);
        forall i | off <= i < off + count { p[i] := 0; }
        return;
      }
      var left := end - data;
      Copy(p, off, buffer[data..end]);
      data := end;
      at := at + left;
      ReadRest(p, off + left, count - left);
    }

    /** mpack_read_native: count bytes into p. */
    method ReadNative(p: array<byte>, off: nat, count: nat)
      requires Valid() && p != buffer && off + count <= p.Length
      modifies this, buffer, source, p
      ensures Valid()
      ensures error == Ok <==> old(error) == Ok && count <= |input| - old(at)
      ensures error == Ok ==> at == old(at) + count && Wrote(p, off, input[old(at)..at])
      ensures source == null && error != Ok ==> forall i | off <= i < off + count :: p[i] == 0
      ensures old(at) <= at
      ensures old(error) != Ok ==> error == old(error) && at == old(at) && (source != null ==> source.pos == old(source.pos))
    {
      if count <= end - data {
        Copy(p, off, buffer[data..data + count]);
        data := data + count;
        if error == Ok {
          at := at + count;
        }
        return;
      }
      ReadStraddle(p, off, count);
    }

    /** mpack_read_bytes_inplace: a view of count bytes inside the buffer. */
    method ReadInplace(count: nat) returns (bytes: seq<byte>)
      requires Valid()
      modifies this, buffer, source
      ensures Valid()
      ensures error == Ok <==> old(error) == Ok
                               && count <= |input| - old(at)
                               && (source == null || count <= buffer.Length || count <= old(end - data))
      ensures error == Ok ==> at == old(at) + count && bytes == input[old(at)..at]
      ensures old(error) != Ok ==> error == old(error) && at == old(at) && (source != null ==> source.pos == old(source.pos))
    {
      bytes := [];
      if error != Ok {
        return;
      }
      if end - data < count {
        var ok := Ensure(count);
        if !ok {
          return;
        }
      }
      bytes := buffer[data..data + count];
      assert forall i | 0 <= i < count :: bytes[i] == buffer[data + i] == input[at + i];
      data := data + count;
      at := at + count;
    }

    /** mpack_skip_bytes, without a skip callback. */
    method SkipBytes(count: nat)
      requires Valid()
      modifies this, buffer, source
      ensures Valid()
      ensures error == Ok <==> old(error) == Ok && count <= |input| - old(at)
      ensures error == Ok ==> at == old(at) + count
      ensures old(at) <= at
      ensures old(error) != Ok ==> error == old(error) && at == old(at) && (source != null ==> source.pos == old(source.pos))
    {
      if error != Ok {
        return;
      }
      if end - data >= count {
        data := data + count;
        at := at + count;
        return;
      }
      if source == null {
        FlagError(Invalid);
        return;
      }
      var more := count - (end - data);
      at := at + (end - data);
      data := end;
      // mpack_reader_skip_using_fill
      while more > buffer.Length
        invariant Valid() && data == end && error == Ok && old(at) <= at
        invariant at + more == old(at) + count && more > 0
      {
        var read := FillRange(buffer, 0, buffer.Length, buffer.Length);
        if error != Ok {
          return;
        }
        more := more - buffer.Length;
        at := at + buffer.Length;
      }
      data, end := 0, 0;
      var read := FillRange(buffer, 0, more, buffer.Length);
      if error != Ok {
        return;
      }
      data, end := more, read;
      at := at + more;
    }

    /** What is wrong where no tag can be read: the input ends, or the lead byte is the reserved one or that of an
        ext type. */
    ghost function NoTagError(p: nat): Error {
      if p >= |input| || TagSize(input[p]) > 0 then (if source == null then Invalid else Io)
      else if input[p] == 0xc1 then Invalid else Unsupported
    }

    /** mpack_parse_tag: the tag at the cursor, which stays where it is; size 0 stands for failure. */
    method ParseTag() returns (size: nat, tag: Tag)
      requires Valid() && error == Ok
      modifies this, buffer, source
      ensures Valid() && at == old(at)
      ensures size > 0 <==> HasTag(input, at)
      ensures size > 0 ==> error == Ok && size == TagSize(input[at]) <= end - data && tag == TagAt(input, at)
      ensures size == 0 ==> error == NoTagError(at)
    {
      size, tag := 0, Nil;
      var ok := Ensure(1);
      if !ok {
        return;
      }
      var lead := buffer[data];
      if TagSize(lead) == 0 {
        FlagError(if lead == 0xc1 then Invalid else Unsupported);
        return;
      }
      ok := Ensure(TagSize(lead));
      if !ok {
        return;
      }
      size := TagSize(lead);
      tag := TagOf(lead, Load(buffer[data + 1..data + size]));
      assert buffer[data + 1..data + size] == input[at + 1..at + size];
    }

    /** mpack_read_tag: on any failure the tag is nil. */
    method ReadTag() returns (tag: Tag)
      requires Valid()
      modifies this, buffer, source
      ensures Valid()
      ensures error == Ok <==> old(error) == Ok && HasTag(input, old(at))
      ensures error == Ok ==> tag == TagAt(input, old(at)) && at == old(at) + TagSize(input[old(at)])
      ensures error != Ok ==> tag == Nil && at == old(at)
      ensures old(error) != Ok ==> error == old(error) && (source != null ==> source.pos == old(source.pos))
      ensures old(error) == Ok && error != Ok ==> error == NoTagError(old(at))
    {
      tag := Nil;
      if error != Ok {
        return;
      }
      var size, parsed := ParseTag();
      if size == 0 {
        return;
      }
      data := data + size;
      at := at + size;
      tag := parsed;
    }

    /** The array arm of mpack_discard: n objects. */
    method DiscardElements(n: nat)
      requires Valid() && error == Ok
      modifies this, buffer, source
      ensures Valid() && old(at) <= at
      ensures error == Ok <==> DecodeMany(input, old(at), n).Some?
      ensures error == Ok ==> at == DecodeMany(input, old(at), n).value.1
      decreases |input| - at, 1
    {
      hide Decode, Reader.NoTagError;
      ghost var body := at;
      var left := n;
      while left > 0
        invariant Valid() && error == Ok && body <= at && 0 <= left <= n
        invariant DecodeMany(input, body, n - left).Some? && DecodeMany(input, body, n - left).value.1 == at
      {
        DecodeManyNext(input, body, n - left, n);
        Discard();
        if error != Ok {
          return;
        }
        left := left - 1;
      }
      assert n - left == n;
    }

    /** The map arm of mpack_discard: n pairs of objects. */
    method DiscardPairs(n: nat)
      requires Valid() && error == Ok
      modifies this, buffer, source
      ensures Valid() && old(at) <= at
      ensures error == Ok <==> DecodeMany(input, old(at), 2 * n).Some?
      ensures error == Ok ==> at == DecodeMany(input, old(at), 2 * n).value.1
      decreases |input| - at, 1
    {
      ghost var body := at;
      ghost var k := 0;
      var left := n;
      while left > 0
        invariant Valid() && error == Ok && body <= at && 0 <= left <= n && k == 2 * (n - left)
        invariant DecodeMany(input, body, k).Some? && DecodeMany(input, body, k).value.1 == at
      {
        DecodePairNext(input, body, k, 2 * n);
        Discard();
        Discard();
        if error != Ok {
          return;
        }
        left, k := left - 1, k + 2;
      }
    }

    /** mpack_discard: skips one object of any shape. It succeeds exactly where the reference decoder
        finds a complete object, and then stands right behind it. */
    method Discard()
      requires Valid()
      modifies this, buffer, source
      ensures Valid() && old(at) <= at
      ensures error == Ok <==> old(error) == Ok && Decode(input, old(at)).Some?
      ensures error == Ok ==> at == Decode(input, old(at)).value.1
      ensures old(error) != Ok ==> error == old(error) && (source != null ==> source.pos == old(source.pos))
      decreases |input| - at, 0
    {
      var tag := ReadTag();
      if error != Ok {
        return;
      }
      assert Decode(input, old(at)).Some? ==> at + tag.Payload() <= |input|;
      match tag
      case Str(len) => SkipBytes(len);
      case Bin(len) => SkipBytes(len);
      case Array(n) => DiscardElements(n);
      case Map(n) => DiscardPairs(n);
      case _ =>
    }

    /** mpack_expect_native_u8/u16/u32: a big-endian number of the given width, 0 on failure. */
    method ExpectNative(width: nat) returns (v: nat)
      requires Valid() && 0 < width <= 4
      modifies this, buffer, source
      ensures Valid()
      ensures error == Ok <==> old(error) == Ok && width <= |input| - old(at)
      ensures error == Ok ==> at == old(at) + width && v == Load(input[old(at)..at])
      ensures error != Ok ==> v == 0
    {
      v := 0;
      if error != Ok {
        return;
      }
      var ok := Ensure(width);
      if !ok {
        return;
      }
      v := Load(buffer[data..data + width]);
      assert buffer[data..data + width] == input[at..at + width];
      data := data + width;
      at := at + width;
    }

    /** mpack_expect_i32 and mpack_expect_u32, for the bounds lo..hi of the type: any integer tag whose
        number fits; anything else flags an error and yields 0. */
    method ExpectInteger(lo: int, hi: int) returns (v: int)
      requires Valid() && lo <= 0 <= hi
      modifies this, buffer, source
      ensures Valid()
      ensures error == Ok <==> old(error) == Ok && IntegerWithin(input, old(at), lo, hi)
      ensures error == Ok ==> v == TagAt(input, old(at)).Number() && at == old(at) + TagSize(input[old(at)])
      ensures error != Ok ==> v == 0
    {
      var tag := ReadTag();
      if tag.UInt? {
        if tag.u <= hi {
          return tag.u;
        }
      } else if tag.Int? {
        if lo <= tag.i <= hi {
          return tag.i;
        }
      }
      FlagError(TypeMismatch);
      v := 0;
    }

    /** mpack_expect_array. */
    method ExpectArray() returns (n: nat)
      requires Valid()
      modifies this, buffer, source
      ensures Valid()
      ensures error == Ok <==> old(error) == Ok && HasTag(input, old(at)) && TagAt(input, old(at)).Array?
      ensures error == Ok ==> TagAt(input, old(at)) == Array(n) && at == old(at) + TagSize(input[old(at)])
      ensures error != Ok ==> n == 0
    {
      var tag := ReadTag();
      if tag.Array? {
        return tag.n;
      }
      FlagError(TypeMismatch);
      n := 0;
    }

    /** mpack_expect_str, which reads the lead byte and the length separately. */
    method ExpectStr() returns (n: nat)
      requires Valid()
      modifies this, buffer, source
      ensures Valid()
      ensures error == Ok <==> old(error) == Ok && HasTag(input, old(at)) && TagAt(input, old(at)).Str?
      ensures error == Ok ==> TagAt(input, old(at)) == Str(n) && at == old(at) + TagSize(input[old(at)])
      ensures error != Ok ==> n == 0
    {
      var lead := ExpectNative(1);
      if error == Ok {
        SingleByte(input, old(at));
      }
      if lead / 32 == 5 {
        n := lead % 32;
      } else if lead == 0xd9 {
        n := ExpectNative(1);
      } else if lead == 0xda {
        n := ExpectNative(2);
      } else if lead == 0xdb {
        n := ExpectNative(4);
      } else {
        FlagError(TypeMismatch);
        n := 0;
      }
    }
  }

  lemma SingleByte(s: seq<byte>, p: nat)
    requires p < |s|
    ensures Load(s[p..p + 1]) == s[p]
  {
    assert s[p..p + 1][..0] == [];
  }

  /** The tag at p is an integer of whatever encoding, with a value between lo and hi. */
  predicate IntegerWithin(s: seq<byte>, p: nat, lo: int, hi: int) {
    HasTag(s, p) && TagAt(s, p).IsInteger() && lo <= TagAt(s, p).Number() <= hi
  }

  /** After k of n consecutive objects, the next one decides whether there are k + 1, and whether there
      can be n. */
  lemma DecodeManyNext(s: seq<byte>, p: nat, k: nat, n: nat)
    requires p <= |s| && k < n && DecodeMany(s, p, k).Some?
    ensures var q := DecodeMany(s, p, k).value.1;
            && (Decode(s, q).None? ==> DecodeMany(s, p, n).None?)
            && (Decode(s, q).Some? ==>
                  DecodeMany(s, p, k + 1).Some? && DecodeMany(s, p, k + 1).value.1 == Decode(s, q).value.1)
  {
    var q := DecodeMany(s, p, k).value.1;
    DecodeManySplit(s, p, k, 1);
    DecodeManySplit(s, p, k, n - k);
    assert Decode(s, q).Some? ==> DecodeMany(s, Decode(s, q).value.1, 0).Some?;
  }

  /** The same for a key and its value. */
  lemma DecodePairNext(s: seq<byte>, p: nat, k: nat, n: nat)
    requires p <= |s| && k + 1 < n && DecodeMany(s, p, k).Some?
    ensures var q := DecodeMany(s, p, k).value.1;
            && (Decode(s, q).None? ==> DecodeMany(s, p, n).None?)
            && (Decode(s, q).Some? ==>
                  var q' := Decode(s, q).value.1;
                  && (Decode(s, q').None? ==> DecodeMany(s, p, n).None?)
                  && (Decode(s, q').Some? ==>
                        DecodeMany(s, p, k + 2).Some? && DecodeMany(s, p, k + 2).value.1 == Decode(s, q').value.1))
  {
    DecodeManyNext(s, p, k, n);
    if DecodeMany(s, p, k + 1).Some? {
      DecodeManyNext(s, p, k + 1, n);
    }
  }
}
