/** The serializer and parsers of ya_event.c step by step, on the writer and reader of mpack, and the read
    step of a connection's input buffer (ya_server_session.c:88-107). */
module EventCodec {
  import opened Bytes
  import opened MessagePack
  import opened Encoding
  import opened Events
  import WriterCalls
  import Builder
  import R = Reader

  // Serialization.

  method SerializeHeader(h: Header) returns (data: array<byte>, size: nat)
    requires ValidHeader(h)
    ensures fresh(data) && size <= data.Length && data[..size] == HeaderBytes(h)
  {
    hide WriteU32, ArrayHeader, Builder.BuildWriter.Valid, Builder.BuildWriter.State;
    ShortNumbers();
    var w := new Builder.BuildWriter();
    w.WriteEncoded(ArrayHeader(4));
    w.WriteEncoded(WriteU32(h.uid));
    w.WriteEncoded(WriteU32(h.kind));
    w.WriteEncoded(WriteU32(h.direction));
    w.WriteEncoded(WriteU32(h.index));
    data, size := w.Destroy();
  }

  lemma ShortNumbers()
    ensures forall v: nat | v < TWO32 :: |WriteU32(v)| <= 9
    ensures forall v: int | IsI32(v) :: |WriteI32(v)| <= 9
    ensures forall v: nat | v < TWO32 :: |ArrayHeader(v)| <= 9
  {
  }

  method SerializeBody(kind: nat, p: Payload) returns (data: array<byte>, size: nat)
    requires Matching(kind, p) && !FromClient(p)
    ensures fresh(data) && size <= data.Length && data[..size] == BodyBytes(kind, p)
  {
    hide WriteU32, WriteI32, ArrayHeader, StrHeader, Builder.BuildWriter.Valid, Builder.BuildWriter.State;
    ShortNumbers();
    var w := new Builder.BuildWriter();
    match p {
      case Common(l, r) =>
        w.WriteEncoded(ArrayHeader(2));
        w.WriteEncoded(WriteI32(l));
        w.WriteEncoded(WriteI32(r));
      case Keyboard(code, op, mods) =>
        w.WriteEncoded(ArrayHeader(3));
        w.WriteEncoded(WriteI32(code));
        w.WriteEncoded(WriteI32(op));
        w.WriteEncoded(WriteU32(mods));
      case Text(text) =>
        w.WriteStr(text);
      case NoPayload =>
    }
    data, size := w.Destroy();
  }

  /** ya_serialize_event. */
  method Serialize(e: Event) returns (out: array<byte>)
    requires Serializable(e) && !FromClient(e.payload)
    ensures fresh(out) && out[..] == Packet(e)
  {
    hide HeaderBytes, BodyBytes, Store;
    var body, bodySize := SerializeBody(e.header.kind, e.payload);
    var header, headerSize := SerializeHeader(e.header);
    var total := headerSize + bodySize + 4;
    out := new byte[total + 4](_ => 0);
    R.Copy(out, 0, Store(4, total));
    R.Copy(out, 4, Store(4, headerSize));
    R.Copy(out, 8, header[..headerSize]);
    R.Copy(out, 8 + headerSize, body[..bodySize]);
    assert out[0..4] == Store(4, total);
    assert out[4..8] == Store(4, headerSize);
    assert out[8..8 + headerSize] == header[..headerSize];
    assert out[8 + headerSize..] == body[..bodySize];
    assert out[..] == out[0..4] + out[4..8] + out[8..8 + headerSize] + out[8 + headerSize..];
  }

  // Parsing.

  ghost function Cursor(r: R.Reader): Option<nat>
    reads r
  {
    if r.error == R.Ok then Some(r.at) else None
  }

  method ExpectInteger(r: R.Reader, lo: int, hi: int) returns (v: int)
    requires r.Valid() && r.source == null && lo <= 0 <= hi
    modifies r, r.buffer
    ensures r.Valid() && (v, Cursor(r)) == IntegerAt(r.input, old(Cursor(r)), lo, hi)
  {
    v := r.ExpectInteger(lo, hi);
  }

  method ExpectU32(r: R.Reader) returns (v: nat)
    requires r.Valid() && r.source == null
    modifies r, r.buffer
    ensures r.Valid() && (v, Cursor(r)) == U32At(r.input, old(Cursor(r)))
  {
    v := r.ExpectInteger(0, TWO32 - 1);
  }

  method ExpectArray(r: R.Reader) returns (n: nat)
    requires r.Valid() && r.source == null
    modifies r, r.buffer
    ensures r.Valid() && (n, Cursor(r)) == ArrayAt(r.input, old(Cursor(r)))
  {
    n := r.ExpectArray();
  }

  method ExpectStr(r: R.Reader) returns (n: nat)
    requires r.Valid() && r.source == null
    modifies r, r.buffer
    ensures r.Valid() && (n, Cursor(r)) == StrAt(r.input, old(Cursor(r)))
  {
    n := r.ExpectStr();
  }

  /** ya_parse_event_header, on the bytes pulled up. */
  method ParseHeaderBytes(data: seq<byte>) returns (h: Option<Header>)
    ensures h == ParseHeader(data)
  {
    hide IntegerAt, ArrayAt;
    var r := new R.Reader.FromData(data);
    var count := ExpectArray(r);
    if count != 4 {
      r.FlagError(R.TypeMismatch);
    }
    var uid := ExpectInteger(r, -TWO31, TWO31 - 1);
    var kind := ExpectInteger(r, -TWO31, TWO31 - 1);
    var direction := ExpectInteger(r, -TWO31, TWO31 - 1);
    var index := ExpectInteger(r, -TWO31, TWO31 - 1);
    if r.error != R.Ok {
      return None;
    }
    return Some(CastHeader(uid, kind, direction, index));
  }

  /** mpack_expect_float, up to the conversion of the number. */
  method ExpectNumber(r: R.Reader) returns (n: Option<Tag>)
    requires r.Valid() && r.source == null
    modifies r, r.buffer
    ensures r.Valid() && n == NumberAt(r.input, old(Cursor(r)))
  {
    var tag := r.ReadTag();
    if tag.UInt? || tag.Int? || tag.Float? || tag.Double? {
      return Some(tag);
    }
    r.FlagError(R.TypeMismatch);
    return None;
  }

  /** Reads n bytes into a block, ends them with a NUL and cuts them at the first one. */
  method ReadText(r: R.Reader, text: array<byte>, n: nat) returns (cut: seq<byte>)
    requires r.Valid() && r.source == null && text != r.buffer && n < text.Length
    requires forall i | 0 <= i < text.Length :: text[i] == 0
    modifies r, r.buffer, text
    ensures cut == if old(r.error) == R.Ok && old(r.at) + n <= |r.input| then CString(r.input[old(r.at)..old(r.at) + n]) else []
  {
    hide CString, R.Reader.Valid;
    r.ReadNative(text, 0, n);
    text[n] := 0;
    if r.error == R.Ok {
      assert text[..n] == r.input[old(r.at)..old(r.at) + n];
      assert text[..n + 1] == text[..n] + [0];
      CStringEnds(text[..n]);
    } else {
      assert text[0] == 0;
      EmptyCString(text[..n + 1]);
    }
    cut := CString(text[..n + 1]);
  }

  lemma FourBytes(b: seq<byte>, start: nat, four: seq<byte>)
    requires |four| == 4 && forall i | 0 <= i < 4 :: four[i] == if start + i < |b| then b[start + i] else 0
    ensures SizeAt(b, start) == Load(four)
  {
    assert four == ByteAt(b, start) + ByteAt(b, start + 1) + ByteAt(b, start + 2) + ByteAt(b, start + 3);
  }

  lemma EmptyCString(s: seq<byte>)
    requires s != [] && s[0] == 0
    ensures CString(s) == []
  {
  }

  /** The text parsers: the string is read into a block of its own and cut at its first NUL. For a length of
      2^32 - 1 the block is empty; what is then written behind it is not modelled, and any text comes back. */
  method ParseText(data: seq<byte>, beyond: seq<byte>) returns (cut: seq<byte>)
    ensures cut == TextAt(data, beyond)
  {
    hide HasTag, TagAt, CString;
    var r := new R.Reader.FromData(data);
    var n := ExpectStr(r);
    var text := new byte[TextBlock(n)](_ => 0);
    if text.Length < n + 1 {
      return CString(beyond);
    }
    cut := ReadText(r, text, n);
  }

  lemma {:induction false} CStringEnds(s: seq<byte>)
    ensures CString(s + [0]) == CString(s)
  {
    if s != [] {
      assert (s + [0])[1..] == s[1..] + [0];
      CStringEnds(s[1..]);
    }
  }

  method ParseBodyBytes(kind: nat, data: seq<byte>, beyond: seq<byte>) returns (p: Payload)
    ensures p == ParseBody(kind, data, beyond)
  {
    hide IntegerAt, ArrayAt, TextAt, NumberAt;
    if kind in {TEXT_INPUT, TEXT_GET} {
      var text := ParseText(data, beyond);
      return Text(text);
    }
    var r := new R.Reader.FromData(data);
    if kind in {MOUSE_MOVE, MOUSE_CLICK, MOUSE_WHEEL, CONTROL} {
      var _ := ExpectArray(r);
      var l := ExpectInteger(r, -TWO31, TWO31 - 1);
      var rp := ExpectInteger(r, -TWO31, TWO31 - 1);
      return Common(l, rp);
    } else if kind == KEYBOARD {
      var _ := ExpectArray(r);
      var code := ExpectInteger(r, -TWO31, TWO31 - 1);
      var op := ExpectInteger(r, -TWO31, TWO31 - 1);
      var mods := ExpectU32(r);
      return Keyboard(code, op, mods);
    } else if kind == AUTHORIZE {
      var _ := ExpectArray(r);
      var t := ExpectU32(r);
      var v := ExpectU32(r);
      return AuthorizeRequest(t, v);
    } else if kind == DISCOVER {
      var magic := ExpectU32(r);
      return DiscoverRequest(magic);
    } else if kind == SESSION_OPTION {
      var _ := ExpectArray(r);
      var scale := ExpectNumber(r);
      return SessionOption(scale);
    }
    return NoPayload;
  }

  /** The part of an evbuffer that is used here. */
  class EventBuffer {
    var bytes: seq<byte>

    constructor ()
      ensures bytes == []
    {
      bytes := [];
    }

    method Drain(n: nat)
      modifies this
      ensures bytes == old(bytes)[Min(n, |old(bytes)|)..]
    {
      bytes := bytes[Min(n, |bytes|)..];
    }

    /** evbuffer_pullup. */
    method Pullup(size: int) returns (data: Option<seq<byte>>)
      ensures data == PulledUp(bytes, size)
    {
      var n := size;
      if n < 0 {
        n := |bytes|;
      }
      if n == 0 || n > |bytes| {
        return None;
      }
      return Some(bytes[..n]);
    }

    /** to_uint32, with its partial copy. */
    method ToUint32(start: nat) returns (v: nat)
      ensures v == SizeAt(bytes, start)
    {
      hide Load, SizeAt;
      var out := new byte[4](_ => 0);
      var n := if start < |bytes| then Min(4, |bytes| - start) else 0;
      R.Copy(out, 0, bytes[Min(start, |bytes|)..Min(start, |bytes|) + n]);
      FourBytes(bytes, start, out[..]);
      v := Load(out[..]);
    }

    /** ya_parse_event. The body size becomes an int for the pull-up, and a size_t for parser and drain. */
    method Parse(headerSize: nat, bodySize: nat, beyond: seq<byte>) returns (e: Option<Event>)
      requires bodySize < TWO32
      modifies this
      ensures (e, bytes) == ParseEvent(old(bytes), headerSize, bodySize, beyond)
    {
      hide ParseHeader, ParseBody;
      if |bytes| < headerSize {
        return None;
      }
      var data := Pullup(headerSize);
      if data.None? {
        return None;
      }
      var h := ParseHeaderBytes(data.value);
      if h.None? {
        return None;
      }
      Drain(headerSize);
      var contentLen := AsI32(bodySize);
      if contentLen == 0 {
        return Some(Event(h.value, NoPayload));
      }
      data := Pullup(contentLen);
      if data.None? {
        return None;
      }
      var length := if contentLen >= 0 then contentLen else TWO64 + contentLen;
      var seen := if length <= |data.value| then data.value else data.value + beyond;
      var p := ParseBodyBytes(h.value.kind, seen, beyond);
      Drain(length);
      return Some(Event(h.value, p));
    }

    /** ya_get_package_size and the reading part of conn_readcb. */
    method Read(beyond: seq<byte>) returns (e: Option<Event>)
      modifies this
      ensures (e, bytes) == ReadEvent(old(bytes), beyond)
    {
      hide SizeAt, ParseEvent;
      var total := ToUint32(0);
      var header := ToUint32(4);
      var body := (total - header - 4) % TWO32;
      if |bytes| % TWO32 < (total + 4) % TWO32 {
        return None;
      }
      Drain(8);
      e := Parse(header, body, beyond);
    }
  }
}
