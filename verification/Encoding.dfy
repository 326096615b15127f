/** The write functions of mpack.c as byte strings: integers, container headers and whole objects,
    with their round trips through the grammar and the minimality of what they emit. */
module Encoding {
  import opened Bytes
  import opened MessagePack

  // mpack_encode_*: a lead byte and a big-endian argument.
  function Lead(lead: byte, width: nat, arg: nat): (s: seq<byte>)
    ensures |s| == width + 1
  {
    [lead] + Store(width, arg)
  }

  // Integer writers, one per C argument type. Each is a ladder of its own.

  function WriteU8(v: nat): seq<byte>
    requires v < 0x100
  {
    if v <= 127 then [v] else Lead(0xcc, 1, v)
  }

  function WriteU16(v: nat): seq<byte>
    requires v < 0x1_0000
  {
    if v <= 127 then [v] else if v <= 0xff then Lead(0xcc, 1, v) else Lead(0xcd, 2, v)
  }

  function WriteU32(v: nat): seq<byte>
    requires v < TWO32
  {
    if v <= 127 then [v]
    else if v <= 0xff then Lead(0xcc, 1, v)
    else if v <= 0xffff then Lead(0xcd, 2, v)
    else Lead(0xce, 4, v)
  }

  function WriteU64(v: nat): seq<byte>
    requires v < TWO64
  {
    if v <= 127 then [v]
    else if v <= 0xff then Lead(0xcc, 1, v)
    else if v <= 0xffff then Lead(0xcd, 2, v)
    else if v <= 0xffff_ffff then Lead(0xce, 4, v)
    else Lead(0xcf, 8, v)
  }

  function WriteI8(v: int): seq<byte>
    requires -0x80 <= v < 0x80
  {
    if v >= -32 then [v % 256] else Lead(0xd0, 1, v + 0x100)
  }

  function WriteI16(v: int): seq<byte>
    requires -0x8000 <= v < 0x8000
  {
    if v >= -32 then
      if v <= 127 then [v % 256]
      else if v <= 0xff then Lead(0xcc, 1, v)
      else Lead(0xcd, 2, v)
    else if v >= -0x80 then Lead(0xd0, 1, v + 0x100)
    else Lead(0xd1, 2, v + 0x1_0000)
  }

  function WriteI32(v: int): seq<byte>
    requires -0x8000_0000 <= v < 0x8000_0000
  {
    if v >= -32 then
      if v <= 127 then [v % 256]
      else if v <= 0xff then Lead(0xcc, 1, v)
      else if v <= 0xffff then Lead(0xcd, 2, v)
      else Lead(0xce, 4, v)
    else if v >= -0x80 then Lead(0xd0, 1, v + 0x100)
    else if v >= -0x8000 then Lead(0xd1, 2, v + 0x1_0000)
    else Lead(0xd2, 4, v + TWO32)
  }

  function WriteI64(v: int): seq<byte>
    requires -TWO63 <= v < TWO63
  {
    if v >= -32 then
      if v <= 127 then [v % 256]
      else if v <= 0xff then Lead(0xcc, 1, v)
      else if v <= 0xffff then Lead(0xcd, 2, v)
      else if v <= 0xffff_ffff then Lead(0xce, 4, v)
      else Lead(0xcf, 8, v)
    else if v >= -0x80 then Lead(0xd0, 1, v + 0x100)
    else if v >= -0x8000 then Lead(0xd1, 2, v + 0x1_0000)
    else if v >= -0x8000_0000 then Lead(0xd2, 4, v + TWO32)
    else Lead(0xd3, 8, v + TWO64)
  }

  /** The encoding of a number that fits int64 or uint64. */
  function WriteInteger(v: int): seq<byte>
    requires -TWO63 <= v < TWO64
  {
    if v < TWO63 then WriteI64(v) else WriteU64(v)
  }

  /** Whatever writer a caller picks for a number, the bytes are the same. */
  lemma WritersAgree(v: int)
    ensures 0 <= v < 0x100 ==> WriteU8(v) == WriteInteger(v)
    ensures 0 <= v < 0x1_0000 ==> WriteU16(v) == WriteInteger(v)
    ensures 0 <= v < TWO32 ==> WriteU32(v) == WriteInteger(v)
    ensures 0 <= v < TWO64 ==> WriteU64(v) == WriteInteger(v)
    ensures -0x80 <= v < 0x80 ==> WriteI8(v) == WriteInteger(v)
    ensures -0x8000 <= v < 0x8000 ==> WriteI16(v) == WriteInteger(v)
    ensures -0x8000_0000 <= v < 0x8000_0000 ==> WriteI32(v) == WriteInteger(v)
    ensures -TWO63 <= v < TWO63 ==> WriteI64(v) == WriteInteger(v)
  {
    if 0 <= v <= 127 { assert v % 256 == v; }
  }

  /** A lead byte with an argument of the grammar's width parses back to that tag. */
  lemma LeadParses(lead: byte, width: nat, arg: nat)
    requires TagSize(lead) == width + 1 && arg < Pow256(width)
    ensures HasTag(Lead(lead, width, arg), 0) && TagAt(Lead(lead, width, arg), 0) == TagOf(lead, arg)
  {
    LoadStore(width, arg);
    assert Lead(lead, width, arg)[1..1 + width] == Store(width, arg);
  }

  /** A byte string starts with a tag of `size` bytes, and this is what it says. */
  predicate Says(s: seq<byte>, size: nat, t: Tag) {
    HasTag(s, 0) && TagSize(s[0]) == size && TagAt(s, 0) == t
  }

  /** The numbers, strings and containers of the MessagePack formats of one byte. */
  lemma ShortFormats(v: nat, tail: seq<byte>)
    ensures v < 128 ==> Says([v] + tail, 1, UInt(v))
    ensures v < 16 ==> Says([0x80 + v] + tail, 1, Map(v)) && Says([0x90 + v] + tail, 1, Array(v))
    ensures v < 32 ==> Says([0xa0 + v] + tail, 1, Str(v)) && Says([0xe0 + v] + tail, 1, Int(v - 32))
    ensures Says([0xc0] + tail, 1, Nil) && Says([0xc2] + tail, 1, Bool(false)) && Says([0xc3] + tail, 1, Bool(true))
    ensures v in {0xc1, 0xc7, 0xc8, 0xc9, 0xd4, 0xd5, 0xd6, 0xd7, 0xd8} ==> !HasTag([v] + tail, 0)
  {
  }

  /** The longer ones, with any number that the argument can hold, also where a shorter format could. */
  lemma Formats8(v: nat, tail: seq<byte>)
    requires v < 0x100
    ensures Says([0xcc] + [v] + tail, 2, UInt(v)) && Says([0xc4] + [v] + tail, 2, Bin(v)) && Says([0xd9] + [v] + tail, 2, Str(v))
  {
    hide Store, Load, Says, Pow256;
    Pow256Values();
    BigEndian(v);
    FormatSays(0xcc, 1, v, tail);
    FormatSays(0xc4, 1, v, tail);
    FormatSays(0xd9, 1, v, tail);
  }

  lemma Formats16(v: nat, tail: seq<byte>)
    requires v < 0x1_0000
    ensures Says([0xcd] + Store(2, v) + tail, 3, UInt(v)) && Says([0xc5] + Store(2, v) + tail, 3, Bin(v))
    ensures Says([0xda] + Store(2, v) + tail, 3, Str(v)) && Says([0xdc] + Store(2, v) + tail, 3, Array(v))
    ensures Says([0xde] + Store(2, v) + tail, 3, Map(v))
  {
    hide Store, Load, Says, Pow256;
    Pow256Values();
    FormatSays(0xcd, 2, v, tail);
    FormatSays(0xc5, 2, v, tail);
    FormatSays(0xda, 2, v, tail);
    FormatSays(0xdc, 2, v, tail);
    FormatSays(0xde, 2, v, tail);
  }

  lemma Formats32(v: nat, tail: seq<byte>)
    requires v < 0x1_0000_0000
    ensures Says([0xce] + Store(4, v) + tail, 5, UInt(v)) && Says([0xc6] + Store(4, v) + tail, 5, Bin(v))
    ensures Says([0xdb] + Store(4, v) + tail, 5, Str(v)) && Says([0xdd] + Store(4, v) + tail, 5, Array(v))
    ensures Says([0xdf] + Store(4, v) + tail, 5, Map(v)) && Says([0xca] + Store(4, v) + tail, 5, Float(v))
  {
    hide Store, Load, Says, Pow256;
    Pow256Values();
    FormatSays(0xce, 4, v, tail);
    FormatSays(0xc6, 4, v, tail);
    FormatSays(0xdb, 4, v, tail);
    FormatSays(0xdd, 4, v, tail);
    FormatSays(0xdf, 4, v, tail);
    FormatSays(0xca, 4, v, tail);
  }

  lemma Formats64(v: nat, tail: seq<byte>)
    requires v < 0x1_0000_0000_0000_0000
    ensures Says([0xcf] + Store(8, v) + tail, 9, UInt(v)) && Says([0xcb] + Store(8, v) + tail, 9, Double(v))
  {
    hide Store, Load, Says, Pow256;
    Pow256Values();
    FormatSays(0xcf, 8, v, tail);
    FormatSays(0xcb, 8, v, tail);
  }

  /** A signed number of any width, negative or not, is stored as its two's complement. */
  lemma SignedFormats(i: int, tail: seq<byte>)
    ensures -0x80 <= i < 0x80 ==> Says([0xd0] + Store(1, i % 0x100) + tail, 2, Int(i))
    ensures -0x8000 <= i < 0x8000 ==> Says([0xd1] + Store(2, i % 0x1_0000) + tail, 3, Int(i))
  {
    hide Store, Load, Says, Pow256;
    Pow256Values();
    FormatSays(0xd0, 1, i % 0x100, tail);
    FormatSays(0xd1, 2, i % 0x1_0000, tail);
  }

  lemma WideSignedFormats(i: int, tail: seq<byte>)
    ensures -0x8000_0000 <= i < 0x8000_0000 ==> Says([0xd2] + Store(4, i % 0x1_0000_0000) + tail, 5, Int(i))
    ensures -0x8000_0000_0000_0000 <= i < 0x8000_0000_0000_0000 ==>
              Says([0xd3] + Store(8, i % 0x1_0000_0000_0000_0000) + tail, 9, Int(i))
  {
    hide Store, Load, Says, Pow256;
    Pow256Values();
    FormatSays(0xd2, 4, i % 0x1_0000_0000, tail);
    FormatSays(0xd3, 8, i % 0x1_0000_0000_0000_0000, tail);
  }

  lemma FormatSays(lead: byte, width: nat, v: nat, tail: seq<byte>)
    requires TagSize(lead) == width + 1 && v < Pow256(width)
    ensures Says([lead] + Store(width, v) + tail, width + 1, TagOf(lead, v))
  {
    LoadStore(width, v);
    var s := [lead] + Store(width, v) + tail;
    assert s[1..1 + width] == Store(width, v);
  }

  lemma PositiveRoundTrip(v: nat)
    requires v < TWO64
    ensures var s := WriteU64(v); HasTag(s, 0) && TagSize(s[0]) == |s| && TagAt(s, 0) == UInt(v)
  {
    Pow256Values();
    if v > 127 {
      if v <= 0xff { LeadParses(0xcc, 1, v); }
      else if v <= 0xffff { LeadParses(0xcd, 2, v); }
      else if v <= 0xffff_ffff { LeadParses(0xce, 4, v); }
      else { LeadParses(0xcf, 8, v); }
    }
  }

  lemma NegativeRoundTrip(v: int)
    requires -TWO63 <= v < 0
    ensures var s := WriteI64(v); HasTag(s, 0) && TagSize(s[0]) == |s| && TagAt(s, 0) == Int(v)
  {
    Pow256Values();
    if v < -32 {
      if v >= -0x80 { LeadParses(0xd0, 1, v + 0x100); }
      else if v >= -0x8000 { LeadParses(0xd1, 2, v + 0x1_0000); }
      else if v >= -0x8000_0000 { LeadParses(0xd2, 4, v + TWO32); }
      else { LeadParses(0xd3, 8, v + TWO64); }
    }
  }

  /** Reading what a writer produced returns the number and spans exactly those bytes. */
  lemma IntegerRoundTrip(v: int)
    requires -TWO63 <= v < TWO64
    ensures var s := WriteInteger(v);
            && HasTag(s, 0) && TagSize(s[0]) == |s|
            && TagAt(s, 0) == if v < 0 then Int(v) else UInt(v)
  {
    WritersAgree(v);
    if v < 0 { NegativeRoundTrip(v); } else { PositiveRoundTrip(v); }
  }

  /** No MessagePack integer that denotes v is shorter than what the writers emit. */
  lemma IntegerMinimal(s: seq<byte>, v: int)
    requires -TWO63 <= v < TWO64
    requires HasTag(s, 0) && TagAt(s, 0).IsInteger() && TagAt(s, 0).Number() == v
    ensures |WriteInteger(v)| <= TagSize(s[0])
  {
    Pow256Values();
    var k := TagSize(s[0]) - 1;
    assert |s[1..1 + k]| == k;
  }

  // Container and byte string headers: mpack_write_array_notrack, mpack_write_map_notrack,
  // mpack_start_str_notrack, mpack_start_bin_notrack.

  function ArrayHeader(n: nat): seq<byte>
    requires n < TWO32
  {
    if n <= 15 then [0x90 + n] else if n <= 0xffff then Lead(0xdc, 2, n) else Lead(0xdd, 4, n)
  }

  function MapHeader(n: nat): seq<byte>
    requires n < TWO32
  {
    if n <= 15 then [0x80 + n] else if n <= 0xffff then Lead(0xde, 2, n) else Lead(0xdf, 4, n)
  }

  function StrHeader(n: nat): seq<byte>
    requires n < TWO32
  {
    if n <= 31 then [0xa0 + n]
    else if n <= 0xff then Lead(0xd9, 1, n)
    else if n <= 0xffff then Lead(0xda, 2, n)
    else Lead(0xdb, 4, n)
  }

  function BinHeader(n: nat): seq<byte>
    requires n < TWO32
  {
    if n <= 0xff then Lead(0xc4, 1, n) else if n <= 0xffff then Lead(0xc5, 2, n) else Lead(0xc6, 4, n)
  }

  /** Tags that the write functions can express; non-negative numbers are unsigned, as they read back. */
  predicate ValidTag(t: Tag) {
    match t
    case Nil => true
    case Bool(_) => true
    case UInt(u) => u < TWO64
    case Int(i) => -TWO63 <= i < 0
    case Float(bits) => bits < TWO32
    case Double(bits) => bits < TWO64
    case Str(len) => len < TWO32
    case Bin(len) => len < TWO32
    case Array(n) => n < TWO32
    case Map(n) => n < TWO32
  }

  /** mpack_write_tag. */
  function EncodeTag(t: Tag): (s: seq<byte>)
    requires ValidTag(t)
    ensures 1 <= |s| <= 9
  {
    match t
    case Nil => [0xc0]
    case Bool(b) => [if b then 0xc3 else 0xc2]
    case UInt(u) => WriteU64(u)
    case Int(i) => WriteI64(i)
    case Float(bits) => Lead(0xca, 4, bits)
    case Double(bits) => Lead(0xcb, 8, bits)
    case Str(len) => StrHeader(len)
    case Bin(len) => BinHeader(len)
    case Array(n) => ArrayHeader(n)
    case Map(n) => MapHeader(n)
  }

  /** Reading a written tag returns it and spans exactly its bytes. */
  lemma TagRoundTrip(t: Tag)
    requires ValidTag(t)
    ensures var s := EncodeTag(t); HasTag(s, 0) && TagSize(s[0]) == |s| && TagAt(s, 0) == t
  {
    Pow256Values();
    match t
    case Nil =>
    case Bool(_) =>
    case UInt(u) => PositiveRoundTrip(u);
    case Int(i) => NegativeRoundTrip(i);
    case Float(bits) => LeadParses(0xca, 4, bits);
    case Double(bits) => LeadParses(0xcb, 8, bits);
    case Str(n) =>
      if n > 31 {
        if n <= 0xff { LeadParses(0xd9, 1, n); } else if n <= 0xffff { LeadParses(0xda, 2, n); } else { LeadParses(0xdb, 4, n); }
      }
    case Bin(n) =>
      if n <= 0xff { LeadParses(0xc4, 1, n); } else if n <= 0xffff { LeadParses(0xc5, 2, n); } else { LeadParses(0xc6, 4, n); }
    case Array(n) =>
      if n > 15 { if n <= 0xffff { LeadParses(0xdc, 2, n); } else { LeadParses(0xdd, 4, n); } }
    case Map(n) =>
      if n > 15 { if n <= 0xffff { LeadParses(0xde, 2, n); } else { LeadParses(0xdf, 4, n); } }
  }

  /** No tag of the grammar that denotes t is shorter than what is written for t. */
  lemma TagMinimal(s: seq<byte>, t: Tag)
    requires ValidTag(t) && HasTag(s, 0) && TagAt(s, 0) == t
    ensures |EncodeTag(t)| <= TagSize(s[0])
  {
    Pow256Values();
    var k := TagSize(s[0]) - 1;
    assert |s[1..1 + k]| == k;
  }

  /** A value the write functions can express. */
  predicate Writable(v: Value)
    decreases v
  {
    ValidTag(v.tag) && |v.data| == v.tag.Payload() && |v.items| == v.tag.Children() && AllWritable(v.items)
  }

  predicate AllWritable(vs: seq<Value>)
    decreases vs
  {
    vs == [] || (Writable(vs[0]) && AllWritable(vs[1..]))
  }

  function Encode(v: Value): (s: seq<byte>)
    requires Writable(v)
    ensures |s| > 0
    decreases v
  {
    EncodeTag(v.tag) + v.data + EncodeAll(v.items)
  }

  function EncodeAll(vs: seq<Value>): seq<byte>
    requires AllWritable(vs)
    decreases vs
  {
    if vs == [] then [] else Encode(vs[0]) + EncodeAll(vs[1..])
  }

  lemma {:induction false} EncodeAllConcat(vs: seq<Value>, ws: seq<Value>)
    requires AllWritable(vs) && AllWritable(ws)
    ensures AllWritable(vs + ws)
    ensures EncodeAll(vs + ws) == EncodeAll(vs) + EncodeAll(ws)
  {
    hide Writable, Encode;
    if vs == [] {
      assert vs + ws == ws;
    } else {
      assert (vs + ws)[1..] == vs[1..] + ws;
      EncodeAllConcat(vs[1..], ws);
    }
  }

  /** The three parts of a byte string that stands at p stand there one after the other. */
  lemma PartsStand(s: seq<byte>, p: nat, a: seq<byte>, b: seq<byte>, c: seq<byte>)
    requires p <= |s| && a + b + c <= s[p..]
    ensures p + |a| + |b| + |c| <= |s|
    ensures s[p..p + |a|] == a
    ensures s[p + |a|..p + |a| + |b|] == b
    ensures s[p + |a| + |b|..p + |a| + |b| + |c|] == c
  {
    assert forall i | 0 <= i < |a + b + c| :: s[p + i] == s[p..][i] == (a + b + c)[i];
  }

  /** An encoded object standing at p is found there: its tag, its raw bytes, and its elements next. */
  lemma ObjectStands(s: seq<byte>, p: nat, v: Value, tail: seq<byte>)
    requires Writable(v)
    requires p <= |s| && EncodeTag(v.tag) + v.data + tail <= s[p..]
    ensures HasTag(s, p) && TagAt(s, p) == v.tag
    ensures BodyEnd(s, p) == p + |EncodeTag(v.tag)| + |v.data| && BodyEnd(s, p) + |tail| <= |s|
    ensures s[BodyEnd(s, p)..BodyEnd(s, p) + |tail|] == tail
    ensures forall items :: ObjectAt(s, p, items) == Value(v.tag, v.data, items)
  {
    hide TagSize, TagOf, Load, EncodeTag;
    var tag := EncodeTag(v.tag);
    TagRoundTrip(v.tag);
    PartsStand(s, p, tag, v.data, tail);
    assert s[p] == s[p..p + |tag|][0];
    assert s[p + 1..p + |tag|] == s[p..p + |tag|][1..] == tag[0 + 1..0 + TagSize(tag[0])];
  }

  lemma EncodeAllUnfold(vs: seq<Value>)
    requires AllWritable(vs) && vs != []
    ensures Writable(vs[0]) && AllWritable(vs[0].items + vs[1..])
    ensures EncodeAll(vs) == EncodeTag(vs[0].tag) + vs[0].data + EncodeAll(vs[0].items + vs[1..])
  {
    hide EncodeTag;
    var v, rest := vs[0], vs[1..];
    EncodeAllConcat(v.items, rest);
    assert EncodeTag(v.tag) + v.data + EncodeAll(v.items) + EncodeAll(rest)
        == EncodeTag(v.tag) + v.data + (EncodeAll(v.items) + EncodeAll(rest));
  }

  lemma DecodeFirst(s: seq<byte>, p: nat, vs: seq<Value>, end: nat)
    requires p <= |s| && vs != [] && Writable(vs[0])
    requires HasTag(s, p) && BodyEnd(s, p) <= |s| && TagAt(s, p) == vs[0].tag
    requires ObjectAt(s, p, vs[0].items) == vs[0]
    requires DecodeMany(s, BodyEnd(s, p), |vs[0].items + vs[1..]|) == Some((vs[0].items + vs[1..], end))
    ensures DecodeMany(s, p, |vs|) == Some((vs, end))
  {
    var pending := vs[0].items + vs[1..];
    DecodeUnfold(s, p, |vs|);
    assert pending[..|vs[0].items|] == vs[0].items && pending[|vs[0].items|..] == vs[1..];
    assert |pending| == TagAt(s, p).Children() + (|vs| - 1);
    assert [vs[0]] + vs[1..] == vs;
  }

  /** Decoding inverts encoding wherever the bytes stand: the encoded objects come back, in order,
      and decoding stops right behind them. */
  lemma {:induction false} DecodeEncodeAll(s: seq<byte>, p: nat, vs: seq<Value>)
    requires AllWritable(vs)
    requires p <= |s| && EncodeAll(vs) <= s[p..]
    ensures DecodeMany(s, p, |vs|) == Some((vs, p + |EncodeAll(vs)|))
    decreases |EncodeAll(vs)|
  {
    hide TagSize, TagOf, Load, EncodeTag, BodyEnd;
    if vs != [] {
      var v, pending := vs[0], vs[0].items + vs[1..];
      EncodeAllUnfold(vs);
      ObjectStands(s, p, v, EncodeAll(pending));
      var q := BodyEnd(s, p);
      assert EncodeAll(pending) <= s[q..] by {
        assert s[q..][..|EncodeAll(pending)|] == s[q..q + |EncodeAll(pending)|];
      }
      DecodeEncodeAll(s, q, pending);
      DecodeFirst(s, p, vs, p + |EncodeAll(vs)|);
    }
  }
}
