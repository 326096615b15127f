/** Events as frames of bytes (ya_event.c, ya_event.h): two 32-bit sizes, a MessagePack header and a
    MessagePack body, and what parsing makes of any bytes. */
module Events {
  import opened Bytes
  import opened MessagePack
  import opened Encoding

  // YAEventType.
  const MOUSE_MOVE: nat := 1
  const MOUSE_CLICK: nat := 2
  const MOUSE_WHEEL: nat := 3
  const KEYBOARD: nat := 4
  const TEXT_INPUT: nat := 5
  const TEXT_GET: nat := 6
  const DISCOVER: nat := 7
  const MOUSE_STOP: nat := 8
  const CONTROL: nat := 9
  const AUTHORIZE: nat := 10
  const HEARTBEAT: nat := 11
  const SESSION_OPTION: nat := 12

  // YAEventDirection.
  const REQUEST: nat := 1
  const RESPONSE: nat := 2

  /** YAEventHeader. */
  datatype Header = Header(uid: nat, kind: nat, direction: nat, index: nat)

  /** The structures that `param` points to. A text is a C string; a scale is the number that was read, before
      it is converted to a float, or None for 0. */
  datatype Payload =
    | NoPayload
    | Common(l: int, r: int)
    | Keyboard(code: int, op: int, mods: nat)
    | Text(text: seq<byte>)
    | AuthorizeRequest(clientType: nat, version: nat)
    | DiscoverRequest(magic: nat)
    | SessionOption(scale: Option<Tag>)

  datatype Event = Event(header: Header, payload: Payload)

  /** The header's fields fit their C types. */
  predicate ValidHeader(h: Header) {
    h.uid < TWO32 && h.kind < 256 && h.direction < 256 && h.index < TWO32
  }

  predicate IsCString(s: seq<byte>) {
    forall i | 0 <= i < |s| :: s[i] != 0
  }

  /** Payloads of events that the parsers here are made for: those that the server serializes itself, and the
      requests that only clients send. */
  predicate Matching(kind: nat, p: Payload) {
    match p
    case Common(l, r) => kind in {MOUSE_MOVE, MOUSE_CLICK, MOUSE_WHEEL, CONTROL} && IsI32(l) && IsI32(r)
    case Keyboard(code, op, mods) => kind == KEYBOARD && IsI32(code) && IsI32(op) && mods < TWO32
    case Text(text) => kind in {TEXT_INPUT, TEXT_GET} && |text| < TWO32 && IsCString(text)
    case NoPayload => kind !in {MOUSE_MOVE, MOUSE_CLICK, MOUSE_WHEEL, KEYBOARD, TEXT_INPUT, TEXT_GET, CONTROL, AUTHORIZE, DISCOVER}
    case AuthorizeRequest(clientType, version) => kind == AUTHORIZE && clientType < TWO32 && version < TWO32
    case DiscoverRequest(magic) => kind == DISCOVER && magic < TWO32
    case SessionOption(scale) => kind == SESSION_OPTION && scale.Some? && IsNumber(scale.value)
  }

  /** A tag that mpack_expect_float takes. */
  predicate IsNumber(t: Tag) { ValidTag(t) && (t.UInt? || t.Int? || t.Float? || t.Double?) }

  predicate FromClient(p: Payload) { p.AuthorizeRequest? || p.DiscoverRequest? || p.SessionOption? }

  // Serialization.

  function HeaderBytes(h: Header): seq<byte>
    requires ValidHeader(h)
  {
    ArrayHeader(4) + WriteU32(h.uid) + WriteU32(h.kind) + WriteU32(h.direction) + WriteU32(h.index)
  }

  function BodyBytes(kind: nat, p: Payload): seq<byte>
    requires Matching(kind, p)
  {
    match p
    case Common(l, r) => ArrayHeader(2) + WriteI32(l) + WriteI32(r)
    case Keyboard(code, op, mods) => ArrayHeader(3) + WriteI32(code) + WriteI32(op) + WriteU32(mods)
    case Text(text) => StrHeader(|text|) + text
    case NoPayload => []
    case AuthorizeRequest(clientType, version) => ArrayHeader(2) + WriteU32(clientType) + WriteU32(version)
    case DiscoverRequest(magic) => WriteU32(magic)
    case SessionOption(scale) => ArrayHeader(1) + EncodeTag(scale.value)
  }

  predicate Serializable(e: Event) {
    ValidHeader(e.header) && Matching(e.header.kind, e.payload)
  }

  /** ya_serialize_event: the first size counts everything behind it. */
  function Packet(e: Event): seq<byte>
    requires Serializable(e)
  {
    var header, body := HeaderBytes(e.header), BodyBytes(e.header.kind, e.payload);
    Store(4, |header| + |body| + 4) + Store(4, |header|) + header + body
  }

  // Parsing.

  /** mpack_expect_i32 and mpack_expect_u32 as a step of a cursor, None after the first error: the number
      and the cursor behind it, or 0 and None. */
  function IntegerAt(s: seq<byte>, at: Option<nat>, lo: int, hi: int): (int, Option<nat>) {
    if at.Some? && HasTag(s, at.value) && TagAt(s, at.value).IsInteger() && lo <= TagAt(s, at.value).Number() <= hi
    then (TagAt(s, at.value).Number(), Some(at.value + TagSize(s[at.value])))
    else (0, None)
  }

  function I32At(s: seq<byte>, at: Option<nat>): (int, Option<nat>) { IntegerAt(s, at, -TWO31, TWO31 - 1) }
  function U32At(s: seq<byte>, at: Option<nat>): (int, Option<nat>) { IntegerAt(s, at, 0, TWO32 - 1) }

  /** mpack_expect_array: its count, 0 on failure, and the cursor behind the tag. */
  function ArrayAt(s: seq<byte>, at: Option<nat>): (nat, Option<nat>) {
    if at.Some? && HasTag(s, at.value) && TagAt(s, at.value).Array?
    then (TagAt(s, at.value).n, Some(at.value + TagSize(s[at.value])))
    else (0, None)
  }

  /** mpack_expect_str. */
  function StrAt(s: seq<byte>, at: Option<nat>): (nat, Option<nat>) {
    if at.Some? && HasTag(s, at.value) && TagAt(s, at.value).Str?
    then (TagAt(s, at.value).len, Some(at.value + TagSize(s[at.value])))
    else (0, None)
  }

  /** What four fields that are read as int32 mean as a header: the casts keep the low 32 or 8 bits. */
  function CastHeader(uid: int, kind: int, direction: int, index: int): Header {
    Header(uid % TWO32, kind % 256, direction % 256, index % TWO32)
  }

  /** ya_parse_event_header on the header's bytes. */
  function ParseHeader(s: seq<byte>): Option<Header> {
    var (count, a) := ArrayAt(s, Some(0));
    var (uid, b) := I32At(s, if count == 4 then a else None);
    var (kind, c) := I32At(s, b);
    var (direction, d) := I32At(s, c);
    var (index, e) := I32At(s, d);
    if e.None? then None else Some(CastHeader(uid, kind, direction, index))
  }

  /** A C string ends at its first NUL. */
  function CString(s: seq<byte>): (r: seq<byte>) {
    if s == [] || s[0] == 0 then [] else [s[0]] + CString(s[1..])
  }

  /** mpack_expect_float: any number. */
  function NumberAt(s: seq<byte>, at: Option<nat>): Option<Tag> {
    if at.Some? && HasTag(s, at.value) && var t := TagAt(s, at.value); t.UInt? || t.Int? || t.Float? || t.Double?
    then Some(TagAt(s, at.value)) else None
  }

  /** The block that a text of n bytes is read into: malloc(str_len + 1), where the sum is a uint32_t. */
  function TextBlock(n: nat): nat { (n + 1) % TWO32 }

  predicate BlockHolds(n: nat) { n + 1 <= TextBlock(n) }

  /** The block holds the text and its NUL for every length but the largest. */
  lemma BlockHoldsExactly(n: nat)
    requires n < TWO32
    ensures BlockHolds(n) <==> n < TWO32 - 1
  {
  }

  /** The text parsers. A text that its block cannot hold is written outside of it, and comes back as
      anything; `beyond` stands for that. */
  function TextAt(s: seq<byte>, beyond: seq<byte>): seq<byte> {
    var (n, a) := StrAt(s, Some(0));
    if !BlockHolds(n) then CString(beyond) else if a.Some? && a.value + n <= |s| then CString(s[a.value..a.value + n]) else []
  }

  /** The payload parsers never fail: what a reader cannot read is 0, or an empty text. */
  function ParseBody(kind: nat, s: seq<byte>, beyond: seq<byte>): Payload {
    if kind in {MOUSE_MOVE, MOUSE_CLICK, MOUSE_WHEEL, CONTROL} then
      var (_, a) := ArrayAt(s, Some(0));
      var (l, b) := I32At(s, a);
      var (r, _) := I32At(s, b);
      Common(l, r)
    else if kind == KEYBOARD then
      var (_, a) := ArrayAt(s, Some(0));
      var (code, b) := I32At(s, a);
      var (op, c) := I32At(s, b);
      var (mods, _) := U32At(s, c);
      Keyboard(code, op, mods)
    else if kind in {TEXT_INPUT, TEXT_GET} then
      Text(TextAt(s, beyond))
    else if kind == AUTHORIZE then
      var (_, a) := ArrayAt(s, Some(0));
      var (t, b) := U32At(s, a);
      var (v, _) := U32At(s, b);
      AuthorizeRequest(t, v)
    else if kind == DISCOVER then
      var (magic, _) := U32At(s, Some(0));
      DiscoverRequest(magic)
    else if kind == SESSION_OPTION then
      var (_, a) := ArrayAt(s, Some(0));
      SessionOption(NumberAt(s, a))
    else NoPayload
  }

  /** to_uint32: four bytes in network order; bytes that have not arrived count as 0. */
  function SizeAt(b: seq<byte>, k: nat): nat {
    Load(ByteAt(b, k) + ByteAt(b, k + 1) + ByteAt(b, k + 2) + ByteAt(b, k + 3))
  }

  function ByteAt(b: seq<byte>, k: nat): seq<byte> { [if k < |b| then b[k] else 0] }

  /** evbuffer_pullup: a negative size asks for the whole buffer; nothing comes back if the bytes are not
      there, or none are asked for. */
  function PulledUp(b: seq<byte>, size: int): Option<seq<byte>> {
    var n := if size < 0 then |b| else size;
    if n == 0 || n > |b| then None else Some(b[..n])
  }

  /** The length that the payload parser and the last drain are given: the body size is kept in an int and
      passed on as a size_t. */
  function ParserLength(bodySize: nat): nat
    requires bodySize < TWO32
  {
    if AsI32(bodySize) >= 0 then bodySize else TWO64 + AsI32(bodySize)
  }

  /** ya_parse_event on a buffer whose sizes have been removed: the event, if any, and what is left. A parser
      whose length exceeds the buffer reads on in the memory behind it. */
  function ParseEvent(b: seq<byte>, headerSize: nat, bodySize: nat, beyond: seq<byte>): (Option<Event>, seq<byte>)
    requires bodySize < TWO32
  {
    if headerSize == 0 || headerSize > |b| then (None, b) else
    match ParseHeader(b[..headerSize])
    case None => (None, b)
    case Some(h) =>
      var rest := b[headerSize..];
      if bodySize == 0 then (Some(Event(h, NoPayload)), rest) else
      match PulledUp(rest, AsI32(bodySize))
      case None => (None, rest)
      case Some(data) =>
        var length := ParserLength(bodySize);
        var seen := if length <= |data| then data else data + beyond;
        (Some(Event(h, ParseBody(h.kind, seen, beyond))), rest[Min(length, |rest|)..])
  }

  /** The body size that ya_get_package_size computes, in 32 bits. */
  function BodySize(input: seq<byte>): nat { (SizeAt(input, 0) - SizeAt(input, 4) - 4) % TWO32 }

  /** The guard of conn_readcb: the frame counts as arrived. */
  predicate Arrived(input: seq<byte>) { |input| % TWO32 >= (SizeAt(input, 0) + 4) % TWO32 }

  /** The reading part of conn_readcb: nothing happens before a whole frame is there. */
  function ReadEvent(input: seq<byte>, beyond: seq<byte>): (Option<Event>, seq<byte>) {
    if !Arrived(input) then (None, input)
    else ParseEvent(input[Min(8, |input|)..], SizeAt(input, 4), BodySize(input), beyond)
  }

  /** Once a frame counts as arrived and its header is there, the payload parser's length stays inside what
      has been delivered exactly if the sizes agree: the first one covers the second one, and does not wrap
      with the four bytes added by the guard. */
  lemma ParserStaysInside(input: seq<byte>)
    requires 8 + SizeAt(input, 4) <= |input| < TWO31 && Arrived(input)
    ensures 8 + SizeAt(input, 4) + ParserLength(BodySize(input)) <= |input|
            <==> SizeAt(input, 4) + 4 <= SizeAt(input, 0) < TWO32 - 4
  {
    hide SizeAt;
    SizeBound(input, 0);
    SizeBound(input, 4);
  }

  lemma SizeBound(b: seq<byte>, k: nat)
    ensures SizeAt(b, k) < TWO32
  {
    Pow256Values();
  }

  /** For instance, a heartbeat whose first size is 4, so that its body size wraps, with more bytes behind it:
      the event is handled, and everything that has arrived is dropped. With nothing behind it there is no
      event, and the header is dropped all the same. */
  lemma WrappedBodySize(h: Header, more: seq<byte>, beyond: seq<byte>)
    requires ValidHeader(h) && h.kind == HEARTBEAT && h.uid < TWO31 && h.index < TWO31
    requires |more| < TWO31 - 100
    ensures ReadEvent(Store(4, 4) + Store(4, |HeaderBytes(h)|) + HeaderBytes(h) + more, beyond)
            == (if more == [] then None else Some(Event(h, NoPayload)), [])
  {
    hide SizeAt, HeaderBytes, ParseHeader, Store, ParseBody;
    var header := HeaderBytes(h);
    var input := Store(4, 4) + Store(4, |header|) + header + more;
    HeaderLength(h);
    assert Store(4, 4) + Store(4, |header|) + (header + more) == input;
    SizesStand(input, 4, |header|, header + more);
    HeaderRoundTrip(h);
    assert (header + more)[..|header|] == header && (header + more)[|header|..] == more;
    assert Arrived(input) && BodySize(input) == TWO32 - |header| && input[Min(8, |input|)..] == header + more;
    assert PulledUp(more, AsI32(BodySize(input))) == if more == [] then None else Some(more) by {
      assert more[..|more|] == more;
    }
    assert more[|more|..] == [];
    HeartbeatBody(more + beyond, beyond);
  }

  /** A frame that counts as arrived but has no header, by its sizes or by its bytes, loses its two sizes. */
  lemma HeaderMissing(input: seq<byte>, beyond: seq<byte>)
    requires Arrived(input)
    ensures |input| < 8 ==> ReadEvent(input, beyond) == (None, [])
    ensures |input| >= 8 ==>
              var n := SizeAt(input, 4);
              (n == 0 || 8 + n > |input| || ParseHeader(input[8..8 + n]).None? ==> ReadEvent(input, beyond) == (None, input[8..]))
  {
    hide SizeAt, ParseHeader, ParseBody;
    if |input| >= 8 && 8 + SizeAt(input, 4) <= |input| {
      assert input[8..][..SizeAt(input, 4)] == input[8..8 + SizeAt(input, 4)];
    }
    if |input| < 8 {
      NoneBehind(input, beyond);
    }
  }

  lemma NoneBehind(input: seq<byte>, beyond: seq<byte>)
    requires Arrived(input) && |input| < 8
    ensures ReadEvent(input, beyond) == (None, [])
  {
    hide SizeAt, ParseHeader, ParseBody;
    assert input[Min(8, |input|)..] == [];
  }

  lemma HeartbeatBody(s: seq<byte>, beyond: seq<byte>)
    ensures ParseBody(HEARTBEAT, s, beyond) == NoPayload
  {
  }

  lemma HeaderLength(h: Header)
    requires ValidHeader(h)
    ensures 5 <= |HeaderBytes(h)| <= 41
  {
  }

  // Reading back tags that stand in a byte string.

  function IntegerTag(v: int): Tag { if v < 0 then Int(v) else UInt(v) }

  lemma TagStands(s: seq<byte>, p: nat, t: Tag, tail: seq<byte>)
    requires ValidTag(t) && p <= |s| && s[p..] == EncodeTag(t) + tail
    ensures HasTag(s, p) && TagAt(s, p) == t && TagSize(s[p]) == |EncodeTag(t)|
    ensures p + |EncodeTag(t)| <= |s| && s[p + |EncodeTag(t)|..] == tail
  {
    hide TagSize, TagOf, Load, EncodeTag;
    var tag := EncodeTag(t);
    TagRoundTrip(t);
    PartsStand(s, p, tag, tail, []);
    assert tag + tail + [] == tag + tail;
    assert s[p] == s[p..p + |tag|][0];
    assert s[p + 1..p + |tag|] == s[p..p + |tag|][1..] == tag[0 + 1..0 + TagSize(tag[0])];
    assert s[p + |tag|..] == s[p..][|tag|..] == tail;
  }

  /** An integer that stands at the cursor is read, if it is within the bounds. */
  lemma IntegerStands(s: seq<byte>, p: nat, v: int, tail: seq<byte>, lo: int, hi: int)
    requires -TWO31 <= v < TWO32 && p <= |s|
    requires IsI32(v) ==> s[p..] == WriteI32(v) + tail
    requires v >= TWO31 ==> s[p..] == WriteU32(v) + tail
    ensures IntegerAt(s, Some(p), lo, hi) == if lo <= v <= hi then (v, Some(|s| - |tail|)) else (0, None)
    ensures |tail| <= |s| && s[|s| - |tail|..] == tail
  {
    hide TagSize, TagOf, Load, WriteU32, WriteI32, WriteU64, WriteI64;
    WritersAgree(v);
    assert WriteInteger(v) == EncodeTag(IntegerTag(v));
    TagStands(s, p, IntegerTag(v), tail);
  }

  lemma SameWriter(v: int)
    requires 0 <= v < TWO31
    ensures WriteU32(v) == WriteI32(v)
  {
    WritersAgree(v);
  }

  /** The header is written as unsigned and read as signed numbers: it survives exactly when its uid and
      index are below 2^31, and is rejected otherwise. */
  lemma HeaderRoundTrip(h: Header)
    requires ValidHeader(h)
    ensures ParseHeader(HeaderBytes(h)) == if h.uid < TWO31 && h.index < TWO31 then Some(h) else None
  {
    hide TagSize, TagOf, Load, WriteU32, WriteI32, ArrayHeader, IntegerAt, HasTag, TagAt;
    var s := HeaderBytes(h);
    var d := WriteU32(h.index);
    var c := WriteU32(h.direction) + d;
    var b := WriteU32(h.kind) + c;
    var a := WriteU32(h.uid) + b;
    assert s == ArrayHeader(4) + a;
    assert EncodeTag(Array(4)) == ArrayHeader(4) && s[0..] == s;
    TagStands(s, 0, Array(4), a);
    FieldStands(s, |s| - |a|, h.uid, b);
    FieldStands(s, |s| - |b|, h.kind, c);
    FieldStands(s, |s| - |c|, h.direction, d);
    assert d == d + [];
    FieldStands(s, |s| - |d|, h.index, []);
    assert ArrayAt(s, Some(0)) == (4, Some(|s| - |a|));
  }

  lemma FieldStands(s: seq<byte>, p: nat, v: nat, tail: seq<byte>)
    requires v < TWO32 && p <= |s| && s[p..] == WriteU32(v) + tail
    ensures I32At(s, Some(p)) == if v < TWO31 then (v, Some(|s| - |tail|)) else (0, None)
    ensures |tail| <= |s| && s[|s| - |tail|..] == tail
    ensures I32At(s, None) == (0, None)
  {
    hide HasTag, TagAt, WriteU32, WriteI32;
    if v < TWO31 {
      SameWriter(v);
    }
    IntegerStands(s, p, v, tail, -TWO31, TWO31 - 1);
  }

  lemma {:induction false} CStringWhole(s: seq<byte>)
    requires IsCString(s)
    ensures CString(s) == s
  {
    if s != [] {
      CStringWhole(s[1..]);
    }
  }

  /** A body reads back as the payload it was written from. */
  lemma BodyRoundTrip(kind: nat, p: Payload, beyond: seq<byte>)
    requires Matching(kind, p) && p != NoPayload
    ensures (p.Text? ==> BlockHolds(|p.text|)) ==> ParseBody(kind, BodyBytes(kind, p), beyond) == p
    ensures BodyBytes(kind, p) != []
  {
    hide TagSize, TagOf, Load, WriteU32, WriteI32, ArrayHeader, StrHeader, IntegerAt, HasTag, TagAt, EncodeTag, ParseBody;
    var s := BodyBytes(kind, p);
    assert s + [] == s;
    match p
    case Common(l, r) =>
      InputParsed(2, l, r, 0, [], beyond);
      assert |ArrayHeader(2)| > 0 by { HeaderBegins(2); }
    case Keyboard(code, op, mods) =>
      InputParsed(3, code, op, mods, [], beyond);
      assert |ArrayHeader(3)| > 0 by { HeaderBegins(3); }
    case Text(text) =>
      StrStands(s, text);
      TextParsed(kind, text, s, beyond);
    case AuthorizeRequest(clientType, version) =>
      AuthorizeParsed(2, clientType, version, [], beyond);
      assert |ArrayHeader(2)| > 0 by { HeaderBegins(2); }
    case DiscoverRequest(magic) =>
      DiscoverParsed(magic, [], beyond);
    case SessionOption(scale) =>
      OptionParsed(1, scale.value, [], beyond);
      assert |ArrayHeader(1)| > 0 by { HeaderBegins(1); }
  }

  /** A text ends at its first NUL, and is empty if the string is not there completely. */
  lemma TextCut(kind: nat, n: nat, text: seq<byte>, tail: seq<byte>, beyond: seq<byte>)
    requires kind in {5, 6} && n < TWO32 - 1 && IsCString(text)
    ensures |text| < n && n <= |text + [0] + tail| ==> ParseBody(kind, StrHeader(n) + (text + [0] + tail), beyond) == Text(text)
    ensures n > |tail| ==> ParseBody(kind, StrHeader(n) + tail, beyond) == Text([])
  {
    hide TagSize, TagOf, Load, StrHeader, HasTag, TagAt, CString;
    var data := text + [0] + tail;
    if |text| < n <= |data| {
      var s := StrHeader(n) + data;
      StringStands(s, n, data);
      assert s[|s| - |data|..][..n] == data[..n];
      assert s[|s| - |data|..|s| - |data| + n] == data[..n] == text + [0] + data[|text| + 1..n];
      CStringCut(text, data[|text| + 1..n]);
    }
    if n > |tail| {
      StringStands(StrHeader(n) + tail, n, tail);
    }
  }

  lemma StringStands(s: seq<byte>, n: nat, tail: seq<byte>)
    requires n < TWO32 && s == StrHeader(n) + tail
    ensures StrAt(s, Some(0)) == (n, Some(|s| - |tail|)) && |tail| < |s| && s[|s| - |tail|..] == tail
  {
    hide TagSize, TagOf, Load, StrHeader, HasTag, TagAt;
    assert EncodeTag(Str(n)) == StrHeader(n) && s[0..] == s;
    TagStands(s, 0, Str(n), tail);
  }

  lemma {:induction false} CStringCut(text: seq<byte>, more: seq<byte>)
    requires IsCString(text)
    ensures CString(text + [0] + more) == text
  {
    if text != [] {
      var s := text + [0] + more;
      assert s[1..] == text[1..] + [0] + more;
      CStringCut(text[1..], more);
    }
  }

  lemma HeaderBegins(n: nat)
    requires n < TWO32
    ensures ArrayHeader(n) != []
  {
  }

  lemma TextParsed(kind: nat, text: seq<byte>, s: seq<byte>, beyond: seq<byte>)
    requires kind in {5, 6} && |text| < TWO32 && IsCString(text) && StrAt(s, Some(0)) == (|text|, Some(|s| - |text|))
    requires |text| < |s| && s[|s| - |text|..|s| - |text| + |text|] == text
    ensures BlockHolds(|text|) ==> ParseBody(kind, s, beyond) == Text(text)
  {
    hide StrAt;
    CStringWhole(text);
  }

  /** An AUTHORIZE body is the client's type and then its version, whatever count is announced and whatever
      follows. */
  lemma AuthorizeParsed(n: nat, clientType: nat, version: nat, tail: seq<byte>, beyond: seq<byte>)
    requires n < TWO32 && clientType < TWO32 && version < TWO32
    ensures ParseBody(10, ArrayHeader(n) + WriteU32(clientType) + WriteU32(version) + tail, beyond)
            == AuthorizeRequest(clientType, version)
  {
    hide TagSize, TagOf, Load, WriteU32, WriteI32, ArrayHeader, IntegerAt, HasTag, TagAt;
    var s := ArrayHeader(n) + WriteU32(clientType) + WriteU32(version) + tail;
    var b := WriteU32(version) + tail;
    var a := WriteU32(clientType) + b;
    assert s == ArrayHeader(n) + a;
    ArrayStands(s, n, a);
    UnsignedStands(s, |s| - |a|, clientType, b);
    UnsignedStands(s, |s| - |b|, version, tail);
  }

  /** A DISCOVER body is the magic number. */
  lemma DiscoverParsed(magic: nat, tail: seq<byte>, beyond: seq<byte>)
    requires magic < TWO32
    ensures ParseBody(7, WriteU32(magic) + tail, beyond) == DiscoverRequest(magic) && WriteU32(magic) != []
  {
    hide TagSize, TagOf, Load, WriteU32, WriteI32, IntegerAt, HasTag, TagAt;
    WritersAgree(magic);
    var s := WriteU32(magic) + tail;
    assert s[0..] == s;
    UnsignedStands(s, 0, magic, tail);
  }

  /** A SESSION_OPTION body is an array that starts with a number of any kind. */
  lemma OptionParsed(n: nat, scale: Tag, tail: seq<byte>, beyond: seq<byte>)
    requires n < TWO32 && IsNumber(scale)
    ensures ParseBody(12, ArrayHeader(n) + EncodeTag(scale) + tail, beyond) == SessionOption(Some(scale))
  {
    hide TagSize, TagOf, Load, ArrayHeader, HasTag, TagAt, EncodeTag;
    var s := ArrayHeader(n) + EncodeTag(scale) + tail;
    var a := EncodeTag(scale) + tail;
    assert s == ArrayHeader(n) + a;
    ArrayStands(s, n, a);
    TagStands(s, |s| - |a|, scale, tail);
  }

  /** Coordinates, buttons and keys likewise: the fields come in this order. */
  lemma InputParsed(n: nat, l: int, r: int, mods: nat, tail: seq<byte>, beyond: seq<byte>)
    requires n < TWO32 && IsI32(l) && IsI32(r) && mods < TWO32
    ensures forall kind | kind in {1, 2, 3, 9} ::
              ParseBody(kind, ArrayHeader(n) + WriteI32(l) + WriteI32(r) + tail, beyond) == Common(l, r)
    ensures ParseBody(4, ArrayHeader(n) + WriteI32(l) + WriteI32(r) + WriteU32(mods) + tail, beyond) == Keyboard(l, r, mods)
  {
    hide TagSize, TagOf, Load, WriteU32, WriteI32, ArrayHeader, IntegerAt, HasTag, TagAt;
    PairParsed(n, l, r, tail);
    PairParsed(n, l, r, WriteU32(mods) + tail);
    var s := ArrayHeader(n) + WriteI32(l) + WriteI32(r) + (WriteU32(mods) + tail);
    assert s == ArrayHeader(n) + WriteI32(l) + WriteI32(r) + WriteU32(mods) + tail;
    var b := WriteU32(mods) + tail;
    assert s[|s| - |b|..] == b;
    UnsignedStands(s, |s| - |b|, mods, tail);
  }

  /** Two signed numbers behind an array header. */
  lemma PairParsed(n: nat, l: int, r: int, tail: seq<byte>)
    requires n < TWO32 && IsI32(l) && IsI32(r)
    ensures var s := ArrayHeader(n) + WriteI32(l) + WriteI32(r) + tail;
            var (_, a) := ArrayAt(s, Some(0));
            var (l', b) := I32At(s, a);
            var (r', c) := I32At(s, b);
            l' == l && r' == r && c == Some(|s| - |tail|)
  {
    hide TagSize, TagOf, Load, WriteU32, WriteI32, ArrayHeader, IntegerAt, HasTag, TagAt;
    var s := ArrayHeader(n) + WriteI32(l) + WriteI32(r) + tail;
    var b := WriteI32(r) + tail;
    var a := WriteI32(l) + b;
    assert s == ArrayHeader(n) + a;
    ArrayStands(s, n, a);
    IntegerStands(s, |s| - |a|, l, b, -TWO31, TWO31 - 1);
    IntegerStands(s, |s| - |b|, r, tail, -TWO31, TWO31 - 1);
  }

  lemma UnsignedStands(s: seq<byte>, p: nat, v: nat, tail: seq<byte>)
    requires v < TWO32 && p <= |s| && s[p..] == WriteU32(v) + tail
    ensures U32At(s, Some(p)) == (v, Some(|s| - |tail|)) && |tail| <= |s| && s[|s| - |tail|..] == tail
  {
    hide HasTag, TagAt, WriteU32, WriteI32;
    if v < TWO31 {
      SameWriter(v);
    }
    IntegerStands(s, p, v, tail, 0, TWO32 - 1);
  }

  /** A number that its field cannot hold is read as 0, and so is everything behind it. */
  lemma OutOfRange(n: nat, l: int, v: int, tail: seq<byte>, beyond: seq<byte>)
    requires n < TWO32 && IsI32(l) && ValidTag(IntegerTag(v))
    ensures var bad := EncodeTag(IntegerTag(v)) + tail;
            && (v < -0x8000_0000 || v >= 0x8000_0000 ==>
                  && ParseBody(1, ArrayHeader(n) + bad, beyond) == Common(0, 0)
                  && ParseBody(1, ArrayHeader(n) + (WriteI32(l) + bad), beyond) == Common(l, 0)
                  && ParseBody(4, ArrayHeader(n) + bad, beyond) == Keyboard(0, 0, 0))
            && (v < 0 || v >= 0x1_0000_0000 ==>
                  && ParseBody(10, ArrayHeader(n) + bad, beyond) == AuthorizeRequest(0, 0)
                  && ParseBody(7, bad, beyond) == DiscoverRequest(0))
  {
    hide TagSize, TagOf, Load, WriteU32, WriteI32, ArrayHeader, EncodeTag, HasTag, TagAt, Tag.IsInteger;
    var bad := EncodeTag(IntegerTag(v)) + tail;
    var s, t := ArrayHeader(n) + bad, ArrayHeader(n) + (WriteI32(l) + bad);
    ArrayStands(s, n, bad);
    NumberStands(s, |s| - |bad|, v, tail);
    ArrayStands(t, n, WriteI32(l) + bad);
    IntegerStands(t, |t| - |WriteI32(l) + bad|, l, bad, -TWO31, TWO31 - 1);
    NumberStands(t, |t| - |bad|, v, tail);
    assert bad[0..] == bad;
    NumberStands(bad, 0, v, tail);
  }

  lemma NumberStands(s: seq<byte>, p: nat, v: int, tail: seq<byte>)
    requires ValidTag(IntegerTag(v)) && p <= |s| && s[p..] == EncodeTag(IntegerTag(v)) + tail
    ensures HasTag(s, p) && TagAt(s, p).IsInteger() && TagAt(s, p).Number() == v
  {
    hide TagSize, TagOf, Load, EncodeTag, HasTag, TagAt;
    TagStands(s, p, IntegerTag(v), tail);
  }

  /** All other kinds have no payload, whatever their body. */
  lemma OthersEmpty(kind: nat, s: seq<byte>, beyond: seq<byte>)
    ensures kind == 0 || kind == 8 || kind == 11 || kind > 12 ==> ParseBody(kind, s, beyond) == NoPayload
  {
  }

  /** Signed fields of a header are cast: modulo 2^32, and modulo 256 for kind and direction. An array of any
      other size is no header. */
  lemma HeaderCast(n: nat, uid: int, kind: int, direction: int, index: int, tail: seq<byte>)
    requires n < TWO32 && IsI32(uid) && IsI32(kind) && IsI32(direction) && IsI32(index)
    ensures var s := ArrayHeader(n) + WriteI32(uid) + WriteI32(kind) + WriteI32(direction) + WriteI32(index) + tail;
            match ParseHeader(s)
            case None => n != 4
            case Some(h) =>
              && n == 4 && (uid - h.uid) % 0x1_0000_0000 == 0 && (index - h.index) % 0x1_0000_0000 == 0
              && (kind - h.kind) % 256 == 0 && (direction - h.direction) % 256 == 0
              && h.uid < 0x1_0000_0000 && h.index < 0x1_0000_0000 && h.kind < 256 && h.direction < 256
  {
    hide TagSize, TagOf, Load, WriteU32, WriteI32, ArrayHeader, IntegerAt, HasTag, TagAt;
    var s := ArrayHeader(n) + WriteI32(uid) + WriteI32(kind) + WriteI32(direction) + WriteI32(index) + tail;
    var d := WriteI32(index) + tail;
    var c := WriteI32(direction) + d;
    assert s == ArrayHeader(n) + WriteI32(uid) + WriteI32(kind) + c;
    PairParsed(n, uid, kind, c);
    assert s[|s| - |c|..] == c;
    IntegerStands(s, |s| - |c|, direction, d, -TWO31, TWO31 - 1);
    IntegerStands(s, |s| - |d|, index, tail, -TWO31, TWO31 - 1);
    var a := WriteI32(uid) + WriteI32(kind) + c;
    assert s == ArrayHeader(n) + a;
    ArrayStands(s, n, a);
    NoneStays(s);
  }

  lemma NoneStays(s: seq<byte>)
    ensures I32At(s, None) == (0, None)
  {
  }

  lemma ArrayStands(s: seq<byte>, n: nat, a: seq<byte>)
    requires n < TWO32 && s == ArrayHeader(n) + a
    ensures ArrayAt(s, Some(0)) == (n, Some(|s| - |a|)) && |a| < |s| && s[|s| - |a|..] == a
  {
    hide TagSize, TagOf, Load, ArrayHeader, HasTag, TagAt;
    assert EncodeTag(Array(n)) == ArrayHeader(n) && s[0..] == s;
    TagStands(s, 0, Array(n), a);
  }

  lemma StrStands(s: seq<byte>, text: seq<byte>)
    requires |text| < TWO32 && s == StrHeader(|text|) + text
    ensures StrAt(s, Some(0)) == (|text|, Some(|s| - |text|)) && s != [] && |text| < |s|
    ensures s[|s| - |text|..|s| - |text| + |text|] == text
  {
    hide StrAt, StrHeader;
    StringStands(s, |text|, text);
  }

  // Frames in a stream.

  /** Frames whose size fits an int, from and to clients whose numbers fit int32. */
  predicate Framable(e: Event) {
    Serializable(e) && e.header.uid < TWO31 && e.header.index < TWO31 && |Packet(e)| < TWO31
  }

  lemma SizesStand(input: seq<byte>, a: nat, b: nat, tail: seq<byte>)
    requires a < TWO32 && b < TWO32 && Store(4, a) + Store(4, b) + tail == input
    ensures SizeAt(input, 0) == a && SizeAt(input, 4) == b && input[8..] == tail
  {
    hide Store, Load;
    LoadStore(4, a);
    LoadStore(4, b);
    Pow256Values();
    assert Store(4, a) == ByteAt(input, 0) + ByteAt(input, 1) + ByteAt(input, 2) + ByteAt(input, 3);
    assert Store(4, b) == ByteAt(input, 4) + ByteAt(input, 5) + ByteAt(input, 6) + ByteAt(input, 7);
  }

  lemma FrameParts(e: Event, tail: seq<byte>)
    requires Serializable(e) && |Packet(e)| < TWO31
    ensures var header, body := HeaderBytes(e.header), BodyBytes(e.header.kind, e.payload);
            var input := Packet(e) + tail;
            && 5 <= |header| && |Packet(e)| == 8 + |header| + |body|
            && SizeAt(input, 0) == |header| + |body| + 4 && SizeAt(input, 4) == |header|
            && input[8..] == header + body + tail
  {
    hide SizeAt, Store, WriteU32, BodyBytes;
    var header, body := HeaderBytes(e.header), BodyBytes(e.header.kind, e.payload);
    var input := Packet(e) + tail;
    assert |header| >= 5 by {
      WritersAgree(e.header.uid);
      WritersAgree(e.header.kind);
      WritersAgree(e.header.direction);
      WritersAgree(e.header.index);
    }
    var rest := header + body + tail;
    assert input == Store(4, |header| + |body| + 4) + Store(4, |header|) + rest;
    SizesStand(input, |header| + |body| + 4, |header|, rest);
  }

  /** Header and body, with anything behind them, parse to the event. */
  lemma PartsParsed(e: Event, tail: seq<byte>, beyond: seq<byte>)
    requires Serializable(e) && |Packet(e)| < TWO31
    ensures var header, body := HeaderBytes(e.header), BodyBytes(e.header.kind, e.payload);
            && |body| < TWO32
            && ParseEvent(header + body + tail, |header|, |body|, beyond)
               == if e.header.uid < TWO31 && e.header.index < TWO31 then (Some(e), tail) else (None, header + body + tail)
  {
    hide SizeAt, HeaderBytes, BodyBytes, ParseHeader, ParseBody, Matching;
    var header, body := HeaderBytes(e.header), BodyBytes(e.header.kind, e.payload);
    FrameParts(e, []);
    HeaderRoundTrip(e.header);
    var b := header + body + tail;
    assert b[..|header|] == header && b[|header|..] == body + tail;
    assert (body + tail)[..|body|] == body && (body + tail)[|body|..] == tail;
    if e.payload == NoPayload {
      EmptyBody(e.header.kind);
      assert body + tail == tail;
    } else {
      BodyRoundTrip(e.header.kind, e.payload, beyond);
      TextInBody(e.header.kind, e.payload);
    }
  }

  /** A frame is there, and the guard of the callback notices it. */
  predicate Noticed(frame: nat, waiting: nat) { frame <= waiting && frame <= waiting % TWO32 }

  /** Parsing inverts serializing, whatever follows in the stream, exactly when uid and index are below
      2^31 and the frame is noticed. It is not if more than 2^32 bytes are waiting, and the number of them
      modulo 2^32 is less than the frame; then nothing happens. Where uid or index are too large, the two
      sizes are gone, the frame's header and body are still there, and the stream is out of step. */
  lemma EventRoundTrip(e: Event, tail: seq<byte>, beyond: seq<byte>)
    requires Serializable(e) && |Packet(e)| < TWO31
    ensures ReadEvent(Packet(e) + tail, beyond)
            == if !Noticed(|Packet(e)|, |Packet(e) + tail|) then (None, Packet(e) + tail)
               else if e.header.uid < TWO31 && e.header.index < TWO31 then (Some(e), tail)
               else (None, (Packet(e) + tail)[8..])
  {
    hide SizeAt, HeaderBytes, BodyBytes, Packet, ParseEvent;
    FrameParts(e, tail);
    PartsParsed(e, tail, beyond);
  }

  lemma TextInBody(kind: nat, p: Payload)
    requires Matching(kind, p)
    ensures p.Text? ==> |p.text| <= |BodyBytes(kind, p)|
  {
  }

  lemma EmptyBody(kind: nat)
    requires Matching(kind, NoPayload)
    ensures BodyBytes(kind, NoPayload) == []
  {
  }

  /** A frame that is not there completely is left alone. */
  lemma IncompleteFrame(e: Event, input: seq<byte>, beyond: seq<byte>)
    requires Framable(e) && |input| < |Packet(e)| && input <= Packet(e)
    ensures ReadEvent(input, beyond) == (None, input)
  {
    hide Packet, SizeAt, ParseEvent, HeaderBytes, BodyBytes, BodySize;
    FrameParts(e, []);
    assert Packet(e) + [] == Packet(e);
    ShortSizes(Packet(e), input);
  }

  /** The first size as seen through a part of the frame: never more than it is, and right from four
      bytes on. */
  lemma ShortSizes(frame: seq<byte>, input: seq<byte>)
    requires input <= frame && SizeAt(frame, 0) < TWO31
    ensures SizeAt(input, 0) <= SizeAt(frame, 0)
    ensures |input| >= 4 ==> SizeAt(input, 0) == SizeAt(frame, 0)
  {
    LoadFour(ByteAt(frame, 0)[0], ByteAt(frame, 1)[0], ByteAt(frame, 2)[0], ByteAt(frame, 3)[0]);
    LoadFour(ByteAt(input, 0)[0], ByteAt(input, 1)[0], ByteAt(input, 2)[0], ByteAt(input, 3)[0]);
  }

  lemma LoadFour(a: byte, b: byte, c: byte, d: byte)
    ensures Load([a] + [b] + [c] + [d]) == ((a * 256 + b) * 256 + c) * 256 + d
  {
    var s := [a] + [b] + [c] + [d];
    assert s[..3] == [a, b, c] && [a, b, c][..2] == [a, b] && [a, b][..1] == [a] && [a][..0] == [];
    assert Load([a]) == a && Load([a, b]) == Load([a]) * 256 + b;
    assert Load([a, b, c]) == Load([a, b]) * 256 + c && Load(s) == Load([a, b, c]) * 256 + d;
  }

  predicate AllFramable(es: seq<Event>) {
    es == [] || (Framable(es[0]) && AllFramable(es[1..]))
  }

  function Packets(es: seq<Event>): seq<byte>
    requires AllFramable(es)
  {
    if es == [] then [] else Packet(es[0]) + Packets(es[1..])
  }

  /** A connection: chunks arrive, and each arrival is one read callback. The events handled, and what is
      left in the input buffer. */
  function Serve(input: seq<byte>, chunks: seq<seq<byte>>, beyond: seq<byte>): (seq<Event>, seq<byte>)
    decreases |chunks|
  {
    if chunks == [] then ([], input) else
    var (e, rest) := ReadEvent(input + chunks[0], beyond);
    var (es, last) := Serve(rest, chunks[1..], beyond);
    ((if e.Some? then [e.value] else []) + es, last)
  }

  /** A read step on the next part of a stream of frames takes exactly the next frame, or nothing. It takes
      the frame if it is there and is noticed. */
  lemma ReadStep(es: seq<Event>, input: seq<byte>, beyond: seq<byte>)
    requires AllFramable(es)
    requires input <= Packets(es)
    ensures if es != [] && Noticed(|Packet(es[0])|, |input|)
            then ReadEvent(input, beyond) == (Some(es[0]), input[|Packet(es[0])|..]) && input[|Packet(es[0])|..] <= Packets(es[1..])
            else ReadEvent(input, beyond) == (None, input)
  {
    hide ReadEvent, Packet;
    if es == [] {
      NothingYet(beyond);
    } else {
      var frame := Packet(es[0]);
      if |frame| <= |input| {
        var tail := input[|frame|..];
        assert input == frame + tail;
        assert tail == Packets(es)[|frame|..|input|] && Packets(es)[|frame|..] == Packets(es[1..]);
        EventRoundTrip(es[0], tail, beyond);
      } else {
        assert input == Packets(es)[..|input|] == frame[..|input|];
        IncompleteFrame(es[0], input, beyond);
      }
    }
  }

  lemma NothingYet(beyond: seq<byte>)
    ensures ReadEvent([], beyond) == (None, [])
  {
    LoadFour(0, 0, 0, 0);
  }

  /** What is handled are the first events, and what is kept is the rest of what has arrived. */
  predicate InOrder(es: seq<Event>, arrived: seq<byte>, handled: seq<Event>, last: seq<byte>) {
    handled <= es && AllFramable(handled) && Packets(handled) + last == arrived
  }

  lemma NextInOrder(es: seq<Event>, arrived: seq<byte>, later: seq<Event>, last: seq<byte>)
    requires AllFramable(es) && es != [] && |Packet(es[0])| <= |arrived| && arrived <= Packets(es)
    requires InOrder(es[1..], arrived[|Packet(es[0])|..], later, last)
    ensures InOrder(es, arrived, [es[0]] + later, last)
  {
    hide Packet;
    var handled, n := [es[0]] + later, |Packet(es[0])|;
    assert handled[1..] == later;
    assert Packet(es[0]) == Packets(es)[..n] == arrived[..n];
    assert Packet(es[0]) + Packets(later) + last == Packet(es[0]) + (Packets(later) + last);
    assert arrived == arrived[..n] + arrived[n..];
  }

  lemma RestOfStream(es: seq<Event>, now: seq<byte>, more: seq<byte>)
    requires AllFramable(es) && es != [] && |Packet(es[0])| <= |now| && now + more <= Packets(es)
    ensures var rest := now[|Packet(es[0])|..];
            rest + more == (now + more)[|Packet(es[0])|..] && rest + more <= Packets(es[1..])
  {
    hide Packet;
    var n := |Packet(es[0])|;
    assert now[n..] + more == (now + more)[n..];
    assert Packets(es)[n..] == Packets(es[1..]);
    assert (now + more)[n..] == Packets(es)[n..][..|now + more| - n];
  }

  /** However a stream of frames is cut into chunks, and however long it gets, the events handled are the
      first of those sent, in order, and the bytes kept are the rest of what has arrived. */
  lemma {:induction false} ServedInOrder(es: seq<Event>, input: seq<byte>, chunks: seq<seq<byte>>, beyond: seq<byte>)
    requires AllFramable(es)
    requires input + Join(chunks) <= Packets(es)
    ensures var (handled, last) := Serve(input, chunks, beyond);
            InOrder(es, input + Join(chunks), handled, last) && |handled| <= |chunks|
    decreases |chunks|
  {
    hide ReadEvent, Packet, Packets, InOrder;
    if chunks == [] {
      assert input + [] == input;
      NoneInOrder(es, input);
    } else {
      var now, more := input + chunks[0], Join(chunks[1..]);
      assert input + Join(chunks) == now + more;
      assert now <= Packets(es);
      ReadStep(es, now, beyond);
      if es != [] && Noticed(|Packet(es[0])|, |now|) {
        RestOfStream(es, now, more);
        var rest := now[|Packet(es[0])|..];
        ServedInOrder(es[1..], rest, chunks[1..], beyond);
        var (later, last) := Serve(rest, chunks[1..], beyond);
        NextInOrder(es, now + more, later, last);
      } else {
        ServedInOrder(es, now, chunks[1..], beyond);
        var (later, last) := Serve(now, chunks[1..], beyond);
        assert [] + later == later;
      }
    }
  }

  lemma NoneInOrder(es: seq<Event>, input: seq<byte>)
    ensures InOrder(es, input, [], input)
  {
    assert [] + input == input;
  }

  /** How many of the events have their frames wholly within the first n bytes. */
  function Whole(es: seq<Event>, n: nat): nat
    requires AllFramable(es)
  {
    if es == [] || |Packet(es[0])| > n then 0 else 1 + Whole(es[1..], n - |Packet(es[0])|)
  }

  /** How many have arrived wholly when j chunks have followed the first `have` bytes. */
  function WholeAfter(es: seq<Event>, have: nat, chunks: seq<seq<byte>>, j: nat): nat
    requires AllFramable(es) && j <= |chunks|
  {
    Whole(es, have + |Join(chunks[..j])|)
  }

  /** No final run of callbacks completes more frames than it has callbacks, the backlog of the first one
      included. */
  predicate Paced(es: seq<Event>, have: nat, chunks: seq<seq<byte>>)
    requires AllFramable(es)
  {
    var n := |chunks|;
    && WholeAfter(es, have, chunks, n) <= n
    && forall j | 1 <= j <= n :: WholeAfter(es, have, chunks, n) - WholeAfter(es, have, chunks, j) <= n - j
  }

  lemma NextChunk(es: seq<Event>, have: nat, chunks: seq<seq<byte>>, j: nat)
    requires AllFramable(es) && j < |chunks|
    ensures WholeAfter(es, have, chunks, j + 1) == WholeAfter(es, have + |chunks[0]|, chunks[1..], j)
  {
    hide Whole;
    assert chunks[..j + 1][1..] == chunks[1..][..j];
  }

  /** A first frame that has arrived, taken off the front. */
  lemma FirstTaken(es: seq<Event>, have: nat, chunks: seq<seq<byte>>, j: nat)
    requires AllFramable(es) && es != [] && |Packet(es[0])| <= have && j <= |chunks|
    ensures WholeAfter(es, have, chunks, j) == 1 + WholeAfter(es[1..], have - |Packet(es[0])|, chunks, j)
  {
    hide Packet;
  }

  /** A callback that finds a whole frame takes it off; the pace of what remains is the pace of all. */
  lemma PacedTaken(es: seq<Event>, have: nat, chunks: seq<seq<byte>>)
    requires AllFramable(es) && es != [] && chunks != [] && |Packet(es[0])| <= have + |chunks[0]|
    ensures Paced(es, have, chunks) <==> Paced(es[1..], have + |chunks[0]| - |Packet(es[0])|, chunks[1..])
  {
    hide Packet, WholeAfter;
    var have', es', rest := have + |chunks[0]|, es[1..], chunks[1..];
    var later := have' - |Packet(es[0])|;
    forall j | 0 <= j < |chunks| ensures WholeAfter(es, have, chunks, j + 1) == 1 + WholeAfter(es', later, rest, j) {
      NextChunk(es, have, chunks, j);
      FirstTaken(es, have', rest, j);
    }
    PacedShift(es, have, chunks, es', later, rest, 1);
  }

  /** A callback that takes nothing cannot improve the pace, and leaves it as it is if there was nothing to
      take. */
  lemma PacedIdle(es: seq<Event>, have: nat, chunks: seq<seq<byte>>)
    requires AllFramable(es) && chunks != []
    ensures Paced(es, have + |chunks[0]|, chunks[1..]) ==> Paced(es, have, chunks)
    ensures Paced(es, have, chunks) && (es != [] ==> |Packet(es[0])| > have + |chunks[0]|) ==>
              Paced(es, have + |chunks[0]|, chunks[1..])
  {
    hide Packet, WholeAfter;
    var have', rest := have + |chunks[0]|, chunks[1..];
    forall j | 0 <= j < |chunks| ensures WholeAfter(es, have, chunks, j + 1) == WholeAfter(es, have', rest, j) {
      NextChunk(es, have, chunks, j);
    }
    if es != [] ==> |Packet(es[0])| > have' {
      NoneWhole(es, have', rest);
    }
    PacedShift(es, have, chunks, es, have', rest, 0);
  }

  lemma NoneWhole(es: seq<Event>, have: nat, chunks: seq<seq<byte>>)
    requires AllFramable(es) && (es != [] ==> |Packet(es[0])| > have)
    ensures WholeAfter(es, have, chunks, 0) == 0
  {
    assert chunks[..0] == [];
  }

  /** The arithmetic of both: one callback fewer, and `taken` frames fewer at each of them. */
  lemma PacedShift(es: seq<Event>, have: nat, chunks: seq<seq<byte>>,
                   es': seq<Event>, have': nat, chunks': seq<seq<byte>>, taken: nat)
    requires AllFramable(es) && AllFramable(es') && |chunks| == |chunks'| + 1 && taken <= 1
    requires forall j | 0 <= j < |chunks| ::
               WholeAfter(es, have, chunks, j + 1) == taken + WholeAfter(es', have', chunks', j)
    ensures Paced(es', have', chunks') ==> Paced(es, have, chunks)
    ensures Paced(es, have, chunks) && (taken == 0 ==> WholeAfter(es', have', chunks', 0) == 0) ==> Paced(es', have', chunks')
  {
    hide WholeAfter;
    var n := |chunks|;
    assert WholeAfter(es, have, chunks, n - 1 + 1) == taken + WholeAfter(es', have', chunks', n - 1);
    assert WholeAfter(es, have, chunks, 0 + 1) == taken + WholeAfter(es', have', chunks', 0);
    if Paced(es, have, chunks) {
      assert WholeAfter(es, have, chunks, n) - WholeAfter(es, have, chunks, 1) <= n - 1;
      forall j | 1 <= j <= n - 1
        ensures WholeAfter(es', have', chunks', n - 1) - WholeAfter(es', have', chunks', j) <= n - 1 - j
      {
        assert WholeAfter(es, have, chunks, j + 1) == taken + WholeAfter(es', have', chunks', j);
      }
    }
    if Paced(es', have', chunks') {
      forall j | 1 <= j <= n ensures WholeAfter(es, have, chunks, n) - WholeAfter(es, have, chunks, j) <= n - j {
        assert WholeAfter(es, have, chunks, j - 1 + 1) == taken + WholeAfter(es', have', chunks', j - 1);
      }
    }
  }

  /** No callback finds 2^32 bytes or more in its buffer. */
  predicate Bounded(input: seq<byte>, chunks: seq<seq<byte>>, beyond: seq<byte>)
    decreases |chunks|
  {
    chunks != [] ==> |input + chunks[0]| < TWO32 && Bounded(ReadEvent(input + chunks[0], beyond).1, chunks[1..], beyond)
  }

  /** None does on a connection over which fewer bytes arrive in all. */
  lemma {:induction false} ShortRunsBounded(input: seq<byte>, chunks: seq<seq<byte>>, beyond: seq<byte>)
    requires |input + Join(chunks)| < TWO32
    ensures Bounded(input, chunks, beyond)
    decreases |chunks|
  {
    hide ReadEvent;
    if chunks != [] {
      ReadShrinks(input + chunks[0], beyond);
      ShortRunsBounded(ReadEvent(input + chunks[0], beyond).1, chunks[1..], beyond);
    }
  }

  lemma ReadShrinks(input: seq<byte>, beyond: seq<byte>)
    ensures |ReadEvent(input, beyond).1| <= |input|
  {
    hide SizeAt, ParseHeader, ParseBody;
  }

  /** Every frame that has completely arrived is handled by the last callback only if the chunks leave enough
      callbacks for them; and then it is, unless frames go unnoticed in a buffer of 2^32 bytes or more. */
  lemma {:induction false} AllHandledExactly(es: seq<Event>, input: seq<byte>, chunks: seq<seq<byte>>, beyond: seq<byte>)
    requires AllFramable(es)
    requires input + Join(chunks) <= Packets(es)
    ensures |Serve(input, chunks, beyond).0| == Whole(es, |input + Join(chunks)|) ==> Paced(es, |input|, chunks)
    ensures Bounded(input, chunks, beyond) ==>
              (|Serve(input, chunks, beyond).0| == Whole(es, |input + Join(chunks)|) <==> Paced(es, |input|, chunks))
    decreases |chunks|
  {
    hide ReadEvent, Packet, Packets, Paced;
    if chunks == [] {
      NoCallbacks(es, input);
    } else {
      var now, more := input + chunks[0], Join(chunks[1..]);
      assert input + Join(chunks) == now + more;
      assert now <= Packets(es);
      ReadStep(es, now, beyond);
      if es != [] && Noticed(|Packet(es[0])|, |now|) {
        RestOfStream(es, now, more);
        var rest := now[|Packet(es[0])|..];
        PacedTaken(es, |input|, chunks);
        AllHandledExactly(es[1..], rest, chunks[1..], beyond);
      } else {
        PacedIdle(es, |input|, chunks);
        AllHandledExactly(es, now, chunks[1..], beyond);
      }
    }
  }

  lemma NoCallbacks(es: seq<Event>, input: seq<byte>)
    requires AllFramable(es)
    ensures Paced(es, |input|, []) <==> Whole(es, |input + Join([])|) == 0
  {
    hide Whole, AllFramable;
    var chunks: seq<seq<byte>> := [];
    assert input + Join(chunks) == input && chunks[..0] == [];
  }

  /** One callback handles one frame: a second frame in the same chunk waits for more bytes to arrive. */
  lemma SecondFrameWaits(e: Event, f: Event, beyond: seq<byte>)
    requires Framable(e) && Framable(f) && |Packet(e) + Packet(f)| < TWO32
    ensures Serve([], [Packet(e) + Packet(f)], beyond) == ([e], Packet(f))
  {
    hide ReadEvent, Packet;
    EventRoundTrip(e, Packet(f), beyond);
    assert [] + (Packet(e) + Packet(f)) == Packet(e) + Packet(f);
    assert [e] + [] == [e];
    assert Serve(Packet(f), [], beyond) == ([], Packet(f));
  }
}
