/** The write API as sequences of calls: what the tracking stack accepts (mpack.c:613-808), what a writer
    with open builders means (mpack.c:1021-1047, 2446-2763, mpack.h:3725-3746), and the documents that
    legal call sequences spell. */
module WriterCalls {
  import opened Bytes
  import opened MessagePack
  import opened Encoding

  /** One call. mpack_write_bin is StartBytes, Chunk, FinishBytes. */
  datatype Call =
    | Atom(tag: Tag)
    | WholeStr(data: seq<byte>)
    | StartBytes(bin: bool, n: nat)
    | Chunk(data: seq<byte>)
    | FinishBytes(bin: bool)
    | Start(isMap: bool, n: nat)
    | Finish(isMap: bool)
    | Build(isMap: bool)
    | Complete(isMap: bool)

  /** Arguments within the C types: tags of scalars, and 32-bit lengths. */
  predicate ValidCall(c: Call) {
    match c
    case Atom(tag) => ValidTag(tag) && tag.Payload() == 0 && tag.Children() == 0 && !tag.Str? && !tag.Bin? && !tag.Array? && !tag.Map?
    case WholeStr(data) => |data| < TWO32
    case StartBytes(_, n) => n < TWO32
    case Chunk(data) => true
    case Start(_, n) => n < TWO32
    case _ => true
  }

  predicate ValidCalls(calls: seq<Call>) {
    calls == [] || (ValidCall(calls[0]) && ValidCalls(calls[1..]))
  }

  // The tracking stack.

  datatype Type = StrType | BinType | ArrayType | MapType

  function BytesType(bin: bool): Type { if bin then BinType else StrType }
  function BoxType(isMap: bool): Type { if isMap then MapType else ArrayType }

  /** mpack_track_element_t. */
  datatype Element = Element(kind: Type, left: nat, builder: bool, keyNeedsValue: bool)

  type Track = seq<Element>

  function Top(t: Track): Element
    requires t != []
  {
    t[|t| - 1]
  }

  function WithTop(t: Track, e: Element): Track
    requires t != []
  {
    t[|t| - 1 := e]
  }

  /** mpack_track_peek_element: may an element be written here? */
  predicate ElementAllowed(t: Track) {
    t == [] ||
    var e := Top(t);
    (e.kind == MapType || e.kind == ArrayType) && (e.builder || e.left != 0 || e.keyNeedsValue)
  }

  /** mpack_track_element. None is mpack_error_bug, here and below. */
  function TrackElement(t: Track): Option<Track> {
    if !ElementAllowed(t) then None
    else if t == [] then Some(t) else
    var e := Top(t);
    if e.kind == MapType && !e.keyNeedsValue then Some(WithTop(t, e.(keyNeedsValue := true)))
    else
      Some(WithTop(t, e.(keyNeedsValue := e.kind != MapType && e.keyNeedsValue,
                         left := if e.builder then e.left else if e.left == 0 then TWO32 - 1 else e.left - 1)))
  }

  /** mpack_track_push, mpack_track_push_builder. */
  function TrackPush(t: Track, kind: Type, count: nat, builder: bool): Track {
    t + [Element(kind, count, builder, false)]
  }

  /** mpack_track_pop_impl. */
  function TrackPop(t: Track, kind: Type, builder: bool): Option<Track> {
    if t == [] then None else
    var e := Top(t);
    if e.kind != kind || e.keyNeedsValue || e.left != 0 || e.builder != builder then None else Some(t[..|t| - 1])
  }

  /** mpack_track_bytes. */
  function TrackBytes(t: Track, count: nat): Option<Track> {
    if count >= TWO32 || t == [] then None else
    var e := Top(t);
    if e.kind == MapType || e.kind == ArrayType || e.left < count then None
    else Some(WithTop(t, e.(left := e.left - count)))
  }

  /** What a call does to the tracking stack. */
  function TrackCall(t: Track, c: Call): Option<Track> {
    match c
    case Atom(_) => TrackElement(t)
    case WholeStr(_) => TrackElement(t)
    case StartBytes(bin, n) =>
      (match TrackElement(t) case None => None case Some(u) => Some(TrackPush(u, BytesType(bin), n, false)))
    case Chunk(data) => TrackBytes(t, |data|)
    case FinishBytes(bin) => TrackPop(t, BytesType(bin), false)
    case Start(m, n) =>
      (match TrackElement(t) case None => None case Some(u) => Some(TrackPush(u, BoxType(m), n, false)))
    case Finish(m) => TrackPop(t, BoxType(m), false)
    case Build(m) =>
      (match TrackElement(t) case None => None case Some(u) => Some(TrackPush(u, BoxType(m), 0, true)))
    case Complete(m) => TrackPop(t, BoxType(m), true)
  }

  function TrackCalls(t: Track, calls: seq<Call>): Option<Track>
    decreases |calls|
  {
    if calls == [] then Some(t) else
    match TrackCall(t, calls[0])
    case None => None
    case Some(u) => TrackCalls(u, calls[1..])
  }

  // What a writer with open builders means: finished bytes, and for every open build its count and its
  // contents so far, in which completed builds already stand in their final form.

  datatype Frame = Frame(isMap: bool, count: nat, keyNeedsValue: bool, nested: nat, content: seq<byte>)
  datatype Output = Output(out: seq<byte>, frames: seq<Frame>)

  function BoxHeader(isMap: bool, n: nat): seq<byte>
    requires n < TWO32
  {
    if isMap then MapHeader(n) else ArrayHeader(n)
  }

  /** The builder's part of mpack_writer_track_element, for the innermost open build. The count is an
      unsigned 32-bit field. */
  function CountFrame(f: Frame): Frame {
    if f.nested != 0 then f
    else if !f.isMap then f.(count := (f.count + 1) % TWO32)
    else if f.keyNeedsValue then f.(keyNeedsValue := false, count := (f.count + 1) % TWO32)
    else f.(keyNeedsValue := true)
  }

  function MapTop(o: Output, f: Frame -> Frame): Output {
    if o.frames == [] then o
    else o.(frames := o.frames[|o.frames| - 1 := f(o.frames[|o.frames| - 1])])
  }

  function CountElement(o: Output): Output { MapTop(o, CountFrame) }

  function Emit(o: Output, s: seq<byte>): Output {
    if o.frames == [] then o.(out := o.out + s)
    else MapTop(o, (f: Frame) => f.(content := f.content + s))
  }

  /** mpack_builder_compound_push and mpack_builder_compound_pop. */
  function Nest(o: Output): Output { MapTop(o, (f: Frame) => f.(nested := f.nested + 1)) }
  function Unnest(o: Output): Output { MapTop(o, (f: Frame) => f.(nested := if f.nested > 0 then f.nested - 1 else TWO32 - 1)) }

  /** mpack_builder_build, after counting the build itself as an element. */
  function OpenFrame(o: Output, isMap: bool): Output { o.(frames := o.frames + [Frame(isMap, 0, false, 0, [])]) }

  /** mpack_builder_complete: the header gets its count, and the build becomes part of what encloses it. */
  function CompleteFrame(o: Output, isMap: bool): Option<Output> {
    if o.frames == [] then None else
    var f := o.frames[|o.frames| - 1];
    if f.isMap != isMap || f.keyNeedsValue || f.nested != 0 || f.count >= TWO32 then None
    else Some(Emit(o.(frames := o.frames[..|o.frames| - 1]), BoxHeader(isMap, f.count) + f.content))
  }

  /** What a call does to the output. */
  function OutputCall(o: Output, c: Call): Option<Output>
    requires ValidCall(c)
  {
    match c
    case Atom(tag) => Some(Emit(CountElement(o), EncodeTag(tag)))
    case WholeStr(data) => Some(Emit(CountElement(o), StrHeader(|data|) + data))
    case StartBytes(bin, n) => Some(Emit(CountElement(o), if bin then BinHeader(n) else StrHeader(n)))
    case Chunk(data) => Some(Emit(o, data))
    case FinishBytes(_) => Some(o)
    case Start(m, n) => Some(Nest(Emit(CountElement(o), BoxHeader(m, n))))
    case Finish(_) => Some(Unnest(o))
    case Build(m) => Some(OpenFrame(CountElement(o), m))
    case Complete(m) => CompleteFrame(o, m)
  }

  function OutputCalls(o: Output, calls: seq<Call>): Option<Output>
    requires ValidCalls(calls)
    decreases |calls|
  {
    if calls == [] then Some(o) else
    match OutputCall(o, calls[0])
    case None => None
    case Some(o') => OutputCalls(o', calls[1..])
  }

  // Documents: values together with the way they are written.

  datatype Doc =
    | Plain(tag: Tag)
    | Text(data: seq<byte>)
    | Pieces(bin: bool, chunks: seq<seq<byte>>)
    | Box(isMap: bool, built: bool, items: seq<Doc>)

  function BoxCount(isMap: bool, n: nat): nat { if isMap then n / 2 else n }

  /** A document that calls can write: announced lengths fit 32 bits, and maps hold pairs. A built
      container may have any number of elements. */
  predicate ValidDoc(d: Doc)
    decreases d
  {
    match d
    case Plain(tag) => ValidCall(Atom(tag))
    case Text(data) => |data| < TWO32
    case Pieces(_, chunks) => |Join(chunks)| < TWO32
    case Box(m, built, items) => (m ==> |items| % 2 == 0) && (built || BoxCount(m, |items|) < TWO32) && ValidDocs(items)
  }

  predicate ValidDocs(ds: seq<Doc>)
    decreases ds
  {
    ds == [] || (ValidDoc(ds[0]) && ValidDocs(ds[1..]))
  }

  /** Every container holds fewer than 2^32 elements or pairs, the built ones too. */
  predicate CountsFit(d: Doc)
    decreases d
  {
    d.Box? ==> BoxCount(d.isMap, |d.items|) < TWO32 && AllCountsFit(d.items)
  }

  predicate AllCountsFit(ds: seq<Doc>)
    decreases ds
  {
    ds == [] || (CountsFit(ds[0]) && AllCountsFit(ds[1..]))
  }

  /** What a document writes: the count of a build is a 32-bit field. */
  function Written(d: Doc): seq<byte>
    requires ValidDoc(d)
    decreases d
  {
    match d
    case Plain(tag) => EncodeTag(tag)
    case Text(data) => StrHeader(|data|) + data
    case Pieces(bin, chunks) => (if bin then BinHeader(|Join(chunks)|) else StrHeader(|Join(chunks)|)) + Join(chunks)
    case Box(m, _, items) => BoxHeader(m, BoxCount(m, |items|) % TWO32) + WrittenAll(items)
  }

  function WrittenAll(ds: seq<Doc>): seq<byte>
    requires ValidDocs(ds)
    decreases ds
  {
    if ds == [] then [] else Written(ds[0]) + WrittenAll(ds[1..])
  }

  /** The value a document writes. */
  function ValueOf(d: Doc): (v: Value)
    requires ValidDoc(d) && CountsFit(d)
    ensures Writable(v)
    decreases d
  {
    match d
    case Plain(tag) => Value(tag, [], [])
    case Text(data) => Value(Str(|data|), data, [])
    case Pieces(bin, chunks) =>
      var data := Join(chunks);
      Value(if bin then Bin(|data|) else Str(|data|), data, [])
    case Box(m, _, items) =>
      var vs := ValuesOf(items);
      Value(if m then Map(|vs| / 2) else Array(|vs|), [], vs)
  }

  function ValuesOf(ds: seq<Doc>): (vs: seq<Value>)
    requires ValidDocs(ds) && AllCountsFit(ds)
    ensures |vs| == |ds| && AllWritable(vs)
    decreases ds
  {
    if ds == [] then [] else [ValueOf(ds[0])] + ValuesOf(ds[1..])
  }

  function ChunkCalls(chunks: seq<seq<byte>>): seq<Call> {
    if chunks == [] then [] else [Chunk(chunks[0])] + ChunkCalls(chunks[1..])
  }

  /** The calls that write a document. */
  function CallsOf(d: Doc): seq<Call>
    decreases d
  {
    match d
    case Plain(tag) => [Atom(tag)]
    case Text(data) => [WholeStr(data)]
    case Pieces(bin, chunks) => [StartBytes(bin, |Join(chunks)|)] + ChunkCalls(chunks) + [FinishBytes(bin)]
    case Box(m, built, items) =>
      if built then [Build(m)] + CallsOfAll(items) + [Complete(m)]
      else [Start(m, BoxCount(m, |items|))] + CallsOfAll(items) + [Finish(m)]
  }

  function CallsOfAll(ds: seq<Doc>): seq<Call>
    decreases ds
  {
    if ds == [] then [] else CallsOf(ds[0]) + CallsOfAll(ds[1..])
  }

  // Builder transparency.

  lemma {:induction false} OutputConcat(o: Output, a: seq<Call>, b: seq<Call>)
    requires ValidCalls(a) && ValidCalls(b)
    ensures ValidCalls(a + b)
    ensures OutputCalls(o, a + b)
            == match OutputCalls(o, a) case None => None case Some(o') => OutputCalls(o', b)
    decreases |a|
  {
    hide OutputCall, ValidCall;
    if a == [] {
      assert a + b == b;
    } else {
      assert (a + b)[1..] == a[1..] + b;
      match OutputCall(o, a[0])
      case None => OutputConcat(o, a[1..], b);
      case Some(o') => OutputConcat(o', a[1..], b);
    }
  }

  function CountElements(o: Output, n: nat): Output
    decreases n
  {
    if n == 0 then o else CountElements(CountElement(o), n - 1)
  }

  /** While a sized container is open inside a build, its elements are not counted. */
  lemma {:induction false} NestedNotCounted(o: Output, n: nat)
    requires o.frames != [] ==> o.frames[|o.frames| - 1].nested > 0
    ensures CountElements(o, n) == o
    decreases n
  {
    assert CountElement(o) == o;
    if n > 0 {
      NestedNotCounted(o, n - 1);
    }
  }

  /** After n elements a build has counted them, or the pairs of them, modulo 2^32, and remembers a key. */
  lemma {:induction false} FreshCount(o: Output, m: bool, k: nat, n: nat)
    requires o.frames != []
    requires var f := o.frames[|o.frames| - 1];
             f.isMap == m && f.nested == 0 && f.count == BoxCount(m, k) % TWO32 && f.keyNeedsValue == (m && k % 2 == 1)
    ensures CountElements(o, n)
            == MapTop(o, (f: Frame) => f.(count := BoxCount(m, k + n) % TWO32, keyNeedsValue := m && (k + n) % 2 == 1))
    decreases n
  {
    var f := o.frames[|o.frames| - 1];
    if n > 0 {
      OneMoreCounted(m, k);
      assert CountElement(o)
          == MapTop(o, (f: Frame) => f.(count := BoxCount(m, k + 1) % TWO32, keyNeedsValue := m && (k + 1) % 2 == 1));
      FreshCount(CountElement(o), m, k + 1, n - 1);
    }
  }

  lemma OneMoreCounted(m: bool, k: nat)
    ensures BoxCount(m, k + 1) == if m && k % 2 == 0 then BoxCount(m, k) else BoxCount(m, k) + 1
    ensures BoxCount(m, k + 1) % TWO32 == if m && k % 2 == 0 then BoxCount(m, k) % TWO32 else (BoxCount(m, k) % TWO32 + 1) % TWO32
  {
  }

  /** Emitting and counting do not get in each other's way. */
  lemma EmitEmit(o: Output, s: seq<byte>, t: seq<byte>)
    ensures Emit(Emit(o, s), t) == Emit(o, s + t)
    ensures CountElement(Emit(o, s)) == Emit(CountElement(o), s)
    ensures Emit(o, []) == o
  {
    if o.frames == [] {
      assert o.out + s + t == o.out + (s + t) && o.out + [] == o.out;
    } else {
      var f := o.frames[|o.frames| - 1];
      assert f.content + s + t == f.content + (s + t) && f.content + [] == f.content;
      assert f.(content := f.content + []) == f;
    }
  }

  lemma {:induction false} ChunksEmit(o: Output, chunks: seq<seq<byte>>)
    ensures ValidCalls(ChunkCalls(chunks))
    ensures OutputCalls(o, ChunkCalls(chunks)) == Some(Emit(o, Join(chunks)))
    decreases |chunks|
  {
    hide Emit;
    EmitEmit(o, [], []);
    if chunks != [] {
      var calls := ChunkCalls(chunks);
      assert calls[0] == Chunk(chunks[0]) && calls[1..] == ChunkCalls(chunks[1..]);
      ChunksEmit(Emit(o, chunks[0]), chunks[1..]);
      EmitEmit(o, chunks[0], Join(chunks[1..]));
    }
  }

  /** Whatever mix and nesting of built and sized containers, and whatever builds are open around it, writing
      a document counts as one element and appends exactly what sized containers would have written, with
      counts modulo 2^32. */
  lemma {:induction false} Transparent(d: Doc, o: Output)
    requires ValidDoc(d)
    ensures ValidCalls(CallsOf(d))
    ensures OutputCalls(o, CallsOf(d)) == Some(Emit(CountElement(o), Written(d)))
    decreases d, 0
  {
    match d
    case Plain(tag) => TransparentPlain(tag, o);
    case Text(data) => TransparentText(data, o);
    case Pieces(bin, chunks) => TransparentPieces(bin, chunks, o);
    case Box(m, built, items) =>
      if built {
        TransparentBuild(m, items, o);
      } else {
        TransparentSized(m, items, o);
      }
  }

  lemma OneCall(o: Output, c: Call)
    requires ValidCall(c)
    ensures ValidCalls([c]) && OutputCalls(o, [c]) == OutputCall(o, c)
  {
    if OutputCall(o, c).Some? {
      assert OutputCalls(OutputCall(o, c).value, []) == OutputCall(o, c);
    }
  }

  /** A call, some calls, and a call. */
  lemma Between(o: Output, first: Call, o1: Output, calls: seq<Call>, o2: Output, last: Call, o3: Output)
    requires ValidCall(first) && ValidCalls(calls) && ValidCall(last)
    requires OutputCall(o, first) == Some(o1) && OutputCalls(o1, calls) == Some(o2) && OutputCall(o2, last) == Some(o3)
    ensures ValidCalls([first] + calls + [last]) && OutputCalls(o, [first] + calls + [last]) == Some(o3)
  {
    hide OutputCall, OutputCalls, ValidCall, ValidCalls;
    OneCall(o, first);
    OneCall(o2, last);
    OutputConcat(o, [first], calls);
    OutputConcat(o, [first] + calls, [last]);
  }

  lemma TransparentPlain(tag: Tag, o: Output)
    requires ValidDoc(Plain(tag))
    ensures ValidCalls(CallsOf(Plain(tag)))
    ensures OutputCalls(o, CallsOf(Plain(tag))) == Some(Emit(CountElement(o), Written(Plain(tag))))
  {
    OneCall(o, Atom(tag));
  }

  lemma TransparentText(data: seq<byte>, o: Output)
    requires ValidDoc(Text(data))
    ensures ValidCalls(CallsOf(Text(data)))
    ensures OutputCalls(o, CallsOf(Text(data))) == Some(Emit(CountElement(o), Written(Text(data))))
  {
    OneCall(o, WholeStr(data));
  }

  lemma TransparentPieces(bin: bool, chunks: seq<seq<byte>>, o: Output)
    requires ValidDoc(Pieces(bin, chunks))
    ensures ValidCalls(CallsOf(Pieces(bin, chunks)))
    ensures OutputCalls(o, CallsOf(Pieces(bin, chunks))) == Some(Emit(CountElement(o), Written(Pieces(bin, chunks))))
  {
    var data := Join(chunks);
    var header := if bin then BinHeader(|data|) else StrHeader(|data|);
    var first := StartBytes(bin, |data|);
    var o1 := Emit(CountElement(o), header);
    ChunksEmit(o1, chunks);
    EmitEmit(CountElement(o), header, data);
    Between(o, first, o1, ChunkCalls(chunks), Emit(o1, data), FinishBytes(bin), Emit(o1, data));
  }

  lemma {:induction false} TransparentAll(ds: seq<Doc>, o: Output)
    requires ValidDocs(ds)
    ensures ValidCalls(CallsOfAll(ds))
    ensures OutputCalls(o, CallsOfAll(ds)) == Some(Emit(CountElements(o, |ds|), WrittenAll(ds)))
    decreases ds, 0
  {
    if ds == [] {
      EmitEmit(o, [], []);
    } else {
      var o1 := CountElement(o);
      var e := Written(ds[0]);
      Transparent(ds[0], o);
      TransparentAll(ds[1..], Emit(o1, e));
      OutputConcat(o, CallsOf(ds[0]), CallsOfAll(ds[1..]));
      EmitCountElements(o1, e, |ds| - 1);
      EmitEmit(CountElements(o1, |ds| - 1), e, WrittenAll(ds[1..]));
    }
  }

  lemma {:induction false} EmitCountElements(o: Output, s: seq<byte>, n: nat)
    ensures CountElements(Emit(o, s), n) == Emit(CountElements(o, n), s)
    decreases n
  {
    if n > 0 {
      EmitEmit(o, s, []);
      EmitCountElements(CountElement(o), s, n - 1);
    }
  }

  lemma {:induction false} TransparentSized(m: bool, items: seq<Doc>, o: Output)
    requires ValidDoc(Box(m, false, items))
    ensures ValidCalls(CallsOf(Box(m, false, items)))
    ensures OutputCalls(o, CallsOf(Box(m, false, items)))
            == Some(Emit(CountElement(o), Written(Box(m, false, items))))
    decreases items, 1
  {
    hide CountElement, CountElements, BoxHeader, OutputCalls, ValidCalls, WrittenAll, CallsOfAll, Emit, Nest, Unnest;
    var n := BoxCount(m, |items|);
    assert n % TWO32 == n;
    var header := BoxHeader(m, n);
    var body := WrittenAll(items);
    var o1 := Emit(CountElement(o), header);
    TransparentAll(items, Nest(o1));
    NestCounts(o1);
    NestedNotCounted(Nest(o1), |items|);
    NestUnnest(o1, body);
    EmitEmit(CountElement(o), header, body);
    Between(o, Start(m, n), Nest(o1), CallsOfAll(items), Emit(Nest(o1), body), Finish(m), Emit(o1, body));
  }

  lemma NestCounts(o: Output)
    ensures Nest(o).frames != [] ==> Nest(o).frames[|Nest(o).frames| - 1].nested > 0
  {
  }

  lemma NestUnnest(o: Output, s: seq<byte>)
    ensures Unnest(Emit(Nest(o), s)) == Emit(o, s)
  {
    if o.frames != [] {
      var f := o.frames[|o.frames| - 1];
      assert f.(nested := f.nested + 1).(content := f.content + s).(nested := f.nested) == f.(content := f.content + s);
    }
  }

  lemma {:induction false} TransparentBuild(m: bool, items: seq<Doc>, o: Output)
    requires ValidDoc(Box(m, true, items))
    ensures ValidCalls(CallsOf(Box(m, true, items)))
    ensures OutputCalls(o, CallsOf(Box(m, true, items)))
            == Some(Emit(CountElement(o), Written(Box(m, true, items))))
    decreases items, 1
  {
    hide CountElement, CountElements, BoxHeader, OutputCalls, ValidCalls, WrittenAll, CallsOfAll, Emit;
    var n := BoxCount(m, |items|) % TWO32;
    var body := WrittenAll(items);
    var o1 := CountElement(o);
    var open := OpenFrame(o1, m);
    TransparentAll(items, open);
    var full := Emit(CountElements(open, |items|), body);
    Counted(o1, m, |items|);
    Completed(o1, m, n, body);
    Between(o, Build(m), open, CallsOfAll(items), full, Complete(m), Emit(o1, BoxHeader(m, n) + body));
  }

  /** A build with all its elements counted. */
  lemma Counted(o: Output, m: bool, k: nat)
    requires m ==> k % 2 == 0
    ensures CountElements(OpenFrame(o, m), k)
            == o.(frames := o.frames + [Frame(m, BoxCount(m, k) % TWO32, false, 0, [])])
  {
    FreshCount(OpenFrame(o, m), m, 0, k);
  }

  /** Completing a build with its elements counted and its contents written. */
  lemma Completed(o: Output, m: bool, n: nat, body: seq<byte>)
    requires n < TWO32
    ensures CompleteFrame(Emit(o.(frames := o.frames + [Frame(m, n, false, 0, [])]), body), m) == Some(Emit(o, BoxHeader(m, n) + body))
  {
    hide BoxHeader;
    var full := o.(frames := o.frames + [Frame(m, n, false, 0, body)]);
    assert [] + body == body;
    assert Emit(o.(frames := o.frames + [Frame(m, n, false, 0, [])]), body) == full;
    assert full.frames[..|full.frames| - 1] == o.frames;
  }

  /** A build states its true count exactly when that fits its 32-bit field. */
  lemma BuildCountExact(o: Output, m: bool, n: nat)
    ensures var c := CountElements(OpenFrame(o, m), n);
            c.frames != [] && (c.frames[|c.frames| - 1].count == BoxCount(m, n) <==> BoxCount(m, n) < TWO32)
  {
    FreshCount(OpenFrame(o, m), m, 0, n);
  }

  /** A build with n elements can be completed exactly with its own type, once the values of all its keys and
      all containers inside it are there. */
  lemma CompleteExactly(o: Output, m: bool, n: nat, m': bool)
    ensures var c := CountElements(OpenFrame(o, m), n);
            && (CompleteFrame(c, m').Some? <==> m' == m && (m ==> n % 2 == 0))
            && CompleteFrame(Nest(c), m').None?
    ensures o.frames == [] ==> CompleteFrame(o, m').None?
  {
    hide BoxHeader;
    FreshCount(OpenFrame(o, m), m, 0, n);
  }

  // What is written is the encoding, where the counts fit.

  lemma HeaderIsTag(m: bool, n: nat)
    requires n < TWO32
    ensures EncodeTag(if m then Map(n) else Array(n)) == BoxHeader(m, n)
  {
  }

  lemma BoxValue(m: bool, built: bool, items: seq<Doc>)
    requires ValidDoc(Box(m, built, items)) && CountsFit(Box(m, built, items))
    ensures var v := ValueOf(Box(m, built, items));
            && v.tag == (if m then Map(BoxCount(m, |items|)) else Array(BoxCount(m, |items|)))
            && v.data == [] && v.items == ValuesOf(items)
  {
    hide Writable, AllWritable, ValuesOf;
  }

  lemma BoxEncoding(m: bool, built: bool, items: seq<Doc>)
    requires ValidDoc(Box(m, built, items)) && CountsFit(Box(m, built, items))
    ensures Encode(ValueOf(Box(m, built, items))) == BoxHeader(m, BoxCount(m, |items|)) + EncodeAll(ValuesOf(items))
  {
    hide EncodeAll, ValuesOf, EncodeTag, BoxHeader, AllWritable, ValueOf, ValidDocs, AllCountsFit;
    HeaderIsTag(m, BoxCount(m, |items|));
    BoxValue(m, built, items);
    var v := ValueOf(Box(m, built, items));
    assert EncodeTag(v.tag) + [] + EncodeAll(v.items) == EncodeTag(v.tag) + EncodeAll(v.items);
  }

  lemma LeafEncoding(tag: Tag, data: seq<byte>)
    requires Writable(Value(tag, data, []))
    ensures Encode(Value(tag, data, [])) == EncodeTag(tag) + data
  {
    assert EncodeAll([]) == [];
    assert EncodeTag(tag) + data + [] == EncodeTag(tag) + data;
  }

  lemma LeafWritten(d: Doc)
    requires ValidDoc(d) && CountsFit(d) && !d.Box?
    ensures Written(d) == Encode(ValueOf(d))
  {
    hide Encode, EncodeAll;
    match d
    case Plain(tag) =>
      LeafEncoding(tag, []);
      assert EncodeTag(tag) + [] == EncodeTag(tag);
    case Text(data) => LeafEncoding(Str(|data|), data);
    case Pieces(bin, chunks) => LeafEncoding(if bin then Bin(|Join(chunks)|) else Str(|Join(chunks)|), Join(chunks));
  }

  /** Builder transparency: a document whose counts fit is written as the encoding of its value, in which all
      counts are known up front. */
  lemma {:induction false} WrittenEncodes(d: Doc)
    requires ValidDoc(d) && CountsFit(d)
    ensures Written(d) == Encode(ValueOf(d))
    decreases d
  {
    hide Encode, EncodeAll, MapHeader, ArrayHeader, BoxHeader, ValueOf;
    if d.Box? {
      WrittenEncodesAll(d.items);
      BoxEncoding(d.isMap, d.built, d.items);
    } else {
      LeafWritten(d);
    }
  }

  lemma {:induction false} WrittenEncodesAll(ds: seq<Doc>)
    requires ValidDocs(ds) && AllCountsFit(ds)
    ensures WrittenAll(ds) == EncodeAll(ValuesOf(ds))
    decreases ds
  {
    hide Encode, ValueOf, Written;
    if ds != [] {
      WrittenEncodes(ds[0]);
      WrittenEncodesAll(ds[1..]);
      assert ValuesOf(ds)[1..] == ValuesOf(ds[1..]);
    }
  }
}
