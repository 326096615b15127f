/** How builds and encoded bytes lie in the pages of the builder (mpack.c:2358-2660), and what an open
    builder means: the frames of WriterCalls. */
module BuilderLayout {
  import opened Bytes
  import opened WriterCalls

  // Sizes on an LP64 machine.
  const PAGE_SIZE: nat := 4096
  const PAGE_HEADER: nat := 16
  const BUILD_SIZE: nat := 32
  const ALIGNMENT: nat := 8
  const MINIMUM_BUFFER: nat := 32

  /** What the resolver's arithmetic stands on: a page is given up, for a write or for a build, exactly when
      it has no room left in which the resolver would look for a build. */
  lemma AbandonedPagesHoldNoBuild(used: nat)
    ensures BUILD_SIZE >= MINIMUM_BUFFER
    ensures PAGE_SIZE - used < MINIMUM_BUFFER <==> Align(used) + BUILD_SIZE > PAGE_SIZE
  {
  }

  /** mpack_builder_page_t: `bytes` is the whole page including its header. */
  datatype Page = Page(bytes: seq<byte>, used: nat)

  datatype Loc = Loc(page: nat, offset: nat)

  /** mpack_build_t, which lies in a page. */
  datatype BuildRecord =
    BuildRecord(parent: Option<Loc>, bytes: nat, count: nat, isMap: bool, keyNeedsValue: bool, nested: nat)

  /** mpack_builder_align_build. */
  function Align(bytesUsed: nat): (a: nat)
    ensures bytesUsed <= a < bytesUsed + ALIGNMENT
    ensures bytesUsed % ALIGNMENT == 0 ==> a == bytesUsed
  {
    var offset := bytesUsed + ALIGNMENT - 1;
    offset - offset % ALIGNMENT
  }

  /** Where the next build goes behind data that ends at `at`. */
  function NextSlot(at: Loc): Loc {
    if Align(at.offset) + BUILD_SIZE <= PAGE_SIZE then Loc(at.page, Align(at.offset))
    else Loc(at.page + 1, Align(PAGE_HEADER))
  }

  /** A build in the order of creation: its record, the bytes behind it, and where they end. */
  datatype Entry = Entry(at: Loc, end: Loc, data: seq<byte>, parent: Option<Loc>,
                         isMap: bool, count: nat, keyNeedsValue: bool, nested: nat)

  function RecordOf(e: Entry): BuildRecord {
    BuildRecord(e.parent, |e.data|, e.count, e.isMap, e.keyNeedsValue, e.nested)
  }

  // Bytes in pages.

  predicate WellFormedPages(pages: seq<Page>) {
    && (forall i | 0 <= i < |pages| :: |pages[i].bytes| == PAGE_SIZE && PAGE_HEADER <= pages[i].used <= PAGE_SIZE)
    && (forall i | 0 <= i < |pages| - 1 :: PAGE_SIZE - pages[i].used < MINIMUM_BUFFER)
  }

  /** From a to b is a way forward through the pages. */
  predicate Forward(pages: seq<Page>, a: Loc, b: Loc) {
    && a.page <= b.page < |pages| && b.offset <= PAGE_SIZE
    && if a.page == b.page then a.offset <= b.offset else a.offset <= pages[a.page].used && PAGE_HEADER <= b.offset
  }

  /** The bytes from a to b: the rest of a page, whole pages behind their headers, and the start of a page. */
  function Span(pages: seq<Page>, a: Loc, b: Loc): seq<byte>
    requires WellFormedPages(pages) && Forward(pages, a, b)
    decreases b.page - a.page
  {
    if a.page == b.page then pages[a.page].bytes[a.offset..b.offset]
    else pages[a.page].bytes[a.offset..pages[a.page].used] + Span(pages, Loc(a.page + 1, PAGE_HEADER), b)
  }

  /** The pages agree up to `b`. */
  predicate AgreeUpTo(pages: seq<Page>, pages': seq<Page>, b: Loc) {
    && b.page < |pages| && b.page < |pages'|
    && (forall i | 0 <= i < b.page :: pages[i] == pages'[i])
    && |pages[b.page].bytes| == |pages'[b.page].bytes| == PAGE_SIZE && b.offset <= PAGE_SIZE
    && pages[b.page].bytes[..b.offset] == pages'[b.page].bytes[..b.offset]
  }

  lemma {:induction false} SpanFrame(pages: seq<Page>, pages': seq<Page>, a: Loc, b: Loc)
    requires WellFormedPages(pages) && WellFormedPages(pages') && Forward(pages, a, b) && AgreeUpTo(pages, pages', b)
    ensures Forward(pages', a, b) && Span(pages', a, b) == Span(pages, a, b)
    decreases b.page - a.page
  {
    if a.page == b.page {
      assert pages[b.page].bytes[a.offset..b.offset] == pages[b.page].bytes[..b.offset][a.offset..];
      assert pages'[b.page].bytes[a.offset..b.offset] == pages'[b.page].bytes[..b.offset][a.offset..];
    } else {
      SpanFrame(pages, pages', Loc(a.page + 1, PAGE_HEADER), b);
    }
  }

  /** Bytes further along the same page. */
  lemma {:induction false} SpanExtend(pages: seq<Page>, a: Loc, b: Loc, r: nat)
    requires WellFormedPages(pages) && Forward(pages, a, b) && b.offset <= r <= PAGE_SIZE
    ensures Forward(pages, a, Loc(b.page, r))
    ensures Span(pages, a, Loc(b.page, r)) == Span(pages, a, b) + pages[b.page].bytes[b.offset..r]
    decreases b.page - a.page
  {
    var more := pages[b.page].bytes[b.offset..r];
    if a.page == b.page {
      var bytes := pages[a.page].bytes;
      assert bytes[a.offset..r] == bytes[a.offset..b.offset] + bytes[b.offset..r];
    } else {
      SpanExtend(pages, Loc(a.page + 1, PAGE_HEADER), b, r);
      var first := pages[a.page].bytes[a.offset..pages[a.page].used];
      var rest := Span(pages, Loc(a.page + 1, PAGE_HEADER), b);
      assert first + (rest + more) == first + rest + more;
    }
  }

  /** Stepping to a new page: nothing is read there yet. */
  lemma {:induction false} SpanNewPage(pages: seq<Page>, a: Loc, b: Loc)
    requires WellFormedPages(pages) && Forward(pages, a, b) && b.page + 1 < |pages| && b.offset == pages[b.page].used
    ensures Forward(pages, a, Loc(b.page + 1, PAGE_HEADER))
    ensures Span(pages, a, Loc(b.page + 1, PAGE_HEADER)) == Span(pages, a, b)
    decreases b.page - a.page
  {
    var c := Loc(b.page + 1, PAGE_HEADER);
    if a.page == b.page {
      assert Span(pages, Loc(a.page + 1, PAGE_HEADER), c) == [];
    } else {
      SpanNewPage(pages, Loc(a.page + 1, PAGE_HEADER), b);
    }
  }

  /** Where nothing is left to read, the next build is looked for at the same place. */
  lemma {:induction false} EmptySpanSameSlot(pages: seq<Page>, a: Loc, b: Loc)
    requires WellFormedPages(pages) && Forward(pages, a, b) && Span(pages, a, b) == []
    ensures NextSlot(a) == NextSlot(b)
    decreases b.page - a.page
  {
    if a.page < b.page {
      AbandonedPagesHoldNoBuild(a.offset);
      assert NextSlot(a) == Loc(a.page + 1, PAGE_HEADER) == NextSlot(Loc(a.page + 1, PAGE_HEADER));
      EmptySpanSameSlot(pages, Loc(a.page + 1, PAGE_HEADER), b);
    }
  }

  // Entries and frames.

  predicate Countable(es: seq<Entry>) {
    forall i | 0 <= i < |es| :: es[i].count < TWO32
  }

  /** What a completed build resolves to, and everything that lies behind it up to entry b. */
  function Flat(es: seq<Entry>, a: nat, b: nat): seq<byte>
    requires a <= b <= |es| && Countable(es)
    decreases b - a
  {
    if a == b then [] else BoxHeader(es[a].isMap, es[a].count) + es[a].data + Flat(es, a + 1, b)
  }

  /** The contents of build a, when b is the next one that is not inside it. */
  function Contents(es: seq<Entry>, a: nat, b: nat): seq<byte>
    requires a < b <= |es| && Countable(es)
  {
    es[a].data + Flat(es, a + 1, b)
  }

  lemma {:induction false} FlatSplit(es: seq<Entry>, a: nat, b: nat, c: nat)
    requires a <= b <= c <= |es| && Countable(es)
    ensures Flat(es, a, c) == Flat(es, a, b) + Flat(es, b, c)
    decreases b - a
  {
    hide BoxHeader;
    if a < b {
      FlatSplit(es, a + 1, b, c);
      var head := BoxHeader(es[a].isMap, es[a].count) + es[a].data;
      assert head + (Flat(es, a + 1, b) + Flat(es, b, c)) == head + Flat(es, a + 1, b) + Flat(es, b, c);
    } else {
      assert [] + Flat(es, b, c) == Flat(es, b, c);
    }
  }

  lemma {:induction false} FlatFrame(es: seq<Entry>, es': seq<Entry>, a: nat, b: nat)
    requires a <= b <= |es| && b <= |es'|
    requires Countable(es)
    requires Countable(es')
    requires forall i | a <= i < b :: es[i].isMap == es'[i].isMap && es[i].count == es'[i].count && es[i].data == es'[i].data
    ensures Flat(es, a, b) == Flat(es', a, b)
    decreases b - a
  {
    hide BoxHeader;
    if a < b {
      FlatFrame(es, es', a + 1, b);
    }
  }

  /** More bytes behind the last entry. */
  lemma {:induction false} FlatLast(es: seq<Entry>, es': seq<Entry>, a: nat, p: seq<byte>)
    requires a < |es| == |es'|
    requires Countable(es)
    requires Countable(es')
    requires forall i | a <= i < |es| :: es[i].isMap == es'[i].isMap && es[i].count == es'[i].count
    requires forall i | a <= i < |es| - 1 :: es[i].data == es'[i].data
    requires es'[|es| - 1].data == es[|es| - 1].data + p
    ensures Flat(es', a, |es|) == Flat(es, a, |es|) + p
    decreases |es| - a
  {
    hide BoxHeader;
    var n := |es|;
    if a == n - 1 {
      assert Flat(es, n, n) == [] && Flat(es', n, n) == [];
      var head := BoxHeader(es[a].isMap, es[a].count);
      assert head + (es[a].data + p) + [] == head + es[a].data + [] + p;
    } else {
      FlatLast(es, es', a + 1, p);
      var head := BoxHeader(es[a].isMap, es[a].count) + es[a].data;
      assert head + (Flat(es, a + 1, n) + p) == head + Flat(es, a + 1, n) + p;
    }
  }

  /** Open builds, outermost first, as indices of entries. */
  predicate Opens(es: seq<Entry>, opens: seq<nat>) {
    && opens != [] && opens[0] == 0
    && (forall j | 0 <= j < |opens| :: opens[j] < |es|)
    && (forall j, k | 0 <= j < k < |opens| :: opens[j] < opens[k])
    && Countable(es)
  }

  /** The entry behind the contents of the j-th open build: the next open build, or the end. */
  function Limit(es: seq<Entry>, opens: seq<nat>, j: nat): nat
    requires Opens(es, opens) && j < |opens|
  {
    if j + 1 < |opens| then opens[j + 1] else |es|
  }

  function FrameAt(es: seq<Entry>, opens: seq<nat>, j: nat): Frame
    requires Opens(es, opens) && j < |opens|
  {
    var e := es[opens[j]];
    Frame(e.isMap, e.count, e.keyNeedsValue, e.nested, Contents(es, opens[j], Limit(es, opens, j)))
  }

  /** What the open builds mean. */
  function Frames(es: seq<Entry>, opens: seq<nat>): (fs: seq<Frame>)
    requires Opens(es, opens)
    ensures |fs| == |opens|
  {
    seq(|opens|, j requires 0 <= j < |opens| => FrameAt(es, opens, j))
  }

  /** Writing bytes behind the last entry, whichever it is, adds to the innermost open build. */
  lemma {:induction false} FramesPut(es: seq<Entry>, opens: seq<nat>, es': seq<Entry>, p: seq<byte>, out: seq<byte>)
    requires Opens(es, opens) && |es'| == |es|
    requires es' == es[|es| - 1 := es'[|es| - 1]]
    requires var e, e' := es[|es| - 1], es'[|es| - 1]; e' == e.(data := e.data + p, end := e'.end)
    ensures Opens(es', opens)
    ensures Output(out, Frames(es', opens)) == Emit(Output(out, Frames(es, opens)), p)
  {
    var top := |opens| - 1;
    forall j | 0 <= j < top ensures FrameAt(es', opens, j) == FrameAt(es, opens, j) {
      hide BoxHeader;
      FlatFrame(es, es', opens[j] + 1, opens[j + 1]);
    }
    var k := opens[top];
    assert Contents(es', k, |es|) == Contents(es, k, |es|) + p by {
      hide BoxHeader;
      ContentsPut(es, es', k, p);
    }
    hide Contents, BoxHeader;
    var f := FrameAt(es, opens, top);
    assert FrameAt(es', opens, top) == f.(content := f.content + p);
    assert Frames(es', opens) == Frames(es, opens)[top := f.(content := f.content + p)];
  }

  lemma {:induction false} ContentsPut(es: seq<Entry>, es': seq<Entry>, k: nat, p: seq<byte>)
    requires k < |es| == |es'| && Countable(es) && Countable(es')
    requires es' == es[|es| - 1 := es'[|es| - 1]]
    requires var e, e' := es[|es| - 1], es'[|es| - 1]; e' == e.(data := e.data + p, end := e'.end)
    ensures Contents(es', k, |es|) == Contents(es, k, |es|) + p
  {
    hide BoxHeader;
    if k == |es| - 1 {
      assert Flat(es, |es|, |es|) == [] == Flat(es', |es|, |es|);
      assert es[k].data + p + [] == es[k].data + [] + p;
    } else {
      FlatLast(es, es', k + 1, p);
      assert es[k].data + (Flat(es, k + 1, |es|) + p) == es[k].data + Flat(es, k + 1, |es|) + p;
    }
  }

  /** Counters of build k do not show in the contents of an open build around it, or in its own. */
  lemma {:induction false} ContentsCount(es: seq<Entry>, k: nat, e': Entry, a: nat, b: nat)
    requires k < |es| && Countable(es) && e'.count < TWO32 && e'.data == es[k].data
    requires a < b <= |es| && (b <= k || k <= a)
    ensures Countable(es[k := e']) && Contents(es[k := e'], a, b) == Contents(es, a, b)
  {
    hide BoxHeader;
    FlatFrame(es, es[k := e'], a + 1, b);
  }

  /** Changing the counters of the innermost open build changes just its frame. */
  lemma {:induction false} FramesCount(es: seq<Entry>, opens: seq<nat>, es': seq<Entry>)
    requires Opens(es, opens) && Countable(es')
    requires var k := opens[|opens| - 1];
             |es'| == |es| && es' == es[k := es[k].(count := es'[k].count, keyNeedsValue := es'[k].keyNeedsValue, nested := es'[k].nested)]
    ensures Opens(es', opens)
    ensures var top := |opens| - 1; var e' := es'[opens[top]];
            Frames(es', opens)
            == Frames(es, opens)[top := Frames(es, opens)[top].(count := e'.count, keyNeedsValue := e'.keyNeedsValue, nested := e'.nested)]
  {
    hide BoxHeader, Flat, Contents;
    var top := |opens| - 1;
    var e' := es'[opens[top]];
    forall j | 0 <= j < top ensures FrameAt(es', opens, j) == FrameAt(es, opens, j) {
      ContentsCount(es, opens[top], e', opens[j], Limit(es, opens, j));
    }
    ContentsCount(es, opens[top], e', opens[top], |es|);
    var g := FrameAt(es, opens, top).(count := e'.count, keyNeedsValue := e'.keyNeedsValue, nested := e'.nested);
    assert FrameAt(es', opens, top) == g;
    hide FrameAt, Limit;
    assert Frames(es', opens) == Frames(es, opens)[top := g];
  }

  /** A new build opens an empty frame. */
  lemma {:induction false} FramesBuild(es: seq<Entry>, opens: seq<nat>, e: Entry)
    requires opens == [] || Opens(es, opens)
    requires e.data == [] && e.count == 0 && !e.keyNeedsValue && e.nested == 0
    requires opens == [] ==> es == []
    ensures Opens(es + [e], opens + [|es|])
    ensures Frames(es + [e], opens + [|es|])
            == (if opens == [] then [] else Frames(es, opens)) + [Frame(e.isMap, 0, false, 0, [])]
  {
    hide BoxHeader;
    var es', opens' := es + [e], opens + [|es|];
    forall j | 0 <= j < |opens| ensures FrameAt(es', opens', j) == FrameAt(es, opens, j) {
      FlatFrame(es, es', opens[j] + 1, Limit(es, opens, j));
    }
    assert Flat(es', |es| + 1, |es| + 1) == [];
    assert FrameAt(es', opens', |opens|) == Frame(e.isMap, 0, false, 0, []);
  }

  /** Completing a nested build puts its header and contents behind those of the build around it. */
  lemma {:induction false} FramesComplete(es: seq<Entry>, opens: seq<nat>, out: seq<byte>)
    requires Opens(es, opens) && |opens| > 1
    ensures Opens(es, opens[..|opens| - 1])
    ensures var f := Frames(es, opens)[|opens| - 1];
            Output(out, Frames(es, opens[..|opens| - 1]))
            == Emit(Output(out, Frames(es, opens)[..|opens| - 1]), BoxHeader(f.isMap, f.count) + f.content)
  {
    hide BoxHeader, Flat, Contents;
    var top := |opens| - 1;
    var opens' := opens[..top];
    forall j | 0 <= j < top - 1 ensures FrameAt(es, opens', j) == FrameAt(es, opens, j) {
    }
    ContentsComplete(es, opens[top - 1], opens[top]);
    var f, g := FrameAt(es, opens, top), FrameAt(es, opens, top - 1);
    var g' := g.(content := g.content + (BoxHeader(f.isMap, f.count) + f.content));
    assert FrameAt(es, opens', top - 1) == g';
    assert Frames(es, opens') == Frames(es, opens)[..top][top - 1 := g'];
  }

  lemma {:induction false} ContentsComplete(es: seq<Entry>, a: nat, b: nat)
    requires a < b < |es| && Countable(es)
    ensures Contents(es, a, |es|)
            == Contents(es, a, b) + (BoxHeader(es[b].isMap, es[b].count) + Contents(es, b, |es|))
  {
    hide BoxHeader;
    var n := |es|;
    FlatSplit(es, a + 1, b, n);
    var head := BoxHeader(es[b].isMap, es[b].count);
    assert head + es[b].data + Flat(es, b + 1, n) == head + (es[b].data + Flat(es, b + 1, n));
    assert es[a].data + (Flat(es, a + 1, b) + Flat(es, b, n)) == es[a].data + Flat(es, a + 1, b) + Flat(es, b, n);
  }

  /** Completing the outermost build yields everything. */
  lemma {:induction false} FramesResolve(es: seq<Entry>, opens: seq<nat>)
    requires Opens(es, opens) && |opens| == 1
    ensures var f := Frames(es, opens)[0]; Flat(es, 0, |es|) == BoxHeader(f.isMap, f.count) + f.content
  {
    hide BoxHeader;
    var head := BoxHeader(es[0].isMap, es[0].count);
    assert head + es[0].data + Flat(es, 1, |es|) == head + (es[0].data + Flat(es, 1, |es|));
  }
}
