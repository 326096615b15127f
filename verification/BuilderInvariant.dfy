/** What holds of the builder between calls (mpack.c:2446-2763): where its builds and bytes lie in the pages,
    and what the build records say. */
module BuilderInvariant {
  import opened Bytes
  import opened WriterCalls
  import opened BuilderLayout

  /** Encoded data immediately follows the build. */
  function DataStart(at: Loc): Loc { Loc(at.page, at.offset + BUILD_SIZE) }

  predicate Before(a: Loc, b: Loc) {
    a.page < b.page || (a.page == b.page && a.offset < b.offset)
  }

  /** The bytes behind a build lie in the pages, inside what is used of them. */
  predicate InPlace(pages: seq<Page>, position: nat, e: Entry)
    requires WellFormedPages(pages) && pages != []
  {
    && Forward(pages, DataStart(e.at), e.end) && Span(pages, DataStart(e.at), e.end) == e.data
    && e.end.offset <= UsedOf(pages, position, e.end.page)
  }

  function UsedOf(pages: seq<Page>, position: nat, page: nat): nat
    requires page < |pages|
  {
    if page == |pages| - 1 then position else pages[page].used
  }

  /** Every build stands where the alignment arithmetic looks for it, in the order of creation. */
  predicate Chained(es: seq<Entry>) {
    && es != [] && es[0].at == Loc(0, Align(PAGE_HEADER))
    && (forall i | 0 < i < |es| :: es[i].at == NextSlot(es[i - 1].end))
    && (forall i, j | 0 <= i < j < |es| :: Before(es[i].at, es[j].at))
  }

  predicate LaidOut(pages: seq<Page>, position: nat, es: seq<Entry>) {
    && WellFormedPages(pages) && pages != [] && pages[|pages| - 1].used <= position <= PAGE_SIZE
    && es != [] && Chained(es)
    && (forall i | 0 <= i < |es| :: InPlace(pages, position, es[i]))
    && es[|es| - 1].end == Loc(|pages| - 1, position)
  }

  function WithUsed(pages: seq<Page>, used: nat): seq<Page>
    requires pages != []
  {
    pages[|pages| - 1 := pages[|pages| - 1].(used := used)]
  }

  /** mpack_builder_apply_writes brings `used` up to date; nothing else changes in the pages. */
  lemma LaidOutApply(pages: seq<Page>, position: nat, es: seq<Entry>)
    requires LaidOut(pages, position, es)
    ensures LaidOut(WithUsed(pages, position), position, es)
  {
    hide Span, Chained;
    var pages' := WithUsed(pages, position);
    forall i | 0 <= i < |es| ensures InPlace(pages', position, es[i]) {
      SpanFrame(pages, pages', DataStart(es[i].at), es[i].end);
    }
  }

  function WithBytes(pages: seq<Page>, position: nat, p: seq<byte>): seq<Page>
    requires WellFormedPages(pages) && pages != [] && position + |p| <= PAGE_SIZE
  {
    var last := pages[|pages| - 1];
    pages[|pages| - 1 := last.(bytes := last.bytes[..position] + p + last.bytes[position + |p|..])]
  }

  function WithData(es: seq<Entry>, p: seq<byte>, end: Loc): seq<Entry>
    requires es != []
  {
    var e := es[|es| - 1];
    es[|es| - 1 := e.(data := e.data + p, end := end)]
  }

  lemma ChainedWithData(es: seq<Entry>, p: seq<byte>, end: Loc)
    requires es != [] && Chained(es)
    ensures Chained(WithData(es, p, end))
  {
    hide NextSlot;
    var es' := WithData(es, p, end);
    forall i | 0 < i < |es'| ensures es'[i].at == NextSlot(es'[i - 1].end) {
      assert es[i].at == NextSlot(es[i - 1].end);
    }
  }

  /** Bytes written at the position stand behind the last build. */
  lemma LaidOutPut(pages: seq<Page>, position: nat, es: seq<Entry>, p: seq<byte>)
    requires LaidOut(pages, position, es) && position + |p| <= PAGE_SIZE
    ensures LaidOut(WithBytes(pages, position, p), position + |p|, WithData(es, p, Loc(|pages| - 1, position + |p|)))
  {
    hide Span, Chained;
    var pages', position' := WithBytes(pages, position, p), position + |p|;
    var end := Loc(|pages| - 1, position');
    var es' := WithData(es, p, end);
    ChainedWithData(es, p, end);
    var before, after := pages[|pages| - 1].bytes, pages'[|pages| - 1].bytes;
    assert after[..position] == before[..position];
    forall i | 0 <= i < |es| - 1 ensures InPlace(pages', position', es'[i]) {
      var e := es[i];
      assert InPlace(pages, position, e);
      if e.end.page == |pages| - 1 {
        assert after[..e.end.offset] == after[..position][..e.end.offset] == before[..e.end.offset];
      }
      SpanFrame(pages, pages', DataStart(e.at), e.end);
    }
    var e := es[|es| - 1];
    assert InPlace(pages, position, e);
    SpanFrame(pages, pages', DataStart(e.at), e.end);
    SpanExtend(pages', DataStart(e.at), e.end, position');
    assert after[position..position'] == p;
  }

  predicate Fresh(page: Page) {
    |page.bytes| == PAGE_SIZE && page.used == PAGE_HEADER
  }

  function WithPage(pages: seq<Page>, position: nat, page: Page): seq<Page>
    requires pages != []
  {
    WithUsed(pages, position) + [page]
  }

  /** A new page: the last build's bytes go on there. */
  lemma LaidOutPage(pages: seq<Page>, position: nat, es: seq<Entry>, page: Page)
    requires LaidOut(pages, position, es) && PAGE_SIZE - position < MINIMUM_BUFFER && Fresh(page)
    ensures LaidOut(WithPage(pages, position, page), PAGE_HEADER, WithData(es, [], Loc(|pages|, PAGE_HEADER)))
  {
    hide Span, Chained;
    var pages', position' := WithPage(pages, position, page), PAGE_HEADER;
    var end := Loc(|pages|, PAGE_HEADER);
    var es' := WithData(es, [], end);
    ChainedWithData(es, [], end);
    forall i | 0 <= i < |es| - 1 ensures InPlace(pages', position', es'[i]) {
      assert InPlace(pages, position, es[i]);
      SpanFrame(pages, pages', DataStart(es[i].at), es[i].end);
    }
    var e := es[|es| - 1];
    assert InPlace(pages, position, e);
    SpanFrame(pages, pages', DataStart(e.at), e.end);
    SpanNewPage(pages', DataStart(e.at), e.end);
    assert e.data + [] == e.data;
  }

  /** A build at the slot behind the last one, on the same page. */
  lemma LaidOutBuild(pages: seq<Page>, position: nat, es: seq<Entry>, e: Entry)
    requires LaidOut(pages, position, es)
    requires Align(position) + BUILD_SIZE <= PAGE_SIZE
    requires e.at == Loc(|pages| - 1, Align(position)) && e.end == DataStart(e.at) && e.data == []
    ensures LaidOut(WithUsed(pages, e.end.offset), e.end.offset, es + [e])
  {
    hide Span, Align;
    var pages' := WithUsed(pages, e.end.offset);
    forall i | 0 <= i < |es| ensures InPlace(pages', e.end.offset, es[i]) && Before(es[i].at, e.at) {
      assert InPlace(pages, position, es[i]);
      SpanFrame(pages, pages', DataStart(es[i].at), es[i].end);
    }
    EmptyInPlace(pages', e);
  }

  lemma EmptyInPlace(pages: seq<Page>, e: Entry)
    requires WellFormedPages(pages) && pages != [] && e.end == DataStart(e.at) && e.data == []
    requires e.end.page == |pages| - 1 && e.end.offset <= PAGE_SIZE
    ensures InPlace(pages, e.end.offset, e)
  {
  }

  // Records lie in the same pages as the bytes. They do not get in each other's way.

  /** The place belongs to the record at `at`. */
  predicate InRecord(at: Loc, l: Loc) {
    l.page == at.page && at.offset <= l.offset < at.offset + BUILD_SIZE
  }

  /** The place belongs to the bytes from a to b. */
  predicate InSpan(pages: seq<Page>, a: Loc, b: Loc, l: Loc) {
    && a.page <= l.page <= b.page && l.page < |pages|
    && (if l.page == a.page then a.offset else PAGE_HEADER) <= l.offset
    && l.offset < if l.page == b.page then b.offset else pages[l.page].used
  }

  /** The place belongs to build e: its record or its bytes. */
  predicate Occupies(pages: seq<Page>, e: Entry, l: Loc) {
    InRecord(e.at, l) || InSpan(pages, DataStart(e.at), e.end, l)
  }

  /** A build and its bytes come before the next build. */
  lemma EndsBefore(pages: seq<Page>, position: nat, es: seq<Entry>, i: nat, j: nat)
    requires LaidOut(pages, position, es) && i < j < |es|
    ensures !Before(es[j].at, es[i].end)
  {
    hide Span;
    assert es[i + 1].at == NextSlot(es[i].end);
    assert i + 1 < j ==> Before(es[i + 1].at, es[j].at);
  }

  /** Every record fits into its page, at an aligned place. */
  lemma RecordFits(pages: seq<Page>, position: nat, es: seq<Entry>, i: nat)
    requires LaidOut(pages, position, es) && i < |es|
    ensures var at := es[i].at;
            at.page < |pages| && PAGE_HEADER <= at.offset && at.offset % ALIGNMENT == 0 && at.offset + BUILD_SIZE <= PAGE_SIZE
  {
    hide Span;
    assert InPlace(pages, position, es[i]);
    if i > 0 {
      assert es[i].at == NextSlot(es[i - 1].end);
      assert InPlace(pages, position, es[i - 1]);
      assert PAGE_HEADER <= es[i - 1].end.offset by { EndBehindHeader(pages, position, es, i - 1); }
    }
  }

  lemma {:induction false} EndBehindHeader(pages: seq<Page>, position: nat, es: seq<Entry>, i: nat)
    requires LaidOut(pages, position, es) && i < |es|
    ensures PAGE_HEADER <= es[i].end.offset
    decreases i
  {
    hide Span;
    assert InPlace(pages, position, es[i]);
    if i > 0 {
      assert es[i].at == NextSlot(es[i - 1].end);
      EndBehindHeader(pages, position, es, i - 1);
    }
  }

  /** No place belongs to two builds, or to a record and to bytes, and the place to write at is free, as is
      everything behind it. */
  lemma PlacesApart(pages: seq<Page>, position: nat, es: seq<Entry>, l: Loc)
    requires LaidOut(pages, position, es)
    ensures forall i | 0 <= i < |es| :: !(InRecord(es[i].at, l) && InSpan(pages, DataStart(es[i].at), es[i].end, l))
    ensures forall i, j | 0 <= i < j < |es| :: !(Occupies(pages, es[i], l) && Occupies(pages, es[j], l))
    ensures !Before(l, Loc(|pages| - 1, position)) ==> forall i | 0 <= i < |es| :: !Occupies(pages, es[i], l)
  {
    hide Span;
    forall i, j | 0 <= i < j < |es| ensures !(Occupies(pages, es[i], l) && Occupies(pages, es[j], l)) {
      EndsBefore(pages, position, es, i, j);
      assert InPlace(pages, position, es[i]);
    }
    forall i | 0 <= i < |es| ensures Occupies(pages, es[i], l) ==> Before(l, Loc(|pages| - 1, position)) {
      assert InPlace(pages, position, es[i]);
      if i < |es| - 1 {
        EndsBefore(pages, position, es, i, |es| - 1);
        assert InPlace(pages, position, es[|es| - 1]);
      }
    }
  }

  /** A span is made of its places and of nothing else. */
  lemma {:induction false} SpanOfPlaces(pages: seq<Page>, pages': seq<Page>, a: Loc, b: Loc)
    requires WellFormedPages(pages) && WellFormedPages(pages') && Forward(pages, a, b) && |pages'| == |pages|
    requires forall i | 0 <= i < |pages| :: pages'[i].used == pages[i].used
    requires forall l | InSpan(pages, a, b, l) && l.offset < PAGE_SIZE :: pages'[l.page].bytes[l.offset] == pages[l.page].bytes[l.offset]
    ensures Forward(pages', a, b) && Span(pages', a, b) == Span(pages, a, b)
    decreases b.page - a.page
  {
    var end := if a.page == b.page then b.offset else pages[a.page].used;
    forall k | a.offset <= k < end ensures pages'[a.page].bytes[k] == pages[a.page].bytes[k] {
      assert InSpan(pages, a, b, Loc(a.page, k));
    }
    assert pages'[a.page].bytes[a.offset..end] == pages[a.page].bytes[a.offset..end];
    if a.page < b.page {
      var c := Loc(a.page + 1, PAGE_HEADER);
      forall l | InSpan(pages, c, b, l) && l.offset < PAGE_SIZE
        ensures pages'[l.page].bytes[l.offset] == pages[l.page].bytes[l.offset]
      {
        assert InSpan(pages, a, b, l);
      }
      SpanOfPlaces(pages, pages', c, b);
    }
  }

  function Overlaid(page: Page, offset: nat, record: seq<byte>): Page
    requires |page.bytes| == PAGE_SIZE && offset + |record| <= PAGE_SIZE
  {
    page.(bytes := page.bytes[..offset] + record + page.bytes[offset + |record|..])
  }

  /** Whatever is stored into a build's record, in the page itself, leaves the layout as it is. */
  lemma LaidOutOverlaid(pages: seq<Page>, position: nat, es: seq<Entry>, k: nat, record: seq<byte>)
    requires LaidOut(pages, position, es) && k < |es| && |record| == BUILD_SIZE
    ensures var at := es[k].at;
            (RecordFits(pages, position, es, k);
             LaidOut(pages[at.page := Overlaid(pages[at.page], at.offset, record)], position, es))
  {
    hide Span, Chained;
    RecordFits(pages, position, es, k);
    var at := es[k].at;
    var pages' := pages[at.page := Overlaid(pages[at.page], at.offset, record)];
    forall i | 0 <= i < |es| ensures InPlace(pages', position, es[i]) {
      var a, b := DataStart(es[i].at), es[i].end;
      assert InPlace(pages, position, es[i]);
      forall l | InSpan(pages, a, b, l) && l.offset < PAGE_SIZE
        ensures pages'[l.page].bytes[l.offset] == pages[l.page].bytes[l.offset]
      {
        PlacesApart(pages, position, es, l);
        assert Occupies(pages, es[i], l) && (InRecord(at, l) ==> Occupies(pages, es[k], l));
      }
      SpanOfPlaces(pages, pages', a, b);
    }
  }

  // Build records.

  /** The records in the pages say what the entries say, except that the latest build's byte count lags
      behind by what was written since writes were last applied. */
  predicate Recorded(builds: map<Loc, BuildRecord>, lag: nat, es: seq<Entry>, opens: seq<nat>,
                     current: Option<Loc>, latest: Option<Loc>) {
    && es != [] && Opens(es, opens)
    && current == Some(es[opens[|opens| - 1]].at) && latest == Some(es[|es| - 1].at)
    && (forall i | 0 <= i < |es| - 1 :: es[i].at in builds && builds[es[i].at] == RecordOf(es[i]))
    && es[|es| - 1].at in builds && lag <= |es[|es| - 1].data|
    && builds[es[|es| - 1].at] == RecordOf(es[|es| - 1]).(bytes := |es[|es| - 1].data| - lag)
    && es[0].parent == None
    && (forall j | 0 < j < |opens| :: es[opens[j]].parent == Some(es[opens[j - 1]].at))
  }

  lemma RecordedPut(builds: map<Loc, BuildRecord>, lag: nat, es: seq<Entry>, opens: seq<nat>,
                    current: Option<Loc>, latest: Option<Loc>, p: seq<byte>, end: Loc)
    requires Recorded(builds, lag, es, opens, current, latest)
    ensures Recorded(builds, lag + |p|, WithData(es, p, end), opens, current, latest)
  {
  }

  lemma RecordedApply(builds: map<Loc, BuildRecord>, lag: nat, es: seq<Entry>, opens: seq<nat>,
                      current: Option<Loc>, latest: Option<Loc>)
    requires Recorded(builds, lag, es, opens, current, latest) && Chained(es)
    ensures var at := es[|es| - 1].at;
            Recorded(builds[at := builds[at].(bytes := builds[at].bytes + lag)], 0, es, opens, current, latest)
  {
    forall i | 0 <= i < |es| - 1 ensures es[i].at != es[|es| - 1].at {
      assert Before(es[i].at, es[|es| - 1].at);
    }
  }

  lemma RecordedCount(builds: map<Loc, BuildRecord>, lag: nat, es: seq<Entry>, opens: seq<nat>,
                      current: Option<Loc>, latest: Option<Loc>, count: nat, keyNeedsValue: bool, nested: nat)
    requires Recorded(builds, lag, es, opens, current, latest) && Chained(es) && count < TWO32
    ensures var k := opens[|opens| - 1];
            var es' := es[k := es[k].(count := count, keyNeedsValue := keyNeedsValue, nested := nested)];
            var b := builds[es[k].at].(count := count, keyNeedsValue := keyNeedsValue, nested := nested);
            Chained(es') && Countable(es') && Recorded(builds[es[k].at := b], lag, es', opens, current, latest)
  {
    hide NextSlot;
    var k := opens[|opens| - 1];
    var es' := es[k := es[k].(count := count, keyNeedsValue := keyNeedsValue, nested := nested)];
    forall i | 0 <= i < |es| && i != k ensures es[i].at != es[k].at {
      assert Before(es[i].at, es[k].at) || Before(es[k].at, es[i].at);
    }
    forall i | 0 < i < |es| ensures es'[i].at == NextSlot(es'[i - 1].end) {
      assert es[i].at == NextSlot(es[i - 1].end);
    }
  }

  lemma RecordedBuild(builds: map<Loc, BuildRecord>, es: seq<Entry>, opens: seq<nat>,
                      current: Option<Loc>, latest: Option<Loc>, e: Entry)
    requires es == [] ==> opens == [] && current == None
    requires es != [] ==> Recorded(builds, 0, es, opens, current, latest)
    requires Chained(es + [e]) && e.parent == current && e.data == [] && e.count == 0
    ensures Recorded(builds[e.at := RecordOf(e)], 0, es + [e], opens + [|es|], Some(e.at), Some(e.at))
  {
    hide NextSlot;
    var es' := es + [e];
    forall i | 0 <= i < |es| ensures es'[i].at != e.at {
      assert Before(es'[i].at, es'[|es|].at);
    }
  }

  lemma RecordedPop(builds: map<Loc, BuildRecord>, es: seq<Entry>, opens: seq<nat>, current: Option<Loc>, latest: Option<Loc>)
    requires Recorded(builds, 0, es, opens, current, latest)
    ensures var k := opens[|opens| - 1];
            && es[k].at in builds && builds[es[k].at] == RecordOf(es[k])
            && (es[k].parent == None <==> |opens| == 1)
            && (|opens| > 1 ==> Recorded(builds, 0, es, opens[..|opens| - 1], es[k].parent, latest))
  {
    var top := |opens| - 1;
    if top > 0 {
      assert es[opens[top]].parent == Some(es[opens[top - 1]].at);
    } else {
      assert opens[top] == 0;
    }
  }

  /** The first build stands at the start of the first page. */
  lemma FirstBuild(page: Page, e: Entry)
    requires Fresh(page) && e.at == Loc(0, Align(PAGE_HEADER)) && e.end == DataStart(e.at) && e.data == []
    ensures LaidOut(WithUsed([page], e.end.offset), e.end.offset, [e])
  {
    hide Span;
    EmptyInPlace(WithUsed([page], e.end.offset), e);
  }

  // The resolver's view.

  /** Where the resolver looks for the next build, having read up to `at`; None when it stops. */
  function NextBuild(pages: seq<Page>, at: Loc): Option<Loc> {
    var slot := NextSlot(at);
    if slot.page >= |pages| || slot.offset + BUILD_SIZE > pages[slot.page].used then None else Some(slot)
  }

  /** The resolver finds every build again, and stops behind the last one. */
  lemma FoundAgain(pages: seq<Page>, es: seq<Entry>, i: nat, at: Loc)
    requires pages != [] && LaidOut(pages, pages[|pages| - 1].used, es) && i < |es|
    requires Forward(pages, at, es[i].end) && Span(pages, at, es[i].end) == []
    ensures NextBuild(pages, at) == if i + 1 < |es| then Some(es[i + 1].at) else None
  {
    EmptySpanSameSlot(pages, at, es[i].end);
    hide Span, Align;
    if i + 1 < |es| {
      assert es[i + 1].at == NextSlot(es[i].end);
      assert InPlace(pages, pages[|pages| - 1].used, es[i + 1]);
    }
  }

  lemma LaidOutFacts(pages: seq<Page>, position: nat, es: seq<Entry>)
    requires LaidOut(pages, position, es)
    ensures pages != [] && es != [] && WellFormedPages(pages) && Chained(es)
    ensures pages[|pages| - 1].used <= position <= PAGE_SIZE && es[|es| - 1].end == Loc(|pages| - 1, position)
  {
    hide InPlace, Chained;
  }

  lemma RecordedFacts(builds: map<Loc, BuildRecord>, lag: nat, es: seq<Entry>, opens: seq<nat>,
                      current: Option<Loc>, latest: Option<Loc>)
    requires Recorded(builds, lag, es, opens, current, latest)
    ensures es != [] && Opens(es, opens)
    ensures latest == Some(es[|es| - 1].at) && latest.value in builds
    ensures var k := opens[|opens| - 1];
            && current == Some(es[k].at) && current.value in builds
            && builds[current.value] == RecordOf(es[k]).(bytes := builds[current.value].bytes)
  {
  }

  /** Moving the end of the last build's bytes changes no frame. */
  lemma Unmoved(es: seq<Entry>, opens: seq<nat>, end: Loc)
    requires es != [] && Opens(es, opens)
    ensures Opens(WithData(es, [], end), opens) && Frames(WithData(es, [], end), opens) == Frames(es, opens)
  {
    hide Frames, Emit, Opens;
    FramesPut(es, opens, WithData(es, [], end), [], []);
    EmitEmit(Output([], Frames(es, opens)), [], []);
  }

  /** Counters do not matter to the layout. */
  lemma LaidOutCount(pages: seq<Page>, position: nat, es: seq<Entry>, es': seq<Entry>)
    requires LaidOut(pages, position, es) && Chained(es') && |es'| == |es|
    requires forall i | 0 <= i < |es| :: es'[i].at == es[i].at && es'[i].end == es[i].end && es'[i].data == es[i].data
    ensures LaidOut(pages, position, es')
  {
    hide Chained, Span, Forward;
    forall i | 0 <= i < |es| ensures InPlace(pages, position, es'[i]) {
      assert InPlace(pages, position, es[i]);
    }
  }

  lemma NoOpens(es: seq<Entry>, opens: seq<nat>)
    ensures Opens(es, opens) ==> opens != []
  {
  }

  /** What the resolver writes next: the rest of a page, or all that is left. */
  lemma SpanStep(pages: seq<Page>, at: Loc, end: Loc)
    requires WellFormedPages(pages) && Forward(pages, at, end) && end.offset <= pages[end.page].used
    ensures at.offset <= pages[at.page].used <= |pages[at.page].bytes|
    ensures var left := |Span(pages, at, end)|;
            var step := Min(pages[at.page].used - at.offset, left);
            var next := Loc(at.page, at.offset + step);
            && Forward(pages, next, end)
            && Span(pages, at, end) == pages[at.page].bytes[at.offset..at.offset + step] + Span(pages, next, end)
            && (step < left ==>
                  && at.page < end.page && Forward(pages, Loc(at.page + 1, PAGE_HEADER), end)
                  && Span(pages, next, end) == Span(pages, Loc(at.page + 1, PAGE_HEADER), end))
  {
  }

  lemma AllRecorded(builds: map<Loc, BuildRecord>, es: seq<Entry>, opens: seq<nat>,
                    current: Option<Loc>, latest: Option<Loc>)
    requires Recorded(builds, 0, es, opens, current, latest)
    ensures Countable(es) && forall i | 0 <= i < |es| :: es[i].at in builds && builds[es[i].at] == RecordOf(es[i])
  {
  }

  lemma ChainedFirst(es: seq<Entry>)
    requires es != [] && Chained(es)
    ensures es[0].at == Loc(0, Align(PAGE_HEADER))
  {
  }

  lemma EmptyFlat(es: seq<Entry>)
    requires Countable(es)
    ensures Flat(es, 0, 0) == []
  {
  }
}
