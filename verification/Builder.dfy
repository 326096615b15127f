/** The builder (mpack.c:2446-2763): a writer that diverts what is written inside builds into pages, and on
    the last complete finds every build again by redoing the alignment arithmetic. Its meaning is the
    machine of WriterCalls, in which there are no pages. */
module Builder {
  import opened Bytes
  import opened Encoding
  import opened WriterCalls
  import opened BuilderLayout
  import opened BuilderInvariant
  import GrowableWriter

  class BuildWriter {
    const out: GrowableWriter.Writer  // the real buffer, stashed while a build is open
    var pages: seq<Page>
    var start: nat                    // writer->buffer, inside the current page
    var position: nat                 // writer->position; writer->end is the end of the page
    var builds: map<Loc, BuildRecord>
    var current: Option<Loc>          // the build that accumulates elements
    var latest: Option<Loc>           // the build that accumulates bytes
    ghost var entries: seq<Entry>
    ghost var opens: seq<nat>

    ghost predicate Valid()
      reads this, out
    {
      && out.Valid()
      && if current.None? then latest.None? && pages == [] && entries == [] && opens == []
         else
           && LaidOut(pages, position, entries) && start == pages[|pages| - 1].used
           && Recorded(builds, position - start, entries, opens, current, latest)
    }

    /** Between applying writes and configuring the buffer again: the pages are up to date, start and
        position are not. */
    ghost predicate Settled()
      reads this
    {
      && pages != [] && LaidOut(pages, pages[|pages| - 1].used, entries)
      && Recorded(builds, 0, entries, opens, current, latest)
    }

    /** The frames of the open builds. */
    ghost function Open(): seq<Frame>
      reads this`entries, this`opens
    {
      if Opens(entries, opens) then Frames(entries, opens) else []
    }

    /** What the writer holds: the finished bytes, and the open builds. */
    ghost function State(): Output
      requires out.Valid()
      reads this`entries, this`opens, out, out.buffer
    {
      Output(out.Contents(), Open())
    }

    constructor ()
      ensures Valid() && fresh(out) && fresh(out.buffer) && current.None? && State() == Output([], [])
    {
      out := new GrowableWriter.Writer();
      pages, start, position, builds, current, latest := [], 0, 0, map[], None, None;
      entries, opens := [], [];
    }

    /** mpack_writer_buffer_left. */
    function Left(): nat
      requires Valid()
      reads this, out
    {
      if current.None? then out.Left() else PAGE_SIZE - position
    }

    /** mpack_writer_destroy, with no build open. */
    method Destroy() returns (data: array<byte>, size: nat)
      requires Valid() && current.None?
      modifies out, out.buffer
      ensures (data == old(out.buffer) || fresh(data)) && size <= data.Length && data[..size] == old(State()).out
    {
      data, size := out.Destroy();
    }

    // Pages.

    /** MPACK_MALLOC of a page: its bytes are whatever they are. */
    static method AllocatePage(junk: seq<byte>) returns (page: Page)
      ensures Fresh(page)
    {
      page := Page(seq(PAGE_SIZE, i requires 0 <= i < PAGE_SIZE => if i < |junk| then junk[i] else 0), PAGE_HEADER);
    }

    /** mpack_builder_apply_writes. */
    method ApplyWrites()
      requires Valid() && current.Some?
      modifies this`pages, this`builds
      ensures Settled() && |pages| == old(|pages|) && pages[|pages| - 1].used == position
    {
      hide LaidOut, Recorded, Chained;
      LaidOutFacts(pages, position, entries);
      RecordedFacts(builds, position - start, entries, opens, current, latest);
      var written := position - start;
      LaidOutApply(pages, position, entries);
      RecordedApply(builds, written, entries, opens, current, latest);
      pages := WithUsed(pages, pages[|pages| - 1].used + written);
      builds := builds[latest.value := builds[latest.value].(bytes := builds[latest.value].bytes + written)];
    }

    /** mpack_builder_add_page: the current page has no room for a build or a tag. */
    method AddPage()
      requires Settled() && PAGE_SIZE - pages[|pages| - 1].used < MINIMUM_BUFFER
      modifies this`pages, this`entries
      ensures Settled() && Open() == old(Open())
      ensures |pages| == old(|pages|) + 1 && pages[|pages| - 1].used == PAGE_HEADER
      ensures |entries| == old(|entries|)
    {
      hide LaidOut, Recorded, Chained, Frames, Emit, Opens;
      var used := pages[|pages| - 1].used;
      LaidOutFacts(pages, used, entries);
      RecordedFacts(builds, 0, entries, opens, current, latest);
      var page := AllocatePage([]);
      LaidOutPage(pages, used, entries, page);
      var end := Loc(|pages|, PAGE_HEADER);
      RecordedPut(builds, 0, entries, opens, current, latest, [], end);
      Unmoved(entries, opens, end);
      assert WithUsed(pages, used) == pages;
      pages := pages + [page];
      entries := WithData(entries, [], end);
    }

    /** mpack_builder_configure_buffer. */
    method ConfigureBuffer()
      requires out.Valid() && Settled()
      modifies this`start, this`position
      ensures Valid() && current.Some? && position == pages[|pages| - 1].used
    {
      start := pages[|pages| - 1].used;
      position := pages[|pages| - 1].used;
    }

    /** mpack_builder_flush. */
    method Flush()
      requires Valid() && current.Some? && PAGE_SIZE - position < MINIMUM_BUFFER
      modifies this`pages, this`builds, this`entries, this`start, this`position
      ensures Valid() && current.Some? && Open() == old(Open())
      ensures Left() == PAGE_SIZE - PAGE_HEADER
    {
      hide LaidOut, Recorded, Frames, Opens;
      ApplyWrites();
      AddPage();
      ConfigureBuffer();
    }

    // Writing.

    /** mpack_memcpy to the current position of a page. */
    method PutInPage(p: seq<byte>)
      requires Valid() && current.Some? && |p| <= Left()
      modifies this`pages, this`entries, this`position
      ensures Valid() && State() == Emit(old(State()), p) && position == old(position) + |p|
    {
      hide LaidOut, Recorded, Chained, Frames, Emit, Opens;
      LaidOutFacts(pages, position, entries);
      RecordedFacts(builds, position - start, entries, opens, current, latest);
      var end := Loc(|pages| - 1, position + |p|);
      LaidOutPut(pages, position, entries, p);
      RecordedPut(builds, position - start, entries, opens, current, latest, p, end);
      FramesPut(entries, opens, WithData(entries, p, end), p, out.Contents());
      pages := WithBytes(pages, position, p);
      entries := WithData(entries, p, end);
      position := position + |p|;
    }

    /** mpack_memcpy to the current position, wherever that is. */
    method Put(p: seq<byte>)
      requires Valid() && |p| <= Left()
      modifies this`pages, this`entries, this`position, out`position, out.buffer
      ensures Valid() && State() == Emit(old(State()), p) && current == old(current)
    {
      hide LaidOut, Recorded, Frames, Opens;
      if current.None? {
        out.Put(p);
      } else {
        PutInPage(p);
      }
    }

    /** mpack_writer_ensure: never fails for lack of room. */
    method Ensure(count: nat) returns (ok: bool)
      requires Valid() && Left() < count <= MINIMUM_BUFFER
      modifies this`pages, this`builds, this`entries, this`start, this`position, out, out.buffer
      ensures Valid() && State() == old(State()) && current == old(current)
      ensures out.buffer == old(out.buffer) || fresh(out.buffer)
      ensures ok && count <= Left()
    {
      hide LaidOut, Recorded, Frames, Opens;
      if current.Some? {
        Flush();
        ok := true;
      } else {
        ok := out.Ensure(count);
      }
    }

    /** MPACK_WRITE_ENCODED: at most 32 bytes, in one piece. */
    method WriteEncoded(p: seq<byte>)
      requires Valid() && |p| <= MINIMUM_BUFFER
      modifies this`pages, this`builds, this`entries, this`start, this`position, out, out.buffer
      ensures Valid() && State() == Emit(old(State()), p) && current == old(current)
      ensures out.buffer == old(out.buffer) || fresh(out.buffer)
    {
      hide LaidOut, Recorded, Frames, Opens, Emit;
      var ok := true;
      if Left() < |p| {
        ok := Ensure(|p|);
      }
      if ok {
        Put(p);
      }
    }

    /** The builder's part of mpack_write_native_straddle: as many pages as it takes. */
    method Straddle(p: seq<byte>)
      requires Valid() && current.Some? && |p| > Left()
      modifies this`pages, this`builds, this`entries, this`start, this`position
      ensures Valid() && State() == Emit(old(State()), p)
    {
      hide LaidOut, Recorded, Frames, Opens, Emit;
      ghost var before := State();
      EmitEmit(before, [], []);
      var from := 0;
      while true
        invariant 0 <= from < |p| && Valid() && current.Some? && out.Contents() == old(out.Contents())
        invariant State() == Emit(before, p[..from])
        decreases 2 * (|p| - from) + if Left() == 0 then 1 else 0
      {
        var step := Min(Left(), |p| - from);
        PutInPage(p[from..from + step]);
        EmitEmit(before, p[..from], p[from..from + step]);
        assert p[..from] + p[from..from + step] == p[..from + step];
        from := from + step;
        if from == |p| {
          assert p[..from] == p;
          return;
        }
        Flush();
      }
    }

    /** mpack_write_native. */
    method WriteNative(p: seq<byte>)
      requires Valid()
      modifies this`pages, this`builds, this`entries, this`start, this`position, out, out.buffer
      ensures Valid() && State() == Emit(old(State()), p) && current == old(current)
      ensures out.buffer == old(out.buffer) || fresh(out.buffer)
    {
      hide LaidOut, Recorded, Frames, Opens;
      if Left() >= |p| {
        Put(p);
      } else if current.Some? {
        Straddle(p);
      } else {
        out.WriteNative(p);
      }
    }

    /** mpack_write_str behind its tracking: a short string is written in one piece with its header, a
        medium one if there is room for both. */
    method WriteStr(data: seq<byte>)
      requires Valid() && |data| < TWO32
      modifies this`pages, this`builds, this`entries, this`start, this`position, out, out.buffer
      ensures Valid() && State() == Emit(old(State()), StrHeader(|data|) + data) && current == old(current)
      ensures out.buffer == old(out.buffer) || fresh(out.buffer)
    {
      hide LaidOut, Recorded, Frames, Opens, Emit;
      var header := StrHeader(|data|);
      EmitEmit(State(), header, data);
      if |data| <= 31 {
        WriteEncoded(header + data);
      } else if |data| <= 0xff && |data| + 2 <= Left() {
        Put(header + data);
      } else {
        WriteEncoded(header);
        WriteNative(data);
      }
    }

    // Counting.

    /** The element and nesting counters of the build that is open innermost. */
    method SetCounters(count: nat, keyNeedsValue: bool, nested: nat)
      requires Valid() && current.Some? && count < TWO32
      modifies this`builds, this`entries
      ensures Valid()
      ensures State() == MapTop(old(State()), (f: Frame) => f.(count := count, keyNeedsValue := keyNeedsValue, nested := nested))
    {
      hide LaidOut, Recorded, Chained, Frames, Opens;
      LaidOutFacts(pages, position, entries);
      RecordedFacts(builds, position - start, entries, opens, current, latest);
      ghost var k := opens[|opens| - 1];
      ghost var es' := entries[k := entries[k].(count := count, keyNeedsValue := keyNeedsValue, nested := nested)];
      RecordedCount(builds, position - start, entries, opens, current, latest, count, keyNeedsValue, nested);
      LaidOutCount(pages, position, entries, es');
      FramesCount(entries, opens, es');
      builds := builds[current.value := builds[current.value].(count := count, keyNeedsValue := keyNeedsValue, nested := nested)];
      entries := es';
    }

    /** The record of the innermost open build is its frame. */
    lemma TopFrame()
      requires Valid() && current.Some?
      ensures current.value in builds && Open() != []
      ensures var b, f := builds[current.value], Open()[|Open()| - 1];
              b.isMap == f.isMap && b.count == f.count && b.keyNeedsValue == f.keyNeedsValue && b.nested == f.nested && f.count < TWO32
    {
      hide LaidOut, Recorded, Chained, Contents;
      LaidOutFacts(pages, position, entries);
      RecordedFacts(builds, position - start, entries, opens, current, latest);
    }

    /** The builder's part of mpack_writer_track_element. */
    method TrackElement()
      requires Valid()
      modifies this`builds, this`entries
      ensures Valid() && State() == CountElement(old(State()))
    {
      hide LaidOut, Recorded, Frames, Opens;
      if current.Some? {
        TopFrame();
        ghost var f := Open()[|Open()| - 1];
        var b := builds[current.value];
        if b.nested == 0 {
          if !b.isMap {
            SetCounters((b.count + 1) % TWO32, b.keyNeedsValue, b.nested);
          } else if b.keyNeedsValue {
            SetCounters((b.count + 1) % TWO32, false, b.nested);
          } else {
            SetCounters(b.count, true, b.nested);
          }
        }
      }
    }

    /** mpack_builder_compound_push. */
    method CompoundPush()
      requires Valid()
      modifies this`builds, this`entries
      ensures Valid() && State() == Nest(old(State()))
    {
      hide LaidOut, Recorded, Frames, Opens;
      if current.Some? {
        TopFrame();
        var b := builds[current.value];
        SetCounters(b.count, b.keyNeedsValue, b.nested + 1);
      }
    }

    /** mpack_builder_compound_pop. */
    method CompoundPop()
      requires Valid()
      modifies this`builds, this`entries
      ensures Valid() && State() == Unnest(old(State()))
    {
      hide LaidOut, Recorded, Frames, Opens;
      if current.Some? {
        TopFrame();
        var b := builds[current.value];
        SetCounters(b.count, b.keyNeedsValue, if b.nested > 0 then b.nested - 1 else TWO32 - 1);
      }
    }

    // Opening builds.

    /** Ready to place a build: behind the last one, or on the first page. */
    ghost predicate Ready()
      reads this
    {
      if current.None? then latest.None? && entries == [] && opens == [] && |pages| == 1 && Fresh(pages[0])
      else Settled()
    }

    /** mpack_builder_begin. */
    method Begin()
      requires Valid() && current.None?
      modifies this`pages
      ensures Ready() && |pages| == 1
    {
      var page := AllocatePage([]);
      pages := [page];
    }

    /** The record of a new build goes to the next aligned place in the current page. */
    method PlaceBuild(isMap: bool)
      requires Ready() && pages != [] && Align(pages[|pages| - 1].used) + BUILD_SIZE <= PAGE_SIZE
      modifies this`pages, this`builds, this`current, this`latest, this`entries, this`opens
      ensures Settled() && current.Some? && Open() == old(Open()) + [Frame(isMap, 0, false, 0, [])]
      ensures |pages| == old(|pages|)
    {
      hide LaidOut, Recorded, Chained, Frames, Opens, Align;
      var used := pages[|pages| - 1].used;
      var at := Loc(|pages| - 1, Align(used));
      ghost var e := Entry(at, DataStart(at), [], current, isMap, 0, false, 0);
      if current.None? {
        FirstBuild(pages[0], e);
        assert pages == [pages[0]] && entries + [e] == [e];
      } else {
        LaidOutFacts(pages, used, entries);
        RecordedFacts(builds, 0, entries, opens, current, latest);
        LaidOutBuild(pages, used, entries, e);
      }
      LaidOutFacts(WithUsed(pages, at.offset + BUILD_SIZE), at.offset + BUILD_SIZE, entries + [e]);
      RecordedBuild(builds, entries, opens, current, latest, e);
      FramesBuild(entries, opens, e);
      NoOpens(entries, opens);
      pages := WithUsed(pages, at.offset + BUILD_SIZE);
      builds := builds[at := BuildRecord(current, 0, 0, isMap, false, 0)];
      current, latest := Some(at), Some(at);
      opens := opens + [|entries|];
      entries := entries + [e];
      RecordedFacts(builds, 0, entries, opens, current, latest);
    }

    /** A new page first if the current one has no room for a build, and one afterwards if it has no room
        for a tag. */
    method PlaceWithRoom(isMap: bool)
      requires Ready() && out.Valid()
      modifies this`pages, this`builds, this`current, this`latest, this`entries, this`opens, this`start, this`position
      ensures Valid() && current.Some? && Open() == old(Open()) + [Frame(isMap, 0, false, 0, [])]
    {
      hide LaidOut, Recorded, Chained, Frames, Opens, Align;
      var used := pages[|pages| - 1].used;
      AbandonedPagesHoldNoBuild(used);
      AbandonedPagesHoldNoBuild(PAGE_HEADER);
      if Align(used) + BUILD_SIZE > PAGE_SIZE {
        AddPage();
      }
      PlaceBuild(isMap);
      if PAGE_SIZE - pages[|pages| - 1].used < MINIMUM_BUFFER {
        AddPage();
      }
      ConfigureBuffer();
    }

    /** mpack_builder_build. */
    method Build(isMap: bool)
      requires Valid()
      modifies this
      ensures Valid() && State() == OpenFrame(CountElement(old(State())), isMap)
    {
      hide LaidOut, Recorded, Chained, Frames, Opens, CountElement;
      TrackElement();
      if current.None? {
        Begin();
      } else {
        ApplyWrites();
      }
      PlaceWithRoom(isMap);
    }

    // Completing builds.

    /** The resolver writes out the bytes that follow a build, page by page. */
    method CopyBytes(list: seq<Page>, from: Loc, bytes: nat, ghost end: Loc) returns (at: Loc)
      requires out.Valid() && WellFormedPages(list) && Forward(list, from, end)
      requires end.offset <= list[end.page].used && bytes == |Span(list, from, end)|
      modifies out, out.buffer
      ensures out.Valid() && (out.buffer == old(out.buffer) || fresh(out.buffer))
      ensures out.Contents() == old(out.Contents()) + Span(list, from, end)
      ensures Forward(list, at, end) && Span(list, at, end) == []
    {
      hide Span, WellFormedPages;
      at := from;
      var left := bytes;
      ghost var goal := out.Contents() + Span(list, from, end);
      while left > 0
        invariant out.Valid() && (out.buffer == old(out.buffer) || fresh(out.buffer))
        invariant Forward(list, at, end) && left == |Span(list, at, end)|
        invariant out.Contents() + Span(list, at, end) == goal
        decreases |list| - at.page
      {
        SpanStep(list, at, end);
        if at.offset < list[at.page].used {
          var step := Min(list[at.page].used - at.offset, left);
          var p := list[at.page].bytes[at.offset..at.offset + step];
          ghost var done := out.Contents();
          out.WriteNative(p);
          at := at.(offset := at.offset + step);
          left := left - step;
          assert done + (p + Span(list, at, end)) == done + p + Span(list, at, end);
        }
        if left == 0 {
          break;
        }
        SpanStep(list, at, end);
        at := Loc(at.page + 1, PAGE_HEADER);
      }
    }

    /** One build of the resolver's walk: its tag with the final count, and the bytes behind it. */
    method WriteBuild(list: seq<Page>, at: Loc, ghost es: seq<Entry>, ghost i: nat) returns (after: Loc)
      requires out.Valid() && list != [] && LaidOut(list, list[|list| - 1].used, es) && Countable(es)
      requires i < |es| && at == es[i].at && at in builds && builds[at] == RecordOf(es[i])
      modifies out, out.buffer
      ensures out.Valid() && (out.buffer == old(out.buffer) || fresh(out.buffer))
      ensures out.Contents() == old(out.Contents()) + Flat(es, i, i + 1)
      ensures Forward(list, after, es[i].end) && Span(list, after, es[i].end) == []
    {
      hide Span, Chained;
      assert InPlace(list, list[|list| - 1].used, es[i]);
      var b := builds[at];
      ghost var before := out.Contents();
      var header := BoxHeader(b.isMap, b.count);
      assert Flat(es, i, i + 1) == header + es[i].data by {
        assert Flat(es, i + 1, i + 1) == [];
      }
      out.WriteEncoded(header);
      after := CopyBytes(list, DataStart(at), b.bytes, es[i].end);
      assert before + header + es[i].data == before + (header + es[i].data);
    }

    /** The resolver's walk over the pages, from the first build on. */
    method WriteBuilds(list: seq<Page>, ghost es: seq<Entry>)
      requires out.Valid() && list != [] && LaidOut(list, list[|list| - 1].used, es) && Countable(es)
      requires forall i | 0 <= i < |es| :: es[i].at in builds && builds[es[i].at] == RecordOf(es[i])
      modifies out, out.buffer
      ensures out.Valid() && (out.buffer == old(out.buffer) || fresh(out.buffer))
      ensures out.Contents() == old(out.Contents()) + Flat(es, 0, |es|)
    {
      hide LaidOut, Chained, Flat;
      LaidOutFacts(list, list[|list| - 1].used, es);
      ChainedFirst(es);
      EmptyFlat(es);
      var at := Loc(0, Align(PAGE_HEADER));
      ghost var i := 0;
      ghost var before := out.Contents();
      assert before + [] == before;
      while true
        invariant i < |es| && at == es[i].at
        invariant out.Valid() && (out.buffer == old(out.buffer) || fresh(out.buffer))
        invariant out.Contents() == before + Flat(es, 0, i)
        decreases |es| - i
      {
        var after := WriteBuild(list, at, es, i);
        FlatSplit(es, 0, i, i + 1);
        assert before + Flat(es, 0, i) + Flat(es, i, i + 1) == before + (Flat(es, 0, i) + Flat(es, i, i + 1));
        FoundAgain(list, es, i, after);
        var next := NextBuild(list, after);
        if next.None? {
          break;
        }
        at := next.value;
        i := i + 1;
      }
    }

    /** mpack_builder_resolve. */
    method Resolve()
      requires out.Valid() && Settled() && Countable(entries)
      modifies this`pages, this`current, this`latest, this`entries, this`opens, out, out.buffer
      ensures Valid() && current.None? && (out.buffer == old(out.buffer) || fresh(out.buffer))
      ensures out.Contents() == old(out.Contents()) + old(Flat(entries, 0, |entries|)) && Open() == []
    {
      hide LaidOut, Recorded, Flat, Frames;
      AllRecorded(builds, entries, opens, current, latest);
      var list := pages;
      WriteBuilds(list, entries);
      current, latest, pages := None, None, [];
      entries, opens := [], [];
    }

    /** mpack_builder_complete. Its assertions and its errors are `false`. */
    method Complete(isMap: bool) returns (ok: bool)
      requires Valid()
      modifies this, out, out.buffer
      ensures Valid() && (out.buffer == old(out.buffer) || fresh(out.buffer))
      ensures match CompleteFrame(old(State()), isMap)
              case None => !ok && State() == old(State())
              case Some(o) => ok && State() == o
    {
      hide LaidOut, Recorded, Chained, Frames, Opens, BoxHeader, Flat;
      if current.None? {
        return false;
      }
      TopFrame();
      var b := builds[current.value];
      if b.isMap != isMap || b.keyNeedsValue || b.nested != 0 {
        return false;
      }
      ApplyWrites();
      RecordedFacts(builds, 0, entries, opens, current, latest);
      RecordedPop(builds, entries, opens, current, latest);
      if builds[current.value].parent.Some? {
        FramesComplete(entries, opens, out.Contents());
        current := builds[current.value].parent;
        opens := opens[..|opens| - 1];
        ConfigureBuffer();
      } else {
        FramesResolve(entries, opens);
        AllRecorded(builds, entries, opens, current, latest);
        Resolve();
      }
      return true;
    }
  }
}
