/** Soundness and completeness of the tracking stack: the call sequences it accepts, from an empty stack to
    an empty stack, are exactly those that write whole documents. */
module Tracking {
  import opened Bytes
  import opened MessagePack
  import opened Encoding
  import opened WriterCalls

  /** Calls accepted from stack t down to the empty stack. */
  predicate Accepted(t: Track, calls: seq<Call>) {
    TrackCalls(t, calls) == Some([])
  }

  /** The innermost open element is not a string. */
  predicate InBox(t: Track) {
    t == [] || Top(t).kind == ArrayType || Top(t).kind == MapType
  }

  /** The call that closes an open container. */
  function Closing(e: Element): Call {
    if e.builder then Complete(e.kind == MapType) else Finish(e.kind == MapType)
  }

  /** Whether n more elements may complete an open container: the announced number, or any number of whole
      pairs or elements for a build. */
  predicate Completes(e: Element, n: nat) {
    if e.builder then e.kind == MapType ==> (n + if e.keyNeedsValue then 1 else 0) % 2 == 0
    else if e.kind == MapType then n + (if e.keyNeedsValue then 1 else 0) == 2 * e.left
    else n == e.left
  }

  /** Elements of builds stay as they were pushed, and a key is only open where a value may follow. */
  predicate Sane(t: Track) {
    forall i | 0 <= i < |t| ::
      && (t[i].builder ==> t[i].left == 0)
      && (t[i].keyNeedsValue ==> t[i].kind == MapType && (t[i].builder || t[i].left > 0))
  }

  lemma ElementStep(t: Track)
    requires Sane(t) && TrackElement(t).Some? && t != []
    ensures var u := TrackElement(t).value;
            && |u| == |t| && u[..|t| - 1] == t[..|t| - 1] && Sane(u) && InBox(t) && InBox(u)
            && Top(u).kind == Top(t).kind && Top(u).builder == Top(t).builder
            && forall n: nat :: Completes(Top(u), n) ==> Completes(Top(t), n + 1)
  {
  }

  /** Bytes written to an open str or bin, up to the call that closes it, add up to its length. */
  lemma {:induction false} ReadPieces(t: Track, calls: seq<Call>) returns (chunks: seq<seq<byte>>, rest: seq<Call>)
    requires t != [] && !InBox(t) && !Top(t).builder && !Top(t).keyNeedsValue
    requires ValidCalls(calls) && Accepted(t, calls)
    ensures calls == ChunkCalls(chunks) + [FinishBytes(Top(t).kind == BinType)] + rest
    ensures |Join(chunks)| == Top(t).left
    ensures ValidCalls(rest) && Accepted(t[..|t| - 1], rest)
    decreases |calls|
  {
    var c := calls[0];
    if c.Chunk? {
      var u := TrackCall(t, c).value;
      chunks, rest := ReadPieces(u, calls[1..]);
      assert u[..|u| - 1] == t[..|t| - 1];
      chunks := [c.data] + chunks;
      assert chunks[1..] == chunks[1..];
      assert calls == [c] + calls[1..];
    } else {
      chunks, rest := [], calls[1..];
      assert c == FinishBytes(Top(t).kind == BinType);
      assert calls == [c] + rest;
    }
  }

  /** The document of a call that opens nothing. */
  function LeafOf(c: Call): Doc
    requires c.Atom? || c.WholeStr?
  {
    if c.Atom? then Plain(c.tag) else Text(c.data)
  }

  /** The first document of accepted calls, unless they start by closing something. */
  lemma {:induction false} ReadDoc(t: Track, calls: seq<Call>) returns (d: Doc, rest: seq<Call>)
    requires Sane(t) && InBox(t) && ValidCalls(calls) && Accepted(t, calls)
    requires calls != [] && !calls[0].Finish? && !calls[0].Complete?
    ensures ValidDoc(d) && ValidCalls(rest) && calls == CallsOf(d) + rest && |rest| < |calls|
    ensures TrackElement(t).Some? && Accepted(TrackElement(t).value, rest)
    decreases |calls|, 1
  {
    hide TrackElement, Sane, ValidTag, CallsOfAll, ValidDocs;
    var c := calls[0];
    assert calls == [c] + calls[1..];
    assert TrackElement(t).Some?;
    var u := TrackElement(t).value;
    if c.Atom? || c.WholeStr? {
      d, rest := LeafOf(c), calls[1..];
    } else if c.StartBytes? {
      d, rest := ReadBytes(t, calls);
    } else {
      d, rest := ReadBox(t, calls);
    }
  }

  lemma {:induction false} ReadBytes(t: Track, calls: seq<Call>) returns (d: Doc, rest: seq<Call>)
    requires ValidCalls(calls) && Accepted(t, calls) && calls != [] && calls[0].StartBytes?
    ensures ValidDoc(d) && ValidCalls(rest) && calls == CallsOf(d) + rest && |rest| < |calls|
    ensures TrackElement(t).Some? && Accepted(TrackElement(t).value, rest)
  {
    hide TrackElement, CallsOfAll, ValidDocs;
    var c := calls[0];
    assert calls == [c] + calls[1..];
    var u := TrackElement(t).value;
    var v := TrackPush(u, BytesType(c.bin), c.n, false);
    assert v[..|v| - 1] == u;
    var chunks;
    chunks, rest := ReadPieces(v, calls[1..]);
    d := Pieces(c.bin, chunks);
    assert calls == [c] + ChunkCalls(chunks) + [FinishBytes(c.bin)] + rest;
  }

  lemma {:induction false} ReadBox(t: Track, calls: seq<Call>) returns (d: Doc, rest: seq<Call>)
    requires Sane(t) && InBox(t) && ValidCalls(calls) && Accepted(t, calls)
    requires calls != [] && (calls[0].Start? || calls[0].Build?)
    ensures ValidDoc(d) && ValidCalls(rest) && calls == CallsOf(d) + rest && |rest| < |calls|
    ensures TrackElement(t).Some? && Accepted(TrackElement(t).value, rest)
    decreases |calls|, 0
  {
    hide TrackElement, Sane, ValidTag, CallsOfAll, ValidDocs;
    var c := calls[0];
    assert calls == [c] + calls[1..];
    var u, v := TrackElement(t).value, TrackCall(t, c).value;
    SanePush(t, u, v, c);
    var items;
    items, rest := ReadDocs(v, calls[1..]);
    d := Box(c.isMap, c.Build?, items);
    assert Closing(Top(v)) == if c.Build? then Complete(c.isMap) else Finish(c.isMap);
    assert c.Start? ==> BoxCount(c.isMap, |items|) == c.n;
    assert [c] + (CallsOfAll(items) + [Closing(Top(v))] + rest) == CallsOf(d) + rest;
  }

  /** Accepted calls split into the documents that complete the innermost open container, the call that
      closes it, and the rest. */
  lemma {:induction false} ReadDocs(t: Track, calls: seq<Call>) returns (ds: seq<Doc>, rest: seq<Call>)
    requires Sane(t) && InBox(t) && ValidCalls(calls) && Accepted(t, calls)
    ensures ValidDocs(ds) && ValidCalls(rest)
    ensures t == [] ==> rest == [] && calls == CallsOfAll(ds)
    ensures t != [] ==>
              && Completes(Top(t), |ds|)
              && calls == CallsOfAll(ds) + [Closing(Top(t))] + rest
              && Accepted(t[..|t| - 1], rest)
    decreases |calls|, 2
  {
    if calls == [] {
      ds, rest := [], [];
    } else if calls[0].Finish? || calls[0].Complete? {
      ds, rest := [], calls[1..];
      ReadClosing(t, calls);
    } else {
      hide TrackCall, CallsOf, ValidDoc;
      var d, after := ReadDoc(t, calls);
      var u := TrackElement(t).value;
      if t != [] {
        ElementStep(t);
      }
      ds, rest := ReadDocs(u, after);
      ds := [d] + ds;
      assert ds[1..] == ds[1..];
      if t != [] {
        assert CallsOf(d) + (CallsOfAll(ds[1..]) + [Closing(Top(u))] + rest)
            == CallsOf(d) + CallsOfAll(ds[1..]) + [Closing(Top(u))] + rest;
      }
    }
  }

  lemma ReadClosing(t: Track, calls: seq<Call>)
    requires Sane(t) && InBox(t) && Accepted(t, calls)
    requires calls != [] && (calls[0].Finish? || calls[0].Complete?)
    ensures t != [] && Completes(Top(t), 0) && Accepted(t[..|t| - 1], calls[1..])
    ensures calls == CallsOfAll([]) + [Closing(Top(t))] + calls[1..]
  {
    assert calls == [calls[0]] + calls[1..];
  }

  // The other direction: documents are accepted.

  lemma {:induction false} TrackConcat(t: Track, a: seq<Call>, b: seq<Call>)
    ensures TrackCalls(t, a + b) == match TrackCalls(t, a) case None => None case Some(u) => TrackCalls(u, b)
    decreases |a|
  {
    hide TrackCall;
    if a == [] {
      assert a + b == b;
    } else {
      assert (a + b)[1..] == a[1..] + b;
      match TrackCall(t, a[0])
      case None =>
      case Some(u) => TrackConcat(u, a[1..], b);
    }
  }

  /** The stack after n elements. */
  function TrackElements(t: Track, n: nat): Option<Track>
    decreases n
  {
    if n == 0 then Some(t) else
    match TrackElement(t)
    case None => None
    case Some(u) => TrackElements(u, n - 1)
  }

  lemma {:induction false} ElementsFill(t: Track, n: nat)
    requires Sane(t) && t != [] && InBox(t) && Completes(Top(t), n)
    ensures TrackElements(t, n) == Some(WithTop(t, Top(t).(left := 0, keyNeedsValue := false)))
    decreases n
  {
    if n == 0 {
      assert WithTop(t, Top(t)) == t;
    } else {
      var u := TrackElement(t).value;
      ElementsFill(u, n - 1);
      var filled := Top(t).(left := 0, keyNeedsValue := false);
      assert WithTop(u, filled) == WithTop(t, filled);
    }
  }

  lemma {:induction false} PiecesAccepted(t: Track, chunks: seq<seq<byte>>)
    requires t != [] && !InBox(t) && |Join(chunks)| <= Top(t).left && |Join(chunks)| < TWO32
    ensures TrackCalls(t, ChunkCalls(chunks)) == Some(WithTop(t, Top(t).(left := Top(t).left - |Join(chunks)|)))
    decreases |chunks|
  {
    if chunks == [] {
      assert WithTop(t, Top(t)) == t;
    } else {
      var calls := ChunkCalls(chunks);
      assert calls[1..] == ChunkCalls(chunks[1..]);
      var u := TrackCall(t, calls[0]).value;
      PiecesAccepted(u, chunks[1..]);
      var e := Top(t).(left := Top(t).left - |Join(chunks)|);
      assert WithTop(u, e) == WithTop(t, e);
    }
  }

  lemma OneTracked(t: Track, c: Call)
    ensures TrackCalls(t, [c]) == TrackCall(t, c)
  {
    if TrackCall(t, c).Some? {
      assert TrackCalls(TrackCall(t, c).value, []) == TrackCall(t, c);
    }
  }

  /** The calls of a document count as one element, and leave nothing open. */
  lemma {:induction false} DocTracked(t: Track, d: Doc)
    requires ValidDoc(d) && Sane(t)
    ensures TrackElement(t).Some? ==> TrackCalls(t, CallsOf(d)) == TrackElement(t)
    decreases d, 0
  {
    if TrackElement(t).Some? {
      var u := TrackElement(t).value;
      match d
      case Plain(tag) => OneTracked(t, Atom(tag));
      case Text(data) => OneTracked(t, WholeStr(data));
      case Pieces(bin, chunks) => PiecesTracked(t, u, bin, chunks);
      case Box(m, built, items) =>
        var first := if built then Build(m) else Start(m, BoxCount(m, |items|));
        var v := TrackCall(t, first).value;
        SanePush(t, u, v, first);
        DocsTracked(v, items);
        BoxTracked(t, u, v, m, built, items);
    }
  }

  lemma PiecesTracked(t: Track, u: Track, bin: bool, chunks: seq<seq<byte>>)
    requires TrackElement(t) == Some(u) && |Join(chunks)| < TWO32
    ensures TrackCalls(t, CallsOf(Pieces(bin, chunks))) == Some(u)
  {
    var n := |Join(chunks)|;
    var v := TrackPush(u, BytesType(bin), n, false);
    OneTracked(t, StartBytes(bin, n));
    PiecesAccepted(v, chunks);
    var full := WithTop(v, Element(BytesType(bin), 0, false, false));
    OneTracked(full, FinishBytes(bin));
    assert full[..|full| - 1] == u;
    TrackConcat(t, [StartBytes(bin, n)], ChunkCalls(chunks));
    TrackConcat(t, [StartBytes(bin, n)] + ChunkCalls(chunks), [FinishBytes(bin)]);
  }

  lemma BoxTracked(t: Track, u: Track, v: Track, m: bool, built: bool, items: seq<Doc>)
    requires ValidDoc(Box(m, built, items)) && TrackElement(t) == Some(u)
    requires TrackCall(t, if built then Build(m) else Start(m, BoxCount(m, |items|))) == Some(v)
    requires Sane(v) && v != [] && v[..|v| - 1] == u
    requires TrackElements(v, |items|).Some? ==> TrackCalls(v, CallsOfAll(items)) == TrackElements(v, |items|)
    ensures TrackCalls(t, CallsOf(Box(m, built, items))) == Some(u)
  {
    hide TrackElement, ValidDocs, CallsOfAll, TrackElements, TrackCalls, Sane;
    var first := if built then Build(m) else Start(m, BoxCount(m, |items|));
    var last := if built then Complete(m) else Finish(m);
    OneTracked(t, first);
    ElementsFill(v, |items|);
    var full := WithTop(v, Top(v).(left := 0, keyNeedsValue := false));
    OneTracked(full, last);
    assert full[..|full| - 1] == u;
    TrackConcat(t, [first], CallsOfAll(items));
    TrackConcat(t, [first] + CallsOfAll(items), [last]);
  }

  lemma SanePush(t: Track, u: Track, v: Track, c: Call)
    requires Sane(t) && TrackElement(t) == Some(u) && (c.Start? || c.Build?) && TrackCall(t, c) == Some(v)
    ensures Sane(u) && Sane(v) && v != [] && v[..|v| - 1] == u
  {
  }

  lemma {:induction false} DocsTracked(t: Track, ds: seq<Doc>)
    requires ValidDocs(ds) && Sane(t)
    ensures TrackElements(t, |ds|).Some? ==> TrackCalls(t, CallsOfAll(ds)) == TrackElements(t, |ds|)
    decreases ds, 0
  {
    if ds != [] && TrackElements(t, |ds|).Some? {
      DocTracked(t, ds[0]);
      var u := TrackElement(t).value;
      if t != [] {
        ElementStep(t);
      }
      DocsTracked(u, ds[1..]);
      TrackConcat(t, CallsOf(ds[0]), CallsOfAll(ds[1..]));
    }
  }

  lemma {:induction false} TopLevelElements(n: nat)
    ensures TrackElements([], n) == Some([])
    decreases n
  {
    if n > 0 {
      TopLevelElements(n - 1);
    }
  }

  /** The tracking stack accepts exactly the calls that write whole documents. */
  lemma AcceptedIffDocs(calls: seq<Call>)
    requires ValidCalls(calls)
    ensures Accepted([], calls) <==> exists ds: seq<Doc> :: ValidDocs(ds) && calls == CallsOfAll(ds)
  {
    if Accepted([], calls) {
      var ds, rest := ReadDocs([], calls);
    }
    if ds: seq<Doc> :| ValidDocs(ds) && calls == CallsOfAll(ds) {
      TopLevelElements(|ds|);
      DocsTracked([], ds);
    }
  }

  /** Tracking is sound: calls accepted down to the empty stack never fail in the builder, leave no build
      open, and append what the documents write. Unless some build holds 2^32 or more elements, these are
      complete well-formed objects, which decode to the values written. */
  lemma TrackedOutput(calls: seq<Call>, before: seq<byte>) returns (ds: seq<Doc>)
    requires ValidCalls(calls) && Accepted([], calls)
    ensures ValidDocs(ds) && calls == CallsOfAll(ds)
    ensures OutputCalls(Output(before, []), calls) == Some(Output(before + WrittenAll(ds), []))
    ensures AllCountsFit(ds) ==>
              && WrittenAll(ds) == EncodeAll(ValuesOf(ds))
              && DecodeMany(before + WrittenAll(ds), |before|, |ds|) == Some((ValuesOf(ds), |before| + |WrittenAll(ds)|))
  {
    hide Accepted, CallsOfAll, ValidCalls, WrittenAll, EncodeAll, ValuesOf, DecodeMany;
    var rest;
    ds, rest := ReadDocs([], calls);
    TransparentAll(ds, Output(before, []));
    NestedNotCounted(Output(before, []), |ds|);
    if AllCountsFit(ds) {
      WrittenEncodesAll(ds);
      var s := before + WrittenAll(ds);
      assert s[|before|..] == EncodeAll(ValuesOf(ds));
      DecodeEncodeAll(s, |before|, ValuesOf(ds));
    }
  }
}
