/** The write API with tracking: the tracking stack (mpack.c:583-808) beside the builder, one method per
    call (mpack.c:1021-1047, 1893-2260). A writer that flagged an error stops here; what the original writes
    after an error is thrown away when it is destroyed. */
module TrackedWriter {
  import opened Bytes
  import opened Encoding
  import MessagePack
  import opened WriterCalls
  import Tracking
  import opened Builder

  const INITIAL_CAPACITY: nat := 8

  /** mpack_track_t. The results say whether mpack_ok is returned. */
  class Tracker {
    var elements: array<Element>
    var count: nat

    ghost predicate Valid()
      reads this
    {
      count <= elements.Length && elements.Length > 0
    }

    ghost function Stack(): Track
      requires Valid()
      reads this, elements
    {
      elements[..count]
    }

    /** mpack_track_init. */
    constructor ()
      ensures Valid() && fresh(elements) && Stack() == []
    {
      elements := new Element[INITIAL_CAPACITY](_ => Element.Element(StrType, 0, false, false));
      count := 0;
    }

    /** mpack_track_grow. */
    method Grow()
      requires Valid() && count == elements.Length
      modifies this`elements
      ensures Valid() && fresh(elements) && elements.Length == 2 * old(elements.Length) && Stack() == old(Stack())
    {
      var from := elements;
      elements := new Element[2 * from.Length](i requires 0 <= i < 2 * from.Length reads from =>
        if i < from.Length then from[i] else Element.Element(StrType, 0, false, false));
      assert elements[..count] == from[..count];
    }

    /** mpack_track_push, mpack_track_push_builder. */
    method Push(kind: Type, left: nat, builder: bool)
      requires Valid()
      modifies this, elements
      ensures Valid() && (elements == old(elements) || fresh(elements))
      ensures Stack() == TrackPush(old(Stack()), kind, left, builder)
    {
      if count == elements.Length {
        Grow();
      }
      elements[count] := Element.Element(kind, left, builder, false);
      count := count + 1;
    }

    /** mpack_track_pop_impl. */
    method Pop(kind: Type, builder: bool) returns (ok: bool)
      requires Valid()
      modifies this`count
      ensures Valid()
      ensures match TrackPop(old(Stack()), kind, builder)
              case None => !ok && Stack() == old(Stack())
              case Some(t) => ok && Stack() == t
    {
      if count == 0 {
        return false;
      }
      var e := elements[count - 1];
      if e.kind != kind || e.keyNeedsValue || e.left != 0 || e.builder != builder {
        return false;
      }
      count := count - 1;
      return true;
    }

    /** mpack_track_peek_element. */
    method PeekElement() returns (ok: bool)
      requires Valid()
      ensures ok <==> ElementAllowed(Stack())
    {
      if count == 0 {
        return true;
      }
      var e := elements[count - 1];
      if e.kind != MapType && e.kind != ArrayType {
        return false;
      }
      return e.builder || e.left != 0 || e.keyNeedsValue;
    }

    /** mpack_track_element. `left` is an unsigned 32-bit field. */
    method CountElement() returns (ok: bool)
      requires Valid()
      modifies elements
      ensures match TrackElement(old(Stack()))
              case None => !ok && Stack() == old(Stack())
              case Some(t) => ok && Stack() == t
    {
      ok := PeekElement();
      if count == 0 || !ok {
        return;
      }
      var e := elements[count - 1];
      if e.kind == MapType {
        if !e.keyNeedsValue {
          elements[count - 1] := e.(keyNeedsValue := true);
          assert Stack() == WithTop(old(Stack()), e.(keyNeedsValue := true));
          return;
        }
        e := e.(keyNeedsValue := false);
      }
      if !e.builder {
        e := e.(left := if e.left == 0 then TWO32 - 1 else e.left - 1);
      }
      elements[count - 1] := e;
      assert Stack() == WithTop(old(Stack()), e);
    }

    /** mpack_track_bytes. */
    method CountBytes(n: nat) returns (ok: bool)
      requires Valid()
      modifies elements
      ensures match TrackBytes(old(Stack()), n)
              case None => !ok && Stack() == old(Stack())
              case Some(t) => ok && Stack() == t
    {
      if n >= TWO32 || count == 0 {
        return false;
      }
      var e := elements[count - 1];
      if e.kind == MapType || e.kind == ArrayType || e.left < n {
        return false;
      }
      elements[count - 1] := e.(left := e.left - n);
      return true;
    }
  }

  /** What a call does to the tracking stack and the output; None is mpack_error_bug. */
  ghost function Step(t: Track, o: Output, c: Call): Option<(Track, Output)>
    requires ValidCall(c)
  {
    match TrackCall(t, c)
    case None => None
    case Some(u) => (match OutputCall(o, c) case None => None case Some(p) => Some((u, p)))
  }

  class Writer {
    const tracker: Tracker
    const writer: BuildWriter
    var error: bool

    ghost function Repr(): set<object>
      reads this, tracker, writer.out
    {
      {this, tracker, tracker.elements, writer, writer.out, writer.out.buffer}
    }

    ghost predicate Valid()
      reads this, tracker, writer, writer.out
    {
      tracker.Valid() && writer.Valid() && (tracker.elements as object) != writer.out.buffer
    }

    ghost function Stack(): Track
      requires Valid()
      reads this, tracker, tracker.elements, writer, writer.out
    {
      tracker.Stack()
    }

    ghost function State(): Output
      requires Valid()
      reads this, tracker, writer, writer.out, writer.out.buffer
    {
      writer.State()
    }

    constructor ()
      ensures Valid() && fresh(Repr()) && !error && Stack() == [] && State() == Output([], [])
    {
      tracker := new Tracker();
      writer := new BuildWriter();
      error := false;
    }

    /** mpack_writer_track_element, its tracking part and its builder part. */
    method TrackElement()
      requires Valid() && !error
      modifies Repr()
      ensures Valid() && fresh(Repr() - old(Repr()))
      ensures match WriterCalls.TrackElement(old(Stack()))
              case None => error
              case Some(t) => !error && Stack() == t && State() == CountElement(old(State()))
    {
      hide BuildWriter.Valid, BuildWriter.State;
      var ok := tracker.CountElement();
      if !ok {
        error := true;
      }
      writer.TrackElement();
    }

    /** The call was made: the step of the specification, or an error. */
    twostate predicate Did(c: Call)
      requires ValidCall(c) && old(Valid()) && Valid()
      reads this, tracker, tracker.elements, writer, writer.out, writer.out.buffer
    {
      match Step(old(Stack()), old(State()), c)
      case None => error
      case Some(r) => !error && Stack() == r.0 && State() == r.1
    }

    /** The writers of nil, booleans, numbers and whole tags without contents. */
    method WriteAtom(tag: MessagePack.Tag)
      requires Valid() && !error && ValidCall(Atom(tag))
      modifies Repr()
      ensures Valid() && fresh(Repr() - old(Repr())) && Did(Atom(tag))
    {
      hide BuildWriter.Valid, BuildWriter.State, WriterCalls.TrackElement, CountElement, Emit, EncodeTag;
      TrackElement();
      if !error {
        writer.WriteEncoded(EncodeTag(tag));
      }
    }

    /** mpack_write_str. */
    method WriteStr(data: seq<byte>)
      requires Valid() && !error && |data| < TWO32
      modifies Repr()
      ensures Valid() && fresh(Repr() - old(Repr())) && Did(WholeStr(data))
    {
      hide BuildWriter.Valid, BuildWriter.State, WriterCalls.TrackElement, CountElement, Emit, StrHeader;
      TrackElement();
      if !error {
        writer.WriteStr(data);
      }
    }

    /** mpack_start_str, mpack_start_bin. */
    method StartBytes(bin: bool, n: nat)
      requires Valid() && !error && n < TWO32
      modifies Repr()
      ensures Valid() && fresh(Repr() - old(Repr())) && Did(Call.StartBytes(bin, n))
    {
      hide BuildWriter.Valid, BuildWriter.State, WriterCalls.TrackElement, CountElement, Emit;
      TrackElement();
      if !error {
        writer.WriteEncoded(if bin then BinHeader(n) else StrHeader(n));
        tracker.Push(BytesType(bin), n, false);
      }
    }

    /** mpack_write_bytes. */
    method WriteBytes(data: seq<byte>)
      requires Valid() && !error
      modifies Repr()
      ensures Valid() && fresh(Repr() - old(Repr())) && Did(Chunk(data))
    {
      hide BuildWriter.Valid, BuildWriter.State, Emit, TrackBytes;
      var ok := tracker.CountBytes(|data|);
      if ok {
        writer.WriteNative(data);
      } else {
        error := true;
      }
    }

    /** mpack_finish_str, mpack_finish_bin. */
    method FinishBytes(bin: bool)
      requires Valid() && !error
      modifies Repr()
      ensures Valid() && fresh(Repr() - old(Repr())) && Did(Call.FinishBytes(bin))
    {
      hide BuildWriter.Valid, BuildWriter.State, TrackPop;
      var ok := tracker.Pop(BytesType(bin), false);
      error := !ok;
    }

    /** mpack_start_array, mpack_start_map. */
    method Start(isMap: bool, n: nat)
      requires Valid() && !error && n < TWO32
      modifies Repr()
      ensures Valid() && fresh(Repr() - old(Repr())) && Did(Call.Start(isMap, n))
    {
      hide BuildWriter.Valid, BuildWriter.State, WriterCalls.TrackElement, CountElement, Emit, Nest;
      TrackElement();
      if !error {
        writer.WriteEncoded(BoxHeader(isMap, n));
        tracker.Push(BoxType(isMap), n, false);
        writer.CompoundPush();
      }
    }

    /** mpack_finish_array, mpack_finish_map. */
    method Finish(isMap: bool)
      requires Valid() && !error
      modifies Repr()
      ensures Valid() && fresh(Repr() - old(Repr())) && Did(Call.Finish(isMap))
    {
      hide BuildWriter.Valid, BuildWriter.State, TrackPop, Unnest;
      var ok := tracker.Pop(BoxType(isMap), false);
      if ok {
        writer.CompoundPop();
      } else {
        error := true;
      }
    }

    /** mpack_build_array, mpack_build_map. */
    method Build(isMap: bool)
      requires Valid() && !error
      modifies Repr()
      ensures Valid() && fresh(Repr() - old(Repr())) && Did(Call.Build(isMap))
    {
      hide BuildWriter.Valid, BuildWriter.State, WriterCalls.TrackElement, CountElement, OpenFrame;
      var ok := tracker.CountElement();
      if ok {
        tracker.Push(BoxType(isMap), 0, true);
        writer.Build(isMap);
      } else {
        error := true;
      }
    }

    /** mpack_complete_array, mpack_complete_map. */
    method Complete(isMap: bool)
      requires Valid() && !error
      modifies Repr()
      ensures Valid() && fresh(Repr() - old(Repr())) && Did(Call.Complete(isMap))
    {
      hide BuildWriter.Valid, BuildWriter.State, TrackPop, CompleteFrame;
      var ok := tracker.Pop(BoxType(isMap), true);
      if ok {
        ok := writer.Complete(isMap);
      }
      error := !ok;
    }

    /** Any call. */
    method Perform(c: Call)
      requires Valid() && !error && ValidCall(c)
      modifies Repr()
      ensures Valid() && fresh(Repr() - old(Repr())) && Did(c)
    {
      hide Step, ValidTag;
      match c
      case Atom(tag) => WriteAtom(tag);
      case WholeStr(data) => WriteStr(data);
      case StartBytes(bin, n) => StartBytes(bin, n);
      case Chunk(data) => WriteBytes(data);
      case FinishBytes(bin) => FinishBytes(bin);
      case Start(m, n) => Start(m, n);
      case Finish(m) => Finish(m);
      case Build(m) => Build(m);
      case Complete(m) => Complete(m);
    }

    /** Makes calls until one fails: the specification's run of the calls. */
    method PerformAll(calls: seq<Call>)
      requires Valid() && !error && ValidCalls(calls)
      modifies Repr()
      ensures Valid() && fresh(Repr() - old(Repr()))
      ensures !error ==> TrackCalls(old(Stack()), calls) == Some(Stack()) && OutputCalls(old(State()), calls) == Some(State())
      ensures error ==> TrackCalls(old(Stack()), calls).None? || OutputCalls(old(State()), calls).None?
    {
      hide TrackCall, OutputCall, ValidCall;
      ghost var t0, o0 := Stack(), State();
      var rest := calls;
      while rest != [] && !error
        invariant Valid() && fresh(Repr() - old(Repr())) && ValidCalls(rest)
        invariant !error ==>
            TrackCalls(t0, calls) == TrackCalls(Stack(), rest) && OutputCalls(o0, calls) == OutputCalls(State(), rest)
        invariant error ==> TrackCalls(t0, calls).None? || OutputCalls(o0, calls).None?
        decreases |rest|
      {
        Perform(rest[0]);
        rest := rest[1..];
      }
    }

    /** Builder transparency and sound tracking together: whatever calls are made, in whatever mix of sizes,
        builds and pages, no error is flagged and nothing is left open exactly if they write whole documents.
        Then, unless some build holds 2^32 or more elements, the writer holds complete well-formed objects,
        encoded with all counts known, and they decode to what was written. */
    method WriteDocuments(calls: seq<Call>) returns (ghost ds: seq<Doc>)
      requires Valid() && !error && ValidCalls(calls)
      requires Stack() == [] && State().frames == []
      modifies Repr()
      ensures Valid() && fresh(Repr() - old(Repr()))
      ensures !error && Stack() == [] <==> exists es: seq<Doc> :: ValidDocs(es) && calls == CallsOfAll(es)
      ensures !error && Stack() == [] ==>
                && ValidDocs(ds) && calls == CallsOfAll(ds)
                && State() == Output(old(State()).out + WrittenAll(ds), [])
                && (AllCountsFit(ds) ==>
                      && State() == Output(old(State()).out + EncodeAll(ValuesOf(ds)), [])
                      && MessagePack.DecodeMany(State().out, |old(State()).out|, |ds|) == Some((ValuesOf(ds), |State().out|)))
    {
      hide TrackCalls, OutputCalls, CallsOfAll, ValidDocs, ValidCalls, WrittenAll, AllCountsFit, ValuesOf, EncodeAll;
      ghost var before := State().out;
      PerformAll(calls);
      Tracking.AcceptedIffDocs(calls);
      ds := [];
      if Tracking.Accepted([], calls) {
        ds := Tracking.TrackedOutput(calls, before);
      }
    }
  }
}
