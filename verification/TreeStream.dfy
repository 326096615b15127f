/** Whole runs of the tree parser: a flat buffer against mpack_discard, and a stream of messages that
    arrives in arbitrary pieces. */
module TreeStream {
  import opened Bytes
  import opened MessagePack
  import opened NodeStore
  import opened Reader
  import opened TreeParser

  /** A parsed message, as handed to the caller: its nodes. */
  datatype Parse = Parse(pages: Pages, root: Ptr)

  /** The objects that stand one after the other from p on, with their positions, up to the first
      position where no complete object stands. */
  function Messages(s: seq<byte>, p: nat): seq<(nat, Value)>
    requires p <= |s|
    decreases |s| - p
  {
    match Decode(s, p)
    case None => []
    case Some((v, q)) => [(p, v)] + Messages(s, q)
  }

  /** The maps of the messages from p on fit, and of the one that follows them, as far as it goes. */
  ghost predicate AllFit(s: seq<byte>, p: nat)
    requires p <= |s|
    decreases |s| - p
  {
    Fits(s, p, 1) && (Decode(s, p).Some? ==> AllFit(s, Decode(s, p).value.1))
  }

  /** Streams of up to 2^32 bytes are always fine. */
  lemma {:induction false} ShortStreamsAllFit(s: seq<byte>, p: nat)
    requires p <= |s| <= TWO32
    ensures AllFit(s, p)
    decreases |s| - p
  {
    hide Decode, Fits;
    ShortStreamsFit(s, p, 1);
    if Decode(s, p).Some? {
      ShortStreamsAllFit(s, Decode(s, p).value.1);
    }
  }

  lemma NextFits(s: seq<byte>, p: nat)
    requires p <= |s| && AllFit(s, p)
    ensures Fits(s, p, 1) && (Decode(s, p).Some? ==> AllFit(s, Decode(s, p).value.1))
  {
  }

  /** Objects read one after the other lead from p to q. */
  ghost predicate Chain(s: seq<byte>, p: nat, found: seq<(nat, Value)>, q: nat)
    decreases |found|
  {
    && p <= |s|
    && if found == [] then p == q else
       && found[0].0 == p && Decode(s, p).Some? && Decode(s, p).value.0 == found[0].1
       && Chain(s, Decode(s, p).value.1, found[1..], q)
  }

  lemma ChainEmpty(s: seq<byte>)
    ensures Chain(s, 0, [], 0)
  {
  }

  lemma {:induction false} ChainAppend(s: seq<byte>, p: nat, found: seq<(nat, Value)>, q: nat)
    requires Chain(s, p, found, q) && q <= |s| && Decode(s, q).Some?
    ensures Chain(s, p, found + [(q, Decode(s, q).value.0)], Decode(s, q).value.1)
    decreases |found|
  {
    hide Decode;
    if found == [] {
      assert (found + [(q, Decode(s, q).value.0)])[1..] == [];
    } else {
      ChainAppend(s, Decode(s, p).value.1, found[1..], q);
      assert (found + [(q, Decode(s, q).value.0)])[1..] == found[1..] + [(q, Decode(s, q).value.0)];
    }
  }

  lemma {:induction false} ChainEnd(s: seq<byte>, p: nat, found: seq<(nat, Value)>, q: nat)
    requires Chain(s, p, found, q)
    ensures p <= q <= |s|
    ensures Messages(s, p) == found + Messages(s, q)
    decreases |found|
  {
    hide Decode;
    if found != [] {
      ChainEnd(s, Decode(s, p).value.1, found[1..], q);
      assert [found[0]] + (found[1..] + Messages(s, q)) == found + Messages(s, q);
    }
  }

  /** A chain within a prefix does not depend on what follows. */
  lemma {:induction false} ChainPrefix(s: seq<byte>, t: seq<byte>, p: nat, found: seq<(nat, Value)>, q: nat)
    requires |s| <= |t| && s == t[..|s|] && q <= |s| && Chain(t, p, found, q)
    ensures Chain(s, p, found, q)
    decreases |found|
  {
    hide Decode, Messages;
    ChainEnd(t, p, found, q);
    if found != [] {
      ChainEnd(t, Decode(t, p).value.1, found[1..], q);
      DecodePrefix(s, t, p);
      ChainPrefix(s, t, Decode(t, p).value.1, found[1..], q);
    }
  }

  /** What was handed to the caller spells the messages found. */
  ghost predicate Spelled(input: seq<byte>, parses: seq<Parse>, found: seq<(nat, Value)>) {
    && |parses| == |found|
    && forall i | 0 <= i < |parses| ::
         Represents(parses[i].pages, input, found[i].0, parses[i].root, found[i].1)
  }

  lemma SpelledAppend(input: seq<byte>, parses: seq<Parse>, found: seq<(nat, Value)>, parse: Parse, m: (nat, Value))
    requires Spelled(input, parses, found) && Represents(parse.pages, input, m.0, parse.root, m.1)
    ensures Spelled(input, parses + [parse], found + [m])
  {
    hide Represents;
  }

  /** How many calls have returned a tree. */
  function Trees(outcomes: seq<bool>): nat {
    if outcomes == [] then 0 else Trees(outcomes[..|outcomes| - 1]) + if outcomes[|outcomes| - 1] then 1 else 0
  }

  lemma TreesMore(outcomes: seq<bool>, ok: bool)
    ensures Trees(outcomes + [ok]) == Trees(outcomes) + if ok then 1 else 0
  {
    assert (outcomes + [ok])[..|outcomes|] == outcomes;
  }

  /** The i-th call has a tree exactly if the next message is complete in the bytes delivered by then. */
  ghost predicate CallFits(bytes: seq<byte>, outcomes: seq<bool>, have: seq<nat>, i: nat)
    requires i < |outcomes| == |have|
  {
    have[i] <= |bytes| && (outcomes[i] <==> Trees(outcomes[..i]) < |Messages(bytes[..have[i]], 0)|)
  }

  ghost predicate AllCallsFit(bytes: seq<byte>, outcomes: seq<bool>, have: seq<nat>) {
    && |outcomes| == |have|
    && (forall i | 0 <= i < |outcomes| :: CallFits(bytes, outcomes, have, i))
    && (forall i, j | 0 <= i < j < |have| :: have[i] <= have[j])
  }

  lemma AllCallsMore(bytes: seq<byte>, outcomes: seq<bool>, have: seq<nat>, ok: bool, now: nat)
    requires AllCallsFit(bytes, outcomes, have) && (have != [] ==> have[|have| - 1] <= now) && now <= |bytes|
    requires ok <==> Trees(outcomes) < |Messages(bytes[..now], 0)|
    ensures AllCallsFit(bytes, outcomes + [ok], have + [now])
  {
    hide Messages, Trees;
    var outcomes', have' := outcomes + [ok], have + [now];
    forall i | 0 <= i < |outcomes'| ensures CallFits(bytes, outcomes', have', i) {
      assert outcomes'[..i] == outcomes[..i];
      assert i < |outcomes| ==> CallFits(bytes, outcomes, have, i);
      assert outcomes[..|outcomes|] == outcomes;
    }
    forall i, j | 0 <= i < j < |have'| ensures have'[i] <= have'[j] {
      assert i < |have| && have[i] <= have[|have| - 1];
    }
  }

  /** Between two calls: the messages found so far lead to `next`, where the tree goes on. */
  ghost predicate Standing(tree: Tree, found: seq<(nat, Value)>, next: nat)
    reads tree, tree.buffer, tree.source
  {
    && tree.Valid() && next <= tree.base + tree.dataLength && next <= |tree.input|
    && Chain(tree.input, 0, found, next) && AllFit(tree.input, next)
    && (tree.error == Ok ==> next == if tree.state == Parsed then tree.base + tree.size else tree.base)
    && (tree.error != Ok ==> Decode(tree.input, next).None?)
  }

  /** One call of mpack_tree_try_parse. */
  method Call(tree: Tree, ghost found: seq<(nat, Value)>, ghost next: nat)
    returns (ok: bool, ghost found': seq<(nat, Value)>, ghost next': nat)
    requires Standing(tree, found, next)
    modifies tree, tree.buffer, tree.source
    ensures Standing(tree, found', next') && (tree.buffer == old(tree.buffer) || fresh(tree.buffer))
    ensures old(tree.base + tree.dataLength) <= tree.base + tree.dataLength <= |tree.input|
    ensures ok <==> |found| < |Messages(tree.input[..tree.base + tree.dataLength], 0)|
    ensures if ok then
              && Decode(tree.input, next).Some? && found' == found + [(next, Decode(tree.input, next).value.0)]
              && Represents(tree.pages, tree.input, next, tree.root, Decode(tree.input, next).value.0)
            else found' == found
  {
    hide Decode, Represents, Messages, Chain, Fits, AllFit;
    NextFits(tree.input, next);
    ok := tree.TryParse();
    ghost var now := tree.base + tree.dataLength;
    tree.DeliveredObject();
    DecodePrefix(tree.input[..now], tree.input, next);
    NextDelivered(tree.input, now, found, next);
    found', next' := found, next;
    if ok {
      ChainAppend(tree.input, 0, found, next);
      found' := found + [(next, Decode(tree.input, next).value.0)];
      next' := Decode(tree.input, next).value.1;
    }
  }

  /** Calls mpack_tree_try_parse `calls` times on a stream that arrives in whatever pieces its source
      chooses. The trees are those of the messages in the delivered bytes, in order; each call returns the
      next one exactly if that is complete by then; and pausing in the middle of a node leaves no trace. */
  method ParseStream(stream: Source, calls: nat)
    returns (tree: Tree, parses: seq<Parse>, outcomes: seq<bool>, ghost have: seq<nat>)
    requires stream.Valid() && stream.pos == 0 && AllFit(stream.bytes, 0)
    modifies stream
    ensures fresh(tree) && tree.Valid() && tree.input == stream.bytes && tree.source == stream
    ensures |outcomes| == calls && Trees(outcomes) == |parses| <= |Messages(stream.bytes, 0)|
    ensures Spelled(stream.bytes, parses, Messages(stream.bytes, 0)[..|parses|])
    ensures AllCallsFit(stream.bytes, outcomes, have) && (calls > 0 ==> have[calls - 1] == stream.pos)
    ensures tree.error != Ok ==> Spelled(stream.bytes, parses, Messages(stream.bytes, 0))
    ensures calls > 0 && !outcomes[calls - 1] ==> Spelled(stream.bytes, parses, Messages(tree.Delivered(), 0))
  {
    hide Decode, Represents, Messages, Chain, Fits, AllFit, Trees, AllCallsFit, Spelled;
    tree := new Tree.FromStream(stream);
    parses, outcomes, have := [], [], [];
    ghost var found: seq<(nat, Value)> := [];
    ghost var next: nat := 0;
    NoCalls(stream.bytes);
    for i := 0 to calls
      invariant fresh(tree) && tree.source == stream && tree.input == stream.bytes && fresh(tree.buffer)
      invariant Standing(tree, found, next) && Spelled(stream.bytes, parses, found)
      invariant |outcomes| == |have| == i && Trees(outcomes) == |parses| == |found| && AllCallsFit(stream.bytes, outcomes, have)
      invariant i > 0 ==> have[i - 1] == tree.base + tree.dataLength
      invariant i > 0 && !outcomes[i - 1] ==> |found| >= |Messages(tree.Delivered(), 0)|
    {
      ghost var before, at := found, next;
      var ok;
      ok, found, next := Call(tree, found, next);
      AllCallsMore(stream.bytes, outcomes, have, ok, tree.base + tree.dataLength);
      TreesMore(outcomes, ok);
      outcomes, have := outcomes + [ok], have + [tree.base + tree.dataLength];
      if ok {
        SpelledAppend(stream.bytes, parses, before, Parse(tree.pages, tree.root), (at, Decode(stream.bytes, at).value.0));
        parses := parses + [Parse(tree.pages, tree.root)];
      }
    }
    StreamEnds(tree, parses, found, next);
  }

  lemma StreamEnds(tree: Tree, parses: seq<Parse>, found: seq<(nat, Value)>, next: nat)
    requires Standing(tree, found, next) && Spelled(tree.input, parses, found)
    ensures |parses| <= |Messages(tree.input, 0)| && Spelled(tree.input, parses, Messages(tree.input, 0)[..|parses|])
    ensures tree.error != Ok ==> Spelled(tree.input, parses, Messages(tree.input, 0))
    ensures |found| >= |Messages(tree.Delivered(), 0)| ==> Spelled(tree.input, parses, Messages(tree.Delivered(), 0))
    ensures tree.source != null ==> tree.base + tree.dataLength == tree.source.pos
  {
    hide Decode, Represents, Chain, Fits, AllFit;
    ChainEnd(tree.input, 0, found, next);
    assert Messages(tree.input, 0)[..|parses|] == found;
    NoneLeft(tree.input, next);
    var s := tree.Delivered();
    ChainPrefix(s, tree.input, 0, found, next);
    ChainEnd(s, 0, found, next);
    if |found| >= |Messages(s, 0)| {
      assert Messages(s, next) == [];
      assert Messages(s, 0) == found;
    }
  }

  lemma NoCalls(bytes: seq<byte>)
    ensures Chain(bytes, 0, [], 0) && Trees([]) == 0 && AllCallsFit(bytes, [], []) && Spelled(bytes, [], [])
  {
  }

  /** Of the delivered bytes, the messages found are the first ones; there is one more exactly if an object
      stands at the next position. */
  lemma NextDelivered(bytes: seq<byte>, now: nat, found: seq<(nat, Value)>, next: nat)
    requires next <= now <= |bytes| && Chain(bytes, 0, found, next)
    ensures |found| < |Messages(bytes[..now], 0)| <==> Decode(bytes[..now], next).Some?
  {
    hide Decode, Chain;
    var s := bytes[..now];
    ChainPrefix(s, bytes, 0, found, next);
    ChainEnd(s, 0, found, next);
  }

  lemma NoneLeft(s: seq<byte>, p: nat)
    requires p <= |s|
    ensures Decode(s, p).None? ==> forall found: seq<(nat, Value)> :: found + Messages(s, p) == found
  {
  }

  /** On a flat buffer the tree parser and mpack_discard succeed on the same inputs, those that start with
      a complete object; the tree spells that object, and both take exactly its bytes. Inputs of up to 2^32
      bytes always fit (`ShortStreamsFit`). */
  method ParseAndDiscard(bytes: seq<byte>) returns (tree: Tree, reader: Reader)
    requires Fits(bytes, 0, 1)
    ensures fresh(tree) && fresh(reader) && tree.Valid() && reader.Valid()
    ensures tree.error == Ok <==> Decode(bytes, 0).Some?
    ensures reader.error == Ok <==> tree.error == Ok
    ensures tree.error == Ok ==>
              var (v, end) := Decode(bytes, 0).value;
              tree.size == end == reader.at && Represents(tree.pages, bytes, 0, tree.root, v) && tree.nodeCount <= |bytes|
  {
    hide Decode, Represents, Fits;
    tree := new Tree.FromData(bytes);
    tree.Parse();
    assert tree.Delivered() == bytes;
    reader := new Reader.FromData(bytes);
    reader.Discard();
  }
}
