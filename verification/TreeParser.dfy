/** The iterative, resumable tree parser of mpack.c:4984-5885. */
module TreeParser {
  import opened Bytes
  import opened MessagePack
  import opened NodeStore
  import opened Reader

  datatype State = NotStarted | InProgress | Parsed

  /** MPACK_NODES_PER_PAGE: a 4096-byte page with 16-byte nodes, one of them in the page header. */
  const NODES_PER_PAGE: nat := (4096 - 24) / 16 + 1
  const INITIAL_CAPACITY: nat := 4096

  /** Bytes by which mpack_tree_parse_node moves on, given the bytes reserved for a node behind its type
      byte: the reserve for children is taken back, with a 32-bit product for maps. */
  function NodeSize(tag: Tag, reserved: nat): int {
    match tag
    case Array(n) => reserved + 1 - n
    case Map(n) => reserved + 1 - (n * 2) % TWO32
    case _ => reserved + 1
  }

  /** The node size is that of tag and payload exactly for maps of fewer than 2^31 pairs. */
  lemma NodeSizeExact(tag: Tag, tagSize: nat)
    requires tagSize > 0
    ensures NodeSize(tag, tagSize - 1 + tag.Payload() + tag.Children()) == tagSize + tag.Payload()
            <==> !(tag.Map? && tag.n >= TWO31)
  {
  }

  /** Along the parse of n objects at p, no map that the input could still hold has 2^31 or more pairs. */
  ghost predicate Fits(s: seq<byte>, p: nat, n: nat)
    decreases |s| - p
  {
    Stuck(s, p, n) ||
    (!(TagAt(s, p).Map? && TagAt(s, p).n >= TWO31) && Fits(s, BodyEnd(s, p), TagAt(s, p).Children() + (n - 1)))
  }

  /** The parse of n objects at p goes no further: nothing is pending, no tag starts here, or the input ends
      before the payload and a byte for every pending object. */
  predicate Stuck(s: seq<byte>, p: nat, n: nat) {
    n == 0 || !HasTag(s, p) || BodyEnd(s, p) + TagAt(s, p).Children() + (n - 1) > |s|
  }

  /** Inputs of up to 2^32 bytes are always fine. */
  lemma {:induction false} ShortStreamsFit(s: seq<byte>, p: nat, n: nat)
    requires |s| <= TWO32
    ensures Fits(s, p, n)
    decreases |s| - p
  {
    hide TagSize, TagOf, Load, TagAt;
    if !Stuck(s, p, n) {
      ShortStreamsFit(s, BodyEnd(s, p), TagAt(s, p).Children() + (n - 1));
    }
  }

  /** What the parser adds up is what the grammar says, for a node that fits. */
  lemma NodeSizeFits(input: seq<byte>, p: nat, n: nat)
    requires Fits(input, p, n) && !Stuck(input, p, n)
    ensures var tag := TagAt(input, p);
            p + NodeSize(tag, TagSize(input[p]) - 1 + tag.Payload() + tag.Children()) == BodyEnd(input, p)
    ensures Fits(input, BodyEnd(input, p), TagAt(input, p).Children() + (n - 1))
  {
    NodeSizeExact(TagAt(input, p), TagSize(input[p]));
  }

  /** Where the grammar has the objects of a parse of n objects at p, up to where it gets stuck. */
  function Places(s: seq<byte>, p: nat, n: nat): seq<nat>
    decreases |s| - p
  {
    if n == 0 then [] else
    [p] + if Stuck(s, p, n) then [] else Places(s, BodyEnd(s, p), TagAt(s, p).Children() + (n - 1))
  }

  /** Where the parser of a flat buffer reads type bytes, by its own arithmetic: nodes are reserved from the
      possible nodes, and the position moves on by the node size. */
  function TypeBytes(s: seq<byte>, p: nat, possible: nat, n: nat): seq<nat>
    decreases possible + n
  {
    if n == 0 then [] else
    [p] +
    if !HasTag(s, p) then [] else
    var tag := TagAt(s, p);
    var reserved := TagSize(s[p]) - 1 + tag.Payload() + tag.Children();
    if reserved > possible then []
    else TypeBytes(s, p + NodeSize(tag, reserved), possible - reserved, tag.Children() + (n - 1))
  }

  /** One step of all three. */
  lemma OneTypeByte(s: seq<byte>, p: nat, possible: nat, n: nat)
    requires p + possible + n == |s| && !Stuck(s, p, n)
    ensures var tag := TagAt(s, p);
            var reserved := TagSize(s[p]) - 1 + tag.Payload() + tag.Children();
            var c := tag.Children() + (n - 1);
            && reserved <= possible
            && TypeBytes(s, p, possible, n) == [p] + TypeBytes(s, p + NodeSize(tag, reserved), possible - reserved, c)
            && Places(s, p, n) == [p] + Places(s, BodyEnd(s, p), c)
            && (Fits(s, p, n) <==> !(tag.Map? && tag.n >= TWO31) && Fits(s, BodyEnd(s, p), c))
  {
    hide TagSize, TagOf, Load, TagAt, NodeSize;
  }

  /** One step of the parser's arithmetic, whatever the maps. */
  lemma TypeByteStep(s: seq<byte>, p: nat, possible: nat, n: nat)
    requires n > 0
    ensures TypeBytes(s, p, possible, n) == [p] +
            if !HasTag(s, p) then [] else
            var tag := TagAt(s, p);
            var reserved := TagSize(s[p]) - 1 + tag.Payload() + tag.Children();
            if reserved > possible then []
            else TypeBytes(s, p + NodeSize(tag, reserved), possible - reserved, tag.Children() + (n - 1))
  {
    hide TagSize, TagOf, Load, TagAt;
  }

  lemma StuckInStep(s: seq<byte>, p: nat, possible: nat, n: nat)
    requires p + possible + n == |s| && Stuck(s, p, n)
    ensures TypeBytes(s, p, possible, n) == Places(s, p, n) && Fits(s, p, n)
  {
    hide TagSize, TagOf, Load, TagAt, NodeSize;
  }

  /** Both start with their first position. */
  lemma Begins(s: seq<byte>, p: nat, q: nat, possible: nat, n: nat)
    requires n > 0
    ensures TypeBytes(s, p, possible, n) != [] && TypeBytes(s, p, possible, n)[0] == p
    ensures Places(s, q, n) != [] && Places(s, q, n)[0] == q
  {
    hide TagSize, TagOf, Load, TagAt, NodeSize;
  }

  /** The parser reads type bytes exactly where the grammar has objects, if and only if the maps fit. */
  lemma {:induction false} ReadsInStep(s: seq<byte>, p: nat, possible: nat, n: nat)
    requires p + possible + n == |s|
    ensures TypeBytes(s, p, possible, n) == Places(s, p, n) <==> Fits(s, p, n)
    decreases |s| - p
  {
    hide TagSize, TagOf, Load, TagAt, NodeSize, HasTag, TypeBytes, Places, Fits;
    if Stuck(s, p, n) {
      StuckInStep(s, p, possible, n);
    } else {
      var tag := TagAt(s, p);
      var reserved := TagSize(s[p]) - 1 + tag.Payload() + tag.Children();
      var c := tag.Children() + (n - 1);
      var next := NextTypeByte(s, p, n);
      OneTypeByte(s, p, possible, n);
      SameHead(p, TypeBytes(s, next, possible - reserved, c), Places(s, BodyEnd(s, p), c));
      if next == BodyEnd(s, p) {
        ReadsInStep(s, next, possible - reserved, c);
      } else {
        Begins(s, next, BodyEnd(s, p), possible - reserved, c);
      }
    }
  }

  /** Where the parser goes on, and when that is where the grammar does. */
  lemma NextTypeByte(s: seq<byte>, p: nat, n: nat) returns (next: nat)
    requires !Stuck(s, p, n)
    ensures var tag := TagAt(s, p);
            && next == p + NodeSize(tag, TagSize(s[p]) - 1 + tag.Payload() + tag.Children()) && TagSize(s[p]) > 0
            && (next == BodyEnd(s, p) <==> !(tag.Map? && tag.n >= TWO31))
            && (next != BodyEnd(s, p) ==> tag.Children() + (n - 1) > 0)
  {
    var tag := TagAt(s, p);
    NodeSizeExact(tag, TagSize(s[p]));
    next := p + NodeSize(tag, TagSize(s[p]) - 1 + tag.Payload() + tag.Children());
  }

  /** The smallest map that does not fit: with its 2^32 elements behind it, the parser goes on behind all of
      them instead of at the first one. */
  lemma SmallestMisread(rest: seq<byte>)
    requires |rest| >= TWO32
    ensures var s := [0xdf, 0x80, 0, 0, 0] + rest;
            var types, places := TypeBytes(s, 0, |s| - 1, 1), Places(s, 0, 1);
            && !Fits(s, 0, 1) && |types| > 1 && |places| > 1
            && places[1] == 5 && types[1] == 5 + TWO32
  {
    hide TypeBytes, Places;
    var s := [0xdf, 0x80, 0, 0, 0] + rest;
    LargeHeader(s, rest);
    OneTypeByte(s, 0, |s| - 1, 1);
    Begins(s, 5 + TWO32, 5, |s| - 1 - (4 + TWO32), TWO32);
    ReadsInStep(s, 0, |s| - 1, 1);
  }

  lemma LargeHeader(s: seq<byte>, rest: seq<byte>)
    requires s == [0xdf, 0x80, 0, 0, 0] + rest
    ensures HasTag(s, 0) && TagAt(s, 0) == Map(TWO31) && TagSize(s[0]) == 5
  {
    var arg: seq<byte> := [0x80, 0, 0, 0];
    var three, two, one: seq<byte> := [0x80, 0, 0], [0x80, 0], [0x80];
    assert s[1..5] == arg && arg[..3] == three && three[..2] == two && two[..1] == one && one[..0] == [];
    assert Load(one) == 0x80 && Load(two) == 0x8000 && Load(three) == 0x80_0000;
  }

  lemma SameHead(p: nat, s: seq<nat>, t: seq<nat>)
    ensures [p] + s == [p] + t <==> s == t
  {
    assert ([p] + s)[1..] == s && ([p] + t)[1..] == t;
  }

  /** Reading n objects takes the whole first tag, its payload, and a byte for every other object. */
  lemma BytesNeeded(s: seq<byte>, p: nat, n: nat)
    requires p <= |s| && n > 0 && DecodeMany(s, p, n).Some?
    ensures HasTag(s, p) && BodyEnd(s, p) + TagAt(s, p).Children() + (n - 1) <= |s|
  {
    DecodeUnfold(s, p, n);
  }

  /** A parser that is on track and finds too few bytes delivered for its pending nodes has too few for
      the message. */
  lemma Starved(pages: Pages, input: seq<byte>, have: nat, base: nat, cur: nat, pend: seq<Ptr>, owed: map<Ptr, Value>, root: Ptr)
    requires OnTrack(pages, input, base, cur, pend, owed, root) && cur <= have <= |input|
    requires DecodeMany(input[..have], cur, |pend|).None?
    ensures Decode(input[..have], base).None?
  {
    DecodeManyPrefix(input[..have], input, cur, |pend|);
    DecodePrefix(input[..have], input, base);
  }

  /** Giving up the first node of its level and pushing the children commute. */
  lemma DescendByUpdate(before: seq<Level>, entered: seq<Level>, after: seq<Level>, children: Ptr, c: nat)
    requires before != [] && before[|before| - 1].left > 0
    requires entered == before + (if c == 0 then [] else [Level(children, c)])
    requires var top := |before| - 1;
             after == entered[top := Level(Offset(before[top].child, 1), before[top].left - 1)]
    ensures after == Descend(before, children, c)
  {
  }

  lemma RootPending(root: Ptr)
    ensures Pending([Level(root, 1)]) == [root]
  {
    var stack := [Level(root, 1)];
    assert Range(root, 1) == [root] && stack[..0] == [];
    assert Pending(stack) == Range(root, 1) + Pending(stack[..0]);
  }

  class Tree {
    const source: Source?  // null: a flat buffer without read function
    var buffer: array<byte>
    var data: nat  // where the message starts in the buffer
    var dataLength: nat
    var size: nat  // bytes parsed
    var error: Error
    var state: State
    var nodeCount: nat
    var root: Ptr

    var possible: nat  // possible_nodes_left
    var reserved: nat  // current_node_reserved
    var pages: Pages
    var nodes: Ptr  // next node in the current page
    var nodesLeft: nat
    var stack: seq<Level>

    ghost const input: seq<byte>  // all bytes the environment will ever deliver
    ghost var base: nat  // where the message starts in the input
    ghost var owed: map<Ptr, Value>

    /** The buffer is a window of the input, up to what has been delivered. */
    ghost predicate Window()
      reads this`buffer, this`data, this`dataLength, this`base, buffer, source
    {
      && data + dataLength <= buffer.Length
      && base + dataLength <= |input|
      && (forall i | data <= i < data + dataLength :: buffer[i] == input[base + (i - data)])
      && (if source == null then base + dataLength == |input|
          else source.Valid() && source.bytes == input && source.pos == base + dataLength && data == 0)
    }

    lemma WindowEnds()
      requires Window()
      ensures base + dataLength <= |input| && (source == null ==> base + dataLength == |input|)
    {
    }

    /** The parsed bytes are inside. */
    ghost predicate Buffered()
      reads this`buffer, this`data, this`dataLength, this`base, this`size, buffer, source
    {
      Window() && size <= dataLength
    }

    /** Pages: nodes handed out are inside, and the free ones of the current page are not among them. */
    ghost predicate Housed()
      reads this`pages, this`nodes, this`nodesLeft, this`owed
    {
      && nodes.page < |pages| && nodes.index + nodesLeft == |pages[nodes.page]|
      && nodesLeft <= NODES_PER_PAGE
      && Inside(pages, nodes, owed)
    }

    /** The accounting of a parse in progress: every byte is parsed, promised to a pending node, or a
        possible node; there are no more nodes than parsed bytes and pending nodes; and the pending nodes
        are on their way to the value of the message. */
    ghost predicate Reading()
      reads this, buffer, source
    {
      && stack != [] && Pending(stack) != [] && stack[|stack| - 1].left > 0
      && possible + size + |Pending(stack)| == dataLength
      && |owed| <= size + |Pending(stack)|
      && (source == null ==> nodeCount == |owed|)
      && Housed()
      && base + size <= |input|
      && OnTrack(pages, input, base, base + size, Pending(stack), owed, root)
    }

    /** The same, and no map ahead breaks it. */
    ghost predicate Parsing()
      reads this, buffer, source
    {
      Reading() && Fits(input, base + size, |Pending(stack)|)
    }

    ghost predicate Valid()
      reads this, buffer, source
    {
      && Buffered()
      && (error == Ok && state == InProgress ==> Parsing())
      && (state == NotStarted ==> size == 0)
      && (state == Parsed ==> size > 0)
    }

    /** What has been delivered so far. */
    ghost function Delivered(): seq<byte>
      requires Buffered()
      reads this, buffer, source
    {
      input[..base + dataLength]
    }

    /** mpack_tree_init_data. */
    constructor FromData(bytes: seq<byte>)
      ensures Valid() && error == Ok && state == NotStarted
      ensures input == bytes && base == 0 && dataLength == |bytes| && source == null && fresh(buffer)
    {
      source := null;
      buffer := new byte[|bytes|](i requires 0 <= i < |bytes| => bytes[i]);
      data, dataLength, size := 0, |bytes|, 0;
      error, state, nodeCount := Ok, NotStarted, 0;
      possible, reserved, nodesLeft := 0, 0, 0;
      pages, stack, root, nodes := [], [], Ptr(0, 0), Ptr(0, 0);
      input, base, owed := bytes, 0, map[];
    }

    /** mpack_tree_init_stream. */
    constructor FromStream(stream: Source)
      requires stream.Valid() && stream.pos == 0
      ensures Valid() && error == Ok && state == NotStarted
      ensures input == stream.bytes && base == 0 && source == stream && fresh(buffer)
    {
      source := stream;
      buffer := new byte[0];
      data, dataLength, size := 0, 0, 0;
      error, state, nodeCount := Ok, NotStarted, 0;
      possible, reserved, nodesLeft := 0, 0, 0;
      pages, stack, root, nodes := [], [], Ptr(0, 0), Ptr(0, 0);
      input, base, owed := stream.bytes, 0, map[];
    }

    /** mpack_tree_flag_error. */
    method FlagError(e: Error)
      requires e != Ok
      modifies this`error
      ensures error == if old(error) == Ok then e else old(error)
    {
      if error == Ok {
        error := e;
      }
    }

    /** The buffer growth of mpack_tree_reserve_fill: capacities double from 4096. */
    method ExpandBuffer(needed: nat)
      requires Buffered() && data == 0
      modifies this`buffer
      ensures Buffered() && buffer.Length >= needed && (buffer == old(buffer) || fresh(buffer))
    {
      if needed <= buffer.Length {
        return;
      }
      var capacity := if buffer.Length == 0 then INITIAL_CAPACITY else buffer.Length;
      while capacity < needed
        invariant capacity >= dataLength && capacity > 0
      {
        capacity := 2 * capacity;
      }
      var old' := buffer;
      buffer := new byte[capacity](i requires 0 <= i < capacity reads old' => if i < old'.Length then old'[i] else 0);
    }

    /** One call of the read function: its bytes go behind the data and count as possible nodes. */
    method ReadMore() returns (count: nat)
      requires Buffered() && source != null && dataLength < buffer.Length
      modifies this`dataLength, this`possible, buffer, source
      ensures Buffered()
      ensures dataLength == old(dataLength) + count && possible == old(possible) + count
    {
      var chunk := source.Read(buffer.Length - dataLength, false);
      Copy(buffer, dataLength, chunk);
      count := |chunk|;
      dataLength := dataLength + count;
      possible := possible + count;
    }

    /** mpack_tree_reserve_fill: asks for data until the current node is covered. It fails without error
        only when the read function has nothing to give yet. */
    method ReserveFill() returns (ok: bool)
      requires Buffered() && error == Ok && possible < reserved
      modifies this`buffer, this`dataLength, this`possible, this`error, buffer, source
      ensures Buffered() && (buffer == old(buffer) || fresh(buffer))
      ensures ok ==> error == Ok && reserved <= possible
      ensures !ok ==> possible < reserved && error == if source == null then Invalid else Ok
      ensures possible - old(possible) == dataLength - old(dataLength) >= 0
      ensures source == null ==> !ok && possible == old(possible)
    {
      if source == null {
        FlagError(Invalid);
        return false;
      }
      ExpandBuffer(dataLength + reserved);
      ok := true;
      while possible < reserved
        invariant Buffered() && error == Ok && buffer.Length >= dataLength + (reserved - possible)
        invariant possible - old(possible) == dataLength - old(dataLength) >= 0
        invariant buffer == old(buffer) || fresh(buffer)
        decreases reserved - possible
      {
        var count := ReadMore();
        if count == 0 {
          return false;
        }
      }
    }

    /** mpack_tree_reserve_bytes: extra bytes for the current node, next to all bytes promised before. */
    method ReserveBytes(extra: nat) returns (ok: bool)
      requires Buffered() && error == Ok
      modifies this`reserved, this`buffer, this`dataLength, this`possible, this`error, buffer, source
      ensures Buffered() && (buffer == old(buffer) || fresh(buffer))
      ensures reserved == old(reserved) + extra
      ensures ok ==> error == Ok && reserved <= possible
      ensures !ok ==> possible < reserved && error == if source == null then Invalid else Ok
      ensures possible - old(possible) == dataLength - old(dataLength) >= 0
    {
      reserved := reserved + extra;
      if reserved <= possible {
        return true;
      }
      ok := ReserveFill();
    }

    /** The position of the node being parsed. */
    ghost function Cursor(): nat
      reads this
    {
      base + size
    }

    /** The tag of the node at hand, whose bytes have been delivered. */
    method LoadTag() returns (tag: Tag)
      requires Buffered() && size < dataLength && TagSize(input[Cursor()]) > 0 && size + TagSize(input[Cursor()]) <= dataLength
      ensures HasTag(input, Cursor()) && tag == TagAt(input, Cursor())
    {
      var lead := buffer[data + size];
      var bytes := buffer[data + size + 1..data + size + TagSize(lead)];
      assert bytes == input[Cursor() + 1..Cursor() + TagSize(lead)];
      tag := TagOf(lead, Load(bytes));
    }

    /** Takes nodes for the children of a node: from the current page, from a page of their own, or from a
        new current page (mpack.c:5198-5252). Nobody holds these nodes yet. */
    method AllocateChildren(total: nat) returns (children: Ptr)
      requires Housed()
      modifies this`pages, this`nodes, this`nodesLeft
      ensures |old(pages)| <= |pages| && pages[..|old(pages)|] == old(pages)
      ensures Unclaimed(children, total, owed) && forall i | 0 <= i < total :: InPages(pages, Offset(children, i))
      ensures nodes.page < |pages| && nodes.index + nodesLeft == |pages[nodes.page]| && nodesLeft <= NODES_PER_PAGE
      ensures Inside(pages, nodes, owed)
      ensures children.page == nodes.page ==> children.index + total <= nodes.index
    {
      if total <= nodesLeft {
        children := nodes;
        nodes := Offset(nodes, total);
        nodesLeft := nodesLeft - total;
      } else if total > NODES_PER_PAGE || nodesLeft > NODES_PER_PAGE / 8 {
        children := Ptr(|pages|, 0);
        pages := pages + [seq(total, _ => BLANK)];
      } else {
        children := Ptr(|pages|, 0);
        nodes, nodesLeft := Ptr(|pages|, total), NODES_PER_PAGE - total;
        pages := pages + [seq(NODES_PER_PAGE, _ => BLANK)];
      }
    }

    /** The message is not complete in what has been delivered. */
    ghost predicate Incomplete()
      requires Buffered()
      reads this, buffer, source
    {
      Decode(Delivered(), base).None?
    }

    /** The accounting of Reading() without the last claim about nodeCount. */
    ghost predicate Pausable()
      reads this, buffer, source
    {
      && Pending(stack) != [] && possible + size + |Pending(stack)| == dataLength && base + size <= |input|
      && OnTrack(pages, input, base, base + size, Pending(stack), owed, root)
    }

    lemma TooFewBytes()
      requires Buffered() && Pausable() && DecodeMany(Delivered(), Cursor(), |Pending(stack)|).None?
      ensures Incomplete()
      ensures source == null ==> Decode(input, base).None?
    {
      Starved(pages, input, base + dataLength, base, Cursor(), Pending(stack), owed, root);
      assert source == null ==> Delivered() == input;
    }

    /** The tag of the node does not fit what has been delivered. */
    lemma TagFailed()
      requires Buffered() && Pausable() && possible < TagSize(input[Cursor()]) - 1
      ensures Incomplete()
      ensures source == null ==> Decode(input, base).None?
    {
      if DecodeMany(Delivered(), Cursor(), |Pending(stack)|).Some? {
        BytesNeeded(Delivered(), Cursor(), |Pending(stack)|);
      }
      TooFewBytes();
    }

    /** The tag is there, but not its payload or a byte for each child. */
    lemma ContentsFailed()
      requires Buffered() && Pausable() && HasTag(input, Cursor())
      requires var tag := TagAt(input, Cursor());
               possible < TagSize(input[Cursor()]) - 1 + tag.Payload() + tag.Children()
      ensures Incomplete()
      ensures source == null ==> Decode(input, base).None?
    {
      TagPrefix(Delivered(), input, Cursor());
      if DecodeMany(Delivered(), Cursor(), |Pending(stack)|).Some? {
        BytesNeeded(Delivered(), Cursor(), |Pending(stack)|);
      }
      TooFewBytes();
    }

    /** No tag starts with the byte at hand. */
    lemma LeadFailed()
      requires Buffered() && Pausable() && TagSize(input[Cursor()]) == 0
      ensures Decode(input, base).None? && !HasTag(input, Cursor())
    {
      DecodeUnfold(input, Cursor(), |Pending(stack)|);
    }

    /** Reads the tag of the node at hand once its bytes are there. */
    method ParseTag() returns (ok: bool, tag: Tag)
      requires Buffered() && error == Ok && possible + size < dataLength
      modifies this`reserved, this`buffer, this`dataLength, this`possible, this`error, buffer, source
      ensures Buffered() && (buffer == old(buffer) || fresh(buffer))
      ensures possible - old(possible) == dataLength - old(dataLength) >= 0
      ensures ok ==>
                && error == Ok && reserved == TagSize(input[Cursor()]) - 1 <= possible
                && HasTag(input, Cursor()) && tag == TagAt(input, Cursor())
      ensures !ok && error == Ok ==> source != null
      ensures !ok && TagSize(input[Cursor()]) == 0 ==> error == if input[Cursor()] == 0xc1 then Invalid else Unsupported
      ensures !ok && TagSize(input[Cursor()]) > 0 ==>
                possible < TagSize(input[Cursor()]) - 1 && (error != Ok ==> source == null)
    {
      hide TagSize, TagAt, HasTag;
      var lead := buffer[data + size];
      reserved, tag := 0, Nil;
      if TagSize(lead) == 0 {
        FlagError(if lead == 0xc1 then Invalid else Unsupported);
        return false, tag;
      }
      ok := ReserveBytes(TagSize(lead) - 1);
      if ok {
        tag := LoadTag();
      }
    }

    /** The first half of mpack_tree_parse_node_contents: the tag is read, and all bytes of the node and a
        byte for each child are reserved. */
    method ReserveNode() returns (ok: bool, tag: Tag, offset: nat)
      requires Buffered() && error == Ok && Pausable()
      modifies this`reserved, this`nodeCount, this`buffer, this`dataLength, this`possible, this`error, buffer, source
      ensures Buffered() && (buffer == old(buffer) || fresh(buffer))
      ensures possible - old(possible) == dataLength - old(dataLength) >= 0
      ensures ok ==>
                && error == Ok && HasTag(input, Cursor()) && tag == TagAt(input, Cursor())
                && offset == size + TagSize(input[Cursor()])
                && reserved == TagSize(input[Cursor()]) - 1 + tag.Payload() + tag.Children() <= possible
                && nodeCount == old(nodeCount) + tag.Children()
      ensures !ok ==> TypeBytes(input, Cursor(), possible, |Pending(stack)|) == [Cursor()]
      ensures !ok && error == Ok ==> source != null && Incomplete()
      ensures !ok && error != Ok ==> Decode(input, base).None?
    {
      hide Fits, HasTag, TagAt, BodyEnd, Decode, OnTrack, TagSize, TypeBytes, NodeSize, Pending, Tree.Window;
      WindowEnds();
      offset := 0;
      ok, tag := ParseTag();
      if !ok {
        TypeByteStep(input, Cursor(), possible, |Pending(stack)|);
        if TagSize(input[Cursor()]) > 0 {
          TagFailed();
        } else {
          LeadFailed();
        }
        return;
      }
      offset := size + reserved + 1;
      // mpack_tree_parse_bytes and mpack_tree_parse_children
      nodeCount := nodeCount + tag.Children();
      ok := ReserveBytes(tag.Payload() + tag.Children());
      if !ok {
        TypeByteStep(input, Cursor(), possible, |Pending(stack)|);
        ContentsFailed();
      }
    }

    /** The second half: children are allocated, and the node is filled in. */
    method FillNode(node: Ptr, tag: Tag, offset: nat) returns (children: Ptr)
      requires Housed() && node in owed
      modifies this`pages, this`nodes, this`nodesLeft, this`owed
      ensures Housed() && |owed| == |old(owed)| + tag.Children()
      ensures InPages(pages, node) && At(pages, node) == Node(tag, offset, children) && KeepsOthers(old(pages), pages, node)
      ensures Unclaimed(children, tag.Children(), old(owed))
      ensures owed == old(owed) + ChildDebts(children, tag.Children(), old(owed)[node])
    {
      hide Fits, KeepsOthers, Inside, ChildDebts, Put, Unclaimed;
      InsideHas(pages, nodes, owed, node);
      ghost var debts;
      children := AllocateChildren(tag.Children());
      debts := ChildDebts(children, tag.Children(), owed[node]);
      InsideStep(pages, nodes, owed, children, tag.Children(), owed[node]);
      PutKeepsOthers(old(pages), pages, node, Node(tag, offset, children));
      PutInside(pages, node, Node(tag, offset, children), nodes, owed + debts);
      pages := Put(pages, node, Node(tag, offset, children));
      owed := owed + debts;
    }

    /** The same, seen from the invariant: the parser stays on track behind the node. */
    method PlaceNode(tag: Tag, offset: nat, ghost next: nat) returns (children: Ptr)
      requires Housed() && Pausable() && stack != [] && stack[|stack| - 1].left > 0
      requires HasTag(input, Cursor()) && next == BodyEnd(input, Cursor()) <= |input|
      requires tag == TagAt(input, Cursor()) && base + offset == Cursor() + TagSize(input[Cursor()])
      modifies this`pages, this`nodes, this`nodesLeft, this`owed
      ensures Housed() && |owed| == |old(owed)| + tag.Children()
      ensures Pending(stack) != []
      ensures OnTrack(pages, input, base, next, NextPending(Pending(stack), children, tag.Children()), owed, root)
    {
      hide Fits, HasTag, TagAt, BodyEnd, TagSize, OnTrack, KeepsOthers, Inside, Listed, SameReading, Unclaimed;
      hide Decode, DecodeMany, NextPending, ChildDebts;
      var node := stack[|stack| - 1].child;
      ghost var cur, pend, pages', owed' := Cursor(), Pending(stack), pages, owed;
      assert OnTrack(pages', input, base, cur, pend, owed', root);
      PendingDescend(stack, node, 0);
      OnTrackFacts(pages', input, base, cur, pend, owed', root);
      children := FillNode(node, tag, offset);
      OnTrackStep(pages', pages, input, base, cur, pend, owed', root, Node(tag, offset, children));
      assert Cursor() == cur && Pending(stack) == pend;
    }

    /** The accounting of mpack_tree_parse_node, once the contents of a node at `from` are parsed. It leads
        behind the node if no map breaks it. */
    method Account(tag: Tag, ghost n: nat)
      requires HasTag(input, Cursor()) && tag == TagAt(input, Cursor())
      requires reserved == TagSize(input[Cursor()]) - 1 + tag.Payload() + tag.Children() <= possible
      requires n > 0 && Cursor() + n + possible <= |input|
      modifies this`possible, this`size
      ensures possible == old(possible) - reserved && size == old(size) + NodeSize(tag, reserved) > old(size)
      ensures old(TypeBytes(input, Cursor(), possible, n)) ==
              [old(Cursor())] + TypeBytes(input, Cursor(), possible, tag.Children() + (n - 1))
      ensures old(Fits(input, Cursor(), n)) ==>
                && Cursor() == BodyEnd(input, old(Cursor())) && size - old(size) == reserved + 1 - tag.Children()
                && Fits(input, Cursor(), tag.Children() + (n - 1))
    {
      hide TagSize, TagOf, Load, TagAt, TypeBytes, Fits;
      TypeByteStep(input, Cursor(), possible, n);
      if Fits(input, Cursor(), n) {
        NodeSizeFits(input, Cursor(), n);
      }
      possible := possible - reserved;
      size := size + NodeSize(tag, reserved);
    }

    /** The node counts behind the parser, with c children now in front of the other pending nodes. */
    ghost predicate Entered(before: seq<Level>, children: Ptr, c: nat)
      reads this
    {
      && stack == before + (if c == 0 then [] else [Level(children, c)])
      && Housed() && base + size <= |input|
      && Pending(before) != []
      && possible + size + (c + |Pending(before)| - 1) == dataLength
      && |owed| <= size + (c + |Pending(before)| - 1)
      && (source == null ==> nodeCount == |owed|)
      && OnTrack(pages, input, base, base + size, NextPending(Pending(before), children, c), owed, root)
      && Fits(input, base + size, c + |Pending(before)| - 1)
    }

    /** The part of mpack_tree_parse_node behind the last reservation. */
    method TakeNode(tag: Tag, offset: nat) returns (ghost children: Ptr)
      requires HasTag(input, Cursor()) && tag == TagAt(input, Cursor())
      requires offset == size + TagSize(input[Cursor()])
      requires reserved == TagSize(input[Cursor()]) - 1 + tag.Payload() + tag.Children() <= possible
      requires Pausable() && Housed() && stack != [] && stack[|stack| - 1].left > 0 && base + dataLength <= |input|
      requires |owed| <= size + |Pending(stack)|
      requires source == null ==> nodeCount == |owed| + tag.Children()
      modifies this`pages, this`nodes, this`nodesLeft, this`stack, this`owed, this`possible, this`size
      ensures possible == old(possible) - reserved && size == old(size) + NodeSize(tag, reserved) > old(size)
      ensures var c := tag.Children();
              old(TypeBytes(input, Cursor(), possible, |Pending(stack)|)) ==
              [old(Cursor())] + TypeBytes(input, Cursor(), possible, c + (|Pending(old(stack))| - 1))
      ensures old(Fits(input, Cursor(), |Pending(stack)|)) ==> size <= dataLength && Entered(old(stack), children, tag.Children())
    {
      hide Fits, OnTrack, Decode, TagSize, TagOf, Load, Inside, NodeSize, TypeBytes, Pending, NextPending;
      ghost var next := BodyEnd(input, Cursor());
      ghost var n := |Pending(stack)|;
      var kids := PlaceNode(tag, offset, next);
      children := kids;
      ghost var pend := NextPending(Pending(old(stack)), children, tag.Children());
      assert OnTrack(pages, input, base, next, pend, owed, root);
      if tag.Children() > 0 {
        stack := stack + [Level(kids, tag.Children())];
      }
      Account(tag, n);
    }

    /** mpack_tree_parse_node. On success the stack still lists the node; its children are on top of it. Where
        a flat buffer is read next, and what may still be reserved, follows the parser's arithmetic, whatever
        maps there are. */
    method ParseNode() returns (ok: bool, ghost children: Ptr, ghost c: nat)
      requires Buffered() && error == Ok && state == InProgress && Reading()
      modifies this`reserved, this`nodeCount, this`buffer, this`dataLength, this`possible, this`error
      modifies this`pages, this`nodes, this`nodesLeft, this`stack, this`owed, this`size, buffer, source
      ensures dataLength >= old(dataLength)
      ensures Window() && (buffer == old(buffer) || fresh(buffer))
      ensures ok ==>
                && error == Ok && HasTag(input, old(Cursor())) && c == TagAt(input, old(Cursor())).Children()
                && size == old(size) + NodeSize(TagAt(input, old(Cursor())), reserved) > old(size)
      ensures source == null ==>
                old(TypeBytes(input, Cursor(), possible, |Pending(stack)|)) ==
                [old(Cursor())] + if ok then TypeBytes(input, Cursor(), possible, c + (|Pending(old(stack))| - 1)) else []
      ensures ok && old(Fits(input, Cursor(), |Pending(stack)|)) ==> Buffered() && Entered(old(stack), children, c)
      ensures !ok ==> Buffered() && size == old(size) && stack == old(stack)
      ensures !ok && error == Ok ==> source != null && Reading() && Incomplete()
      ensures !ok && error != Ok ==> Decode(input, base).None?
    {
      hide Fits, TagSize, TagOf, Load, OnTrack, Decode, HasTag, TagAt, Inside, NextPending, Delivered, NodeSize, TypeBytes, Pending;
      hide Tree.Window, Tree.Entered, Tree.Housed;
      children, c := Ptr(0, 0), 0;
      var tag: Tag, offset: nat;
      WindowEnds();
      ok, tag, offset := ReserveNode();
      WindowEnds();
      if ok {
        c := tag.Children();
        children := TakeNode(tag, offset);
      }
    }

    /** Pops empty levels; true when nothing is pending any more (mpack.c:5719-5723). */
    method PopLevels() returns (done: bool)
      requires stack != []
      modifies this`stack
      ensures Pending(stack) == Pending(old(stack))
      ensures if done then Pending(stack) == [] else stack != [] && stack[|stack| - 1].left > 0 && Pending(stack) != []
    {
      while stack[|stack| - 1].left == 0
        invariant stack != [] && Pending(stack) == Pending(old(stack))
        decreases |stack|
      {
        PendingPop(stack);
        if |stack| == 1 {
          return true;
        }
        stack := stack[..|stack| - 1];
      }
      PendingDescend(stack, Ptr(0, 0), 0);
      done := false;
    }

    /** One round of the loop of mpack_tree_continue_parsing. */
    method ParseNext() returns (ok: bool, done: bool)
      requires Buffered() && error == Ok && state == InProgress && Parsing()
      modifies this`reserved, this`nodeCount, this`buffer, this`dataLength, this`possible, this`error
      modifies this`pages, this`nodes, this`nodesLeft, this`stack, this`owed, this`size, buffer, source
      ensures dataLength >= old(dataLength)
      ensures Buffered() && (buffer == old(buffer) || fresh(buffer))
      ensures ok ==> error == Ok && size > old(size) && base + size <= |input|
      ensures ok && !done ==> Parsing()
      ensures ok && done ==> OnTrack(pages, input, base, base + size, [], owed, root)
      ensures ok && done && source == null ==> nodeCount <= size
      ensures !ok && error == Ok ==> source != null && Parsing() && Incomplete()
      ensures !ok && error != Ok ==> Decode(input, base).None?
    {
      hide Fits, OnTrack, Inside, Decode, Pending, Descend, NextPending, NodeSize, TypeBytes, HasTag, TagAt, TagSize;
      done := false;
      var level := |stack| - 1;
      ghost var before := stack;
      ghost var children: Ptr, c: nat;
      ok, children, c := ParseNode();
      if !ok {
        return;
      }
      ghost var entered := stack;
      stack := stack[level := Level(Offset(stack[level].child, 1), stack[level].left - 1)];
      assert stack == Descend(before, children, c) by {
        DescendByUpdate(before, entered, stack, children, c);
      }
      PendingDescend(before, children, c);
      done := PopLevels();
    }

    /** mpack_tree_continue_parsing. */
    method ContinueParsing() returns (ok: bool)
      requires Buffered() && error == Ok && state == InProgress && Parsing()
      modifies this`reserved, this`nodeCount, this`buffer, this`dataLength, this`possible, this`error
      modifies this`pages, this`nodes, this`nodesLeft, this`stack, this`owed, this`size, buffer, source
      ensures dataLength >= old(dataLength)
      ensures Buffered() && (buffer == old(buffer) || fresh(buffer))
      ensures ok ==> error == Ok && size > 0 && Denotes()
      ensures ok && source == null ==> nodeCount <= size
      ensures !ok && error == Ok ==> source != null && Parsing() && Incomplete()
      ensures !ok && error != Ok ==> Decode(input, base).None?
    {
      hide OnTrack, Decode, Represents, Tree.Window, Tree.Parsing;
      WindowEnds();
      while true
        invariant Buffered() && (buffer == old(buffer) || fresh(buffer))
        invariant error == Ok && Parsing() && base + size <= |input| && dataLength >= old(dataLength)
        decreases |input| - base - size
      {
        var done;
        ok, done := ParseNext();
        if !ok {
          return;
        }
        if done {
          OnTrackEnd(pages, input, base, base + size, owed, root);
          return;
        }
      }
    }

    /** The parsed nodes spell the object at `base`, and the parsed bytes are exactly that object. */
    ghost predicate Denotes()
      reads this
    {
      && base <= |input| && Decode(input, base).Some?
      && Decode(input, base).value.1 == base + size
      && Represents(pages, input, base, root, Decode(input, base).value.0)
    }

    /** mpack_tree_cleanup: all pages are freed. */
    method Cleanup()
      modifies this`pages
      ensures pages == []
    {
      pages := [];
    }

    /** mpack_tree_parse_start moves past the message parsed before: the rest of a read buffer moves to its
        front, a flat buffer is advanced. */
    method NextMessage()
      requires Buffered()
      modifies this`data, this`dataLength, this`size, this`nodeCount, this`base, buffer
      ensures Buffered() && base == old(base) + old(size) && size == 0
      ensures dataLength == old(dataLength) - old(size)
    {
      if size > 0 {
        if source != null {
          forall i | 0 <= i < dataLength - size {
            buffer[i] := buffer[size + i];
          }
        } else {
          data := data + size;
        }
        dataLength := dataLength - size;
        base := base + size;
        size := 0;
        nodeCount := 0;
      }
    }

    lemma NothingDelivered()
      requires Buffered() && dataLength == 0
      ensures Incomplete()
      ensures source == null ==> Decode(input, base).None?
    {
      assert source == null ==> Delivered() == input;
    }

    /** The first half of mpack_tree_parse_start: moves on, and makes sure of at least one byte. */
    method StartMessage() returns (ok: bool)
      requires Buffered() && error == Ok
      modifies this`reserved, this`buffer, this`dataLength, this`possible, this`error
      modifies this`data, this`size, this`nodeCount, this`base, buffer, source
      ensures base + dataLength >= old(base + dataLength)
      ensures Buffered() && (buffer == old(buffer) || fresh(buffer))
      ensures base == old(base) + old(size) && size == 0
      ensures ok ==> error == Ok && possible == dataLength > 0
      ensures !ok ==> Incomplete()
      ensures !ok && error == Ok ==> source != null
      ensures !ok && error != Ok ==> Decode(input, base).None?
    {
      hide Decode;
      reserved := 0;
      NextMessage();
      possible := dataLength;
      ok := ReserveBytes(1);
      if !ok {
        NothingDelivered();
      }
    }

    /** Where the next message starts, between two messages. */
    ghost function Next(): nat
      reads this
    {
      if state == Parsed then base + size else base
    }

    /** mpack_tree_parse_start. */
    method ParseStart() returns (ok: bool)
      requires Buffered() && error == Ok && state != InProgress && Fits(input, base + size, 1)
      modifies this, buffer, source
      ensures base + dataLength >= old(base + dataLength)
      ensures Buffered() && (buffer == old(buffer) || fresh(buffer))
      ensures base == old(base) + old(size)
      ensures ok ==> error == Ok && state == InProgress && Parsing()
      ensures !ok ==> state == NotStarted && size == 0 && Incomplete()
      ensures !ok && error == Ok ==> source != null
      ensures !ok && error != Ok ==> Decode(input, base).None?
    {
      hide Fits, Decode, Parsing;
      if state == Parsed {
        Cleanup();
      }
      state := InProgress;
      ok := StartMessage();
      if ok {
        PlantRoot();
      } else {
        state := NotStarted;
      }
    }

    /** The second half of mpack_tree_parse_start: the first page, and the root as the only pending node. */
    method PlantRoot()
      requires Buffered() && size == 0 && possible == dataLength > 0 && Fits(input, base, 1)
      modifies this`possible, this`nodeCount, this`pages, this`root, this`nodes, this`nodesLeft, this`stack, this`owed
      ensures Parsing()
    {
      hide Fits, Decode, OnTrack, Pending, Tree.Window;
      WindowEnds();
      possible := possible - 1;
      nodeCount := 1;
      pages := [seq(NODES_PER_PAGE, _ => BLANK)];
      root := Ptr(0, 0);
      nodes, nodesLeft := Ptr(0, 1), NODES_PER_PAGE - 1;
      stack := [Level(root, 1)];
      owed := map[root := if Decode(input, base).Some? then Decode(input, base).value.0 else Value(Nil, [], [])];
      RootPending(root);
      OnTrackStart(pages, input, base, root, owed);
    }

    /** mpack_tree_try_parse. Whatever pieces the stream has come in so far, the outcome is that of the
        reference decoder on the bytes delivered: the next object if it is complete, "not yet" if it is
        not, and an error only if no continuation could make it an object. */
    method TryParse() returns (ok: bool)
      requires Valid() && (error == Ok && state != InProgress ==> Fits(input, Next(), 1))
      modifies this, buffer, source
      ensures base + dataLength >= old(base + dataLength)
      ensures Valid() && (buffer == old(buffer) || fresh(buffer))
      ensures old(error) != Ok ==>
                !ok && error == old(error) && base == old(base) && size == old(size) && dataLength == old(dataLength)
      ensures ok ==> error == Ok && state == Parsed && Denotes()
      ensures ok && source == null ==> nodeCount <= size
      ensures old(error) == Ok ==> base == if old(state) == Parsed then old(base) + old(size) else old(base)
      ensures old(error) == Ok && !ok && error == Ok ==> source != null && state != Parsed && Incomplete()
      ensures old(error) == Ok && error != Ok ==> !ok && Decode(input, base).None?
    {
      hide Fits, Parsing, Decode, Represents, Incomplete;
      if error != Ok {
        return false;
      }
      ok := true;
      if state != InProgress {
        ok := ParseStart();
        if !ok {
          return;
        }
      }
      ok := ContinueParsing();
      if ok {
        state := Parsed;
      }
    }

    /** An object of the input that ends within the delivered bytes is an object of these. */
    lemma DeliveredObject()
      requires Buffered()
      ensures Denotes() ==> !Incomplete()
      ensures Decode(input, base).None? ==> Incomplete()
    {
      hide Decode, Represents;
      DecodePrefix(Delivered(), input, base);
    }

    /** mpack_tree_parse, which takes missing data for an error: it succeeds exactly if the delivered
        bytes start with a complete object. */
    method Parse()
      requires Valid() && (error == Ok && state != InProgress ==> Fits(input, Next(), 1))
      modifies this, buffer, source
      ensures Valid() && (buffer == old(buffer) || fresh(buffer))
      ensures old(error) != Ok ==> error == old(error)
      ensures old(error) == Ok ==> base == if old(state) == Parsed then old(base) + old(size) else old(base)
      ensures old(error) == Ok ==> (error == Ok <==> !Incomplete())
      ensures error == Ok && old(error) == Ok ==> state == Parsed && Denotes()
      ensures error == Ok && old(error) == Ok && source == null ==> nodeCount <= size
    {
      hide Fits, Parsing, Denotes, Decode;
      if error != Ok {
        return;
      }
      var ok := TryParse();
      DeliveredObject();
      if !ok {
        FlagError(if source == null then Invalid else Io);
      }
    }
  }
}
