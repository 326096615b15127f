/** Parsed nodes in pages (mpack.h:6876-6919), and the bookkeeping that ties a half-parsed tree to the
    value its bytes denote. Everything here is a statement about values; TreeParser changes the state. */
module NodeStore {
  import opened Bytes
  import opened MessagePack

  datatype Ptr = Ptr(page: nat, index: nat)

  /** mpack_node_data_t: the tag holds type, len and scalar value; offset is for str and bin, children
      for arrays and maps. */
  datatype Node = Node(tag: Tag, offset: nat, children: Ptr)

  const BLANK := Node(Nil, 0, Ptr(0, 0))

  type Pages = seq<seq<Node>>

  predicate InPages(pages: Pages, p: Ptr) {
    p.page < |pages| && p.index < |pages[p.page]|
  }

  function At(pages: Pages, p: Ptr): Node
    requires InPages(pages, p)
  {
    pages[p.page][p.index]
  }

  function Put(pages: Pages, p: Ptr, node: Node): Pages
    requires InPages(pages, p)
  {
    pages[p.page := pages[p.page][p.index := node]]
  }

  /** The i-th node behind p. */
  function Offset(p: Ptr, i: nat): Ptr { Ptr(p.page, p.index + i) }

  function Range(p: Ptr, n: nat): (r: seq<Ptr>)
    ensures |r| == n && forall i | 0 <= i < n :: r[i] == Offset(p, i)
  {
    seq(n, i requires 0 <= i < n => Offset(p, i))
  }

  /** mpack_level_t. */
  datatype Level = Level(child: Ptr, left: nat)

  /** The nodes still to be parsed, in parsing order: the top of the stack first. */
  function Pending(stack: seq<Level>): seq<Ptr> {
    if stack == [] then []
    else Range(stack[|stack| - 1].child, stack[|stack| - 1].left) + Pending(stack[..|stack| - 1])
  }

  /** Sum of `left` over the stack. */
  function TotalLeft(stack: seq<Level>): nat {
    if stack == [] then 0 else stack[|stack| - 1].left + TotalLeft(stack[..|stack| - 1])
  }

  lemma {:induction false} PendingCount(stack: seq<Level>)
    ensures |Pending(stack)| == TotalLeft(stack)
  {
    if stack != [] {
      PendingCount(stack[..|stack| - 1]);
    }
  }

  /** The top level gives up its first node, whose children (if any) become a level of their own. */
  function Descend(stack: seq<Level>, children: Ptr, c: nat): seq<Level>
    requires stack != [] && stack[|stack| - 1].left > 0
  {
    var top := stack[|stack| - 1];
    var stack' := stack[..|stack| - 1] + [Level(Offset(top.child, 1), top.left - 1)];
    if c == 0 then stack' else stack' + [Level(children, c)]
  }

  lemma RangeRest(p: Ptr, n: nat)
    requires n > 0
    ensures Range(p, n)[0] == p && Range(p, n)[1..] == Range(Offset(p, 1), n - 1)
  {
    assert forall i | 0 <= i < n - 1 :: Offset(p, i + 1) == Offset(Offset(p, 1), i);
  }

  lemma {:induction false} PendingPush(below: seq<Level>, level: Level)
    ensures Pending(below + [level]) == Range(level.child, level.left) + Pending(below)
  {
    assert (below + [level])[..|below|] == below;
  }

  lemma {:induction false} PendingDescend(stack: seq<Level>, children: Ptr, c: nat)
    requires stack != [] && stack[|stack| - 1].left > 0
    ensures Pending(stack) != [] && Pending(stack)[0] == stack[|stack| - 1].child
    ensures Pending(Descend(stack, children, c)) == NextPending(Pending(stack), children, c)
  {
    hide Range, Pending;
    var top := stack[|stack| - 1];
    var below := stack[..|stack| - 1];
    var rest := below + [Level(Offset(top.child, 1), top.left - 1)];
    assert stack == below + [top];
    PendingPush(below, top);
    PendingPush(below, Level(Offset(top.child, 1), top.left - 1));
    RangeRest(top.child, top.left);
    assert Pending(rest) == Pending(stack)[1..];
    if c == 0 {
      assert Range(children, 0) + Pending(rest) == Pending(rest);
    } else {
      PendingPush(rest, Level(children, c));
    }
  }

  /** Popping a level without pending nodes changes nothing. */
  lemma {:induction false} PendingPop(stack: seq<Level>)
    requires stack != [] && stack[|stack| - 1].left == 0
    ensures Pending(stack) == Pending(stack[..|stack| - 1])
  {
    assert Range(stack[|stack| - 1].child, 0) == [];
  }

  /** The nodes reachable from p spell out the value v; str and bin data is `offset` bytes into the
      message, which starts at `base`. */
  predicate Represents(pages: Pages, input: seq<byte>, base: nat, p: Ptr, v: Value)
    decreases v
  {
    && Spells(pages, input, base, p, v)
    && forall i | 0 <= i < |v.items| :: Represents(pages, input, base, Offset(At(pages, p).children, i), v.items[i])
  }

  /** One node agrees with v, leaving its elements aside. */
  predicate Spells(pages: Pages, input: seq<byte>, base: nat, p: Ptr, v: Value) {
    && InPages(pages, p)
    && At(pages, p).tag == v.tag
    && |v.items| == v.tag.Children()
    && (v.tag.Str? || v.tag.Bin? ==>
          && base + At(pages, p).offset + v.tag.Payload() <= |input|
          && input[base + At(pages, p).offset..base + At(pages, p).offset + v.tag.Payload()] == v.data)
  }

  /** `owed` says for every node ever handed out which value it has to spell. A parsed node does, and its
      children are handed out and owe its elements. */
  ghost predicate Settled(pages: Pages, input: seq<byte>, base: nat, owed: map<Ptr, Value>, p: Ptr)
    requires p in owed
  {
    && Spells(pages, input, base, p, owed[p])
    && forall i | 0 <= i < |owed[p].items| ::
         Offset(At(pages, p).children, i) in owed && owed[Offset(At(pages, p).children, i)] == owed[p].items[i]
  }

  /** Pending nodes are handed out and distinct. */
  ghost predicate Listed(pend: seq<Ptr>, owed: map<Ptr, Value>) {
    && (forall i | 0 <= i < |pend| :: pend[i] in owed)
    && (forall i, j | 0 <= i < j < |pend| :: pend[i] != pend[j])
  }

  /** What the message at hand denotes, and what reading all pending objects yields. */
  type Goal = Option<(Value, nat)>
  type Reading = Option<(seq<Value>, nat)>

  /** Reading the pending objects succeeds just when reading the message does, and ends there. */
  predicate SameReading(goal: Goal, reading: Reading) {
    && (goal.Some? <==> reading.Some?)
    && (goal.Some? ==> goal.value.1 == reading.value.1)
  }

  /** The pending nodes owe the values vs. */
  ghost predicate Owing(pend: seq<Ptr>, vs: seq<Value>, owed: map<Ptr, Value>)
    requires Listed(pend, owed) && |vs| == |pend|
  {
    forall i | 0 <= i < |pend| :: owed[pend[i]] == vs[i]
  }

  /** All other nodes are settled. */
  ghost predicate OthersSettled(pages: Pages, input: seq<byte>, base: nat, pend: seq<Ptr>, owed: map<Ptr, Value>) {
    forall p | p in owed && p !in pend :: Settled(pages, input, base, owed, p)
  }

  /** The parser is about to read the nodes `pend`: reading that many objects is the same as reading the
      whole message, and if there is a message then the pending nodes owe exactly those objects and all
      others are settled. */
  ghost predicate Steering(pages: Pages, input: seq<byte>, base: nat, goal: Goal, reading: Reading,
                           pend: seq<Ptr>, owed: map<Ptr, Value>, root: Ptr)
  {
    && root in owed
    && Listed(pend, owed)
    && SameReading(goal, reading)
    && (reading.Some? ==> |reading.value.0| == |pend|)
    && (goal.Some? ==>
          && owed[root] == goal.value.0
          && Owing(pend, reading.value.0, owed)
          && OthersSettled(pages, input, base, pend, owed))
  }

  /** The same for a parser at position `cur` of the message at `base`. */
  ghost predicate OnTrack(pages: Pages, input: seq<byte>, base: nat, cur: nat, pend: seq<Ptr>, owed: map<Ptr, Value>, root: Ptr) {
    && base <= cur <= |input|
    && Steering(pages, input, base, Decode(input, base), DecodeMany(input, cur, |pend|), pend, owed, root)
  }

  /** Before the first node. */
  lemma OnTrackStart(pages: Pages, input: seq<byte>, base: nat, root: Ptr, owed: map<Ptr, Value>)
    requires base <= |input| && owed.Keys == {root}
    requires Decode(input, base).Some? ==> owed[root] == Decode(input, base).value.0
    ensures OnTrack(pages, input, base, base, [root], owed, root)
  {
    if Decode(input, base).Some? {
      assert DecodeMany(input, Decode(input, base).value.1, 0).Some?;
    }
  }

  /** After the last node the nodes spell the message. */
  lemma OnTrackEnd(pages: Pages, input: seq<byte>, base: nat, cur: nat, owed: map<Ptr, Value>, root: Ptr)
    requires OnTrack(pages, input, base, cur, [], owed, root)
    ensures Decode(input, base).Some? && Decode(input, base).value.1 == cur
    ensures Represents(pages, input, base, root, Decode(input, base).value.0)
  {
    assert DecodeMany(input, cur, 0) == Some(([], cur));
    SettledRepresents(pages, input, base, owed, root);
  }

  lemma {:induction false} SettledRepresents(pages: Pages, input: seq<byte>, base: nat, owed: map<Ptr, Value>, p: Ptr)
    requires p in owed && forall q | q in owed :: Settled(pages, input, base, owed, q)
    ensures Represents(pages, input, base, p, owed[p])
    decreases owed[p]
  {
    forall i | 0 <= i < |owed[p].items|
      ensures Represents(pages, input, base, Offset(At(pages, p).children, i), owed[p].items[i])
    {
      assert Settled(pages, input, base, owed, p);
      SettledRepresents(pages, input, base, owed, Offset(At(pages, p).children, i));
    }
  }

  /** The n nodes from p on, as a set. */
  ghost function RangeSet(p: Ptr, n: nat): (s: set<Ptr>)
    ensures forall q :: q in s <==> q.page == p.page && p.index <= q.index < p.index + n
    ensures |s| == n
  {
    if n == 0 then {} else
    var last := Ptr(p.page, p.index + n - 1);
    assert forall q: Ptr | q.page == p.page && q.index == last.index :: q == last;
    RangeSet(p, n - 1) + {last}
  }

  /** What the children of a node owe, given that the node owes v. */
  ghost function ChildDebts(children: Ptr, c: nat, v: Value): (m: map<Ptr, Value>)
    ensures m.Keys == RangeSet(children, c)
  {
    map q | q in RangeSet(children, c) :: if q.index - children.index < |v.items| then v.items[q.index - children.index] else v
  }

  lemma DebtAt(children: Ptr, c: nat, v: Value, i: nat)
    requires i < c
    ensures Offset(children, i) in ChildDebts(children, c, v)
    ensures i < |v.items| ==> ChildDebts(children, c, v)[Offset(children, i)] == v.items[i]
  {
  }

  lemma DebtsInOrder(children: Ptr, c: nat, v: Value)
    ensures forall i | 0 <= i < c :: Offset(children, i) in ChildDebts(children, c, v)
    ensures forall i | 0 <= i < c && i < |v.items| :: ChildDebts(children, c, v)[Offset(children, i)] == v.items[i]
  {
    forall i | 0 <= i < c
      ensures Offset(children, i) in ChildDebts(children, c, v)
      ensures i < |v.items| ==> ChildDebts(children, c, v)[Offset(children, i)] == v.items[i]
    {
      DebtAt(children, c, v, i);
    }
  }

  /** Nobody holds the c nodes from `children` on. */
  ghost predicate Unclaimed(children: Ptr, c: nat, owed: map<Ptr, Value>) {
    forall i | 0 <= i < c :: Offset(children, i) !in owed
  }

  /** Pages only ever grow in number, and nodes other than p keep their contents. */
  ghost predicate KeepsOthers(pages: Pages, pages': Pages, p: Ptr) {
    forall q | InPages(pages, q) :: InPages(pages', q) && (q != p ==> At(pages', q) == At(pages, q))
  }

  lemma PutKeepsOthers(pages: Pages, more: Pages, p: Ptr, node: Node)
    requires |pages| <= |more| && more[..|pages|] == pages && InPages(pages, p)
    ensures InPages(more, p) && KeepsOthers(pages, Put(more, p, node), p)
    ensures InPages(Put(more, p, node), p) && At(Put(more, p, node), p) == node
  {
    assert forall i | 0 <= i < |pages| :: more[i] == more[..|pages|][i] == pages[i];
  }

  /** Settled nodes stay settled when another node is parsed and more are handed out. */
  lemma SettledStays(pages: Pages, pages': Pages, input: seq<byte>, base: nat, owed: map<Ptr, Value>,
                     debts: map<Ptr, Value>, p: Ptr, written: Ptr)
    requires p in owed && p != written && Settled(pages, input, base, owed, p)
    requires KeepsOthers(pages, pages', written) && debts.Keys !! owed.Keys
    ensures Settled(pages', input, base, owed + debts, p)
  {
    assert At(pages', p) == At(pages, p);
  }

  /** A node filled in from the bytes at `cur` agrees with the object that stands there. */
  lemma SpellsNow(pages: Pages, input: seq<byte>, base: nat, cur: nat, p: Ptr, items: seq<Value>)
    requires HasTag(input, cur) && BodyEnd(input, cur) <= |input|
    requires InPages(pages, p) && At(pages, p).tag == TagAt(input, cur)
    requires base + At(pages, p).offset == cur + TagSize(input[cur])
    requires |items| == TagAt(input, cur).Children()
    ensures Spells(pages, input, base, p, ObjectAt(input, cur, items))
  {
  }

  /** The pending nodes after a node with c children: the children come first. */
  function NextPending(pend: seq<Ptr>, children: Ptr, c: nat): (r: seq<Ptr>)
    requires pend != []
    ensures |r| == c + (|pend| - 1)
    ensures forall i | 0 <= i < |r| :: r[i] == if i < c then Offset(children, i) else pend[i - c + 1]
  {
    Range(children, c) + pend[1..]
  }

  lemma ListedStep(pend: seq<Ptr>, owed: map<Ptr, Value>, children: Ptr, c: nat, debts: map<Ptr, Value>)
    requires Listed(pend, owed) && pend != []
    requires Unclaimed(children, c, owed) && forall i | 0 <= i < c :: Offset(children, i) in debts
    ensures Listed(NextPending(pend, children, c), owed + debts)
  {
  }

  /** Debts of a fresh range of nodes are all new. */
  lemma FreshDebts(owed: map<Ptr, Value>, children: Ptr, c: nat, v: Value)
    requires Unclaimed(children, c, owed)
    ensures ChildDebts(children, c, v).Keys !! owed.Keys
  {
    forall q | q in owed ensures q !in ChildDebts(children, c, v) {
      if q.page == children.page && children.index <= q.index < children.index + c {
        assert Offset(children, q.index - children.index) !in owed;
      }
    }
  }

  /** Handed-out nodes exist, and lie before the free ones of the current page. */
  ghost predicate Inside(pages: Pages, nodes: Ptr, owed: map<Ptr, Value>) {
    forall p | p in owed :: InPages(pages, p) && (p.page == nodes.page ==> p.index < nodes.index)
  }

  lemma InsideStep(pages: Pages, nodes: Ptr, owed: map<Ptr, Value>, children: Ptr, c: nat, v: Value)
    requires Inside(pages, nodes, owed)
    requires Unclaimed(children, c, owed) && forall i | 0 <= i < c :: InPages(pages, Offset(children, i))
    requires children.page == nodes.page ==> children.index + c <= nodes.index
    ensures Inside(pages, nodes, owed + ChildDebts(children, c, v))
    ensures |owed + ChildDebts(children, c, v)| == |owed| + c
  {
    var debts := ChildDebts(children, c, v);
    FreshDebts(owed, children, c, v);
    forall p | p in debts ensures InPages(pages, p) && (p.page == nodes.page ==> p.index < nodes.index) {
      assert InPages(pages, Offset(children, p.index - children.index));
    }
    assert (owed + debts).Keys == owed.Keys + debts.Keys;
  }

  lemma InsideHas(pages: Pages, nodes: Ptr, owed: map<Ptr, Value>, p: Ptr)
    requires Inside(pages, nodes, owed) && p in owed
    ensures InPages(pages, p)
  {
  }

  lemma PutInside(pages: Pages, p: Ptr, node: Node, nodes: Ptr, owed: map<Ptr, Value>)
    requires InPages(pages, p) && Inside(pages, nodes, owed)
    ensures Inside(Put(pages, p, node), nodes, owed)
    ensures |Put(pages, p, node)| == |pages| && forall i | 0 <= i < |pages| :: |Put(pages, p, node)[i]| == |pages[i]|
  {
  }

  /** Every debt and every other pending node is among the next pending nodes. */
  lemma NextPendingHas(pend: seq<Ptr>, children: Ptr, c: nat, v: Value, p: Ptr)
    requires pend != []
    ensures p in ChildDebts(children, c, v) || (p in pend && p != pend[0]) ==> p in NextPending(pend, children, c)
  {
    var pend' := NextPending(pend, children, c);
    if p in ChildDebts(children, c, v) {
      assert p == pend'[p.index - children.index];
    }
    if i :| 0 < i < |pend| && pend[i] == p {
      assert p == pend'[c + i - 1];
    }
  }

  lemma SettledStep(pages: Pages, pages': Pages, input: seq<byte>, base: nat, pend: seq<Ptr>,
                    owed: map<Ptr, Value>, children: Ptr, v: Value, p: Ptr)
    requires Listed(pend, owed) && pend != [] && owed[pend[0]] == v
    requires p in owed && p !in pend ==> Settled(pages, input, base, owed, p)
    requires Spells(pages', input, base, pend[0], v) && At(pages', pend[0]).children == children
    requires KeepsOthers(pages, pages', pend[0])
    requires ChildDebts(children, |v.items|, v).Keys !! owed.Keys
    requires p in owed + ChildDebts(children, |v.items|, v) && p !in NextPending(pend, children, |v.items|)
    ensures Settled(pages', input, base, owed + ChildDebts(children, |v.items|, v), p)
  {
    NextPendingHas(pend, children, |v.items|, v, p);
    if p == pend[0] {
      DebtsInOrder(children, |v.items|, v);
    } else {
      SettledStays(pages, pages', input, base, owed, ChildDebts(children, |v.items|, v), p, pend[0]);
    }
  }

  lemma OthersSettledStep(pages: Pages, pages': Pages, input: seq<byte>, base: nat, pend: seq<Ptr>,
                          owed: map<Ptr, Value>, children: Ptr, v: Value)
    requires Listed(pend, owed) && pend != [] && owed[pend[0]] == v && OthersSettled(pages, input, base, pend, owed)
    requires Spells(pages', input, base, pend[0], v) && At(pages', pend[0]).children == children
    requires KeepsOthers(pages, pages', pend[0])
    requires ChildDebts(children, |v.items|, v).Keys !! owed.Keys
    ensures OthersSettled(pages', input, base, NextPending(pend, children, |v.items|),
                          owed + ChildDebts(children, |v.items|, v))
  {
    forall p | p in owed + ChildDebts(children, |v.items|, v) && p !in NextPending(pend, children, |v.items|)
      ensures Settled(pages', input, base, owed + ChildDebts(children, |v.items|, v), p)
    {
      SettledStep(pages, pages', input, base, pend, owed, children, v, p);
    }
  }

  lemma OwingStep(pend: seq<Ptr>, owed: map<Ptr, Value>, children: Ptr, v: Value, vs: seq<Value>, ws: seq<Value>)
    requires Listed(pend, owed) && pend != [] && |vs| == |pend| && Owing(pend, vs, owed)
    requires |ws| == |v.items| + (|pend| - 1) && ws[..|v.items|] == v.items && vs == [v] + ws[|v.items|..]
    requires ChildDebts(children, |v.items|, v).Keys !! owed.Keys
    requires Listed(NextPending(pend, children, |v.items|), owed + ChildDebts(children, |v.items|, v))
    ensures Owing(NextPending(pend, children, |v.items|), ws, owed + ChildDebts(children, |v.items|, v))
  {
    var c := |v.items|;
    var debts := ChildDebts(children, c, v);
    var pend' := NextPending(pend, children, c);
    DebtsInOrder(children, c, v);
    forall i | 0 <= i < |pend'| ensures (owed + debts)[pend'[i]] == ws[i] {
      if i < c {
        assert v.items[i] == ws[i];
      } else {
        assert vs[i - c + 1] == ws[i] && pend[i - c + 1] in owed;
      }
    }
  }

  lemma OnTrackDebts(pages: Pages, pages': Pages, input: seq<byte>, base: nat, pend: seq<Ptr>,
                     owed: map<Ptr, Value>, children: Ptr, v: Value, vs: seq<Value>, ws: seq<Value>)
    requires Listed(pend, owed) && pend != [] && |vs| == |pend| && Owing(pend, vs, owed)
    requires OthersSettled(pages, input, base, pend, owed)
    requires |ws| == |v.items| + (|pend| - 1) && ws[..|v.items|] == v.items && vs == [v] + ws[|v.items|..]
    requires Spells(pages', input, base, pend[0], v) && At(pages', pend[0]).children == children
    requires KeepsOthers(pages, pages', pend[0])
    requires ChildDebts(children, |v.items|, v).Keys !! owed.Keys
    requires Listed(NextPending(pend, children, |v.items|), owed + ChildDebts(children, |v.items|, v))
    ensures owed[pend[0]] == v
    ensures Owing(NextPending(pend, children, |v.items|), ws, owed + ChildDebts(children, |v.items|, v))
    ensures OthersSettled(pages', input, base, NextPending(pend, children, |v.items|),
                          owed + ChildDebts(children, |v.items|, v))
  {
    hide OthersSettled, KeepsOthers, Spells, ChildDebts, NextPending;
    assert vs[0] == v;
    OwingStep(pend, owed, children, v, vs, ws);
    OthersSettledStep(pages, pages', input, base, pend, owed, children, v);
  }

  /** The step of a parser that takes the next object v apart: its node is filled in, its elements are
      handed out as a range of nodes nobody holds yet, and reading goes on behind it. */
  lemma SteeringStep(pages: Pages, pages': Pages, input: seq<byte>, base: nat, goal: Goal, reading: Reading, reading': Reading,
                     pend: seq<Ptr>, owed: map<Ptr, Value>, root: Ptr, children: Ptr, c: nat, v: Value)
    requires Steering(pages, input, base, goal, reading, pend, owed, root) && pend != [] && pend[0] in owed
    requires SameReading(goal, reading') && (reading'.Some? ==> |reading'.value.0| == c + (|pend| - 1))
    requires goal.Some? ==>
               && reading.Some? && reading.value.0 == [v] + reading'.value.0[c..]
               && |v.items| == c && reading'.value.0[..c] == v.items
               && Spells(pages', input, base, pend[0], v) && At(pages', pend[0]).children == children
    requires KeepsOthers(pages, pages', pend[0])
    requires Unclaimed(children, c, owed)
    ensures Steering(pages', input, base, goal, reading', NextPending(pend, children, c),
                     owed + ChildDebts(children, c, owed[pend[0]]), root)
  {
    hide Owing, OthersSettled, Spells, KeepsOthers, ChildDebts, NextPending;
    FreshDebts(owed, children, c, owed[pend[0]]);
    DebtsInOrder(children, c, owed[pend[0]]);
    ListedStep(pend, owed, children, c, ChildDebts(children, c, owed[pend[0]]));
    if goal.Some? {
      OnTrackDebts(pages, pages', input, base, pend, owed, children, v, reading.value.0, reading'.value.0);
    }
  }

  /** Reading goes on behind the object at `cur`, with its elements next. */
  lemma ReadingStep(goal: Goal, input: seq<byte>, cur: nat, n: nat)
    requires cur <= |input| && n > 0 && HasTag(input, cur) && BodyEnd(input, cur) <= |input|
    requires SameReading(goal, DecodeMany(input, cur, n))
    ensures var c := TagAt(input, cur).Children();
            var reading' := DecodeMany(input, BodyEnd(input, cur), c + (n - 1));
            && SameReading(goal, reading')
            && (goal.Some? ==>
                  DecodeMany(input, cur, n).value.0
                  == [ObjectAt(input, cur, reading'.value.0[..c])] + reading'.value.0[c..])
  {
    hide HasTag, TagAt, BodyEnd, ObjectAt, Decode, DecodeMany;
    DecodeUnfold(input, cur, n);
  }

  /** The step of SteeringStep, for a parser at `cur` that moves on to cur'. */
  lemma CourseStep(pages: Pages, pages': Pages, input: seq<byte>, base: nat, cur: nat, cur': nat, pend: seq<Ptr>,
                   owed: map<Ptr, Value>, root: Ptr, children: Ptr, c: nat, v: Value)
    requires OnTrack(pages, input, base, cur, pend, owed, root) && pend != [] && pend[0] in owed
    requires cur <= cur' <= |input|
    requires var reading' := DecodeMany(input, cur', c + (|pend| - 1));
             && SameReading(Decode(input, base), reading')
             && (reading'.Some? ==>
                   && DecodeMany(input, cur, |pend|).Some?
                   && DecodeMany(input, cur, |pend|).value.0 == [v] + reading'.value.0[c..]
                   && |v.items| == c && reading'.value.0[..c] == v.items
                   && Spells(pages', input, base, pend[0], v) && At(pages', pend[0]).children == children)
    requires KeepsOthers(pages, pages', pend[0])
    requires Unclaimed(children, c, owed)
    ensures OnTrack(pages', input, base, cur', NextPending(pend, children, c),
                     owed + ChildDebts(children, c, owed[pend[0]]), root)
  {
    hide Decode, DecodeMany, Steering, Spells, KeepsOthers;
    assert |NextPending(pend, children, c)| == c + (|pend| - 1);
    SteeringStep(pages, pages', input, base, Decode(input, base), DecodeMany(input, cur, |pend|),
                 DecodeMany(input, cur', c + (|pend| - 1)), pend, owed, root, children, c, v);
  }

  /** What a parser on track knows. */
  lemma OnTrackFacts(pages: Pages, input: seq<byte>, base: nat, cur: nat, pend: seq<Ptr>, owed: map<Ptr, Value>, root: Ptr)
    requires OnTrack(pages, input, base, cur, pend, owed, root)
    ensures base <= cur <= |input| && root in owed && Listed(pend, owed)
    ensures pend != [] ==> pend[0] in owed
    ensures SameReading(Decode(input, base), DecodeMany(input, cur, |pend|))
  {
  }

  /** Parsing the node at `cur` keeps the parser on track. */
  lemma OnTrackStep(pages: Pages, pages': Pages, input: seq<byte>, base: nat, cur: nat, pend: seq<Ptr>,
                    owed: map<Ptr, Value>, root: Ptr, node: Node)
    requires OnTrack(pages, input, base, cur, pend, owed, root) && pend != []
    requires pend[0] in owed && base <= cur <= |input|
    requires HasTag(input, cur) && BodyEnd(input, cur) <= |input|
    requires KeepsOthers(pages, pages', pend[0])
    requires InPages(pages', pend[0]) && At(pages', pend[0]) == node
    requires node.tag == TagAt(input, cur) && base + node.offset == cur + TagSize(input[cur])
    requires Unclaimed(node.children, node.tag.Children(), owed)
    ensures OnTrack(pages', input, base, BodyEnd(input, cur), NextPending(pend, node.children, node.tag.Children()),
                     owed + ChildDebts(node.children, node.tag.Children(), owed[pend[0]]), root)
  {
    hide HasTag, TagAt, BodyEnd, Decode, DecodeMany, OnTrack, Spells, KeepsOthers, Listed;
    OnTrackFacts(pages, input, base, cur, pend, owed, root);
    ReadingStep(Decode(input, base), input, cur, |pend|);
    var c := node.tag.Children();
    var reading' := DecodeMany(input, BodyEnd(input, cur), c + (|pend| - 1));
    var v := owed[pend[0]];
    if reading'.Some? {
      v := ObjectAt(input, cur, reading'.value.0[..c]);
      SpellsNow(pages', input, base, cur, pend[0], reading'.value.0[..c]);
    }
    CourseStep(pages, pages', input, base, cur, BodyEnd(input, cur), pend, owed, root, node.children, c, v);
  }
}
