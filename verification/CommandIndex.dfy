/** The command-index filter of process_server_event (ya_server_handler.c:881-971): which requests of a
    client reach their handlers. */
module CommandIndex {
  import opened Bytes
  import opened Events
  import opened ClientTable

  /** find_event_handler: the types with a handler. */
  predicate HasHandler(kind: nat) { MOUSE_MOVE <= kind <= SESSION_OPTION }

  /** need_command_index_check. */
  predicate NeedsCheck(kind: nat) { kind != DISCOVER && kind != AUTHORIZE && kind != HEARTBEAT }

  /** The requests that carry commands: the types from 1 to 12 but for DISCOVER (7), AUTHORIZE (10) and
      HEARTBEAT (11). */
  predicate Command(h: Header) {
    h.direction == 1 && 1 <= h.kind <= 12 && h.kind != 7 && h.kind != 10 && h.kind != 11
  }

  /** The index is unsigned, and the client keeps it in a signed int. */
  lemma StoredExactly(u: nat)
    requires u < TWO32
    ensures IsI32(AsI32(u)) && AsU32(AsI32(u)) == u
  {
  }

  /** The filter: may the event reach its handler? The comparison converts the stored int to unsigned. */
  method Filter(client: Client, h: Header) returns (pass: bool)
    requires ValidHeader(h) && IsI32(client.commandIndex)
    modifies client`commandIndex
    ensures IsI32(client.commandIndex)
    ensures pass == Passes(old(AsU32(client.commandIndex)), h)
    ensures AsU32(client.commandIndex) == Next(old(AsU32(client.commandIndex)), h)
  {
    if !HasHandler(h.kind) {
      return false;
    }
    if h.direction == REQUEST && NeedsCheck(h.kind) {
      if h.index <= AsU32(client.commandIndex) {
        return false;
      }
      client.commandIndex := AsI32(h.index);
    }
    return true;
  }

  /** What the filter decides at a current index, and the index afterwards. */
  predicate Passes(current: int, h: Header) {
    1 <= h.kind <= 12 && (Command(h) ==> h.index > current)
  }

  function Next(current: int, h: Header): int {
    if Command(h) && h.index > current then h.index else current
  }

  /** The index after a sequence of events, from 0 for a new client. */
  function After(hs: seq<Header>): int {
    if hs == [] then 0 else Next(After(hs[..|hs| - 1]), hs[|hs| - 1])
  }

  /** The index is the largest of the commands seen, or 0. */
  lemma {:induction false} Largest(hs: seq<Header>)
    ensures After(hs) >= 0
    ensures forall j | 0 <= j < |hs| && Command(hs[j]) :: hs[j].index <= After(hs)
    ensures After(hs) == 0 || exists j :: 0 <= j < |hs| && Command(hs[j]) && hs[j].index == After(hs)
  {
    if hs != [] {
      var n := |hs| - 1;
      Largest(hs[..n]);
      forall j | 0 <= j < |hs| && Command(hs[j]) ensures hs[j].index <= After(hs) {
        if j < n { assert hs[..n][j] == hs[j]; }
      }
      if After(hs) != 0 {
        if After(hs) == After(hs[..n]) {
          var j :| 0 <= j < n && Command(hs[..n][j]) && hs[..n][j].index == After(hs);
          assert hs[j].index == After(hs);
        } else {
          assert Command(hs[n]) && hs[n].index == After(hs);
        }
      }
    }
  }

  /** The i-th event of a sequence reaches its handler. */
  predicate Reaches(hs: seq<Header>, i: nat)
    requires i < |hs|
  {
    Passes(After(hs[..i]), hs[i])
  }

  /** Of the requests that carry commands, exactly the strict running maxima above 0 reach a handler. Anything
      else of a known type always does, and nothing of an unknown type. */
  lemma RunningMaxima(hs: seq<Header>, i: nat)
    requires i < |hs|
    ensures Command(hs[i]) ==>
              (Reaches(hs, i) <==> hs[i].index > 0 && forall j | 0 <= j < i && Command(hs[j]) :: hs[j].index < hs[i].index)
    ensures !Command(hs[i]) ==> (Reaches(hs, i) <==> 1 <= hs[i].kind <= 12)
  {
    var before := hs[..i];
    Largest(before);
    forall j | 0 <= j < i ensures before[j] == hs[j] {
    }
  }

  /** Under any duplication or reordering, a command reaches a handler at most once, and in order. */
  lemma AtMostOnce(hs: seq<Header>, i: nat, j: nat)
    requires i < j < |hs| && Command(hs[i]) && Command(hs[j]) && Reaches(hs, i) && Reaches(hs, j)
    ensures hs[i].index < hs[j].index
  {
    RunningMaxima(hs, j);
  }

  /** The index is the largest of those of the commands, from some index on. */
  predicate IsLargest(start: int, hs: seq<Header>, index: int) {
    && index >= start && (forall i | 0 <= i < |hs| && Command(hs[i]) :: hs[i].index <= index)
    && (index == start || exists i :: 0 <= i < |hs| && Command(hs[i]) && hs[i].index == index)
  }

  lemma LargestMore(start: int, hs: seq<Header>, index: int, h: Header)
    requires IsLargest(start, hs, index)
    ensures IsLargest(start, hs + [h], Next(index, h))
  {
    var hs' := hs + [h];
    if Next(index, h) != index {
      assert hs'[|hs|] == h;
    } else if index != start {
      var i :| 0 <= i < |hs| && Command(hs[i]) && hs[i].index == index;
      assert hs'[i] == hs[i];
    }
  }

  /** The filter over everything a client sends, over whatever transports: commands are handled once and in
      order, and the client's index is the largest of them. */
  method FilterAll(client: Client, hs: seq<Header>) returns (reached: seq<bool>)
    requires client.commandIndex == 0 && forall i | 0 <= i < |hs| :: ValidHeader(hs[i])
    modifies client`commandIndex
    ensures |reached| == |hs|
    ensures forall i | 0 <= i < |hs| :: reached[i] <==>
              if Command(hs[i]) then hs[i].index > 0 && forall j | 0 <= j < i && Command(hs[j]) :: hs[j].index < hs[i].index
              else 1 <= hs[i].kind <= 12
    ensures forall i | 0 <= i < |hs| && Command(hs[i]) :: hs[i].index <= AsU32(client.commandIndex)
    ensures AsU32(client.commandIndex) == 0 ||
            exists i :: 0 <= i < |hs| && Command(hs[i]) && hs[i].index == AsU32(client.commandIndex)
  {
    hide AsU32, After, Reaches;
    StartsAtZero();
    reached := [];
    for n := 0 to |hs|
      invariant |reached| == n && forall i | 0 <= i < n :: reached[i] == Reaches(hs, i)
      invariant IsI32(client.commandIndex) && AsU32(client.commandIndex) == After(hs[..n])
    {
      OneMore(hs, n);
      var pass := Filter(client, hs[n]);
      reached := reached + [pass];
    }
    assert hs[..|hs|] == hs;
    Largest(hs);
    forall i | 0 <= i < |hs| ensures reached[i] <==>
              if Command(hs[i]) then hs[i].index > 0 && forall j | 0 <= j < i && Command(hs[j]) :: hs[j].index < hs[i].index
              else 1 <= hs[i].kind <= 12
    {
      RunningMaxima(hs, i);
    }
  }

  lemma StartsAtZero()
    ensures AsU32(0) == 0 == After([])
  {
  }

  lemma OneMore(hs: seq<Header>, n: nat)
    requires n < |hs|
    ensures After(hs[..n + 1]) == Next(After(hs[..n]), hs[n]) && Reaches(hs, n) == Passes(After(hs[..n]), hs[n])
  {
    assert hs[..n + 1][..n] == hs[..n];
  }
}
