/** The client table (ya_client_manager.c): 251 hash chains of reference-counted clients. */
module ClientTable {
  import opened Bytes

  const HASH_SIZE: nat := 251

  datatype ClientState = Active | Disconnecting | Disconnected

  /** A connection's bufferevent. Closing the descriptor comes with freeing it (BEV_OPT_CLOSE_ON_FREE). */
  class BufferEvent {
    const fd: int

    constructor (fd: int)
      ensures this.fd == fd
    {
      this.fd := fd;
    }
  }

  /** The event loop's side: which bufferevents have been created and not yet freed. */
  class EventBase {
    var open: set<BufferEvent>

    constructor ()
      ensures open == {}
    {
      open := {};
    }

    /** bufferevent_socket_new. */
    method Open(bev: BufferEvent)
      requires bev !in open
      modifies this
      ensures open == old(open) + {bev}
    {
      open := open + {bev};
    }

    /** bufferevent_free, which may be called once. */
    method Free(bev: BufferEvent)
      requires bev in open
      modifies this
      ensures open == old(open) - {bev}
    {
      open := open - {bev};
    }
  }

  /** ya_client_t. */
  class Client {
    const fd: int
    const uid: nat
    var commandIndex: int
    var refCount: nat
    var state: ClientState
    var bev: BufferEvent?
    var next: Client?
    var protocolVersion: nat

    constructor (fd: int, uid: nat, bev: BufferEvent, next: Client?)
      ensures this.fd == fd && this.uid == uid && this.bev == bev && this.next == next
      ensures commandIndex == 0 && refCount == 1 && state == Active && protocolVersion == 0
    {
      this.fd, this.uid, this.bev, this.next := fd, uid, bev, next;
      commandIndex, refCount, state, protocolVersion := 0, 1, Active, 0;
    }
  }

  function Hash(uid: nat): nat { uid % HASH_SIZE }

  ghost predicate NoDuplicates(s: seq<Client>) {
    forall i, j | 0 <= i < j < |s| :: s[i] != s[j]
  }

  /** Every client sits in exactly one chain, that of its uid, at one place. */
  ghost predicate Placed(chains: seq<seq<Client>>, live: set<Client>) {
    && |chains| == HASH_SIZE
    && (forall c | c in live :: c in chains[Hash(c.uid)])
    && (forall i, c | 0 <= i < HASH_SIZE && c in chains[i] :: c in live && Hash(c.uid) == i)
    && (forall i | 0 <= i < HASH_SIZE :: NoDuplicates(chains[i]))
  }

  ghost function NoChains(): (chains: seq<seq<Client>>)
    ensures Placed(chains, {}) && forall i | 0 <= i < HASH_SIZE :: chains[i] == []
  {
    seq(HASH_SIZE, _ => [])
  }

  lemma PlacedAdd(chains: seq<seq<Client>>, live: set<Client>, c: Client)
    requires Placed(chains, live) && c !in live
    ensures Placed(chains[Hash(c.uid) := [c] + chains[Hash(c.uid)]], live + {c})
  {
    var h := Hash(c.uid);
    var chain := [c] + chains[h];
    var chains' := chains[h := chain];
    assert NoDuplicates(chain) by {
      forall i, j | 0 <= i < j < |chain| ensures chain[i] != chain[j] {
        assert NoDuplicates(chains[h]);
        assert chain[j] in chains[h];
      }
    }
    forall i, d | 0 <= i < HASH_SIZE && d in chains'[i] ensures d in live + {c} && Hash(d.uid) == i {
      assert (d == c && i == h) || d in chains[i];
    }
    forall d | d in live + {c} ensures d in chains'[Hash(d.uid)] {
      if d == c { assert chain[0] == c; } else { assert d in chains[Hash(d.uid)]; }
    }
  }

  function Without(s: seq<Client>, k: nat): seq<Client>
    requires k < |s|
  {
    s[..k] + s[k + 1..]
  }

  lemma PlacedRemove(chains: seq<seq<Client>>, live: set<Client>, h: nat, k: nat)
    requires Placed(chains, live) && h < HASH_SIZE && k < |chains[h]|
    ensures Placed(chains[h := Without(chains[h], k)], live - {chains[h][k]}) && chains[h][k] in live
  {
    var c, chain := chains[h][k], Without(chains[h], k);
    var chains' := chains[h := chain];
    assert NoDuplicates(chains[h]) && c in chains[h];
    assert NoDuplicates(chain);
    forall i, d | 0 <= i < HASH_SIZE && d in chains'[i] ensures d in live - {c} && Hash(d.uid) == i {
      if i == h {
        var j :| 0 <= j < |chain| && chain[j] == d;
        var j' := if j < k then j else j + 1;
        assert d == chains[h][j'] && j' != k;
        assert d in chains[h] && d != c;
      } else {
        assert d in chains[i] && Hash(d.uid) == i && Hash(c.uid) == h;
      }
    }
    forall d | d in live - {c} ensures d in chains'[Hash(d.uid)] {
      if Hash(d.uid) == h {
        var j :| 0 <= j < |chains[h]| && chains[h][j] == d;
        assert d == chain[if j < k then j else j - 1];
      }
    }
  }

  function Following(s: seq<Client>, j: int): Client?
    requires -1 <= j < |s|
  {
    if j + 1 < |s| then s[j + 1] else null
  }

  /** The next pointers from `head` spell the chain s, and end. */
  ghost predicate Linked(head: Client?, s: seq<Client>)
    reads s`next
  {
    && head == Following(s, -1)
    && forall j | 0 <= j < |s| :: s[j].next == Following(s, j)
  }

  /** The uid after n allocations: 0 is skipped when the 32-bit counter wraps. */
  function UidAfter(n: nat): nat { n % (TWO32 - 1) + 1 }

  /** The wrapping counter, as the code steps it. */
  lemma UidStep(n: nat)
    ensures 0 < UidAfter(n) < TWO32
    ensures n < TWO32 - 1 ==> UidAfter(n) == n + 1
    ensures UidAfter(n + 1) == if (UidAfter(n) + 1) % TWO32 == 0 then 1 else (UidAfter(n) + 1) % TWO32
  {
  }

  /** Uids in use, before the counter wraps: all different, and none that is still to come. */
  ghost predicate Numbered(live: set<Client>, created: nat) {
    && (forall c | c in live :: 0 < c.uid < TWO32)
    && (created < TWO32 ==> forall c | c in live :: c.uid <= created)
    && (created < TWO32 ==> forall c, d | c in live && d in live && c.uid == d.uid :: c == d)
  }

  lemma NumberedAdd(live: set<Client>, created: nat, c: Client)
    requires Numbered(live, created) && c.uid == UidAfter(created)
    ensures Numbered(live + {c}, created + 1)
  {
    UidStep(created);
  }

  class Manager {
    const base: EventBase
    const buckets: array<Client?>
    var clientCount: nat
    var nextUid: nat
    ghost var chains: seq<seq<Client>>
    var live: set<Client>           // the allocator's side: allocated and not yet freed
    ghost var created: nat          // since the last cleanup
    ghost var freed: nat

    /** The buckets' pointers spell the chains. */
    ghost predicate Chained()
      reads this`chains, this`live, buckets, live`next
    {
      && buckets.Length == HASH_SIZE && Placed(chains, live)
      && forall i | 0 <= i < HASH_SIZE :: Linked(buckets[i], chains[i])
    }

    /** The counters, and the uids handed out. */
    ghost predicate Counted()
      reads this
    {
      && freed <= created && |live| == created - freed && clientCount == |live|
      && nextUid == UidAfter(created)
      && Numbered(live, created)
    }

    /** Clients own different bufferevents, none of which has been freed. */
    ghost predicate Owning()
      reads this`live, live`bev, base
    {
      OwningIn(base.open)
    }

    ghost predicate OwningIn(all: set<BufferEvent>)
      reads this`live, live`bev
    {
      && (forall c | c in live && c.bev != null :: c.bev in all)
      && (forall c, d | c in live && d in live && c.bev != null && c.bev == d.bev :: c == d)
    }

    ghost predicate Valid()
      reads this, buckets, live`next, live`bev, base
    {
      Chained() && Counted() && Owning()
    }

    /** ya_client_manager_init. */
    constructor (base: EventBase)
      ensures Valid() && this.base == base && fresh(buckets) && live == {} && created == 0 && freed == 0
    {
      this.base := base;
      buckets := new Client?[HASH_SIZE](_ => null);
      clientCount, nextUid := 0, 1;
      chains, live, created, freed := NoChains(), {}, 0, 0;
    }

    /** ya_client_create. */
    method Create(fd: int, bev: BufferEvent?) returns (c: Client?)
      requires Valid()
      requires bev != null ==> bev in base.open && forall d | d in live :: d.bev != bev
      modifies this, buckets
      ensures Valid()
      ensures c == null <==> bev == null || fd < 0
      ensures c == null ==> live == old(live) && created == old(created) && freed == old(freed)
      ensures c != null ==>
                && fresh(c) && live == old(live) + {c} && created == old(created) + 1 && freed == old(freed)
                && c.fd == fd && c.uid == UidAfter(old(created)) && c.bev == bev
                && c.state == Active && c.refCount == 1 && c.commandIndex == 0 && c.protocolVersion == 0
    {
      hide Placed, Linked, Numbered, UidAfter, Hash;
      if bev == null || fd < 0 {
        return null;
      }
      UidStep(created);
      var uid := if nextUid == 0 then 1 else nextUid;
      nextUid := (uid + 1) % TWO32;
      if nextUid == 0 {
        nextUid := 1;
      }
      c := new Client(fd, uid, bev, null);
      NumberedAdd(live, created, c);
      Insert(c);
      created := created + 1;
    }

    method Insert(c: Client)
      requires Chained() && c !in live && clientCount == |live|
      modifies this`chains, this`live, this`clientCount, buckets, c`next
      ensures Chained() && live == old(live) + {c} && clientCount == |live|
    {
      hide Placed;
      PlacedAdd(chains, live, c);
      PlacedFacts(chains, live);
      OneMore(live, c);
      var h := Hash(c.uid);
      ghost var was := chains;
      c.next := buckets[h];
      buckets[h] := c;
      clientCount := clientCount + 1;
      chains := chains[h := [c] + chains[h]];
      live := live + {c};
      FollowingCons(c, was[h]);
      forall i | 0 <= i < HASH_SIZE ensures Linked(buckets[i], chains[i]) {
        assert old(Linked(buckets[i], was[i]));
        forall j | 0 <= j < |was[i]| ensures was[i][j].next == Following(was[i], j) {
          assert was[i][j] in was[i];
        }
      }
    }

    /** ya_client_find_by_uid: an active client with this uid, if there is one. */
    method FindByUid(uid: nat) returns (c: Client?)
      requires Valid()
      ensures c != null ==> c in live && c.uid == uid && c.state == Active
      ensures c == null ==> forall d | d in live && d.uid == uid :: d.state != Active
    {
      hide Placed, Numbered, UidAfter;
      PlacedFacts(chains, live);
      if uid == 0 {
        assert forall d | d in live :: d.uid != 0 by { NumberedFacts(live, created); }
        return null;
      }
      ghost var chain := chains[Hash(uid)];
      ghost var k := 0;
      assert Linked(buckets[Hash(uid)], chain);
      c := buckets[Hash(uid)];
      while c != null
        invariant k <= |chain| && c == Following(chain, k - 1)
        invariant forall j | 0 <= j < k :: chain[j].uid == uid ==> chain[j].state != Active
        decreases |chain| - k
      {
        if c.uid == uid && c.state == Active {
          return;
        }
        c, k := c.next, k + 1;
      }
    }

    /** ya_client_find_by_fd: an active client with this descriptor, if there is one. */
    method FindByFd(fd: int) returns (c: Client?)
      requires Valid()
      ensures c != null ==> fd >= 0 && c in live && c.fd == fd && c.state == Active
      ensures c == null && fd >= 0 ==> forall d | d in live && d.fd == fd :: d.state != Active
    {
      hide Placed, Numbered, UidAfter;
      PlacedFacts(chains, live);
      if fd < 0 {
        return null;
      }
      for i := 0 to HASH_SIZE
        invariant forall h, d | 0 <= h < i && d in chains[h] && d.fd == fd :: d.state != Active
      {
        ghost var chain := chains[i];
        ghost var k := 0;
        assert Linked(buckets[i], chain);
        c := buckets[i];
        while c != null
          invariant k <= |chain| && c == Following(chain, k - 1)
          invariant forall j | 0 <= j < k :: chain[j].fd == fd ==> chain[j].state != Active
          decreases |chain| - k
        {
          if c.fd == fd && c.state == Active {
            return;
          }
          c, k := c.next, k + 1;
        }
      }
      c := null;
    }

    /** The inner loop of ya_client_get_count. */
    method CountChain(i: nat, count: nat) returns (count': nat)
      requires i < HASH_SIZE && Chained()
      ensures count' == count + |ActiveIn(chains[i])|
    {
      hide Placed, ActiveIn;
      PlacedFacts(chains, live);
      count' := count;
      ghost var chain := chains[i];
      ghost var k := 0;
      assert Linked(buckets[i], chain) && NoDuplicates(chain);
      NoneActive();
      assert chain[..0] == [];
      var c := buckets[i];
      while c != null
        invariant k <= |chain| && c == Following(chain, k - 1) && count' == count + |ActiveIn(chain[..k])|
        decreases |chain| - k
      {
        OneMoreActive(chain, k);
        if c.state == Active {
          count' := count' + 1;
        }
        c, k := c.next, k + 1;
      }
      assert chain[..k] == chain;
    }

    /** ya_client_get_count: how many clients are active. */
    method GetCount() returns (count: nat)
      requires Valid()
      ensures count == |ActiveClients()|
    {
      hide Placed, Numbered, UidAfter, ActiveIn, ActiveBelow, Linked;
      PlacedFacts(chains, live);
      count := 0;
      ActiveEnds(live);
      for i := 0 to HASH_SIZE
        invariant count == |ActiveBelow(live, i)|
      {
        ActiveNext(chains, live, i);
        count := CountChain(i, count);
      }
    }

    /** Points whatever points at a client to its successor. */
    method Bypass(h: nat, prev: Client?, client: Client, ghost k: nat)
      requires Chained() && h < HASH_SIZE && k < |chains[h]|
      requires client == chains[h][k] && prev == if k == 0 then null else chains[h][k - 1]
      modifies this`chains, this`live, buckets, live`next
      ensures Chained() && live == old(live) - {client} && client in old(live)
    {
      hide Placed, Following, NoDuplicates;
      ghost var was := chains;
      PlacedFacts(chains, live);
      PlacedRemove(chains, live, h, k);
      assert Linked(buckets[h], was[h]);
      assert prev != null ==> prev in live by {
        assert prev != null ==> prev in chains[h];
      }
      if prev != null {
        prev.next := client.next;
      } else {
        buckets[h] := client.next;
      }
      chains := chains[h := Without(chains[h], k)];
      live := live - {client};
      forall i | 0 <= i < HASH_SIZE ensures Linked(buckets[i], chains[i]) {
        assert old(Linked(buckets[i], was[i]));
        forall j | 0 <= j < |was[i]| && was[i][j] != prev ensures was[i][j].next == Following(was[i], j) {
          assert was[i][j] in was[i];
        }
        if i == h {
          LinkedWithout(buckets[h], was[h], k);
        } else {
          assert prev !in was[i];
        }
      }
    }

    /** Takes a client out of its chain and frees it: the arm that ya_client_unref and ya_client_remove
        share. */
    method Unlink(h: nat, prev: Client?, client: Client, ghost k: nat)
      requires Valid() && h < HASH_SIZE && k < |chains[h]|
      requires client == chains[h][k] && prev == if k == 0 then null else chains[h][k - 1]
      modifies this`chains, this`live, this`clientCount, this`freed, buckets, live`next, base
      ensures Valid() && live == old(live) - {client} && client in old(live)
      ensures freed == old(freed) + 1
      ensures base.open == if client.bev == null then old(base.open) else old(base.open) - {client.bev}
    {
      hide Manager.Chained, Numbered, UidAfter;
      Bypass(h, prev, client, k);
      NumberedLess(old(live), created, client);
      OneLess(old(live), client);
      if client.bev != null {
        base.Free(client.bev);
      }
      clientCount := clientCount - 1;
      freed := freed + 1;
    }

    /** ya_client_ref. */
    method Ref(client: Client)
      requires client in live
      modifies client`refCount
      ensures client.refCount == old(client.refCount) + 1
    {
      client.refCount := client.refCount + 1;
    }

    /** ya_client_unref: the last reference to a disconnected client frees it, and nothing else does. */
    method Unref(client: Client)
      requires Valid() && client in live
      modifies this`chains, this`live, this`clientCount, this`freed, buckets, live`next, base, client`refCount
      ensures Valid()
      ensures client.refCount == if old(client.refCount) > 0 then old(client.refCount) - 1 else 0
      ensures var last := old(client.refCount) == 1 && client.state == Disconnected;
              && live == (if last then old(live) - {client} else old(live))
              && freed == old(freed) + (if last then 1 else 0)
              && base.open == if last && client.bev != null then old(base.open) - {client.bev} else old(base.open)
    {
      hide Manager.Counted, Manager.Owning, Placed;
      if client.refCount == 0 {
        return;
      }
      client.refCount := client.refCount - 1;
      if client.refCount == 0 && client.state == Disconnected {
        PlacedFacts(chains, live);
        var h := Hash(client.uid);
        ghost var chain := chains[h];
        ghost var at :| 0 <= at < |chain| && chain[at] == client;
        ghost var k := 0;
        assert Linked(buckets[h], chain);
        var curr, prev: Client? := buckets[h], null;
        while curr != null
          invariant k <= at && curr == chain[k] && prev == if k == 0 then null else chain[k - 1]
          decreases |chain| - k
        {
          if curr == client {
            Unlink(h, prev, curr, k);
            return;
          }
          prev := curr;
          curr, k := curr.next, k + 1;
        }
      }
    }

    /** ya_client_remove: marks the first client with this uid as disconnected, and frees it if nothing
        refers to it. */
    method Remove(uid: nat) returns (ghost found: Client?)
      requires Valid()
      modifies this`chains, this`live, this`clientCount, this`freed, buckets, live`next, live`state, base
      ensures Valid()
      ensures found == null ==> (forall c | c in live :: c.uid != uid) && live == old(live) && freed == old(freed)
      ensures found != null ==>
                && found in old(live) && found.uid == uid && found.state == Disconnected
                && live == (if found.refCount == 0 then old(live) - {found} else old(live))
                && freed == old(freed) + if found.refCount == 0 then 1 else 0
      ensures base.open == if found != null && found.refCount == 0 && found.bev != null then old(base.open) - {found.bev} else old(base.open)
      ensures forall c | c in old(live) && c != found :: c.state == old(c.state)
    {
      hide Manager.Counted, Manager.Owning, Placed;
      PlacedFacts(chains, live);
      found := null;
      if uid == 0 {
        NoUidZero();
        return;
      }
      var h := Hash(uid);
      ghost var chain := chains[h];
      ghost var k := 0;
      assert Linked(buckets[h], chain);
      var client, prev: Client? := buckets[h], null;
      while client != null
        invariant k <= |chain| && client == Following(chain, k - 1) && prev == if k == 0 then null else chain[k - 1]
        invariant forall j | 0 <= j < k :: chain[j].uid != uid
        decreases |chain| - k
      {
        if client.uid == uid {
          found := client;
          client.state := Disconnected;
          if client.refCount == 0 {
            Unlink(h, prev, client, k);
          }
          return;
        }
        prev := client;
        client, k := client.next, k + 1;
      }
    }

    lemma NoUidZero()
      requires Valid()
      ensures forall c | c in live :: c.uid != 0
    {
    }

    /** The inner loop of ya_client_manager_cleanup: every client of a chain, with its bufferevent. */
    method FreeChain(i: nat, ghost all: set<BufferEvent>, ghost gone: set<Client>) returns (ghost gone': set<Client>)
      requires i < HASH_SIZE && buckets.Length == HASH_SIZE && Placed(chains, live) && Linked(buckets[i], chains[i])
      requires gone == Below(live, i) && base.open == all - Bevs(gone) && OwningIn(all)
      modifies base
      ensures gone' == Below(live, i + 1)
      ensures base.open == all - Bevs(gone')
    {
      hide Placed, Bevs;
      PlacedFacts(chains, live);
      BelowNext(chains, live, i);
      assert gone <= live;
      BevFree(all);
      hide Below;
      gone' := gone;
      ghost var chain := chains[i];
      ghost var k := 0;
      assert Linked(buckets[i], chain) && NoDuplicates(chain);
      assert chain[..0] == [];
      var client := buckets[i];
      while client != null
        invariant k <= |chain| && client == Following(chain, k - 1)
        invariant gone' == (gone + set c | c in chain[..k]) && gone' <= live
        invariant base.open == all - Bevs(gone')
        decreases |chain| - k
      {
        var next := client.next;
        assert client in chain && client in live;
        assert client !in chain[..k];
        assert chain[..k + 1] == chain[..k] + [client];
        assert client.bev != null ==> client.bev in base.open;
        OneMoreBev(gone', client);
        gone' := gone' + {client};
        if client.bev != null {
          base.Free(client.bev);
        }
        client, k := next, k + 1;
      }
      assert chain[..k] == chain;
    }

    /** A bufferevent is still there until its client is gone. */
    lemma BevFree(all: set<BufferEvent>)
      requires OwningIn(all)
      ensures forall gone, c | c in live && c !in gone && gone <= live && c.bev != null :: c.bev in all && c.bev !in Bevs(gone)
    {
    }

    ghost function Bevs(clients: set<Client>): set<BufferEvent>
      reads clients`bev
    {
      set c | c in clients && c.bev != null :: c.bev
    }

    lemma OneMoreBev(clients: set<Client>, c: Client)
      ensures Bevs(clients + {c}) == Bevs(clients) + if c.bev == null then {} else {c.bev}
    {
    }

    /** The outer loop. */
    method FreeAll()
      requires Valid()
      modifies buckets, base
      ensures forall i | 0 <= i < HASH_SIZE :: buckets[i] == null
      ensures base.open == old(base.open) - Bevs(live)
    {
      hide Placed, Bevs, Numbered, Manager.OwningIn, Linked, Below;
      PlacedFacts(chains, live);
      BelowEnds(chains, live);
      ghost var all, gone := base.open, {};
      assert Bevs(gone) == {} by { NoBevs(); }
      for i := 0 to HASH_SIZE
        invariant forall h | 0 <= h < HASH_SIZE :: buckets[h] == if h < i then null else old(buckets[h])
        invariant gone == Below(live, i) && base.open == all - Bevs(gone)
      {
        assert Linked(old(buckets[i]), chains[i]);
        gone := FreeChain(i, all, gone);
        buckets[i] := null;
      }
    }

    /** Before the counter wraps, a uid has one holder. */
    lemma OneHolder()
      requires Valid()
      ensures created < TWO32 ==> forall c, d | c in live && d in live && c.uid == d.uid :: c == d
    {
      NumberedFacts(live, created);
    }

    lemma BevsThere(clients: set<Client>)
      ensures forall b | b in Bevs(clients) :: allocated(b)
    {
    }

    lemma BevsUnion(a: set<Client>, b: set<Client>)
      ensures Bevs(a + b) == Bevs(a) + Bevs(b)
    {
    }

    lemma NoBevs()
      ensures Bevs({}) == {}
    {
    }

    /** ya_client_manager_cleanup: frees every client and its bufferevent, each once. */
    method Cleanup()
      requires Valid()
      modifies this, buckets, base
      ensures Valid() && live == {} && created == 0 && freed == 0
      ensures base.open == old(base.open) - old(Bevs(live))
    {
      hide Placed, Bevs;
      FreeAll();
      clientCount, nextUid := 0, 1;
      chains, live, created, freed := NoChains(), {}, 0, 0;
    }

    ghost function ActiveClients(): set<Client>
      reads this`live, live`state
    {
      ActiveOf(live)
    }

    /** ya_client_create for a new connection, whose bufferevent is freed again if there is no client. */
    method Admit(fd: int, hasBev: bool) returns (answer: Client?, ghost born: set<Client>)
      requires Valid()
      modifies this, buckets, base
      ensures Valid() && fresh(born) && live == old(live) + born && fresh(Bevs(born))
      ensures base.open == old(base.open) + Bevs(born)
      ensures answer == null <==> !hasBev || fd < 0
      ensures born == if answer == null then {} else {answer}
      ensures answer != null ==>
                answer.fd == fd && answer.uid == UidAfter(old(created)) && answer.state == Active && answer.refCount == 1
      ensures created == old(created) + if answer == null then 0 else 1
      ensures Pairs(live) == old(Pairs(live)) + if answer == null then {} else {(answer.uid, fd)}
    {
      hide Manager.Chained, Manager.Counted, UidAfter;
      born := {};
      if !hasBev {
        answer := Create(fd, null);
        return;
      }
      var bev := new BufferEvent(fd);
      base.Open(bev);
      answer := Create(fd, bev);
      if answer == null {
        base.Free(bev);
      } else {
        born := {answer};
      }
    }

    lemma PairsAre(clients: set<Client>)
      ensures clients == {} ==> Pairs(clients) == {}
      ensures forall c | c in clients && c.state == Active :: (c.uid, c.fd) in Pairs(clients)
      ensures forall p | p in Pairs(clients) :: exists c :: c in clients && c.state == Active && p == (c.uid, c.fd)
    {
    }

    /** The table in terms of the specification. */
    ghost function Summary(): Table
      reads this`created, this`live, live`state
    {
      Table(created, Pairs(live))
    }

    /** What the caller learns from an operation. */
    ghost predicate Answers(op: Op, answer: Client?, born: set<Client>)
      reads this`live, live`state
    {
      match op
      case Creates(fd, hasBev) =>
        && (answer == null <==> !hasBev || fd < 0)
        && (answer != null ==> answer in live && answer in born && answer.fd == fd && answer.state == Active)
      case FindsUid(uid) =>
        if answer == null then forall c | c in live && c.uid == uid :: c.state != Active
        else answer in live && answer.uid == uid && answer.state == Active
      case FindsFd(fd) =>
        if answer == null then fd < 0 || forall c | c in live && c.fd == fd :: c.state != Active
        else answer in live && answer.fd == fd && answer.state == Active
      case _ => answer == null
    }

    /** ya_client_unref, on some client with this uid. */
    method GiveBack(uid: nat) returns (ghost gone: set<Client>)
      requires Valid()
      modifies this, buckets, live`next, live`refCount, base
      ensures Valid() && gone <= old(live) && live == old(live) - gone && created == old(created)
      ensures base.open == old(base.open) - Bevs(gone) && Pairs(live) == old(Pairs(live))
      ensures forall c | c in gone :: c.refCount == 0 && c.state == Disconnected
      ensures forall c | c in old(live) && c.uid != uid :: c.refCount == old(c.refCount)
      ensures old(created) < TWO32 ==> forall c | c in old(live) && c.uid == uid ::
                c.refCount == if old(c.refCount) > 0 then old(c.refCount) - 1 else 0
    {
      hide Manager.Chained, Manager.Counted, Manager.Owning;
      OneHolder();
      if c: Client :| c in live && c.uid == uid {
        Unref(c);
      }
      gone := old(live) - live;
    }

    /** ya_client_remove. */
    method RemoveUid(uid: nat) returns (ghost gone: set<Client>)
      requires Valid()
      modifies this, buckets, live`next, live`state, base
      ensures Valid() && gone <= old(live) && live == old(live) - gone && created == old(created)
      ensures base.open == old(base.open) - Bevs(gone)
      ensures old(created) < TWO32 ==> Pairs(live) == set p | p in old(Pairs(live)) && p.0 != uid
      ensures forall c | c in gone :: c.refCount == 0 && c.state == Disconnected
      ensures forall c | c in old(live) :: c.state == old(c.state) || (c.uid == uid && c.state == Disconnected)
    {
      hide Manager.Chained, Manager.Counted, Manager.Owning;
      OneHolder();
      var _ := Remove(uid);
      gone := old(live) - live;
    }

    /** One operation. References are taken and given back on clients that are still there: using a client
        that has been freed is the caller's mistake. */
    method TakeOp(op: Op) returns (answer: Client?, ghost born: set<Client>, ghost gone: set<Client>)
      requires Valid()
      modifies this, buckets, live`next, live`state, live`refCount, base
      ensures Valid() && fresh(born) && fresh(Bevs(born)) && gone <= old(live) && live == old(live) + born - gone
      ensures base.open == old(base.open) + Bevs(born) - Bevs(gone)
      ensures op == Cleans || forall c | c in gone :: c.refCount == 0 && c.state == Disconnected
      ensures forall c | c in old(live) :: c.state == old(c.state) || (op == Removes(c.uid) && c.state == Disconnected)
      ensures forall c | c in born :: c.state != Disconnected
      ensures forall c | c in old(live) && op != Refs(c.uid) && op != Unrefs(c.uid) :: c.refCount == old(c.refCount)
      ensures old(created) < TWO32 ==> forall c | c in old(live) && op == Refs(c.uid) :: c.refCount == old(c.refCount) + 1
      ensures old(created) < TWO32 ==> forall c | c in old(live) && op == Unrefs(c.uid) ::
                c.refCount == if old(c.refCount) > 0 then old(c.refCount) - 1 else 0
      ensures Answers(op, answer, born) && Performed(op, answer, old(Summary()), Summary())
    {
      hide Manager.Valid, UidAfter, Pairs, Bevs;
      answer, born, gone := null, {}, {};
      OneHolder();
      NoBevs();
      PairsAre(live);
      match op
      case Creates(fd, hasBev) =>
        answer, born := Admit(fd, hasBev);
      case Refs(uid) =>
        if c: Client :| c in live && c.uid == uid {
          Ref(c);
        }
      case Unrefs(uid) =>
        gone := GiveBack(uid);
      case Removes(uid) =>
        gone := RemoveUid(uid);
      case FindsUid(uid) =>
        answer := FindByUid(uid);
      case FindsFd(fd) =>
        answer := FindByFd(fd);
      case Cleans =>
        gone := live;
        Cleanup();
        PairsAre(live);
    }

    /** A run so far: what it started from, what it has created and freed, and what it has answered. */
    ghost predicate Accounted(ops: seq<Op>, answers: seq<Client?>, origin: Origin, born: set<Client>, gone: set<Client>)
      requires |answers| <= |ops|
      reads this`created, this`live, live`state, base, origin.live, born, gone
    {
      && born !! origin.live && gone <= origin.live + born && live == origin.live + born - gone
      && base.open == origin.open + Bevs(born) - Bevs(gone)
      && (Cleans !in ops ==>
            && (forall c | c in gone :: c.refCount == 0 && c.state == Disconnected)
            && forall c | c in origin.live + born && c.state == Disconnected :: Removes(c.uid) in ops || c in origin.dead)
      && AllTold(ops, answers, origin.table) && Follows(ops, |answers|, origin.table, Summary())
    }

    /** The next operation of a run. */
    method RunNext(ops: seq<Op>, answers: seq<Client?>, ghost origin: Origin, ghost born: set<Client>, ghost gone: set<Client>)
      returns (answer: Client?, ghost more: set<Client>, ghost less: set<Client>)
      requires Valid() && |answers| < |ops| && Accounted(ops, answers, origin, born, gone)
      modifies this, buckets, live`next, live`state, live`refCount, base
      ensures Valid() && fresh(more) && live == old(live) + more - less
      ensures Accounted(ops, answers + [answer], origin, born + more, gone + less)
    {
      hide Manager.Valid, Bevs, Answers, Performed, AllTold, Follows, Manager.Summary;
      var op := ops[|answers|];
      assert op in ops;
      ghost var bevsBorn, bevsGone, before := Bevs(born), Bevs(gone), Summary();
      BevsThere(gone);
      answer, more, less := TakeOp(op);
      Balance(origin.live, born, gone, more, less);
      BevsUnion(born, more);
      BevsUnion(gone, less);
      Balance(origin.open, bevsBorn, bevsGone, Bevs(more), Bevs(less));
      OneTold(ops, answers, origin.table, before, answer, Summary());
    }

    /** Any run over the table, from any state. What is there afterwards is what was there before and what was
        created, less what was freed; the same holds of the open bufferevents. Without a cleanup only clients
        that have been removed, and to which nothing refers, are freed. The uids of new clients are those of
        the specification, and until they wrap around so are all answers and the active clients. */
    method Run(ops: seq<Op>) returns (answers: seq<Client?>, ghost born: set<Client>, ghost gone: set<Client>)
      requires Valid()
      modifies this, buckets, live`next, live`state, live`refCount, base
      ensures Valid() && fresh(born) && gone <= old(live) + born && live == old(live) + born - gone
      ensures base.open == old(base.open) + Bevs(born) - Bevs(gone)
      ensures clientCount == |old(live)| + |born| - |gone|
      ensures Cleans !in ops ==> forall c | c in gone :: c.refCount == 0 && c.state == Disconnected
      ensures Cleans !in ops ==> forall c | c in gone :: Removes(c.uid) in ops || (c in old(live) && old(c.state) == Disconnected)
      ensures |answers| == |ops| && AllTold(ops, answers, old(Summary()))
      ensures created == AfterAll(old(Summary()), ops).created
      ensures Unwrapped(old(Summary()), ops) ==> Summary() == AfterAll(old(Summary()), ops)
    {
      hide Manager.Valid, Manager.Accounted, Bevs, Manager.Summary, AllTold, AfterAll, Unwrapped;
      answers, born, gone := [], {}, {};
      ghost var origin := Origin(live, base.open, (set c | c in live && c.state == Disconnected), Summary());
      RunStarts(ops, origin);
      for n := 0 to |ops|
        invariant Valid() && fresh(born) && |answers| == n && Accounted(ops, answers, origin, born, gone)
        invariant fresh(live - old(live))
      {
        var answer, more, less := RunNext(ops, answers, origin, born, gone);
        answers, born, gone := answers + [answer], born + more, gone + less;
      }
      RunEnds(ops, answers, origin, born, gone);
    }

    lemma RunStarts(ops: seq<Op>, origin: Origin)
      requires origin == Origin(live, base.open, (set c | c in live && c.state == Disconnected), Summary())
      ensures Accounted(ops, [], origin, {}, {})
    {
      hide Bevs;
      NoBevs();
      NoneTold(ops, Summary());
    }

    lemma RunEnds(ops: seq<Op>, answers: seq<Client?>, origin: Origin, born: set<Client>, gone: set<Client>)
      requires Valid() && |answers| == |ops| && Accounted(ops, answers, origin, born, gone)
      ensures gone <= origin.live + born && live == origin.live + born - gone
      ensures base.open == origin.open + Bevs(born) - Bevs(gone)
      ensures clientCount == |origin.live| + |born| - |gone|
      ensures Cleans !in ops ==> forall c | c in gone :: c.refCount == 0 && c.state == Disconnected
      ensures Cleans !in ops ==> forall c | c in gone :: Removes(c.uid) in ops || c in origin.dead
      ensures AllTold(ops, answers, origin.table) && created == AfterAll(origin.table, ops).created
      ensures Unwrapped(origin.table, ops) ==> Summary() == AfterAll(origin.table, ops)
    {
      hide Bevs, AllTold, AfterAll, Unwrapped;
      assert ops[..|ops|] == ops;
      Sizes(origin.live, born, gone);
    }
  }

  /** Where a run starts. */
  datatype Origin = Origin(live: set<Client>, open: set<BufferEvent>, dead: set<Client>, table: Table)

  /** The counter stays below 2^32 all along. */
  ghost predicate Unwrapped(t: Table, ops: seq<Op>) {
    forall n | 0 <= n <= |ops| :: AfterAll(t, ops[..n]).created < TWO32
  }

  /** The table after n operations is that of the specification. */
  ghost predicate Follows(ops: seq<Op>, n: nat, start: Table, now: Table)
    requires n <= |ops|
  {
    var t := AfterAll(start, ops[..n]);
    now.created == t.created && (Unwrapped(start, ops) ==> now == t)
  }

  /** The first answers are those of the specification; what is created is numbered as there in any case. */
  ghost predicate AllTold(ops: seq<Op>, answers: seq<Client?>, start: Table)
    requires |answers| <= |ops|
  {
    forall i | 0 <= i < |answers| ::
      && Fits(ops[i], answers[i])
      && (ops[i].Creates? || Unwrapped(start, ops) ==> Told(ops[i], answers[i], AfterAll(start, ops[..i])))
  }

  lemma NoneTold(ops: seq<Op>, start: Table)
    ensures AllTold(ops, [], start) && Follows(ops, 0, start, start)
  {
  }

  lemma OneTold(ops: seq<Op>, answers: seq<Client?>, start: Table, before: Table, answer: Client?, now: Table)
    requires |answers| < |ops| && AllTold(ops, answers, start) && Follows(ops, |answers|, start, before)
    requires Performed(ops[|answers|], answer, before, now)
    ensures AllTold(ops, answers + [answer], start) && Follows(ops, |answers| + 1, start, now)
  {
    hide UidAfter;
    var n := |answers|;
    assert ops[..n + 1][..n] == ops[..n];
    if Unwrapped(start, ops) {
      assert AfterAll(start, ops[..n]).created < TWO32;
    }
  }

  lemma Balance<T>(was: set<T>, born: set<T>, gone: set<T>, more: set<T>, less: set<T>)
    requires more !! gone
    ensures was + born - gone + more - less == was + (born + more) - (gone + less)
  {
  }

  lemma Sizes<T>(was: set<T>, born: set<T>, gone: set<T>)
    requires was !! born && gone <= was + born
    ensures |was + born - gone| == |was| + |born| - |gone|
  {
    assert |(was + born - gone) + gone| == |was + born - gone| + |gone|;
    assert (was + born - gone) + gone == was + born;
  }

  /** The part of an answer that later operations do not change. */
  ghost predicate Fits(op: Op, answer: Client?) {
    answer != null ==>
      match op
      case Creates(fd, hasBev) => hasBev && answer.fd == fd >= 0
      case FindsUid(uid) => answer.uid == uid
      case FindsFd(fd) => answer.fd == fd
      case _ => false
  }

  /** The specification of the table: how many clients have been created since it was last empty, and uid and
      descriptor of the active ones. */
  datatype Table = Table(created: nat, active: set<(nat, int)>)

  /** What an operation does to it. */
  function After(t: Table, op: Op): Table {
    match op
    case Creates(fd, hasBev) =>
      if hasBev && fd >= 0 then Table(t.created + 1, t.active + {(UidAfter(t.created), fd)}) else t
    case Removes(uid) => t.(active := set p | p in t.active && p.0 != uid)
    case Cleans => Table(0, {})
    case _ => t
  }

  function AfterAll(t: Table, ops: seq<Op>): Table {
    if ops == [] then t else After(AfterAll(t, ops[..|ops| - 1]), ops[|ops| - 1])
  }

  /** What it answers. */
  ghost predicate Told(op: Op, answer: Client?, t: Table) {
    match op
    case Creates(fd, hasBev) =>
      && (answer == null <==> !hasBev || fd < 0)
      && (answer != null ==> answer.uid == UidAfter(t.created) && answer.fd == fd)
    case FindsUid(uid) =>
      if answer == null then forall p | p in t.active :: p.0 != uid
      else answer.uid == uid && (answer.uid, answer.fd) in t.active
    case FindsFd(fd) =>
      if answer == null then fd < 0 || forall p | p in t.active :: p.1 != fd
      else answer.fd == fd && (answer.uid, answer.fd) in t.active
    case _ => answer == null
  }

  /** The operation as the specification has it. Removing by uid is removing one client until uids wrap
      around. */
  ghost predicate Performed(op: Op, answer: Client?, before: Table, now: Table) {
    && Told(op, answer, before) && now.created == After(before, op).created
    && (before.created < TWO32 ==> now == After(before, op))
  }

  ghost function Pairs(clients: set<Client>): set<(nat, int)>
    reads clients`state
  {
    set c | c in clients && c.state == Active :: (c.uid, c.fd)
  }

  /** What can be asked of the table. */
  datatype Op =
    | Creates(fd: int, hasBev: bool)
    | Refs(uid: nat)
    | Unrefs(uid: nat)
    | Removes(uid: nat)
    | FindsUid(uid: nat)
    | FindsFd(fd: int)
    | Cleans

  lemma FollowingCons(c: Client, s: seq<Client>)
    ensures Following([c] + s, -1) == c && Following([c] + s, 0) == Following(s, -1)
    ensures forall j | 0 < j <= |s| :: ([c] + s)[j] == s[j - 1] && Following([c] + s, j) == Following(s, j - 1)
  {
  }

  lemma FollowingWithout(s: seq<Client>, k: nat, t: seq<Client>)
    requires k < |s| && t == Without(s, k)
    ensures Following(t, -1) == if k == 0 then Following(s, 0) else Following(s, -1)
    ensures forall j | 0 <= j < |t| :: t[j] == s[if j < k then j else j + 1]
    ensures forall j | 0 <= j < |t| :: Following(t, j) == Following(s, if j + 1 < k then j else j + 1)
  {
    forall j | 0 <= j < |t| ensures Following(t, j) == Following(s, if j + 1 < k then j else j + 1) {
      if j + 1 < |t| {
        assert t[j + 1] == s[if j + 1 < k then j + 1 else j + 2];
      }
    }
  }

  /** A chain in which client k is bypassed. */
  lemma LinkedWithout(head: Client?, s: seq<Client>, k: nat)
    requires k < |s| && NoDuplicates(s)
    requires if k == 0 then head == Following(s, 0) else head == Following(s, -1) && s[k - 1].next == Following(s, k)
    requires forall j | 0 <= j < |s| && (k > 0 ==> s[j] != s[k - 1]) :: s[j].next == Following(s, j)
    ensures Linked(head, Without(s, k))
  {
    hide Following;
    var t := Without(s, k);
    FollowingWithout(s, k, t);
    forall j | 0 <= j < |t| ensures t[j].next == Following(t, j) {
      assert t[j] == s[if j < k then j else j + 1];
    }
  }

  lemma NumberedLess(live: set<Client>, created: nat, c: Client)
    requires Numbered(live, created)
    ensures Numbered(live - {c}, created)
  {
  }

  lemma OneMore(s: set<Client>, c: Client)
    requires c !in s
    ensures |s + {c}| == |s| + 1
  {
  }

  lemma OneLess(s: set<Client>, c: Client)
    requires c in s
    ensures |s - {c}| == |s| - 1
  {
  }

  lemma BothCounted(s: set<Client>, t: set<Client>)
    requires s !! t
    ensures |s + t| == |s| + |t|
  {
  }

  ghost function ActiveOf(clients: set<Client>): set<Client>
    reads clients`state
  {
    set c | c in clients && c.state == Active
  }

  lemma OneMoreActiveOf(clients: set<Client>, c: Client)
    requires c !in clients && c.state == Active
    ensures |ActiveOf(clients + {c})| == |ActiveOf(clients)| + 1
  {
    OneMore(ActiveOf(clients), c);
    assert ActiveOf(clients + {c}) == ActiveOf(clients) + {c};
  }

  lemma InactiveOf(clients: set<Client>, c: Client)
    requires c.state != Active
    ensures ActiveOf(clients - {c}) == ActiveOf(clients)
  {
  }

  ghost function ActiveIn(s: seq<Client>): set<Client>
    reads s`state
  {
    set c | c in s && c.state == Active
  }

  ghost function ActiveBelow(live: set<Client>, i: nat): set<Client>
    reads live`state
  {
    set c | c in live && c.state == Active && Hash(c.uid) < i
  }

  lemma ActiveNext(chains: seq<seq<Client>>, live: set<Client>, i: nat)
    requires Placed(chains, live) && i < HASH_SIZE
    ensures |ActiveBelow(live, i + 1)| == |ActiveBelow(live, i)| + |ActiveIn(chains[i])|
  {
    hide Placed;
    PlacedFacts(chains, live);
    BothCounted(ActiveBelow(live, i), ActiveIn(chains[i]));
    assert ActiveBelow(live, i + 1) == ActiveBelow(live, i) + ActiveIn(chains[i]);
  }

  lemma ActiveEnds(live: set<Client>)
    ensures ActiveBelow(live, 0) == {}
    ensures ActiveBelow(live, HASH_SIZE) == ActiveOf(live)
  {
  }

  ghost function Below(live: set<Client>, i: nat): set<Client> {
    set c | c in live && Hash(c.uid) < i
  }

  lemma BelowNext(chains: seq<seq<Client>>, live: set<Client>, i: nat)
    requires Placed(chains, live) && i < HASH_SIZE
    ensures Below(live, i + 1) == Below(live, i) + set c | c in chains[i]
    ensures forall c | c in chains[i] :: c !in Below(live, i)
  {
    hide Placed;
    PlacedFacts(chains, live);
  }

  lemma BelowEnds(chains: seq<seq<Client>>, live: set<Client>)
    requires Placed(chains, live)
    ensures Below(live, 0) == {} && Below(live, HASH_SIZE) == live
  {
    hide Placed;
    PlacedFacts(chains, live);
  }

  lemma NoneActive()
    ensures ActiveIn([]) == {}
  {
  }

  lemma OneMoreActive(s: seq<Client>, k: nat)
    requires k < |s| && NoDuplicates(s)
    ensures |ActiveIn(s[..k + 1])| == |ActiveIn(s[..k])| + if s[k].state == Active then 1 else 0
  {
    assert s[..k + 1] == s[..k] + [s[k]];
    if s[k].state == Active {
      assert s[k] !in s[..k];
      OneMore(ActiveIn(s[..k]), s[k]);
      assert ActiveIn(s[..k + 1]) == ActiveIn(s[..k]) + {s[k]};
    } else {
      assert ActiveIn(s[..k + 1]) == ActiveIn(s[..k]);
    }
  }

  lemma PlacedFacts(chains: seq<seq<Client>>, live: set<Client>)
    requires Placed(chains, live)
    ensures |chains| == HASH_SIZE
    ensures forall i, c | 0 <= i < HASH_SIZE && c in chains[i] :: c in live && Hash(c.uid) == i
    ensures forall c | c in live :: c in chains[Hash(c.uid)]
    ensures forall i | 0 <= i < HASH_SIZE :: NoDuplicates(chains[i])
  {
  }

  lemma NumberedFacts(live: set<Client>, created: nat)
    requires Numbered(live, created)
    ensures forall c | c in live :: 0 < c.uid < TWO32
    ensures created < TWO32 ==> forall c, d | c in live && d in live && c.uid == d.uid :: c == d
  {
  }
}
