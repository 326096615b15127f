/** The session server (ya_server_session.c:46-157, ya_server.c:161-170, ya_server_handler.c:103-246):
    accept, read and close callbacks as steps over the client table. */
module Session {
  import opened Bytes
  import opened Events
  import opened ClientTable
  import CommandIndex
  import EventCodec

  /** What a handler answers, as far as it is modelled. */
  datatype Response =
    | NoResponse
    | AuthorizeReply(header: Header, success: bool, uid: nat)
    | Echo(header: Header)

  function ResponseHeader(h: Header): Header { h.(direction := RESPONSE) }

  /** authorize(): a version and a known kind of client. */
  predicate Acceptable(clientType: nat, version: nat) {
    version >= 1 && clientType in {1, 2}
  }

  // What the protocol promises.

  /** A version, and a client of type 1 or 2. */
  predicate Accepted(e: Event) {
    e.header.kind == 10 && e.payload.AuthorizeRequest? && e.payload.version >= 1
    && (e.payload.clientType == 1 || e.payload.clientType == 2)
  }

  /** The reply to an event of a client with this uid: heartbeats (11) come back, authorize requests (10) get
      the uid or 0, and the others are not answered from the server's own state. A reply has the header of its
      event, with the direction of responses (2). */
  predicate Answered(e: Event, r: Response, uid: nat) {
    var reply := Header(e.header.uid, e.header.kind, 2, e.header.index);
    if e.header.kind == 11 then r == Echo(reply)
    else if e.header.kind == 10 && e.payload.AuthorizeRequest? then
      r == AuthorizeReply(reply, Accepted(e), if Accepted(e) then uid else 0)
    else r == NoResponse
  }

  /** The version that a client speaks after an event: that of the last accepted request. */
  function VersionAfter(version: nat, e: Event): nat { if Accepted(e) then e.payload.version else version }

  class Server {
    const base: EventBase
    const manager: Manager
    var totalConnections: nat
    var activeConnections: nat
    // What bufferevent_setcb registered, and the input buffers of the open bufferevents.
    var owner: map<BufferEvent, Client>
    var input: map<BufferEvent, seq<byte>>

    /** Open bufferevents and active clients belong together, one to one; a client that is not active is a
        closed one that nothing refers to. */
    ghost predicate Wired(live: set<Client>, open: set<BufferEvent>)
      reads this`owner, this`input, live`state, live`bev, live`commandIndex
    {
      && owner.Keys == input.Keys == open
      && (forall b | b in open :: b.fd >= 0 && owner[b] in live && owner[b].state == Active && owner[b].bev == b)
      && (forall c | c in live :: Settled(c, open))
      && (forall a, b | a in open && b in open && a.fd == b.fd :: a == b)
    }

    ghost predicate Settled(c: Client, open: set<BufferEvent>)
      reads this`owner, c`state, c`bev, c`commandIndex
    {
      if c.state == Active then
        && c.bev != null && c.bev in open && c.bev in owner && owner[c.bev] == c
        && c.bev.fd == c.fd && IsI32(c.commandIndex)
      else c.state == Disconnecting && c.bev == null
    }

    /** Reference counts between callbacks. */
    ghost predicate Referenced(live: set<Client>)
      reads live`state, live`refCount
    {
      forall c | c in live :: c.refCount == if c.state == Active then 1 else 0
    }

    lemma OneMoreReferenced(client: Client, live: set<Client>)
      requires Referenced(live) && client.state == Active && client.refCount == 1
      ensures Referenced(live + {client})
    {
    }

    /** The statistics. */
    ghost predicate Counted(live: set<Client>)
      reads this`activeConnections, this`totalConnections, live`state
    {
      activeConnections == |ActiveOf(live)| && totalConnections == |live|
    }

    /** Between callbacks. */
    ghost predicate Valid()
      reads this, base, manager, manager.buckets, manager.live
    {
      && manager.base == base && manager.Valid() && manager.freed == 0
      && Wired(manager.live, base.open) && Referenced(manager.live) && Counted(manager.live)
    }

    constructor ()
      ensures Valid() && fresh(base) && fresh(manager) && fresh(manager.buckets) && base.open == {}
    {
      var b := new EventBase();
      base := b;
      manager := new Manager(b);
      totalConnections, activeConnections, owner, input := 0, 0, map[], map[];
    }

    /** The bufferevent and the client of a new connection. */
    method Connect(fd: int) returns (bev: BufferEvent, client: Client?)
      requires manager.base == base && manager.Valid()
      modifies base, manager, manager.buckets
      ensures manager.Valid() && fresh(bev) && bev.fd == fd
      ensures client == null <==> fd < 0
      ensures client == null ==>
                && base.open == old(base.open) && manager.live == old(manager.live)
                && manager.freed == old(manager.freed) && manager.created == old(manager.created)
      ensures client != null ==>
                && fresh(client) && client.bev == bev && client.fd == fd && client.state == Active
                && client.refCount == 1 && client.commandIndex == 0 && Standing(client) == (0, 0) && client.uid == UidAfter(old(manager.created))
                && base.open == old(base.open) + {bev} && manager.live == old(manager.live) + {client}
                && manager.freed == old(manager.freed) && manager.created == old(manager.created) + 1
    {
      hide Manager.Chained, Manager.Counted, UidAfter;
      bev := new BufferEvent(fd);
      base.Open(bev);
      client := manager.Create(fd, bev);
      if client == null {
        base.Free(bev);
      }
    }

    /** accept_cb. The descriptor is none that is already open. */
    method Accept(fd: int) returns (bev: BufferEvent)
      requires Valid() && forall b | b in base.open :: b.fd != fd
      modifies this, base, manager, manager.buckets
      ensures Valid() && fresh(bev) && bev.fd == fd
      ensures old(manager.live) <= manager.live && fresh(manager.live - old(manager.live))
      ensures forall c | c in manager.live && fresh(c) :: Standing(c) == (0, 0)
      ensures fd < 0 ==> base.open == old(base.open) && activeConnections == old(activeConnections) && input == old(input)
      ensures fd >= 0 ==>
                && base.open == old(base.open) + {bev} && activeConnections == old(activeConnections) + 1
                && owner[bev].uid == UidAfter(old(manager.created)) && input == old(input)[bev := []]
    {
      hide Manager.Valid, UidAfter, Server.Wired, Server.Referenced, Server.Counted, Standing;
      ghost var live, open := manager.live, base.open;
      var client;
      bev, client := Connect(fd);
      if client != null {
        Enrol(bev, client, live, open);
      }
    }

    /** The statistics and the callbacks of a new connection. */
    method Enrol(bev: BufferEvent, client: Client, ghost live: set<Client>, ghost open: set<BufferEvent>)
      requires Counted(live) && Wired(live, open) && Referenced(live) && client !in live && bev !in open
      requires client.bev == bev && client.fd == bev.fd >= 0 && client.state == Active && client.refCount == 1
      requires client.commandIndex == 0 && forall b | b in open :: b.fd != bev.fd
      modifies this`activeConnections, this`totalConnections, this`owner, this`input
      ensures Counted(live + {client}) && Wired(live + {client}, open + {bev}) && Referenced(live + {client})
      ensures activeConnections == old(activeConnections) + 1 && owner[bev] == client && input == old(input)[bev := []]
    {
      hide Server.Wired, Server.Referenced, Server.Counted;
      CountConnection(client, live);
      Register(bev, client, live, open);
      OneMoreReferenced(client, live);
    }

    /** ya_server_stats_inc_connections. */
    method CountConnection(client: Client, ghost live: set<Client>)
      requires Counted(live) && client !in live && client.state == Active
      modifies this`activeConnections, this`totalConnections
      ensures Counted(live + {client}) && activeConnections == old(activeConnections) + 1
    {
      hide ActiveOf;
      OneMore(live, client);
      OneMoreActiveOf(live, client);
      totalConnections := totalConnections + 1;
      activeConnections := activeConnections + 1;
    }

    /** The callbacks of a new connection. */
    method Register(bev: BufferEvent, client: Client, ghost live: set<Client>, ghost open: set<BufferEvent>)
      requires Wired(live, open) && bev !in open && client !in live && bev.fd >= 0
      requires client.bev == bev && client.fd == bev.fd && client.state == Active && client.commandIndex == 0
      requires forall b | b in open :: b.fd != bev.fd
      modifies this`owner, this`input
      ensures Wired(live + {client}, open + {bev}) && owner[bev] == client && input == old(input)[bev := []]
    {
      owner := owner[bev := client];
      input := input[bev := []];
    }

    // Reading.

    /** handle_authorize. The original also frees the bufferevent of a connection without a client; there
        is none. */
    method Authorize(bev: BufferEvent, e: Event, ghost client: Client) returns (r: Response)
      requires manager.Valid() && Wired(manager.live, base.open) && manager.base == base
      requires bev in base.open && client == owner[bev] && e.header.kind == 10
      modifies client`bev, client`protocolVersion
      ensures manager.Valid() && Wired(manager.live, base.open)
      ensures Answered(e, r, client.uid) && client.protocolVersion == VersionAfter(old(client.protocolVersion), e)
    {
      hide Manager.Chained, Manager.Counted, ActiveOf;
      if !e.payload.AuthorizeRequest? {
        return NoResponse;
      }
      var success := Acceptable(e.payload.clientType, e.payload.version);
      if !success {
        return AuthorizeReply(ResponseHeader(e.header), false, 0);
      }
      var found := manager.FindByFd(bev.fd);
      assert found == client;
      found.bev := bev;
      found.protocolVersion := e.payload.version;
      return AuthorizeReply(ResponseHeader(e.header), true, found.uid);
    }

    /** process_server_event, with the two handlers that answer from the server's own state. */
    method Process(bev: BufferEvent, e: Event, client: Client) returns (r: Response)
      requires manager.Valid() && Wired(manager.live, base.open) && manager.base == base
      requires bev in base.open && client == owner[bev] && ValidHeader(e.header)
      modifies client`bev, client`protocolVersion, client`commandIndex
      ensures manager.Valid() && Wired(manager.live, base.open)
      ensures AsU32(client.commandIndex)
              == CommandIndex.Next(old(AsU32(client.commandIndex)), e.header)
      ensures Answered(e, r, client.uid) && client.protocolVersion == VersionAfter(old(client.protocolVersion), e)
    {
      hide Manager.Valid, AsU32, CommandIndex.Next;
      r := NoResponse;
      var pass := CommandIndex.Filter(client, e.header);
      if pass {
        if e.header.kind == AUTHORIZE {
          r := Authorize(bev, e, client);
        } else if e.header.kind == HEARTBEAT {
          r := Echo(ResponseHeader(e.header));
        }
      }
    }

    /** The reading part of conn_readcb: at most one event leaves the input buffer. */
    method TakeEvent(bev: BufferEvent, chunk: seq<byte>, beyond: seq<byte>) returns (e: Option<Event>)
      requires bev in base.open && Wired(manager.live, base.open)
      modifies this`input
      ensures Wired(manager.live, base.open)
      ensures bev in input && input == old(input)[bev := input[bev]]
      ensures (e, input[bev]) == ReadEvent(old(input[bev]) + chunk, beyond)
      ensures e.Some? ==> ValidHeader(e.value.header)
    {
      hide ReadEvent;
      var buffer := new EventCodec.EventBuffer();
      buffer.bytes := input[bev] + chunk;
      ReadEventValid(buffer.bytes, beyond);
      e := buffer.Read(beyond);
      input := input[bev := buffer.bytes];
    }

    /** The handling part of conn_readcb, under a reference of its own. */
    method Handle(bev: BufferEvent, e: Event, client: Client) returns (r: Response)
      requires manager.Valid() && Wired(manager.live, base.open) && Referenced(manager.live) && manager.base == base
      requires bev in base.open && client == owner[bev] && ValidHeader(e.header)
      modifies manager, manager.buckets, manager.live`next, manager.live`bev, manager.live`refCount,
               manager.live`protocolVersion, manager.live`commandIndex, base
      ensures manager.Valid() && Wired(manager.live, base.open) && Referenced(manager.live)
      ensures base.open == old(base.open) && manager.live == old(manager.live)
      ensures manager.created == old(manager.created) && manager.freed == old(manager.freed)
      ensures Answered(e, r, client.uid) && client.protocolVersion == VersionAfter(old(client.protocolVersion), e)
      ensures AsU32(client.commandIndex) == CommandIndex.Next(old(AsU32(client.commandIndex)), e.header)
      ensures OthersAlone(client)
    {
      hide Manager.Valid, AsU32, CommandIndex.Next, Server.Wired, Answered, VersionAfter;
      OwnerActive(bev);
      manager.Ref(client);
      r := Process(bev, e, client);
      manager.Unref(client);
    }

    /** Index and version of a client are what they were. */
    twostate predicate ClientAlone(c: Client)
      reads c`commandIndex, c`protocolVersion
    {
      c.commandIndex == old(c.commandIndex) && c.protocolVersion == old(c.protocolVersion)
    }

    twostate predicate OthersAlone(client: Client)
      reads manager`live, manager.live`commandIndex, manager.live`protocolVersion
    {
      forall c | c in old(manager.live) && c in manager.live && c != client :: ClientAlone(c)
    }

    lemma OwnerActive(bev: BufferEvent)
      requires bev in base.open && Wired(manager.live, base.open)
      ensures bev in owner && bev in input && owner[bev] in manager.live && owner[bev].state == Active
    {
    }

    /** conn_readcb, when a chunk has arrived at an open connection. `beyond` is the memory behind the input
        buffer, which an overlong body size makes the payload parser read. */
    method Read(bev: BufferEvent, chunk: seq<byte>, beyond: seq<byte>) returns (e: Option<Event>, r: Response)
      requires Valid() && bev in base.open
      modifies this`input, manager, manager.buckets, manager.live`next, manager.live`bev, manager.live`refCount,
               manager.live`protocolVersion, manager.live`commandIndex, base
      ensures Valid() && bev in owner && bev in input
      ensures base.open == old(base.open) && manager.live == old(manager.live) && manager.created == old(manager.created)
      ensures (e, input[bev]) == ReadEvent(old(if bev in input then input[bev] else []) + chunk, beyond)
      ensures input == old(input)[bev := input[bev]]
      ensures owner == old(owner) && owner[bev] in manager.live && OthersAlone(owner[bev])
      ensures e.None? ==> r == NoResponse && ClientAlone(owner[bev])
      ensures e.Some? ==>
                && Answered(e.value, r, owner[bev].uid)
                && AsU32(owner[bev].commandIndex) == CommandIndex.Next(old(AsU32(owner[bev].commandIndex)), e.value.header)
                && owner[bev].protocolVersion == VersionAfter(old(owner[bev].protocolVersion), e.value)
    {
      hide Manager.Valid, ReadEvent, ActiveOf, Server.Wired, Server.Referenced, Server.Counted;
      hide AsU32, CommandIndex.Next, Answered, VersionAfter;
      OwnerActive(bev);
      r := NoResponse;
      e := TakeEvent(bev, chunk, beyond);
      if e.Some? {
        r := Handle(bev, e.value, owner[bev]);
      }
    }

    // Closing.

    /** The state and the bufferevent of a closed connection. */
    method Disconnect(client: Client)
      requires manager.Valid() && manager.base == base && client in manager.live && client.bev != null
      modifies client`state, client`bev, base
      ensures manager.Valid() && client.state == Disconnecting && client.bev == null
      ensures base.open == old(base.open) - {old(client.bev)}
    {
      hide Manager.Chained, Manager.Counted;
      client.state := Disconnecting;
      if client.bev != null {
        base.Free(client.bev);
        client.bev := null;
      }
    }

    /** ya_server_stats_dec_connections, for a client that is about to become inactive. */
    method UncountConnection(client: Client, ghost live: set<Client>)
      requires Counted(live) && client in live && client.state == Active
      modifies this`activeConnections
      ensures CountedBut(client, live) && activeConnections == old(activeConnections) - 1
    {
      assert live - {client} + {client} == live;
      OneMoreActiveOf(live - {client}, client);
      if activeConnections > 0 {
        activeConnections := activeConnections - 1;
      }
    }

    /** The statistics without a client that is about to become inactive, or that has become so. */
    ghost predicate CountedBut(client: Client, live: set<Client>)
      reads this`activeConnections, this`totalConnections, (live - {client})`state
    {
      activeConnections == |ActiveOf(live - {client})| && totalConnections == |live|
    }

    lemma CountedAgain(client: Client, live: set<Client>)
      requires CountedBut(client, live) && client.state != Active
      ensures Counted(live)
    {
      InactiveOf(live, client);
    }

    /** Wired, except that the client of bev is closed already. */
    ghost predicate WiredBut(live: set<Client>, open: set<BufferEvent>, bev: BufferEvent)
      reads this`owner, this`input, live`state, live`bev, live`commandIndex
    {
      && owner.Keys == input.Keys == open && bev in open && owner[bev] in live
      && owner[bev].state == Disconnecting && owner[bev].bev == null
      && (forall b | b in open && b != bev :: b.fd >= 0 && owner[b] in live && owner[b].state == Active && owner[b].bev == b)
      && (forall c | c in live && c != owner[bev] :: Settled(c, open))
      && (forall a, b | a in open && b in open && a.fd == b.fd :: a == b)
    }

    /** The connection's own client is closed; its bufferevent is still registered. */
    method Detach(bev: BufferEvent, client: Client)
      requires manager.Valid() && manager.base == base && Wired(manager.live, base.open)
      requires bev in base.open && client == owner[bev]
      modifies client`state, client`bev, base
      ensures manager.Valid() && WiredBut(manager.live, old(base.open), bev)
      ensures client.state == Disconnecting && base.open == old(base.open) - {bev}
    {
      hide Manager.Valid;
      ghost var live, open := manager.live, base.open;
      OwnersApart(live, open);
      Disconnect(client);
      forall c | c in live && c != client ensures Settled(c, open) {
        assert old(Settled(c, open));
      }
    }

    lemma OwnersApart(live: set<Client>, open: set<BufferEvent>)
      requires Wired(live, open)
      ensures forall a, b | a in open && b in open && a != b :: owner[a] != owner[b]
    {
    }

    /** libevent forgets the callbacks and the buffers of a bufferevent it frees. */
    method Forget(bev: BufferEvent, ghost open: set<BufferEvent>)
      requires WiredBut(manager.live, open, bev)
      modifies this`owner, this`input
      ensures Wired(manager.live, open - {bev}) && input == old(input) - {bev}
    {
      ghost var live := manager.live;
      assert forall c | c in live && c != owner[bev] :: c.bev != bev;
      owner := owner - {bev};
      input := input - {bev};
      forall c | c in live ensures Settled(c, open - {bev}) {
        assert c != old(owner[bev]) ==> old(Settled(c, open));
      }
    }

    /** conn_eventcb up to its last line. */
    method Shut(bev: BufferEvent, client: Client)
      requires manager.Valid() && manager.base == base && Wired(manager.live, base.open) && Counted(manager.live)
      requires bev in base.open && client == owner[bev]
      modifies this`activeConnections, this`owner, this`input, client`state, client`bev, base
      ensures manager.Valid() && Wired(manager.live, base.open) && Counted(manager.live)
      ensures client in manager.live && client.state == Disconnecting && base.open == old(base.open) - {bev}
      ensures activeConnections == old(activeConnections) - 1 && input == old(input) - {bev}
    {
      hide Manager.Valid, Server.Counted, Server.CountedBut, Server.Settled, Server.WiredBut;
      ghost var live, open := manager.live, base.open;
      UncountConnection(client, live);
      Detach(bev, client);
      CountedAgain(client, live);
      Forget(bev, open);
    }

    /** conn_eventcb. A close or an error frees the bufferevent. The client becomes DISCONNECTING and loses
        its last reference; but only DISCONNECTED clients are ever freed, so it stays in the table. */
    method Close(bev: BufferEvent, eofOrError: bool)
      requires Valid() && bev in base.open
      modifies this, manager, manager.buckets, manager.live`next, manager.live`state, manager.live`bev, manager.live`refCount, base
      ensures Valid()
      ensures base.open == if eofOrError then old(base.open) - {bev} else old(base.open)
      ensures activeConnections == if eofOrError then old(activeConnections) - 1 else old(activeConnections)
      ensures manager.live == old(manager.live) && manager.created == old(manager.created)
      ensures input == if eofOrError then old(input) - {bev} else old(input)
      ensures eofOrError ==> bev in old(owner) && old(owner[bev]) in manager.live && old(owner[bev]).state == Disconnecting
    {
      hide Manager.Valid, Server.Wired, Server.Counted;
      if eofOrError {
        OwnerActive(bev);
        var client := owner[bev];
        Shut(bev, client);
        manager.Unref(client);
      }
    }

    /** What holds between callbacks, in the terms of the clients. */
    lemma BetweenCallbacks()
      requires Valid()
      ensures activeConnections == |manager.ActiveClients()|
      ensures forall c | c in manager.live && c.state == Active :: c.refCount == 1 && c.bev != null && c.bev in base.open
      ensures forall c, d | c in manager.live && d in manager.live && c.state == Active && d.state == Active && c.fd == d.fd :: c == d
      ensures manager.clientCount == totalConnections
    {
      forall c, d | c in manager.live && d in manager.live && c.state == Active && d.state == Active && c.fd == d.fd
        ensures c == d
      {
        assert Settled(c, base.open) && Settled(d, base.open);
      }
    }

    /** A connection to which chunks arrive, one callback each: the events handled are those that its bytes
        spell, and each gets its answer. The client keeps the largest index of the commands among them, and the
        version of the last accepted request. */
    method Converse(bev: BufferEvent, chunks: seq<seq<byte>>, beyond: seq<byte>) returns (es: seq<Event>, rs: seq<Response>)
      requires Valid() && bev in base.open
      modifies this`input, manager, manager.buckets, manager.live`next, manager.live`bev, manager.live`refCount,
               manager.live`protocolVersion, manager.live`commandIndex, base
      ensures Valid() && owner == old(owner) && bev in owner && bev in input && base.open == old(base.open)
      ensures (es, input[bev]) == Serve(old(if bev in input then input[bev] else []), chunks, beyond)
      ensures |rs| == |es| && forall i | 0 <= i < |es| :: Answered(es[i], rs[i], owner[bev].uid)
      ensures LedTo(es, old((AsU32(owner[bev].commandIndex), owner[bev].protocolVersion)), Standing(owner[bev]))
      ensures manager.live == old(manager.live) && owner[bev] in manager.live && OthersAlone(owner[bev])
    {
      hide Server.Valid, ReadEvent, Serve, Answered, AsU32, CommandIndex.Next, VersionAfter, LedTo;
      es, rs := [], [];
      OwnerThere(bev);
      ghost var start, client := input[bev], owner[bev];
      ghost var before := Standing(client);
      assert chunks[0..] == chunks;
      NothingServed(start, chunks, beyond, before);
      for n := 0 to |chunks|
        invariant Valid() && owner == old(owner) && base.open == old(base.open) && manager.live == old(manager.live)
        invariant bev in input && bev in owner && owner[bev] == client && client in manager.live && OthersAlone(client)
        invariant ServedSoFar(start, chunks[n..], beyond, es, input[bev], Serve(start, chunks, beyond))
        invariant |rs| == |es| && forall i | 0 <= i < |es| :: Answered(es[i], rs[i], client.uid)
        invariant LedTo(es, before, Standing(client))
      {
        ghost var was, now := input[bev], Standing(client);
        var e, r := Read(bev, chunks[n], beyond);
        assert chunks[n..][0] == chunks[n] && chunks[n..][1..] == chunks[n + 1..];
        OneServed(start, chunks[n..], beyond, es, was, Serve(start, chunks, beyond));
        if e.Some? {
          LedMore(es, before, now, e.value);
          es, rs := es + [e.value], rs + [r];
        }
      }
      AllServed(start, beyond, es, input[bev], Serve(start, chunks, beyond));
    }

    lemma OwnerThere(bev: BufferEvent)
      requires Valid() && bev in base.open
      ensures bev in owner && bev in input && owner[bev] in manager.live && owner[bev].fd == bev.fd
    {
      assert Settled(owner[bev], base.open);
    }

    /** A chunk arrives in the course of a run. */
    method HandleChunk(b: BufferEvent, chunk: seq<byte>, beyond: seq<byte>, log: seq<Handled>, ghost starts: map<Client, (int, nat)>)
      returns (more: seq<Handled>)
      requires Valid() && b in base.open && AllKept(log, starts)
      modifies this`input, manager, manager.buckets, manager.live`next, manager.live`bev, manager.live`refCount,
               manager.live`protocolVersion, manager.live`commandIndex, base
      ensures Valid() && AllKept(log + more, starts) && manager.live == old(manager.live) && base.open == old(base.open)
      ensures forall i | 0 <= i < |more| :: Answered(more[i].event, more[i].response, more[i].client.uid)
      ensures b in input && b in old(input) && input == old(input)[b := input[b]]
      ensures var (e, rest) := ReadEvent(old(if b in input then input[b] else []) + chunk, beyond);
              input[b] == rest && Seen(more) == if e.Some? then [(b.fd, e.value)] else []
    {
      hide Server.Valid, ReadEvent, Answered, AsU32, CommandIndex.Next, VersionAfter, LedTo, Of;
      OwnerThere(b);
      var e, r := Read(b, chunk, beyond);
      var client := owner[b];
      more := [];
      NoMore(log);
      if e.Some? {
        more := [Handled(client, e.value, r)];
        SeenOne(more[0]);
      }
      forall c | c in manager.live ensures Kept(log + more, c, if c in starts then starts[c] else (0, 0)) {
        var start := if c in starts then starts[c] else (0, 0);
        assert old(Kept(log, c, start));
        if e.Some? {
          OfMore(log, more[0], c);
        }
        if c == client && e.Some? {
          LedMore(Of(log, c), start, old(Standing(c)), e.value);
        } else {
          assert ClientAlone(c);
          assert Of(log + more, c) == Of(log, c) by { NothingBehind(Of(log, c)); }
        }
      }
    }

    /** The open connections by their descriptors, with what is in their input buffers. */
    ghost predicate NetIs(net: Net)
      reads base, this`input
    {
      NetOf(base.open, input, net)
    }

    lemma DescriptorsDiffer()
      requires Valid()
      ensures Differ(base.open) && forall b | b in base.open :: b.fd >= 0
    {
    }

    /** Every client has the index and version that its events have left. */
    ghost predicate AllKept(log: seq<Handled>, starts: map<Client, (int, nat)>)
      reads manager`live, manager.live`commandIndex, manager.live`protocolVersion
    {
      && (forall c | c in manager.live :: Kept(log, c, if c in starts then starts[c] else (0, 0)))
      && forall i | 0 <= i < |log| :: log[i].client in manager.live
    }

    /** One step, if the operating system can take it: it hands out no open descriptor, and bytes and closes
        belong to open ones. */
    method TakeStep(step: Step, log: seq<Handled>, ghost starts: map<Client, (int, nat)>, ghost net: Net) returns (more: seq<Handled>)
      requires Valid() && AllKept(log, starts) && starts.Keys <= manager.live && NetIs(net)
      modifies this, manager, manager.buckets, manager.live, base
      ensures Valid() && AllKept(log + more, starts)
      ensures old(manager.live) <= manager.live && fresh(manager.live - old(manager.live))
      ensures forall i | 0 <= i < |more| :: Answered(more[i].event, more[i].response, more[i].client.uid)
      ensures NetIs(StepNet(net, step).0) && Seen(more) == StepNet(net, step).1
    {
      hide Manager.Valid, Server.Wired, Server.Counted, Server.Referenced, ReadEvent, UidAfter, Answered, AsU32, Kept, NetOf, Differ, Seen;
      DescriptorsDiffer();
      DescriptorsOf(base.open, input, net);
      more := [];
      NoMore(log);
      NothingRun(net);
      assert step.Closes? && step.fd !in net ==> net - {step.fd} == net;
      match step
      case Accepts(fd) =>
        if forall b | b in base.open :: b.fd != fd {
          ghost var open, buffers := base.open, input;
          var bev := Accept(fd);
          if fd >= 0 {
            NetAdded(open, buffers, net, bev);
          }
          forall c | c in manager.live && c !in old(manager.live) ensures Kept(log, c, (0, 0)) {
            NewKept(log, c);
          }
        }
      case Arrives(fd, chunk, beyond) =>
        if b: BufferEvent :| b in base.open && b.fd == fd {
          ghost var buffers := input;
          more := HandleChunk(b, chunk, beyond, log, starts);
          NetChanged(base.open, buffers, net, b, input[b]);
        }
      case Closes(fd, eofOrError) =>
        if b: BufferEvent :| b in base.open && b.fd == fd {
          ghost var open, buffers := base.open, input;
          Close(b, eofOrError);
          if eofOrError {
            NetLess(open, buffers, net, b);
          }
        }
    }

    /** Any run of the server: connections are accepted, bytes arrive and connections close, in any order.
        The log holds every event handled, with the client that the connection belongs to and the answer. Each
        client's index is the largest of its commands, and its version that of its last accepted request. What
        is handled, for which descriptor, and what waits in the input buffers follows from the steps alone. */
    method Run(steps: seq<Step>, ghost net: Net) returns (log: seq<Handled>)
      requires Valid() && NetIs(net)
      modifies this, manager, manager.buckets, manager.live, base
      ensures Valid()
      ensures old(manager.live) <= manager.live && fresh(manager.live - old(manager.live))
      ensures forall i | 0 <= i < |log| :: Answered(log[i].event, log[i].response, log[i].client.uid)
      ensures NetIs(RunNet(net, steps).0) && Seen(log) == RunNet(net, steps).1
      ensures forall c | c in old(manager.live) :: Kept(log, c, (old(AsU32(c.commandIndex)), old(c.protocolVersion)))
      ensures forall c | c in manager.live && fresh(c) :: Kept(log, c, (0, 0))
    {
      hide Server.Valid, Server.NetIs, Answered, AsU32, Kept, RunNet, StepNet, Seen;
      log := [];
      NothingRun(net);
      assert steps[..0] == [];
      ghost var starts := map c | c in manager.live :: (AsU32(c.commandIndex), c.protocolVersion);
      forall c | c in manager.live ensures Kept(log, c, starts[c]) {
        NothingKept(c);
      }
      for n := 0 to |steps|
        invariant Valid() && AllKept(log, starts)
        invariant old(manager.live) <= manager.live && fresh(manager.live - old(manager.live))
        invariant forall i | 0 <= i < |log| :: Answered(log[i].event, log[i].response, log[i].client.uid)
        invariant NetIs(RunNet(net, steps[..n]).0) && Seen(log) == RunNet(net, steps[..n]).1
      {
        RunNetMore(net, steps, n);
        var more := TakeStep(steps[n], log, starts, RunNet(net, steps[..n]).0);
        SeenMore(log, more);
        log := log + more;
      }
      assert steps[..|steps|] == steps;
    }
  }

  /** The input buffers of the open connections, by descriptor. */
  type Net = map<int, seq<byte>>

  ghost predicate NetOf(open: set<BufferEvent>, input: map<BufferEvent, seq<byte>>, net: Net) {
    && (forall b | b in open :: b in input && b.fd in net && net[b.fd] == input[b])
    && (forall fd | fd in net :: exists b | b in open :: b.fd == fd)
  }

  ghost predicate Differ(open: set<BufferEvent>) {
    forall a, b | a in open && b in open && a.fd == b.fd :: a == b
  }

  lemma DescriptorsOf(open: set<BufferEvent>, input: map<BufferEvent, seq<byte>>, net: Net)
    requires NetOf(open, input, net)
    ensures forall b | b in open :: b in input && b.fd in net && net[b.fd] == input[b]
    ensures forall fd | fd in net :: exists b | b in open :: b.fd == fd
  {
  }

  lemma NetAdded(open: set<BufferEvent>, input: map<BufferEvent, seq<byte>>, net: Net, b: BufferEvent)
    requires NetOf(open, input, net) && b !in open && b.fd !in net
    ensures NetOf(open + {b}, input[b := []], net[b.fd := []])
  {
    assert b in open + {b};
    forall fd | fd in net ensures exists a | a in open + {b} :: a.fd == fd {
      var a :| a in open && a.fd == fd;
      assert a in open + {b};
    }
  }

  lemma NetChanged(open: set<BufferEvent>, input: map<BufferEvent, seq<byte>>, net: Net, b: BufferEvent, rest: seq<byte>)
    requires NetOf(open, input, net) && Differ(open) && b in open
    ensures NetOf(open, input[b := rest], net[b.fd := rest])
  {
  }

  lemma NetLess(open: set<BufferEvent>, input: map<BufferEvent, seq<byte>>, net: Net, b: BufferEvent)
    requires NetOf(open, input, net) && Differ(open) && b in open
    ensures NetOf(open - {b}, input - {b}, net - {b.fd})
  {
    forall fd | fd in net - {b.fd} ensures exists a | a in open - {b} :: a.fd == fd {
      var a :| a in open && a.fd == fd;
      assert a in open - {b};
    }
  }

  /** What a step does to them, and the event it handles. */
  function StepNet(net: Net, step: Step): (Net, seq<(int, Event)>) {
    match step
    case Accepts(fd) => (if fd < 0 || fd in net then net else net[fd := []], [])
    case Arrives(fd, chunk, beyond) =>
      if fd !in net then (net, []) else
      var (e, rest) := ReadEvent(net[fd] + chunk, beyond);
      (net[fd := rest], if e.Some? then [(fd, e.value)] else [])
    case Closes(fd, eofOrError) => (if eofOrError then net - {fd} else net, [])
  }

  function RunNet(net: Net, steps: seq<Step>): (Net, seq<(int, Event)>) {
    if steps == [] then (net, []) else
    var (before, seen) := RunNet(net, steps[..|steps| - 1]);
    var (after, more) := StepNet(before, steps[|steps| - 1]);
    (after, seen + more)
  }

  lemma NothingRun(net: Net)
    ensures RunNet(net, []) == (net, []) && Seen([]) == []
  {
  }

  lemma RunNetMore(net: Net, steps: seq<Step>, n: nat)
    requires n < |steps|
    ensures var (before, seen) := RunNet(net, steps[..n]);
            RunNet(net, steps[..n + 1]) == (StepNet(before, steps[n]).0, seen + StepNet(before, steps[n]).1)
  {
    hide StepNet;
    assert steps[..n + 1][..n] == steps[..n];
  }

  /** The events of a log, with the descriptors they came from. */
  function Seen(log: seq<Handled>): seq<(int, Event)> {
    seq(|log|, i requires 0 <= i < |log| => (log[i].client.fd, log[i].event))
  }

  lemma SeenMore(log: seq<Handled>, more: seq<Handled>)
    ensures Seen(log + more) == Seen(log) + Seen(more)
  {
  }

  lemma SeenOne(h: Handled)
    ensures Seen([h]) == [(h.client.fd, h.event)] && Seen([]) == []
  {
  }

  /** An event that has been handled, for the client of its connection. */
  datatype Handled = Handled(client: Client, event: Event, response: Response)

  /** The events of one client. */
  function Of(log: seq<Handled>, c: Client): seq<Event> {
    if log == [] then [] else
    var last := log[|log| - 1];
    Of(log[..|log| - 1], c) + if last.client == c then [last.event] else []
  }

  function Headers(es: seq<Event>): seq<Header> {
    seq(|es|, i requires 0 <= i < |es| => es[i].header)
  }

  function VersionAfterAll(version: nat, es: seq<Event>): nat {
    if es == [] then version else VersionAfter(VersionAfterAll(version, es[..|es| - 1]), es[|es| - 1])
  }

  /** The index and version of a client. */
  function Standing(c: Client): (int, nat)
    reads c`commandIndex, c`protocolVersion
  {
    (AsU32(c.commandIndex), c.protocolVersion)
  }

  /** From index and version at the start, the events lead to these: the index is the largest of the start and
      the commands, the version that of the last accepted request. */
  predicate LedTo(es: seq<Event>, start: (int, nat), now: (int, nat)) {
    CommandIndex.IsLargest(start.0, Headers(es), now.0) && now.1 == VersionAfterAll(start.1, es)
  }

  ghost predicate Kept(log: seq<Handled>, c: Client, start: (int, nat))
    reads c`commandIndex, c`protocolVersion
  {
    LedTo(Of(log, c), start, Standing(c))
  }

  lemma LedMore(es: seq<Event>, start: (int, nat), now: (int, nat), e: Event)
    requires LedTo(es, start, now)
    ensures LedTo(es + [e], start, (CommandIndex.Next(now.0, e.header), VersionAfter(now.1, e)))
  {
    hide CommandIndex.IsLargest, CommandIndex.Next, VersionAfter;
    assert (es + [e])[..|es|] == es;
    assert Headers(es + [e]) == Headers(es) + [e.header];
    CommandIndex.LargestMore(start.0, Headers(es), now.0, e.header);
  }

  lemma LedNowhere(start: (int, nat))
    ensures LedTo([], start, start)
  {
  }

  lemma OfMore(log: seq<Handled>, h: Handled, c: Client)
    ensures Of(log + [h], c) == Of(log, c) + if h.client == c then [h.event] else []
  {
    assert (log + [h])[..|log|] == log;
  }

  lemma NothingKept(c: Client)
    ensures Kept([], c, Standing(c))
  {
    hide LedTo;
    LedNowhere(Standing(c));
  }

  lemma NothingBehind(es: seq<Event>)
    ensures es + [] == es
  {
  }

  lemma NoMore(log: seq<Handled>)
    ensures log + [] == log
  {
  }

  /** A client that the log does not mention. */
  lemma {:induction false} NoneOf(log: seq<Handled>, c: Client)
    requires forall i | 0 <= i < |log| :: log[i].client != c
    ensures Of(log, c) == []
  {
    if log != [] {
      NoneOf(log[..|log| - 1], c);
    }
  }

  lemma NewKept(log: seq<Handled>, c: Client)
    requires Standing(c) == (0, 0) && forall i | 0 <= i < |log| :: log[i].client != c
    ensures Kept(log, c, (0, 0))
  {
    hide LedTo;
    NoneOf(log, c);
    LedNowhere((0, 0));
  }

  /** What is still to be served completes what has been served. */
  predicate ServedSoFar(start: seq<byte>, left: seq<seq<byte>>, beyond: seq<byte>, es: seq<Event>, input: seq<byte>,
                        all: (seq<Event>, seq<byte>)) {
    all == (es + Serve(input, left, beyond).0, Serve(input, left, beyond).1)
  }

  lemma NothingServed(start: seq<byte>, chunks: seq<seq<byte>>, beyond: seq<byte>, now: (int, nat))
    ensures ServedSoFar(start, chunks, beyond, [], start, Serve(start, chunks, beyond)) && LedTo([], now, now)
  {
    LedNowhere(now);
    assert [] + Serve(start, chunks, beyond).0 == Serve(start, chunks, beyond).0;
  }

  lemma OneServed(start: seq<byte>, left: seq<seq<byte>>, beyond: seq<byte>, es: seq<Event>, input: seq<byte>,
                  all: (seq<Event>, seq<byte>))
    requires left != [] && ServedSoFar(start, left, beyond, es, input, all)
    ensures var (e, rest) := ReadEvent(input + left[0], beyond);
            ServedSoFar(start, left[1..], beyond, if e.Some? then es + [e.value] else es, rest, all)
  {
    hide ReadEvent;
    var (e, rest) := ReadEvent(input + left[0], beyond);
    var later := Serve(rest, left[1..], beyond).0;
    if e.Some? {
      assert es + ([e.value] + later) == es + [e.value] + later;
    } else {
      assert [] + later == later;
    }
  }

  lemma AllServed(start: seq<byte>, beyond: seq<byte>, es: seq<Event>, input: seq<byte>, all: (seq<Event>, seq<byte>))
    requires ServedSoFar(start, [], beyond, es, input, all)
    ensures all == (es, input)
  {
    assert es + [] == es;
  }

  datatype Step =
    | Accepts(fd: int)
    | Arrives(fd: int, chunk: seq<byte>, beyond: seq<byte>)
    | Closes(fd: int, eofOrError: bool)

  lemma ReadEventValid(b: seq<byte>, beyond: seq<byte>)
    ensures ReadEvent(b, beyond).0.Some? ==> ValidHeader(ReadEvent(b, beyond).0.value.header)
  {
    hide SizeAt, ParseBody, IntegerAt, ArrayAt;
  }
}
