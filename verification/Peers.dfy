/**
 The client's view of its peers: what each holds for this client, how that can
 change behind its back, and the flat blocks its remote allocations stand for.
 */
module Peers {
  import opened Bytes
  import opened Crc32c
  import opened Framing
  import opened ServerSpec
  import opened Wrappers

  /** A daemon, this client's session on it, and what discovery said about its capacity. */
  datatype Peer = Peer(store: Store, pageSize: nat, session: nat, connected: bool, capacityKnown: bool, freeRam: nat)

  type Net = seq<Peer>

  datatype Ref = Ref(peer: nat, handle: nat)

  /** The bytes this client's session owns on a peer. */
  function Mine(p: Peer): (m: map<nat, seq<byte>>) {
    map h | h in p.store.blocks && p.store.blocks[h].owner == p.session :: p.store.blocks[h].bytes
  }

  /** Without a connection there is no session, and the daemon has swept it. */
  predicate PeerOk(p: Peer) {
    p.pageSize > 0 && p.session != 0 && Fresh(p.store) && Claimed(p.store) && (!p.connected ==> Mine(p) == map[])
  }

  /** This client has a session on every peer it knows. */
  predicate AllConnected(net: Net) { forall i :: 0 <= i < |net| ==> net[i].connected }

  predicate NetOk(net: Net) { forall i :: 0 <= i < |net| ==> PeerOk(net[i]) }

  /**
   What may happen to a peer behind the client's back: other sessions come and go,
   capacities are announced, this client's own session may end, which loses all of
   its blocks there, and be replaced by a new one, and the daemon may be restarted,
   which also makes its handles start again from 1.
   */
  predicate Evolved(a: Peer, b: Peer) {
    PeerOk(b) && (Mine(b) == Mine(a) || Mine(b) == map[])
  }

  /** Peers are only ever added, and a new one holds nothing yet. */
  predicate NetEvolved(a: Net, b: Net) {
    && |a| <= |b|
    && (forall i :: 0 <= i < |a| ==> Evolved(a[i], b[i]))
    && (forall i :: |a| <= i < |b| ==> PeerOk(b[i]) && Mine(b[i]) == map[])
  }

  /** Some session of this client ended. */
  ghost predicate SessionLost(a: Net, b: Net)
    requires |a| <= |b|
  {
    exists i :: 0 <= i < |a| && Mine(b[i]) != Mine(a[i])
  }

  /** Any run of other sessions' requests and departures is such an evolution, and loses nothing. */
  lemma OthersEvolve(p: Peer, total: nat, events: seq<Event>)
    requires PeerOk(p) && Sound(p.pageSize, total, p.store)
    requires forall i :: 0 <= i < |events| ==> !From(events[i], p.session) && events[i].session != 0
    ensures var q := p.(store := Run(p.pageSize, p.store, events));
            Evolved(p, q) && Mine(q) == Mine(p) && p.store.next <= q.store.next
  {
    var q := p.(store := Run(p.pageSize, p.store, events));
    RunIsolates(p.pageSize, total, p.store, events, p.session);
    RunKeepsSound(p.pageSize, total, p.store, events);
    RunKeepsClaimed(p.pageSize, p.store, events);
    MineIsOwned(p);
    MineIsOwned(q);
  }

  lemma MineIsOwned(p: Peer)
    ensures Mine(p) == map h | h in OwnedBy(p.store.blocks, p.session) :: OwnedBy(p.store.blocks, p.session)[h].bytes
  {
  }

  // ---- What a reference holds ----

  function Lookup(net: Net, r: Ref): (b: Option<seq<byte>>) {
    if r.peer < |net| && r.handle in Mine(net[r.peer]) then Some(Mine(net[r.peer])[r.handle]) else None
  }

  /** Outside `touched`, whatever was held is as it was or gone, and nothing appears. */
  ghost predicate Quiet(net: Net, net': Net, touched: set<Ref>) {
    |net| <= |net'| && forall r :: r !in touched ==> Lookup(net', r) == Lookup(net, r) || Lookup(net', r).None?
  }

  /** Outside `touched`, nothing was lost either. */
  ghost predicate Intact(net: Net, net': Net, touched: set<Ref>) {
    forall r :: r !in touched ==> Lookup(net', r) == Lookup(net, r)
  }

  /** Whatever is held now was held before, or is one of `extra`. */
  ghost predicate NoStrays(net: Net, net': Net, extra: set<Ref>) {
    forall r :: Lookup(net', r).Some? ==> Lookup(net, r).Some? || r in extra
  }

  /** No daemon's counter of handles went back. */
  ghost predicate Counts(net: Net, net': Net) {
    |net| <= |net'| && forall i :: 0 <= i < |net| ==> net[i].store.next <= net'[i].store.next
  }

  lemma QuietTrans(a: Net, b: Net, c: Net, s: set<Ref>, t: set<Ref>)
    requires Quiet(a, b, s) && Quiet(b, c, t)
    ensures Quiet(a, c, s + t)
    ensures Intact(a, b, s) && Intact(b, c, t) ==> Intact(a, c, s + t)
  {
    hide Lookup;
  }

  lemma NoStraysTrans(a: Net, b: Net, c: Net, s: set<Ref>, t: set<Ref>)
    requires NoStrays(a, b, s) && NoStrays(b, c, t)
    ensures NoStrays(a, c, s + t)
  {
    hide Lookup;
    forall r | Lookup(c, r).Some? ensures Lookup(a, r).Some? || r in s + t {
      assert Lookup(b, r).Some? || r in t;
    }
  }

  lemma CountsTrans(a: Net, b: Net, c: Net)
    ensures Counts(a, b) && Counts(b, c) ==> Counts(a, c)
  {
  }

  lemma EvolutionIsQuiet(a: Net, b: Net)
    requires NetEvolved(a, b)
    ensures Quiet(a, b, {}) && NoStrays(a, b, {})
    ensures !SessionLost(a, b) ==> Intact(a, b, {})
  {
    hide Mine;
    forall r ensures Lookup(b, r) == Lookup(a, r) || Lookup(b, r).None? {
      if r.peer < |a| {
        assert Evolved(a[r.peer], b[r.peer]);
      } else if r.peer < |b| {
        assert Mine(b[r.peer]) == map[];
      }
    }
    if !SessionLost(a, b) {
      forall r ensures Lookup(b, r) == Lookup(a, r) {
        assert r.peer < |a| ==> Mine(b[r.peer]) == Mine(a[r.peer]);
      }
    }
  }

  // ---- What a request of ours does ----

  /** The peer after it served one of our requests. */
  function Served(p: Peer, op: Op): (r: (Peer, Response))
    requires p.pageSize > 0
  {
    var (store, resp) := Serve(p.pageSize, p.store, p.session, Request(PROTOCOL_VERSION, op));
    (p.(store := store), resp)
  }

  /** What a peer says of itself, and how many pages it has free, are the same. */
  predicate Alike(a: Net, b: Net) {
    |a| == |b| && forall i :: 0 <= i < |a| ==> SameClaims(a[i], b[i]) && a[i].store.free == b[i].store.free
  }

  predicate SameClaims(p: Peer, q: Peer) {
    && q.connected == p.connected && q.capacityKnown == p.capacityKnown && q.freeRam == p.freeRam
    && q.pageSize == p.pageSize
  }

  lemma AlikeTrans(a: Net, b: Net, c: Net)
    requires Alike(a, b) && Alike(b, c)
    ensures Alike(a, c)
  {
  }

  /** What a peer says of itself, and the pages it has for us: those free, and those we hold. */
  datatype Standing = Standing(connected: bool, capacityKnown: bool, freeRam: nat, pageSize: nat, pages: nat)

  ghost function StandingOf(p: Peer): (s: Standing)
    requires p.pageSize > 0
  {
    Standing(p.connected, p.capacityKnown, p.freeRam, p.pageSize,
             p.store.free + Held(OwnedBy(p.store.blocks, p.session), p.pageSize))
  }

  ghost function Outlook(net: Net): (r: seq<Standing>)
    requires NetOk(net)
    ensures |r| == |net| && forall i :: 0 <= i < |net| ==> r[i] == StandingOf(net[i])
  {
    seq(|net|, i requires 0 <= i < |net| => StandingOf(net[i]))
  }

  /** Our own requests move pages between the two, and change nothing else. */
  lemma ServedStanding(p: Peer, op: Op)
    requires PeerOk(p)
    ensures StandingOf(Served(p, op).0) == StandingOf(p)
  {
    hide PagesFor, Held, Patch, Checksum;
    ServedClaims(p, op);
    match op {
      case Alloc(size) => AllocBalances(p, size);
      case Free(h) => FreeBalances(p, h);
      case Write(h, off, data, checksum) => if data.Some? { WriteBalances(p, h, off, data.value); }
      case _ =>
    }
  }

  lemma AllocBalances(p: Peer, size: nat)
    requires PeerOk(p)
    ensures var after := ServeAlloc(p.pageSize, p.store, p.session, size).0;
            after.free + Held(OwnedBy(after.blocks, p.session), p.pageSize) ==
            p.store.free + Held(OwnedBy(p.store.blocks, p.session), p.pageSize)
  {
    hide PagesFor, Held;
    var after, mine := ServeAlloc(p.pageSize, p.store, p.session, size).0, OwnedBy(p.store.blocks, p.session);
    var b := Block(p.session, Zeros(size));
    HeldInsert(mine, p.store.next, b, p.pageSize);
    if after != p.store { assert OwnedBy(after.blocks, p.session) == mine[p.store.next := b]; }
  }

  lemma FreeBalances(p: Peer, h: nat)
    requires PeerOk(p)
    ensures var after := ServeFree(p.pageSize, p.store, p.session, h).0;
            after.free + Held(OwnedBy(after.blocks, p.session), p.pageSize) ==
            p.store.free + Held(OwnedBy(p.store.blocks, p.session), p.pageSize)
  {
    hide PagesFor, Held;
    var after, mine := ServeFree(p.pageSize, p.store, p.session, h).0, OwnedBy(p.store.blocks, p.session);
    if after != p.store {
      HeldRemove(mine, h, p.pageSize);
      assert OwnedBy(after.blocks, p.session) == mine - {h};
    }
  }

  lemma WriteBalances(p: Peer, h: nat, off: nat, data: seq<byte>)
    requires PeerOk(p)
    ensures var after := ServeWrite(p.store, p.session, h, off, data).0;
            after.free == p.store.free &&
            Held(OwnedBy(after.blocks, p.session), p.pageSize) == Held(OwnedBy(p.store.blocks, p.session), p.pageSize)
  {
    hide PagesFor, Held;
    var after := ServeWrite(p.store, p.session, h, off, data).0;
    HeldSameSizes(OwnedBy(p.store.blocks, p.session), OwnedBy(after.blocks, p.session), p.pageSize);
  }

  /** So a request of ours leaves the standing of every peer. */
  lemma OutlookStays(net: Net, p: nat, op: Op)
    requires NetOk(net) && p < |net| && PeerOk(Served(net[p], op).0)
    ensures NetOk(net[p := Served(net[p], op).0]) && Outlook(net[p := Served(net[p], op).0]) == Outlook(net)
  {
    hide Served, StandingOf;
    ServedStanding(net[p], op);
  }

  /** Serving a request changes nothing but the store. */
  lemma ServedClaims(p: Peer, op: Op)
    requires p.pageSize > 0
    ensures SameClaims(p, Served(p, op).0)
  {
  }

  /** Writing takes no pages. */
  lemma WrittenAlike(net: Net, p: nat, h: nat, off: nat, data: Option<seq<byte>>, checksum: Word)
    requires p < |net| && net[p].pageSize > 0
    ensures Alike(net, net[p := Served(net[p], Write(h, off, data, checksum)).0])
  {
    hide Checksum, Patch;
  }

  /** Enough free pages for a block, and a size the daemon can round up. */
  predicate HasRoom(p: Peer, size: nat) {
    size == 0 || (p.pageSize > 0 && size <= WORD_SIZE - p.pageSize && PagesFor(size, p.pageSize) <= p.store.free)
  }

  lemma ServedAlloc(p: Peer, size: nat)
    requires PeerOk(p) && p.connected
    ensures var (q, resp) := Served(p, Alloc(size));
            && PeerOk(q) && q.pageSize == p.pageSize
            && (resp.status == OK && size > 0 ==>
                  resp.handle == p.store.next && q.store.next == p.store.next + 1 &&
                      Mine(q) == Mine(p)[resp.handle := Zeros(size)])
            && (resp.status == OK && size == 0 ==> resp.handle == 0 && q == p)
            && (resp.status != OK ==> q == p) && (resp.status == OK <==> HasRoom(p, size))
  {
    hide PagesFor, Zeros;
    ServeKeepsFresh(p.pageSize, p.store, p.session, Request(PROTOCOL_VERSION, Alloc(size)));
  }

  lemma ServedFree(p: Peer, h: nat)
    requires PeerOk(p) && p.connected
    ensures var (q, resp) := Served(p, Free(h));
            PeerOk(q) && q.pageSize == p.pageSize && q.store.next == p.store.next && Mine(q) == Mine(p) - {h}
  {
    hide PagesFor;
    ServeKeepsFresh(p.pageSize, p.store, p.session, Request(PROTOCOL_VERSION, Free(h)));
  }

  /** A write to a block of ours that is still there, in range, always takes effect. */
  lemma ServedWrite(p: Peer, h: nat, off: nat, data: seq<byte>)
    requires PeerOk(p) && p.connected
    ensures var q := Served(p, Write(h, off, Some(data), Checksum(data, Falses(32)))).0;
            && PeerOk(q) && q.pageSize == p.pageSize && q.store.next == p.store.next
            && (data == [] ==> q == p)
            && (data != [] && h in Mine(p) && off + |data| <= |Mine(p)[h]| ==>
                  Mine(q) == Mine(p)[h := Patch(Mine(p)[h], off, data)])
            && (h !in Mine(p) || off + |data| > |Mine(p)[h]| ==> Mine(q) == Mine(p))
  {
    hide PagesFor, Checksum, Patch;
    ServeKeepsFresh(p.pageSize, p.store, p.session,
                    Request(PROTOCOL_VERSION, Write(h, off, Some(data), Checksum(data, Falses(32)))));
  }

  /** A read changes nothing and is answered with data exactly when there is something to answer. */
  lemma ServedRead(p: Peer, h: nat, off: nat, size: nat)
    requires PeerOk(p) && p.connected
    ensures Served(p, Read(h, off, size)).0 == p
    ensures var resp := Served(p, Read(h, off, size)).1;
            && (resp.status == OK && resp.data.Some? ==>
                  0 < size <= MAX_MESSAGE_SIZE && h in Mine(p) && off + size <= |Mine(p)[h]| &&
                      resp.data.value == Mine(p)[h][off..off + size])
            && (0 < size <= MAX_MESSAGE_SIZE && h in Mine(p) && off + size <= |Mine(p)[h]| ==>
                  resp.status == OK && resp.data == Some(Mine(p)[h][off..off + size]))
            && (size == 0 ==> resp.data.None?)
  {
    hide PagesFor, Checksum;
  }
}
