/**
 Daemons that are restarted hand out their handles again from 1, while the client
 still goes by the old ones.
 */
module Restarts {
  import opened Bytes
  import opened ClientModel
  import opened Crc32c
  import opened Framing
  import opened Peers
  import opened RemoteIo
  import opened ServerSpec
  import opened Stripes
  import opened Transports
  import opened Wrappers

  /** A daemon just started, with a session of ours on it. */
  predicate JustStarted(q: Peer) { PeerOk(q) && q.connected && q.store.blocks == map[] && q.store.next == 1 }

  /** A restarted daemon is an evolution, and one its counter shows. */
  lemma RestartIsSetback(p: Peer, q: Peer)
    requires PeerOk(p) && p.store.next > 1 && JustStarted(q)
    ensures Evolved(p, q) && !Counts([p], [q]) && Mine(q) == map[]
  {
    assert [p][0] == p && [q][0] == q;
  }

  /** The peer after a new block `e` was placed on it. */
  function Placed(q: Peer, e: seq<byte>): (r: (Peer, Response))
    requires q.pageSize > 0
  {
    var (q1, resp) := Served(q, Alloc(|e|));
    (Served(q1, Write(resp.handle, 0, Some(e), Checksum(e, Falses(32)))).0, resp)
  }

  /**
   A handle's piece goes by some reference, and the daemon's counter is at that handle
   again. A new block placed there, however short, gets the same reference. The old
   handle's piece now reads as the new block as far as that goes and is lost beyond it,
   and what asking for it returns is the new block.
   */
  lemma RestartMixesBlocks(remote: Remote, net: Net, h: nat, k: nat, q: Peer, e: seq<byte>)
    requires h in remote && Formed(remote[h], |net|) && k < |Pieces(remote[h])|
    requires PeerOk(q) && q.connected && q.store.next == Pieces(remote[h])[k].ref.handle
    requires e != [] && HasRoom(q, |e|)
    ensures q.pageSize > 0
    ensures var ps := Pieces(remote[h]);
            var s := ps[k];
            var (q', resp) := Placed(q, e);
            var net' := net[s.ref.peer := q'];
            && q'.pageSize > 0 && s.length > 0 && resp.status == OK && resp.handle == s.ref.handle
            && Lookup(net', s.ref) == Some(e) && Clash(remote, {s.ref}, {s.ref}, net')
            && s.offset + s.length <= |Cells(net', ps)|
            && (forall i :: 0 <= i < s.length ==>
                  Cells(net', ps)[s.offset + i] == if i < |e| then Known(e[i]) else Lost)
            && (forall n :: 0 < n <= |e| && n <= MAX_MESSAGE_SIZE ==>
                  Served(q', Read(s.ref.handle, 0, n)).1.data == Some(e[..n]))
  {
    hide Served, Checksum, Zeros, HasRoom, PeerOk, Mine, Cells, Tile, OnDifferentPeers;
    var ps := Pieces(remote[h]);
    var s := ps[k];
    PlacedHolds(q, e);
    var (q', resp) := Placed(q, e);
    var net' := net[s.ref.peer := q'];
    CellsOfPiece(net', ps, 0, remote[h].size, k);
    TilePositive(ps, 0, remote[h].size, k);
    var c := Cells(net', ps);
    forall i | 0 <= i < s.length ensures c[s.offset + i] == if i < |e| then Known(e[i]) else Lost {
      assert c[s.offset..s.offset + s.length][i] == PieceCells(net', s)[i];
    }
    forall n | 0 < n <= |e| && n <= MAX_MESSAGE_SIZE
      ensures Served(q', Read(s.ref.handle, 0, n)).1.data == Some(e[..n])
    {
      ServedRead(q', s.ref.handle, 0, n);
      assert e[0..0 + n] == e[..n];
    }
    assert s.ref in RefsOf(remote[h]);
    assert s.ref in AllRefs(remote);
  }

  lemma PlacedHolds(q: Peer, e: seq<byte>)
    requires PeerOk(q) && q.connected && e != [] && HasRoom(q, |e|)
    ensures q.pageSize > 0
    ensures var (q', resp) := Placed(q, e);
            && PeerOk(q') && q'.connected && q'.pageSize > 0 && resp.status == OK && resp.handle == q.store.next
            && resp.handle in Mine(q') && Mine(q')[resp.handle] == e
  {
    hide Served, Checksum, Zeros, HasRoom;
    ServedAlloc(q, |e|);
    var (q1, resp) := Served(q, Alloc(|e|));
    ServedClaims(q, Alloc(|e|));
    ServedWrite(q1, resp.handle, 0, e);
    ServedClaims(q1, Write(resp.handle, 0, Some(e), Checksum(e, Falses(32))));
    assert Patch(Zeros(|e|), 0, e) == e;
  }

  // ---- When a handle can be handed out again ----

  /** After some steps of other sessions, our next allocation on the peer is answered with handle `h`. */
  ghost predicate HandsOut(p: Peer, events: seq<Event>, h: nat) {
    && p.pageSize > 0
    && (forall i :: 0 <= i < |events| ==> !From(events[i], p.session) && events[i].session != 0)
    && var (_, resp) := Served(p.(store := Run(p.pageSize, p.store, events)), Alloc(1));
       resp.status == OK && resp.handle == h
  }

  /** Other sessions can bring the counter to any later value, and never to an earlier one. */
  lemma CounterDecides(p: Peer, total: nat, h: nat)
    requires PeerOk(p) && p.connected && p.pageSize < WORD_SIZE && p.store.free > 0 && Sound(p.pageSize, total, p.store)
    ensures (exists events :: HandsOut(p, events, h)) <==> p.store.next <= h
  {
    hide Sound;
    if p.store.next <= h {
      var events := UsedUp(p.pageSize, p.store, p.session + 1, h - p.store.next);
      RunServes(p, total, events);
      OnePage(p.pageSize);
      assert HandsOut(p, events, h);
    }
    forall events | HandsOut(p, events, h) ensures p.store.next <= h {
      RunServes(p, total, events);
    }
  }

  /** A daemon that answers us and has a free page. */
  ghost predicate Serving(p: Peer) {
    && PeerOk(p) && p.connected && p.pageSize < WORD_SIZE && p.store.free > 0
    && exists total :: Sound(p.pageSize, total, p.store)
  }

  /** Our next allocation on some peer can be answered with a reference a handle still goes by. */
  ghost predicate CanCollide(remote: Remote, net: Net) {
    exists r, events :: r in AllRefs(remote) && r.peer < |net| && HandsOut(net[r.peer], events, r.handle)
  }

  /** A new block can get a registered reference exactly if some counter is not past all of them. */
  lemma CollisionAhead(remote: Remote, net: Net)
    requires forall i :: 0 <= i < |net| ==> Serving(net[i])
    requires forall r :: r in AllRefs(remote) ==> r.peer < |net|
    ensures CanCollide(remote, net) <==> !Under(net, AllRefs(remote))
  {
    hide AllRefs, HandsOut;
    forall r | r in AllRefs(remote)
      ensures (exists events :: HandsOut(net[r.peer], events, r.handle)) <==> net[r.peer].store.next <= r.handle
    {
      var total :| Sound(net[r.peer].pageSize, total, net[r.peer].store);
      CounterDecides(net[r.peer], total, r.handle);
    }
  }

  lemma CollisionIsReady(p: Peer, events: seq<Event>, h: nat)
    requires Serving(p) && HandsOut(p, events, h)
    ensures var q := p.(store := Run(p.pageSize, p.store, events));
            PeerOk(q) && q.connected && q.store.next == h && HasRoom(q, 1)
  {
    var total :| Sound(p.pageSize, total, p.store);
    RunServes(p, total, events);
    OthersEvolve(p, total, events);
  }

  /** Every collision mixes blocks: the first byte of that piece becomes whatever byte a new block holds. */
  lemma CollisionMixes(remote: Remote, net: Net, h: nat, k: nat, events: seq<Event>, b: byte)
    requires h in remote && Formed(remote[h], |net|) && k < |Pieces(remote[h])|
    requires var r := Pieces(remote[h])[k].ref; Serving(net[r.peer]) && HandsOut(net[r.peer], events, r.handle)
    ensures var s := Pieces(remote[h])[k];
            var p := net[s.ref.peer];
            var q := p.(store := Run(p.pageSize, p.store, events));
            var net' := net[s.ref.peer := Placed(q, [b]).0];
            && Clash(remote, {s.ref}, {s.ref}, net')
            && s.offset < |Cells(net', Pieces(remote[h]))| && Cells(net', Pieces(remote[h]))[s.offset] == Known(b)
  {
    hide Serving, HandsOut, HasRoom, Run, Served, Cells, Clash, Tile, OnDifferentPeers;
    var s := Pieces(remote[h])[k];
    var p := net[s.ref.peer];
    CollisionIsReady(p, events, s.ref.handle);
    var q := p.(store := Run(p.pageSize, p.store, events));
    RestartMixesBlocks(remote, net, h, k, q, [b]);
    var c := Cells(net[s.ref.peer := Placed(q, [b]).0], Pieces(remote[h]));
    assert c[s.offset + 0] == Known([b][0]);
  }

  lemma RunServes(p: Peer, total: nat, events: seq<Event>)
    requires PeerOk(p) && p.connected && Sound(p.pageSize, total, p.store)
    requires forall i :: 0 <= i < |events| ==> !From(events[i], p.session) && events[i].session != 0
    ensures var q := p.(store := Run(p.pageSize, p.store, events));
            && p.store.next <= q.store.next
            && (HasRoom(q, 1) <==> Served(q, Alloc(1)).1.status == OK)
            && (Served(q, Alloc(1)).1.status == OK ==> Served(q, Alloc(1)).1.handle == q.store.next)
  {
    hide Served, Run, HasRoom;
    OthersEvolve(p, total, events);
    ServedAlloc(p.(store := Run(p.pageSize, p.store, events)), 1);
  }

  lemma OnePage(ps: nat)
    requires ps > 0
    ensures PagesFor(1, ps) == 1
  {
    assert (1 + ps - 1) / ps == 1;
  }

  /** Allocating a byte and freeing it again, `n` times, only moves the counter. */
  lemma {:induction false} UsedUp(ps: nat, store: Store, session: nat, n: nat) returns (events: seq<Event>)
    requires 0 < ps < WORD_SIZE && session != 0 && Fresh(store) && store.free > 0
    ensures Run(ps, store, events) == store.(next := store.next + n)
    ensures forall i :: 0 <= i < |events| ==> events[i].session == session
    decreases n
  {
    if n == 0 { return []; }
    var alloc := Asked(session, Request(PROTOCOL_VERSION, Alloc(1)));
    var free := Asked(session, Request(PROTOCOL_VERSION, Free(store.next)));
    OnePage(ps);
    var mid := Apply(ps, store, alloc);
    assert mid == Store(store.blocks[store.next := Block(session, Zeros(1))], store.next + 1, store.free - 1);
    var after := Apply(ps, mid, free);
    assert store.blocks[store.next := Block(session, Zeros(1))] - {store.next} == store.blocks;
    assert after == store.(next := store.next + 1);
    var rest := UsedUp(ps, after, session, n - 1);
    events := [alloc, free] + rest;
    assert events[1..] == [free] + rest && events[1..][1..] == rest;
  }
}
