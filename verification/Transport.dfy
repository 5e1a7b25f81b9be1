/**
 Remote calls: a request goes to one peer and is answered, or times out, or is
 cut short by a session ending, while other sessions carry on at any point.
 */
module Transports {
  import opened Bytes
  import opened Crc32c
  import opened Framing
  import opened Peers
  import opened ServerSpec
  import opened Stripes
  import opened Wrappers

  /** A call throws on a timeout; an empty reply means a session ended while it was pending. */
  datatype Reply = Thrown | Empty | Answered(resp: Response)

  /** What a transport has counted so far. */
  datatype Counters = Counters(drops: nat, silent: nat, setbacks: nat, shifts: nat, settled: nat, calm: bool) {
    /** No counter of handles has gone back since the client last made sure of them. */
    predicate Steady() { setbacks == settled }
  }

  /** Every call was answered, and nothing changed by itself. */
  predicate Undisturbed(a: Counters, b: Counters) { b.silent == a.silent && b.shifts == a.shifts }

  /** Counters only grow; sessions end and counters go back only by a shift, and in a calm world there is none. */
  predicate Onward(a: Counters, b: Counters) {
    && a.drops <= b.drops && a.silent <= b.silent && a.setbacks <= b.setbacks && a.shifts <= b.shifts
    && a.settled == b.settled && a.calm == b.calm
    && (b.shifts == a.shifts ==> b.drops == a.drops && b.setbacks == a.setbacks)
    && (a.calm ==> Undisturbed(a, b))
  }

  lemma OnwardTrans(a: Counters, b: Counters, c: Counters)
    requires Onward(a, b) && Onward(b, c)
    ensures Onward(a, c) && (Undisturbed(a, c) ==> Undisturbed(a, b) && Undisturbed(b, c))
    ensures c.drops == a.drops ==> b.drops == a.drops
  {
  }

  class Transport {
    /** In a calm world every peer is connected, none changes by itself, and calls are answered. */
    const calm: bool
    /** What the peers said of themselves, and had for us, at the start; in a calm world this stays. */
    ghost const outlook: seq<Standing>
    var peers: Net
    /** How often sessions of ours were seen to end, and how many calls went unanswered. */
    ghost var drops: nat
    ghost var silent: nat
    /** How often some daemon's counter of handles was seen to go back, as after a restart. */
    ghost var setbacks: nat
    /** How often anything about the network changed by itself. */
    ghost var shifts: nat
    /** The setbacks there had been when every counter was last known to be past all references in use. */
    ghost var settled: nat

    ghost predicate Valid()
      reads this
    {
      NetOk(peers) && (calm ==> AllConnected(peers) && drops == 0 && silent == 0 && Outlook(peers) == outlook)
    }

    ghost function Tally(): (t: Counters)
      reads this
    {
      Counters(drops, silent, setbacks, shifts, settled, calm)
    }

    lemma AllOk()
      requires Valid()
      ensures NetOk(peers)
    {
    }

    constructor (peers: Net, calm: bool)
      requires NetOk(peers) && (calm ==> AllConnected(peers))
      ensures Valid() && this.peers == peers && this.calm == calm && drops == 0 && silent == 0 && Tally().Steady()
      ensures outlook == Outlook(peers)
    {
      this.calm, outlook := calm, Outlook(peers);
      this.peers, drops, silent, setbacks, shifts, settled := peers, 0, 0, 0, 0, 0;
    }

    /** Anything that happens without us: discovery, other sessions, our own sessions ending, restarts. */
    method Evolve()
      requires Valid()
      modifies this
      ensures Valid() && silent == old(silent) && Onward(old(Tally()), Tally()) && |old(peers)| <= |peers|
      ensures Quiet(old(peers), peers, {}) && NoStrays(old(peers), peers, {})
      ensures drops == old(drops) ==> Intact(old(peers), peers, {})
      ensures setbacks == old(setbacks) ==> Counts(old(peers), peers)
      ensures shifts == old(shifts) ==> peers == old(peers)
    {
      hide Quiet, NoStrays, Intact, Evolved, Counts;
      QuietRefl(peers);
      var net: Net := *;
      if !calm && NetEvolved(peers, net) {
        EvolutionIsQuiet(peers, net);
        EvolvedOk(peers, net);
        if SessionLost(peers, net) { drops := drops + 1; }
        if !Counts(peers, net) { setbacks := setbacks + 1; }
        if peers != net {
          shifts := shifts + 1;
        } else {
          QuietRefl(net);
          NothingLostBetween(net);
        }
        peers := net;
      }
    }

    /** `sync_remote_call`. `mid` is the network as the request finds it. */
    method Call(p: nat, op: Op) returns (reply: Reply, ghost mid: Net)
      requires Valid() && p < |peers|
      modifies this
      ensures Valid() && Onward(old(Tally()), Tally()) && p < |mid| == |peers|
      ensures NetOk(mid) && Quiet(old(peers), mid, {}) && NoStrays(old(peers), mid, {})
      ensures drops == old(drops) ==> Intact(old(peers), mid, {})
      ensures setbacks == old(setbacks) ==> Counts(old(peers), mid)
      ensures shifts == old(shifts) ==> mid == old(peers)
      ensures peers == mid || (mid[p].connected && peers == mid[p := Served(mid[p], op).0])
      ensures reply.Answered? ==>
                mid[p].connected && peers == mid[p := Served(mid[p], op).0] && reply.resp == Served(mid[p], op).1
      ensures reply.Empty? ==> Mine(mid[p]) == map[] || (mid[p].connected && peers == mid[p := Served(mid[p], op).0])
      ensures !reply.Answered? <==> silent > old(silent)
      ensures Undisturbed(old(Tally()), Tally()) ==>
                && old(peers)[p].connected && old(peers)[p].pageSize > 0
                && peers == old(peers)[p := Served(old(peers)[p], op).0]
                && reply == Answered(Served(old(peers)[p], op).1)
    {
      hide Quiet, NoStrays, Intact, Evolved, Served, PeerOk, Mine, Counts;
      Evolve();
      mid := peers;
      var fate: nat := *;
      if calm { fate := 4; }
      if !peers[p].connected {
        NotOurs(peers[p]);
        silent := silent + 1;
        return if fate == 0 then Thrown else Empty, mid;
      }
      if fate == 0 {
        silent := silent + 1;
        return Thrown, mid;
      }
      if Mine(peers[p]) == map[] && fate == 1 {
        silent := silent + 1;
        return Empty, mid;
      }
      ServedOk(peers[p], op);
      PageSizePositive(peers[p]);
      var served := Served(peers[p], op);
      ServedClaims(peers[p], op);
      OutlookStays(peers, p, op);
      peers := peers[p := served.0];
      if fate == 2 {
        silent := silent + 1;
        return Thrown, mid;
      }
      if fate == 3 {
        silent := silent + 1;
        return Empty, mid;
      }
      reply := Answered(served.1);
    }

    /**
     Asks a peer for a block. `made` is the reference the peer handed out, also if
     its answer never came.
     */
    method AllocOn(p: nat, size: nat) returns (r: Option<nat>, ghost made: set<Ref>)
      requires Valid() && p < |peers|
      modifies this
      ensures Valid() && Onward(old(Tally()), Tally())
      ensures Placing(old(peers), peers, made, drops == old(drops), setbacks == old(setbacks))
      ensures forall x :: x in made ==> x.peer == p
      ensures r.Some? && size > 0 ==> Ref(p, r.value) in made && Lookup(peers, Ref(p, r.value)) == Some(Zeros(size))
      ensures silent == old(silent) ==> made == if r.Some? && size > 0 then {Ref(p, r.value)} else {}
      ensures Undisturbed(old(Tally()), Tally()) ==>
                && (r.Some? <==> HasRoom(old(peers)[p], size)) && (r.None? || size == 0 ==> peers == old(peers))
                && (r.Some? && size > 0 ==> r.value == old(peers)[p].store.next)
                && old(peers)[p].connected && old(peers)[p].pageSize > 0
                && peers == old(peers)[p := Served(old(peers)[p], Alloc(size)).0]
    {
      hide Quiet, NoStrays, Intact, Served, PeerOk, Lookup, Mine, Zeros, Counts, Placing, HasRoom;
      ghost var before := peers;
      var reply, mid := Call(p, Alloc(size));
      made := if peers == mid then {} else {Ref(p, mid[p].store.next)};
      PlacingNothing(mid);
      if mid[p].connected { AllocEffect(mid, p, size); }
      PlacingAfter(before, mid, peers, made, drops == old(drops), setbacks == old(setbacks));
      r := None;
      if reply.Answered? && reply.resp.status == OK { r := Some(reply.resp.handle); }
    }

    /** Gives a block back. Once answered, the peer no longer holds it. */
    method FreeOn(ref: Ref) returns (ok: bool)
      requires Valid() && ref.peer < |peers|
      modifies this
      ensures Valid() && Onward(old(Tally()), Tally())
      ensures setbacks == old(setbacks) ==> Counts(old(peers), peers)
      ensures Quiet(old(peers), peers, {ref}) && NoStrays(old(peers), peers, {})
      ensures drops == old(drops) ==> Intact(old(peers), peers, {ref})
      ensures Lookup(peers, ref).None? || Lookup(peers, ref) == Lookup(old(peers), ref)
      ensures silent == old(silent) ==> Lookup(peers, ref).None?
      ensures !ok ==> silent > old(silent)
      ensures Undisturbed(old(Tally()), Tally()) ==>
                && old(peers)[ref.peer].connected && old(peers)[ref.peer].pageSize > 0
                && peers == old(peers)[ref.peer := Served(old(peers)[ref.peer], Free(ref.handle)).0]
    {
      hide Quiet, NoStrays, Intact, Served, PeerOk, Lookup, Mine, Counts;
      ghost var before := peers;
      var reply, mid := Call(ref.peer, Free(ref.handle));
      QuietRefl(mid);
      QuietMore(mid, mid, {ref});
      if mid[ref.peer].connected { FreeEffect(mid, ref); }
      After(before, mid, peers, {ref});
      StraysAfter(before, mid, peers, {});
      CountsTrans(before, mid, peers);
      HeldEarlier(before, mid, ref);
      ok := !reply.Thrown?;
    }

    /** Writes into a block. The reply's status is not looked at; within the block it need not be. */
    method WriteOn(ref: Ref, off: nat, data: seq<byte>) returns (ok: bool)
      requires Valid() && ref.peer < |peers|
      modifies this
      ensures Valid() && Onward(old(Tally()), Tally())
      ensures setbacks == old(setbacks) ==> Counts(old(peers), peers)
      ensures Quiet(old(peers), peers, {ref}) && NoStrays(old(peers), peers, {})
      ensures drops == old(drops) ==> Intact(old(peers), peers, {ref})
      ensures MayWrite(Lookup(old(peers), ref), Lookup(peers, ref), off, data)
      ensures ok && Reaches(Lookup(old(peers), ref), off, data) ==>
                DidWrite(Lookup(old(peers), ref), Lookup(peers, ref), off, data)
      ensures ok && drops == old(drops) && Reaches(Lookup(old(peers), ref), off, data) ==>
                FullWrite(Lookup(old(peers), ref), Lookup(peers, ref), off, data)
      ensures !ok ==> silent > old(silent)
      ensures Undisturbed(old(Tally()), Tally()) ==> Alike(old(peers), peers)
    {
      hide Quiet, NoStrays, Intact, Served, PeerOk, Lookup, Mine, Checksum, Patch, Counts, Alike;
      ghost var before := peers;
      var crc := Compute(data, Falses(32));
      var reply, mid := Call(ref.peer, Write(ref.handle, off, Some(data), crc));
      if Undisturbed(old(Tally()), Tally()) { WrittenAlike(before, ref.peer, ref.handle, off, Some(data), crc); }
      QuietRefl(mid);
      QuietMore(mid, mid, {ref});
      HeldEarlier(before, mid, ref);
      if mid[ref.peer].connected { WriteEffect(mid, ref, off, data); }
      NothingHeld(mid, ref);
      After(before, mid, peers, {ref});
      StraysAfter(before, mid, peers, {});
      CountsTrans(before, mid, peers);
      ok := !reply.Thrown?;
    }

    /** Reads a range of a block; a reply without data counts as a failure. */
    method ReadOn(ref: Ref, off: nat, size: nat) returns (r: Option<seq<byte>>)
      requires Valid() && ref.peer < |peers|
      modifies this
      ensures Valid() && Onward(old(Tally()), Tally())
      ensures setbacks == old(setbacks) ==> Counts(old(peers), peers)
      ensures Quiet(old(peers), peers, {}) && NoStrays(old(peers), peers, {})
      ensures drops == old(drops) ==> Intact(old(peers), peers, {})
      ensures r.Some? ==>
                && Lookup(old(peers), ref).Some? && Lookup(peers, ref) == Lookup(old(peers), ref)
                && 0 < size <= MAX_MESSAGE_SIZE && off + size <= |Lookup(peers, ref).value|
                && r.value == Lookup(peers, ref).value[off..off + size]
      ensures drops == old(drops) && silent == old(silent) && 0 < size <= MAX_MESSAGE_SIZE ==>
                Lookup(old(peers), ref).Some? && off + size <= |Lookup(old(peers), ref).value| ==> r.Some?
      ensures Undisturbed(old(Tally()), Tally()) ==> peers == old(peers)
    {
      hide Quiet, NoStrays, Intact, Served, PeerOk, Lookup, Mine, Counts;
      ghost var before := peers;
      var reply, mid := Call(ref.peer, Read(ref.handle, off, size));
      if mid[ref.peer].connected { ReadEffect(mid, ref, off, size); }
      CountsTrans(before, mid, peers);
      HeldEarlier(before, mid, ref);
      r := if reply.Answered? && reply.resp.status == OK then reply.resp.data else None;
    }
  }

  lemma NothingLostBetween(net: Net)
    ensures !SessionLost(net, net) && Counts(net, net)
  {
  }

  lemma NotOurs(p: Peer)
    requires PeerOk(p) && !p.connected
    ensures Mine(p) == map[]
  {
  }

  // ---- Effects of one served request on the whole network ----

  lemma After(a: Net, b: Net, c: Net, t: set<Ref>)
    requires Quiet(a, b, {}) && Quiet(b, c, t)
    ensures Quiet(a, c, t) && (Intact(a, b, {}) && Intact(b, c, t) ==> Intact(a, c, t))
  {
    hide Quiet, Intact;
    QuietTrans(a, b, c, {}, t);
    assert {} + t == t;
  }

  lemma StraysAfter(a: Net, b: Net, c: Net, t: set<Ref>)
    requires NoStrays(a, b, {}) && NoStrays(b, c, t)
    ensures NoStrays(a, c, t)
  {
    hide NoStrays;
    NoStraysTrans(a, b, c, {}, t);
    assert {} + t == t;
  }

  lemma QuietMore(a: Net, b: Net, t: set<Ref>)
    requires Quiet(a, b, {})
    ensures Quiet(a, b, t) && (Intact(a, b, {}) ==> Intact(a, b, t))
  {
  }

  /** What is held after an evolution was held before it, with the same bytes; nothing held is invented. */
  lemma HeldEarlier(a: Net, b: Net, r: Ref)
    requires Quiet(a, b, {})
    ensures Lookup(b, r).Some? ==> Lookup(b, r) == Lookup(a, r)
    ensures Intact(a, b, {}) ==> Lookup(b, r) == Lookup(a, r)
  {
  }

  // ---- Placing blocks ----

  /**
   What calls that were handed the references `made` have done. Nothing else was
   touched. If no session ended, none of them was held before. If no counter went
   back, each is later than all that had been handed out at the start.
   */
  ghost predicate Placing(start: Net, net: Net, made: set<Ref>, lossless: bool, steady: bool) {
    && Quiet(start, net, made) && NoStrays(start, net, made)
    && (lossless ==> Intact(start, net, made) && forall r :: r in made ==> Lookup(start, r).None?)
    && (steady ==> Counts(start, net) && Later(start, made) && Under(net, made))
  }

  ghost predicate Later(net: Net, refs: set<Ref>) {
    forall r :: r in refs && r.peer < |net| ==> net[r.peer].store.next <= r.handle
  }

  ghost predicate Under(net: Net, refs: set<Ref>) {
    forall r :: r in refs ==> r.peer < |net| && r.handle < net[r.peer].store.next
  }

  lemma PlacingNothing(net: Net)
    ensures Placing(net, net, {}, true, true) && Counts(net, net)
  {
  }

  lemma PlacingTrans(a: Net, b: Net, c: Net, s: set<Ref>, t: set<Ref>, lossless: bool, steady: bool)
    requires Placing(a, b, s, lossless, steady) && Placing(b, c, t, lossless, steady)
    ensures Placing(a, c, s + t, lossless, steady)
  {
    hide Lookup;
    QuietTrans(a, b, c, s, t);
    NoStraysTrans(a, b, c, s, t);
    CountsTrans(a, b, c);
  }

  lemma PlacingLess(a: Net, b: Net, s: set<Ref>, lossless: bool, steady: bool, lossless': bool, steady': bool)
    requires Placing(a, b, s, lossless, steady) && (lossless' ==> lossless) && (steady' ==> steady)
    ensures Placing(a, b, s, lossless', steady')
  {
  }

  lemma PlacingAfter(a: Net, b: Net, c: Net, t: set<Ref>, lossless: bool, steady: bool)
    requires Quiet(a, b, {}) && NoStrays(a, b, {}) && (lossless ==> Intact(a, b, {})) && (steady ==> Counts(a, b))
    requires Placing(b, c, t, true, true)
    ensures Placing(a, c, t, lossless, steady)
  {
    hide Lookup, Quiet, Intact, NoStrays, Counts;
    PlacingLess(b, c, t, true, true, lossless, steady);
    assert Placing(a, b, {}, lossless, steady);
    PlacingTrans(a, b, c, {}, t, lossless, steady);
    assert {} + t == t;
  }

  lemma NothingHeld(net: Net, r: Ref)
    ensures r.peer < |net| && Mine(net[r.peer]) == map[] ==> Lookup(net, r).None?
  {
  }

  lemma AllocEffect(net: Net, p: nat, size: nat)
    requires NetOk(net) && p < |net| && net[p].connected
    ensures net[p].pageSize > 0
    ensures var (q, resp) := Served(net[p], Alloc(size));
            var net', ref := net[p := q], Ref(p, net[p].store.next);
            && (resp.status == OK <==> HasRoom(net[p], size))
            && (if resp.status == OK && size > 0
                then net' != net && Placing(net, net', {ref}, true, true) && resp.handle == ref.handle &&
                    Lookup(net', ref) == Some(Zeros(size))
                else net' == net)
  {
    hide Served, Zeros;
    ServedAlloc(net[p], size);
    var (q, resp) := Served(net[p], Alloc(size));
    var net' := net[p := q];
    if resp.status != OK || size == 0 { assert net' == net; }
  }

  lemma FreeEffect(net: Net, ref: Ref)
    requires NetOk(net) && ref.peer < |net| && net[ref.peer].connected
    ensures net[ref.peer].pageSize > 0
    ensures var net' := net[ref.peer := Served(net[ref.peer], Free(ref.handle)).0];
            Quiet(net, net', {ref}) && Intact(net, net', {ref}) && NoStrays(net, net', {}) && Counts(net, net') &&
                Lookup(net', ref).None?
  {
    hide Served;
    ServedFree(net[ref.peer], ref.handle);
  }

  lemma WriteEffect(net: Net, ref: Ref, off: nat, data: seq<byte>)
    requires NetOk(net) && ref.peer < |net| && net[ref.peer].connected
    ensures net[ref.peer].pageSize > 0
    ensures var op := Write(ref.handle, off, Some(data), Checksum(data, Falses(32)));
            var net' := net[ref.peer := Served(net[ref.peer], op).0];
            && Quiet(net, net', {ref}) && Intact(net, net', {ref}) && NoStrays(net, net', {}) && Counts(net, net')
            && MayWrite(Lookup(net, ref), Lookup(net', ref), off, data)
            && (Reaches(Lookup(net, ref), off, data) ==> FullWrite(Lookup(net, ref), Lookup(net', ref), off, data))
  {
    hide Served, Checksum;
    ServedWrite(net[ref.peer], ref.handle, off, data);
    if data == [] && Lookup(net, ref).Some? && off <= |Lookup(net, ref).value| {
      assert Patch(Lookup(net, ref).value, off, data) == Lookup(net, ref).value;
    }
  }

  lemma ReadEffect(net: Net, ref: Ref, off: nat, size: nat)
    requires NetOk(net) && ref.peer < |net| && net[ref.peer].connected
    ensures net[ref.peer].pageSize > 0
    ensures net[ref.peer := Served(net[ref.peer], Read(ref.handle, off, size)).0] == net
    ensures var resp := Served(net[ref.peer], Read(ref.handle, off, size)).1;
            && (resp.status == OK && resp.data.Some? ==>
                  0 < size <= MAX_MESSAGE_SIZE && Lookup(net, ref).Some? && off + size <= |Lookup(net, ref).value| &&
                  resp.data.value == Lookup(net, ref).value[off..off + size])
            && (0 < size <= MAX_MESSAGE_SIZE && Lookup(net, ref).Some? && off + size <= |Lookup(net, ref).value| ==>
                  resp.status == OK && resp.data.Some?)
  {
    hide Served;
    ServedRead(net[ref.peer], ref.handle, off, size);
  }

  lemma PageSizePositive(p: Peer)
    requires PeerOk(p)
    ensures p.pageSize > 0
  {
  }

  lemma QuietRefl(net: Net)
    ensures Quiet(net, net, {}) && NoStrays(net, net, {}) && Intact(net, net, {}) && Counts(net, net)
  {
  }

  lemma EvolvedOk(a: Net, b: Net)
    requires NetEvolved(a, b)
    ensures NetOk(b)
  {
    forall i | 0 <= i < |b| ensures PeerOk(b[i]) {
      if i < |a| { assert Evolved(a[i], b[i]); }
    }
  }

  lemma ServedOk(p: Peer, op: Op)
    requires PeerOk(p) && p.connected
    ensures PeerOk(Served(p, op).0)
  {
    hide PagesFor, Checksum, Patch;
    ServeKeepsFresh(p.pageSize, p.store, p.session, Request(PROTOCOL_VERSION, op));
  }
}
