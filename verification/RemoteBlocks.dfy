/** Placing, releasing, writing and reading blocks on peers, whole or striped. */
module RemoteBlocks {
  import opened Bytes
  import opened Framing
  import opened Peers
  import opened ServerSpec
  import opened Stripes
  import opened Transports
  import opened Wrappers

  // ---- Lemmas about growing and releasing a list of stripes ----

  lemma {:induction false} TileAppend(ps: seq<Stripe>, from: nat, size: nat, s: Stripe)
    requires Tile(ps, from, size) && s.offset == size && s.length > 0
    ensures Tile(ps + [s], from, size + s.length)
    decreases |ps|
  {
    if ps != [] {
      assert (ps + [s])[1..] == ps[1..] + [s];
      TileAppend(ps[1..], from + ps[0].length, size, s);
    } else {
      assert (ps + [s])[1..] == [];
    }
  }

  lemma {:induction false} CellsAppend(net: Net, ps: seq<Stripe>, s: Stripe)
    ensures Cells(net, ps + [s]) == Cells(net, ps) + PieceCells(net, s)
    decreases |ps|
  {
    hide PieceCells;
    if ps != [] {
      assert (ps + [s])[1..] == ps[1..] + [s];
      CellsAppend(net, ps[1..], s);
    } else {
      assert (ps + [s])[1..] == [];
    }
  }

  lemma RefsAppend(ps: seq<Stripe>, s: Stripe)
    ensures Refs(ps + [s]) == Refs(ps) + {s.ref}
  {
    forall r | r in Refs(ps) ensures r in Refs(ps + [s]) {
      var i :| 0 <= i < |ps| && ps[i].ref == r;
      assert (ps + [s])[i].ref == r;
    }
    assert (ps + [s])[|ps|].ref == s.ref;
  }

  /** What a run of allocation calls has achieved so far: `ps` tile [0, n) and hold zeros. */
  ghost predicate Growing(net: Net, ps: seq<Stripe>, n: nat, lossless: bool) {
    && Tile(ps, 0, n) && OnDifferentPeers(ps) && OnPeers(ps, |net|) && Sized(net, ps)
    && Decayed(AllKnown(Zeros(n)), Cells(net, ps))
    && (lossless ==> Cells(net, ps) == AllKnown(Zeros(n)))
  }

  lemma GrowingStays(a: Net, b: Net, ps: seq<Stripe>, n: nat, touched: set<Ref>, before: bool, after: bool)
    requires Growing(a, ps, n, before) && Quiet(a, b, touched) && Refs(ps) !! touched
    requires after ==> before && Intact(a, b, touched)
    ensures Growing(b, ps, n, after)
  {
    hide Quiet, Intact, Tile, OnDifferentPeers, Sized, Decayed, Cells;
    QuietLength(a, b, touched);
    CellsDecay(a, b, ps, touched);
    DecayTrans(AllKnown(Zeros(n)), Cells(a, ps), Cells(b, ps));
  }

  lemma GrowingAppend(net: Net, ps: seq<Stripe>, n: nat, lossless: bool, s: Stripe)
    requires Growing(net, ps, n, lossless)
    requires s.offset == n && s.length > 0 && s.ref.peer < |net| && Lookup(net, s.ref) == Some(Zeros(s.length))
    requires forall i :: 0 <= i < |ps| ==> ps[i].ref.peer != s.ref.peer
    ensures Growing(net, ps + [s], n + s.length, lossless)
  {
    hide Lookup;
    TileAppend(ps, 0, n, s);
    CellsAppend(net, ps, s);
    assert PieceCells(net, s) == AllKnown(Zeros(s.length));
    assert AllKnown(Zeros(n)) + AllKnown(Zeros(s.length)) == AllKnown(Zeros(n + s.length));
    hide Tile, Cells, Refs;
  }

  lemma NothingGrown(net: Net)
    ensures Growing(net, [], 0, true)
  {
  }

  /** Touching only what was handed out meanwhile adds nothing. */
  lemma PlacingTouch(start: Net, net: Net, net': Net, made: set<Ref>, touched: set<Ref>, lossless: bool, steady: bool)
    requires Placing(start, net, made, lossless, steady) && touched <= made
    requires Quiet(net, net', touched) && NoStrays(net, net', {}) && (lossless ==> Intact(net, net', touched))
    requires steady ==> Counts(net, net')
    ensures Placing(start, net', made, lossless, steady)
  {
    hide Lookup;
    QuietTrans(start, net, net', made, touched);
    NoStraysTrans(start, net, net', made, {});
    CountsTrans(start, net, net');
    assert made + touched == made && made + {} == made;
  }

  // ---- Choosing peers ----

  predicate MayFit(p: Peer, size: nat) { !p.capacityKnown || p.freeRam >= size }

  /** The peer claims to fit the block and has the pages for it. */
  predicate Willing(net: Net, p: nat, size: nat) { p < |net| && MayFit(net[p], size) && HasRoom(net[p], size) }

  /** Known capacities before unknown ones, larger before smaller. */
  predicate Preferred(a: Peer, b: Peer) {
    if a.capacityKnown != b.capacityKnown then a.capacityKnown else a.freeRam >= b.freeRam
  }

  /** Distinct connected peers, each preferred to all that follow. */
  predicate Ranked(net: Net, order: seq<nat>) {
    order == [] ||
    (order[0] < |net| && net[order[0]].connected && Ranked(net, order[1..]) &&
     forall q :: q in order[1..] ==> q < |net| && q != order[0] && Preferred(net[order[0]], net[q]))
  }

  function Insert(net: Net, order: seq<nat>, p: nat): (r: seq<nat>)
    requires p < |net| && net[p].connected && Ranked(net, order) && p !in order
    ensures Ranked(net, r) && forall q :: q in r <==> q == p || q in order
  {
    if order == [] || !Preferred(net[order[0]], net[p]) then
      assert order != [] ==> forall q :: q in order ==> q == order[0] || q in order[1..];
      assert ([p] + order)[1..] == order;
      [p] + order
    else
      var rest := Insert(net, order[1..], p);
      assert ([order[0]] + rest)[1..] == rest;
      [order[0]] + rest
  }

  /** The connected peers, best first. */
  method Candidates(net: Net) returns (order: seq<nat>)
    ensures Ranking(net, order)
  {
    order := [];
    for p := 0 to |net|
      invariant Ranked(net, order) && forall q :: q in order <==> 0 <= q < p && net[q].connected
    {
      if net[p].connected { order := Insert(net, order, p); }
    }
  }

  lemma {:induction false} RankedDistinct(net: Net, order: seq<nat>, i: nat, j: nat)
    requires Ranked(net, order) && i < j < |order|
    ensures order[i] != order[j]
    decreases |order|
  {
    if i == 0 {
      assert order[j] == order[1..][j - 1];
    } else {
      RankedDistinct(net, order[1..], i - 1, j - 1);
    }
  }

  /** Each connected peer once; known capacities first, and among those known, or unknown, larger ones first. */
  lemma {:induction false} RankedIsSorted(net: Net, order: seq<nat>, i: nat, j: nat)
    requires Ranked(net, order) && i < j < |order|
    ensures order[i] < |net| && order[j] < |net| && order[i] != order[j] && net[order[i]].connected
    ensures net[order[j]].capacityKnown ==>
              net[order[i]].capacityKnown && net[order[i]].freeRam >= net[order[j]].freeRam
    ensures net[order[j]].capacityKnown == net[order[i]].capacityKnown ==>
              net[order[i]].freeRam >= net[order[j]].freeRam
    decreases |order|
  {
    if i == 0 {
      assert order[j] == order[1..][j - 1];
    } else {
      RankedIsSorted(net, order[1..], i - 1, j - 1);
    }
  }

  /** What a peer is offered of a block when striping: what it claims to have, or the rest. */
  function Offered(p: Peer, remaining: nat): (chunk: nat) {
    if p.capacityKnown && p.freeRam < remaining then p.freeRam else remaining
  }

  /** What is left of a block after the peers have been offered their parts in this order. */
  function Unplaced(net: Net, order: seq<nat>, size: nat): (left: nat) {
    if order == [] then size
    else
      var left, p := Unplaced(net, order[..|order| - 1], size), order[|order| - 1];
      if p < |net| && Offered(net[p], left) > 0 && HasRoom(net[p], Offered(net[p], left)) then
        left - Offered(net[p], left)
      else left
  }

  lemma {:induction false} PlacedStaysPlaced(net: Net, order: seq<nat>, size: nat, k: nat)
    requires k <= |order| && Unplaced(net, order[..k], size) == 0
    ensures Unplaced(net, order, size) == 0
    decreases |order|
  {
    if k < |order| {
      assert order[..|order| - 1][..k] == order[..k];
      PlacedStaysPlaced(net, order[..|order| - 1], size, k);
    } else {
      assert order[..k] == order;
    }
  }

  /** How much the peers claim to have between them. */
  function ClaimedTogether(net: Net, order: seq<nat>): (n: nat) {
    if order == [] then 0
    else
      var p := order[|order| - 1];
      ClaimedTogether(net, order[..|order| - 1]) + if p < |net| then net[p].freeRam else 0
  }

  /** The peer has the pages for what it claims, and for anything smaller. */
  predicate Truthful(p: Peer) {
    && p.capacityKnown && p.pageSize > 0 && p.freeRam <= WORD_SIZE - p.pageSize
    && PagesFor(p.freeRam, p.pageSize) <= p.store.free
  }

  /** Over peers that have what they claim, striping places all of a block, or as much as they claim together. */
  lemma {:induction false} TruthfulAddUp(net: Net, order: seq<nat>, size: nat)
    requires forall p :: p in order ==> p < |net| && Truthful(net[p])
    ensures var claimed := ClaimedTogether(net, order);
            Unplaced(net, order, size) == if claimed >= size then 0 else size - claimed
    decreases |order|
  {
    hide PagesFor;
    if order != [] {
      var rest, p := order[..|order| - 1], order[|order| - 1];
      assert p in order && forall q :: q in rest ==> q in order;
      TruthfulAddUp(net, rest, size);
      var chunk := Offered(net[p], Unplaced(net, rest, size));
      PagesForGrows(chunk, net[p].freeRam, net[p].pageSize);
    }
  }

  /** A last peer of unknown capacity is offered all that is left. */
  lemma UnknownTakesRest(net: Net, order: seq<nat>, size: nat, p: nat)
    requires p < |net| && !net[p].capacityKnown && HasRoom(net[p], Unplaced(net, order, size))
    ensures Unplaced(net, order + [p], size) == 0
  {
    assert (order + [p])[..|order|] == order;
  }

  /** The connected peers in an order of preference; the code's sort leaves ties open. */
  ghost predicate Ranking(net: Net, order: seq<nat>) {
    Ranked(net, order) && forall p :: p in order <==> 0 <= p < |net| && net[p].connected
  }

  /** Striping in this order places the block. */
  predicate AddsUp(net: Net, order: seq<nat>, size: nat) { |order| > 1 && size > 0 && Unplaced(net, order, size) == 0 }

  /** Some connected peer would take the block, or the peers together, however ties are broken. */
  ghost predicate Placeable(net: Net, size: nat) {
    || (exists p: nat :: Willing(net, p, size) && net[p].connected)
    || (forall order :: Ranking(net, order) ==> AddsUp(net, order, size))
  }

  /** Some connected peer would take the block, or the peers together if ties are broken the right way. */
  ghost predicate MaybePlaceable(net: Net, size: nat) {
    || (exists p: nat :: Willing(net, p, size) && net[p].connected)
    || (exists order :: Ranking(net, order) && AddsUp(net, order, size))
  }

  /** Whether a block can be placed depends only on what peers claim and have free. */
  lemma PlaceableAlike(a: Net, b: Net, size: nat)
    requires Alike(a, b)
    ensures Placeable(a, size) == Placeable(b, size)
  {
    hide PagesFor;
    forall p: nat ensures (Willing(a, p, size) && a[p].connected) == (Willing(b, p, size) && b[p].connected) {
    }
    forall order: seq<nat>
      ensures (Ranking(a, order) ==> AddsUp(a, order, size)) == (Ranking(b, order) ==> AddsUp(b, order, size))
    {
      RankedAlike(a, b, order);
      UnplacedAlike(a, b, order, size);
    }
  }

  lemma {:induction false} RankedAlike(a: Net, b: Net, order: seq<nat>)
    requires Alike(a, b)
    ensures Ranked(a, order) == Ranked(b, order)
    decreases |order|
  {
    if order != [] { RankedAlike(a, b, order[1..]); }
  }

  lemma {:induction false} UnplacedAlike(a: Net, b: Net, order: seq<nat>, size: nat)
    requires Alike(a, b)
    ensures Unplaced(a, order, size) == Unplaced(b, order, size)
    decreases |order|
  {
    hide PagesFor;
    if order != [] { UnplacedAlike(a, b, order[..|order| - 1], size); }
  }

  /** Placing a block of this size took no more pages of any peer than it would all on that peer. */
  predicate Charged(a: Net, b: Net, size: nat) {
    |a| == |b| && forall i :: 0 <= i < |a| ==>
      && SameClaims(a[i], b[i]) && a[i].pageSize > 0 && b[i].store.free <= a[i].store.free
      && a[i].store.free <= b[i].store.free + PagesFor(size, a[i].pageSize)
  }

  // ---- Releasing ----

  /** The peers after these pieces were given back, each to its peer. */
  ghost predicate Freed(a: Net, b: Net, ps: seq<Stripe>) {
    && |a| == |b|
    && (forall p :: 0 <= p < |a| && (forall k :: 0 <= k < |ps| ==> ps[k].ref.peer != p) ==> b[p] == a[p])
    && (forall k :: 0 <= k < |ps| ==>
          var p := ps[k].ref.peer;
          p < |a| && a[p].pageSize > 0 &&
          (a[p].connected ==> b[p] == Served(a[p], Free(ps[k].ref.handle)).0) && (!a[p].connected ==> b[p] == a[p]))
  }

  lemma FreedNext(a: Net, b: Net, c: Net, ps: seq<Stripe>, i: nat)
    requires OnDifferentPeers(ps) && i < |ps| && Freed(a, b, ps[..i]) && ps[i].ref.peer < |a|
    requires var p := ps[i].ref.peer;
             b[p].pageSize > 0 &&
             (if b[p].connected then c == b[p := Served(b[p], Free(ps[i].ref.handle)).0] else c == b)
    ensures Freed(a, c, ps[..i + 1])
  {
    hide Served;
    var p, qs := ps[i].ref.peer, ps[..i + 1];
    forall k | 0 <= k < i ensures ps[..i][k].ref.peer != p { assert ps[..i][k] == ps[k]; }
    assert b[p] == a[p] && qs[i] == ps[i];
    assert forall k :: 0 <= k < i ==> qs[k] == ps[..i][k] == ps[k];
  }

  /** Releases every piece; failures are only logged. */
  method FreePieces(net: Transport, ps: seq<Stripe>)
    requires net.Valid() && OnPeers(ps, |net.peers|)
    modifies net
    ensures net.Valid() && Onward(old(net.Tally()), net.Tally())
    ensures net.setbacks == old(net.setbacks) ==> Counts(old(net.peers), net.peers)
    ensures Quiet(old(net.peers), net.peers, Refs(ps)) && NoStrays(old(net.peers), net.peers, {})
    ensures net.drops == old(net.drops) ==> Intact(old(net.peers), net.peers, Refs(ps))
    ensures net.silent == old(net.silent) ==> forall r :: r in Refs(ps) ==> Lookup(net.peers, r).None?
    ensures Undisturbed(old(net.Tally()), net.Tally()) && OnDifferentPeers(ps) ==> Freed(old(net.peers), net.peers, ps)
  {
    hide Quiet, NoStrays, Intact, Lookup, PeerOk, NetOk, Counts, Freed, OnDifferentPeers, Served;
    FreedNone(net.peers);
    ghost var start := net.peers;
    QuietRefl(start);
    assert Refs(ps[..0]) == {};
    for i := 0 to |ps|
      invariant net.Valid() && Onward(old(net.Tally()), net.Tally()) && |start| <= |net.peers|
      invariant net.setbacks == old(net.setbacks) ==> Counts(start, net.peers)
      invariant Quiet(start, net.peers, Refs(ps[..i])) && NoStrays(start, net.peers, {})
      invariant net.drops == old(net.drops) ==> Intact(start, net.peers, Refs(ps[..i]))
      invariant net.silent == old(net.silent) ==> forall r :: r in Refs(ps[..i]) ==> Lookup(net.peers, r).None?
      invariant Undisturbed(old(net.Tally()), net.Tally()) && OnDifferentPeers(ps) ==> Freed(start, net.peers, ps[..i])
    {
      Paged(net.peers, ps[i].ref.peer);
      assert ps[..i + 1] == ps[..i] + [ps[i]];
      RefsAppend(ps[..i], ps[i]);
      ghost var before := net.peers;
      if net.peers[ps[i].ref.peer].connected {
        var ok := net.FreeOn(ps[i].ref);
        QuietTrans(start, before, net.peers, Refs(ps[..i]), {ps[i].ref});
        QuietLength(before, net.peers, {ps[i].ref});
        CountsTrans(start, before, net.peers);
        StraysAfter(start, before, net.peers, {});
        StayGone(before, net.peers);
      } else {
        NotConnected(net.peers, ps[i].ref);
        QuietWider(start, before, Refs(ps[..i]), Refs(ps[..i + 1]));
      }
      if Undisturbed(old(net.Tally()), net.Tally()) && OnDifferentPeers(ps) {
        FreedLength(start, before, ps[..i]);
        FreedNext(start, before, net.peers, ps, i);
      }
    }
    assert ps[..|ps|] == ps;
  }

  lemma FreedNone(net: Net)
    ensures Freed(net, net, [])
  {
  }

  lemma FreedLength(a: Net, b: Net, ps: seq<Stripe>)
    requires Freed(a, b, ps)
    ensures |a| == |b|
  {
  }

  lemma Paged(net: Net, p: nat)
    requires NetOk(net) && p < |net|
    ensures net[p].pageSize > 0
  {
  }

  lemma StayGone(a: Net, b: Net)
    requires NoStrays(a, b, {})
    ensures forall r :: Lookup(a, r).None? ==> Lookup(b, r).None?
  {
  }

  lemma QuietWider(a: Net, b: Net, s: set<Ref>, t: set<Ref>)
    requires Quiet(a, b, s) && s <= t
    ensures Quiet(a, b, t) && (Intact(a, b, s) ==> Intact(a, b, t))
  {
  }

  lemma NotConnected(net: Net, r: Ref)
    requires NetOk(net) && r.peer < |net| && !net[r.peer].connected
    ensures Lookup(net, r).None?
  {
  }

  /** `free_remote`. An empty block sends its request too, for handle 0, which no peer ever issued. */
  method FreeRemote(net: Transport, a: RemoteAllocation)
    requires net.Valid() && Formed(a, |net.peers|)
    modifies net
    ensures net.Valid() && Onward(old(net.Tally()), net.Tally())
    ensures net.setbacks == old(net.setbacks) ==> Counts(old(net.peers), net.peers)
    ensures Quiet(old(net.peers), net.peers, Refs(Pieces(a))) && NoStrays(old(net.peers), net.peers, {})
    ensures net.drops == old(net.drops) ==> Intact(old(net.peers), net.peers, Refs(Pieces(a)))
    ensures net.silent == old(net.silent) ==> forall r :: r in Refs(Pieces(a)) ==> Lookup(net.peers, r).None?
    ensures Undisturbed(old(net.Tally()), net.Tally()) ==> Freed(old(net.peers), net.peers, Pieces(a))
  {
    hide Quiet, NoStrays, Intact, Lookup, Counts, Tile, OnDifferentPeers, Freed, Served;
    if a.Single? && a.size == 0 {
      ghost var start := net.peers;
      FreedNone(start);
      if start[a.ref.peer].connected { FreeingNothing(start[a.ref.peer]); }
      QuietRefl(start);
      assert Refs(Pieces(a)) == {};
      if net.peers[a.ref.peer].connected {
        var ok := net.FreeOn(a.ref);
        NeverHeld(start, net.peers, a.ref);
        if Undisturbed(old(net.Tally()), net.Tally()) { assert net.peers == start; }
      }
    } else {
      FreePieces(net, Pieces(a));
    }
  }

  lemma FreeingNothing(p: Peer)
    requires PeerOk(p)
    ensures p.pageSize > 0 && Served(p, Free(0)).0 == p
  {
  }

  /** No daemon ever hands out handle 0. */
  lemma NeverHeld(a: Net, b: Net, r: Ref)
    requires NetOk(a) && r.handle == 0
    ensures Lookup(a, r).None?
    ensures Quiet(a, b, {r}) && NoStrays(a, b, {}) ==> Quiet(a, b, {})
    ensures Intact(a, b, {r}) && NoStrays(a, b, {}) ==> Intact(a, b, {})
  {
    hide Mine;
    MineFresh(a, r);
    if NoStrays(a, b, {}) { assert Lookup(b, r).None?; }
  }

  lemma MineFresh(net: Net, r: Ref)
    requires NetOk(net)
    ensures Lookup(net, r).Some? ==> 1 <= r.handle < net[r.peer].store.next
  {
  }

  // ---- Placing ----

  lemma QuietLength(a: Net, b: Net, t: set<Ref>)
    requires Quiet(a, b, t)
    ensures |a| <= |b|
  {
  }

  lemma OnePiece(net: Net, size: nat, ref: Ref, lossless: bool)
    requires size > 0 && ref.peer < |net| && Lookup(net, ref) == Some(Zeros(size))
    ensures Growing(net, [Stripe(ref, 0, size)], size, lossless) && Refs([Stripe(ref, 0, size)]) == {ref}
  {
    hide Lookup;
    var s := Stripe(ref, 0, size);
    assert Growing(net, [], 0, lossless);
    GrowingAppend(net, [], 0, lossless, s);
    assert [] + [s] == [s];
    assert [s][0].ref == ref;
  }

  /** `p` is the first candidate that claims to fit the block and has the pages. */
  predicate FirstWilling(net: Net, candidates: seq<nat>, size: nat, p: nat) {
    exists i :: 0 <= i < |candidates| && candidates[i] == p && Willing(net, p, size) &&
                forall q :: q in candidates[..i] ==> !Willing(net, q, size)
  }

  /**
   First pass: the whole block on the first peer that takes it. If nothing else
   happens meanwhile, that is the first that claims to fit it and has the pages.
   */
  method TrySingle(net: Transport, candidates: seq<nat>, size: nat)
    returns (r: Option<RemoteAllocation>, ghost made: set<Ref>)
    requires net.Valid() && forall p :: p in candidates ==> p < |net.peers|
    modifies net
    ensures net.Valid() && Onward(old(net.Tally()), net.Tally())
    ensures Placing(old(net.peers), net.peers, made, net.drops == old(net.drops), net.setbacks == old(net.setbacks))
    ensures r.Some? ==>
              && r.value.Single? && r.value.size == size && r.value.ref.peer < |net.peers|
              && (size == 0 ==> r.value.ref.handle == 0)
    ensures r.Some? ==>
              Growing(net.peers, Pieces(r.value), size, net.drops == old(net.drops)) && Refs(Pieces(r.value)) <= made
    ensures net.silent == old(net.silent) ==> made == if r.Some? then Refs(Pieces(r.value)) else {}
    ensures Undisturbed(old(net.Tally()), net.Tally()) ==>
              if r.Some? then
                var p := r.value.ref.peer;
                && FirstWilling(old(net.peers), candidates, size, p) && Willing(old(net.peers), p, size)
                && old(net.peers)[p].pageSize > 0 && old(net.peers)[p].connected
                && net.peers == old(net.peers)[p := Served(old(net.peers)[p], Alloc(size)).0]
              else net.peers == old(net.peers) && forall p :: p in candidates ==> !Willing(net.peers, p, size)
  {
    hide Quiet, NoStrays, Intact, Lookup, PeerOk, NetOk, Transport.Valid, Growing, Zeros, Placing, Served, HasRoom;
    ghost var start := net.peers;
    PlacingNothing(start);
    made := {};
    for i := 0 to |candidates|
      invariant net.Valid() && Onward(old(net.Tally()), net.Tally()) && |start| <= |net.peers|
      invariant Placing(start, net.peers, made, net.drops == old(net.drops), net.setbacks == old(net.setbacks))
      invariant net.silent == old(net.silent) ==> made == {}
      invariant Undisturbed(old(net.Tally()), net.Tally()) ==>
                  net.peers == start && forall p :: p in candidates[..i] ==> !Willing(start, p, size)
    {
      var p := candidates[i];
      assert p in candidates && candidates[..i + 1] == candidates[..i] + [p];
      if MayFit(net.peers[p], size) {
        ghost var before, was := net.peers, net.Tally();
        var h, more := net.AllocOn(p, size);
        PlacingJoin(start, before, net.peers, made, more, old(net.Tally()), was, net.Tally());
        made := made + more;
        if h.Some? {
          if size == 0 {
            EmptyPiece(net.peers, Ref(p, 0));
            return Some(Single(0, Ref(p, 0))), made;
          }
          OnePiece(net.peers, size, Ref(p, h.value), net.drops == old(net.drops));
          return Some(Single(size, Ref(p, h.value))), made;
        }
      }
    }
    assert candidates[..|candidates|] == candidates;
    r := None;
  }

  /** Two stretches of calls, each with what the counters saw of it. */
  lemma PlacingJoin(a: Net, b: Net, c: Net, s: set<Ref>, t: set<Ref>, x: Counters, y: Counters, z: Counters)
    requires Placing(a, b, s, y.drops == x.drops, y.setbacks == x.setbacks) && Onward(x, y) && Onward(y, z)
    requires Placing(b, c, t, z.drops == y.drops, z.setbacks == y.setbacks)
    ensures Placing(a, c, s + t, z.drops == x.drops, z.setbacks == x.setbacks) && |b| <= |c|
  {
    hide Lookup;
    PlacingLess(a, b, s, y.drops == x.drops, y.setbacks == x.setbacks, z.drops == x.drops, z.setbacks == x.setbacks);
    PlacingLess(b, c, t, z.drops == y.drops, z.setbacks == y.setbacks, z.drops == x.drops, z.setbacks == x.setbacks);
    PlacingTrans(a, b, c, s, t, z.drops == x.drops, z.setbacks == x.setbacks);
  }

  lemma EmptyPiece(net: Net, ref: Ref)
    ensures Growing(net, Pieces(Single(0, ref)), 0, true) && Growing(net, Pieces(Single(0, ref)), 0, false)
    ensures Refs(Pieces(Single(0, ref))) == {}
  {
  }

  /**
   Second pass: as much as each peer claims to have, until everything is placed. If
   nothing else happens meanwhile, that is exactly if the parts the peers take add up.
   */
  method TryStripes(net: Transport, candidates: seq<nat>, ghost ranked: Net, size: nat)
    returns (r: Option<RemoteAllocation>, ghost made: set<Ref>)
    requires net.Valid() && Ranked(ranked, candidates) && forall p :: p in candidates ==> p < |net.peers|
    modifies net
    ensures net.Valid() && Onward(old(net.Tally()), net.Tally())
    ensures Placing(old(net.peers), net.peers, made, net.drops == old(net.drops), net.setbacks == old(net.setbacks))
    ensures r.Some? ==> r.value.Striped? && r.value.size == size
    ensures r.Some? ==>
              Growing(net.peers, Pieces(r.value), size, net.drops == old(net.drops)) && Refs(Pieces(r.value)) <= made
    ensures net.silent == old(net.silent) ==>
              NoStrays(old(net.peers), net.peers, if r.Some? then Refs(Pieces(r.value)) else {})
    ensures Undisturbed(old(net.Tally()), net.Tally()) ==>
              && (r.Some? <==> size > 0 && Unplaced(old(net.peers), candidates, size) == 0)
              && (if r.Some? then Charged(old(net.peers), net.peers, size) else Alike(old(net.peers), net.peers))
  {
    hide Quiet, NoStrays, Intact, Lookup, PeerOk, NetOk, Transport.Valid, Growing, Zeros, Ranked, Refs, Placing,
         HasRoom, Unplaced, Served, Reserved, Alike, Charged, OnDifferentPeers, Freed;
    ghost var start := net.peers;
    var stripes: seq<Stripe> := [];
    var remaining: nat, offset: nat := size, 0;
    PlacingNothing(start);
    UnplacedStart(start, candidates, size);
    ReservedNone(start);
    net.AllOk();
    NothingGrown(start);
    NoRefs();
    made := {};
    for i := 0 to |candidates|
      invariant net.Valid() && Onward(old(net.Tally()), net.Tally()) && |start| <= |net.peers|
      invariant Placing(start, net.peers, made, net.drops == old(net.drops), net.setbacks == old(net.setbacks))
      invariant offset + remaining == size && Growing(net.peers, stripes, offset, net.drops == old(net.drops))
      invariant forall k :: 0 <= k < |stripes| ==> stripes[k].ref.peer in candidates[..i]
      invariant Refs(stripes) <= made && (net.silent == old(net.silent) ==> made == Refs(stripes))
      invariant stripes == [] <==> remaining == size
      invariant Undisturbed(old(net.Tally()), net.Tally()) ==>
                  && remaining == Unplaced(start, candidates[..i], size) && Untouched(start, net.peers, candidates[..i])
                  && Reserved(start, net.peers, stripes)
    {
      if remaining == 0 {
        PlacedSoFar(start, candidates, size, i);
        break;
      }
      var p := candidates[i];
      assert p in candidates;
      UnplacedNext(start, candidates, size, i);
      NotUsedYet(ranked, candidates, i);
      var peer := net.peers[p];
      var chunk := Offered(peer, remaining);
      if chunk == 0 { continue; }
      net.AllOk();
      ghost var before, was := net.peers, net.Tally();
      var h, more := net.AllocOn(p, chunk);
      PlacingJoin(start, before, net.peers, made, more, old(net.Tally()), was, net.Tally());
      ElsewhereRefs(stripes, more, p);
      PlacingQuiet(before, net.peers, more, net.drops == was.drops, net.setbacks == was.setbacks);
      GrowingStays(before, net.peers, stripes, offset, more, was.drops == old(net.drops), net.drops == old(net.drops));
      made := made + more;
      if h.Some? {
        var s := Stripe(Ref(p, h.value), offset, chunk);
        GrowingAppend(net.peers, stripes, offset, net.drops == old(net.drops), s);
        RefsAppend(stripes, s);
        if Undisturbed(old(net.Tally()), net.Tally()) { ReservedNext(start, before, net.peers, stripes, s); }
        stripes, offset, remaining := stripes + [s], offset + chunk, remaining - chunk;
      }
    }
    assert candidates[..|candidates|] == candidates;
    PlacingQuiet(start, net.peers, made, net.drops == old(net.drops), net.setbacks == old(net.setbacks));
    GrownApart(net.peers, stripes, offset, net.drops == old(net.drops));
    if Undisturbed(old(net.Tally()), net.Tally()) { ReservedCharges(start, net.peers, stripes, size); }
    ReservedNone(start);
    if remaining == 0 && stripes != [] { return Some(Striped(size, stripes)), made; }
    r := None;
    ghost var before, was := net.peers, net.Tally();
    if stripes != [] {
      GrownOnPeers(before, stripes, offset, net.drops == old(net.drops));
      FreePieces(net, stripes);
      PlacingLess(start, before, made, was.drops == old(net.drops), was.setbacks == old(net.setbacks),
                  net.drops == old(net.drops), net.setbacks == old(net.setbacks));
      PlacingTouch(start, before, net.peers, made, Refs(stripes), net.drops == old(net.drops),
                   net.setbacks == old(net.setbacks));
      if net.silent == old(net.silent) { AllReleased(start, before, net.peers, Refs(stripes)); }
      if Undisturbed(old(net.Tally()), net.Tally()) { FreedIsAlike(start, before, net.peers, stripes); }
    }
  }

  /** The peers after each of these pieces was asked of its peer and granted. */
  ghost predicate Reserved(a: Net, b: Net, ps: seq<Stripe>) {
    && |a| == |b|
    && (forall p :: 0 <= p < |a| && (forall k :: 0 <= k < |ps| ==> ps[k].ref.peer != p) ==> b[p] == a[p])
    && (forall k :: 0 <= k < |ps| ==>
          var p := ps[k].ref.peer;
          && p < |a| && PeerOk(a[p]) && a[p].connected && ps[k].length > 0 && HasRoom(a[p], ps[k].length)
          && b[p] == Served(a[p], Alloc(ps[k].length)).0 && ps[k].ref.handle == a[p].store.next)
  }

  lemma ReservedNone(net: Net)
    ensures Reserved(net, net, []) && forall b :: Reserved(net, b, []) ==> Alike(net, b)
  {
  }

  lemma ReservedNext(a: Net, b: Net, c: Net, ps: seq<Stripe>, s: Stripe)
    requires Reserved(a, b, ps) && s.ref.peer < |a| && forall k :: 0 <= k < |ps| ==> ps[k].ref.peer != s.ref.peer
    requires NetOk(b) && b[s.ref.peer].connected && s.length > 0 && HasRoom(b[s.ref.peer], s.length)
    requires b[s.ref.peer].pageSize > 0 && c == b[s.ref.peer := Served(b[s.ref.peer], Alloc(s.length)).0]
    requires s.ref.handle == b[s.ref.peer].store.next
    ensures Reserved(a, c, ps + [s])
  {
    hide Served, PeerOk, HasRoom;
    var qs := ps + [s];
    assert b[s.ref.peer] == a[s.ref.peer] && qs[|ps|] == s;
    assert forall k :: 0 <= k < |ps| ==> qs[k] == ps[k];
  }

  lemma ReservedCharges(a: Net, b: Net, ps: seq<Stripe>, size: nat)
    requires Reserved(a, b, ps) && NetOk(a) && forall k :: 0 <= k < |ps| ==> ps[k].length <= size
    ensures Charged(a, b, size)
  {
    hide PagesFor;
    forall p | 0 <= p < |a|
      ensures SameClaims(a[p], b[p]) && a[p].pageSize > 0 && b[p].store.free <= a[p].store.free
      ensures a[p].store.free <= b[p].store.free + PagesFor(size, a[p].pageSize)
    {
      Paged(a, p);
      if k :| 0 <= k < |ps| && ps[k].ref.peer == p {
        AllocTakes(a[p], ps[k].length);
        PagesForGrows(ps[k].length, size, a[p].pageSize);
      }
    }
  }

  lemma SingleCharges(a: Net, b: Net, r: Option<RemoteAllocation>, size: nat)
    requires NetOk(a)
    requires r.None? ==> a == b
    requires r.Some? ==>
               && r.value.Single? && Willing(a, r.value.ref.peer, size)
               && a[r.value.ref.peer].pageSize > 0 && a[r.value.ref.peer].connected
               && b == a[r.value.ref.peer := Served(a[r.value.ref.peer], Alloc(size)).0]
    ensures if r.Some? then Charged(a, b, size) && b[r.value.ref.peer].connected else Alike(a, b)
  {
    hide PagesFor;
    forall p | 0 <= p < |a| ensures a[p].pageSize > 0 { Paged(a, p); }
  }

  lemma AllocTakes(p: Peer, n: nat)
    requires p.pageSize > 0 && n > 0 && HasRoom(p, n)
    ensures SameClaims(p, Served(p, Alloc(n)).0)
    ensures Served(p, Alloc(n)).0.store.free == p.store.free - PagesFor(n, p.pageSize)
    ensures Served(p, Alloc(n)).1.status == OK && Served(p, Alloc(n)).1.handle == p.store.next
  {
    hide PagesFor;
  }

  /** Giving a fresh block back leaves the pages as they were. */
  lemma FreeGivesBack(p: Peer, n: nat)
    requires PeerOk(p) && n > 0 && HasRoom(p, n)
    ensures var q := Served(Served(p, Alloc(n)).0, Free(p.store.next)).0;
            SameClaims(p, q) && q.store.free == p.store.free
  {
    hide PagesFor;
    assert |Zeros(n)| == n;
  }

  lemma FreedIsAlike(a: Net, b: Net, c: Net, ps: seq<Stripe>)
    requires Reserved(a, b, ps) && Freed(b, c, ps)
    ensures Alike(a, c)
  {
    hide Served, PagesFor, PeerOk;
    forall p | 0 <= p < |a| ensures SameClaims(a[p], c[p]) && a[p].store.free == c[p].store.free {
      if k :| 0 <= k < |ps| && ps[k].ref.peer == p {
        AllocClaims(a[p], ps[k].length);
        FreeGivesBack(a[p], ps[k].length);
      }
    }
  }

  lemma AllocClaims(p: Peer, n: nat)
    requires PeerOk(p)
    ensures p.pageSize > 0 && SameClaims(p, Served(p, Alloc(n)).0)
  {
    ServedClaims(p, Alloc(n));
  }

  lemma GrownApart(net: Net, ps: seq<Stripe>, n: nat, lossless: bool)
    requires Growing(net, ps, n, lossless)
    ensures OnDifferentPeers(ps) && forall k :: 0 <= k < |ps| ==> ps[k].length <= n
  {
    hide Cells, Decayed, OnDifferentPeers;
    forall k | 0 <= k < |ps| ensures ps[k].length <= n { CellsOfPiece(net, ps, 0, n, k); }
  }

  /** The peers not yet asked are as they were. */
  ghost predicate Untouched(start: Net, net: Net, asked: seq<nat>) {
    |net| == |start| && forall p :: 0 <= p < |net| && p !in asked ==> net[p] == start[p]
  }

  lemma UnplacedStart(net: Net, order: seq<nat>, size: nat)
    ensures Unplaced(net, order[..0], size) == size && Untouched(net, net, order[..0])
  {
  }

  lemma UnplacedNext(net: Net, order: seq<nat>, size: nat, i: nat)
    requires i < |order|
    ensures order[..i + 1] == order[..i] + [order[i]]
    ensures var left, p := Unplaced(net, order[..i], size), order[i];
            Unplaced(net, order[..i + 1], size) ==
            if p < |net| && Offered(net[p], left) > 0 && HasRoom(net[p], Offered(net[p], left))
            then left - Offered(net[p], left) else left
  {
    assert order[..i + 1][..i] == order[..i];
  }

  lemma PlacedSoFar(net: Net, order: seq<nat>, size: nat, i: nat)
    requires i <= |order|
    ensures Unplaced(net, order[..i], size) == 0 ==> Unplaced(net, order, size) == 0
  {
    if Unplaced(net, order[..i], size) == 0 { PlacedStaysPlaced(net, order, size, i); }
  }

  lemma NoRefs()
    ensures Refs([]) == {}
  {
  }

  lemma ElsewhereRefs(ps: seq<Stripe>, made: set<Ref>, p: nat)
    requires (forall i :: 0 <= i < |ps| ==> ps[i].ref.peer != p) && forall x :: x in made ==> x.peer == p
    ensures Refs(ps) !! made
  {
  }

  lemma PlacingQuiet(a: Net, b: Net, made: set<Ref>, lossless: bool, steady: bool)
    requires Placing(a, b, made, lossless, steady)
    ensures Quiet(a, b, made) && NoStrays(a, b, made) && (lossless ==> Intact(a, b, made))
  {
  }

  lemma NotUsedYet(net: Net, order: seq<nat>, i: nat)
    requires Ranked(net, order) && i < |order|
    ensures order[i] !in order[..i]
  {
    forall k | 0 <= k < i ensures order[k] != order[i] { RankedDistinct(net, order, k, i); }
  }

  lemma GrownOnPeers(net: Net, ps: seq<Stripe>, n: nat, lossless: bool)
    requires Growing(net, ps, n, lossless)
    ensures OnPeers(ps, |net|)
  {
  }

  /** When every partial stripe has been released, each peer holds what it held at the start. */
  lemma AllReleased(start: Net, net: Net, net': Net, extra: set<Ref>)
    requires NoStrays(start, net, extra) && NoStrays(net, net', {}) && forall r :: r in extra ==> Lookup(net', r).None?
    ensures NoStrays(start, net', {})
  {
    hide Lookup;
  }

  /**
   `allocate_remote`: one peer if any takes the whole block, else stripes over several,
   else nothing at all. `made` are the references handed out on the way.
   */
  method AllocateRemote(net: Transport, size: nat) returns (r: Option<RemoteAllocation>, ghost made: set<Ref>)
    requires net.Valid()
    modifies net
    ensures net.Valid() && Onward(old(net.Tally()), net.Tally())
    ensures Placing(old(net.peers), net.peers, made, net.drops == old(net.drops), net.setbacks == old(net.setbacks))
    ensures r.Some? ==> r.value.size == size && Formed(r.value, |net.peers|) && Refs(Pieces(r.value)) <= made
    ensures r.Some? ==> Growing(net.peers, Pieces(r.value), size, net.drops == old(net.drops))
    ensures net.silent == old(net.silent) ==>
              NoStrays(old(net.peers), net.peers, if r.Some? then Refs(Pieces(r.value)) else {})
    ensures Undisturbed(old(net.Tally()), net.Tally()) ==>
              && (Placeable(old(net.peers), size) ==> r.Some?) && (r.Some? ==> MaybePlaceable(old(net.peers), size))
              && (if r.Some? then Charged(old(net.peers), net.peers, size) else Alike(old(net.peers), net.peers))
              && (r.Some? && r.value.Single? ==> net.peers[r.value.ref.peer].connected)
  {
    hide Quiet, NoStrays, Intact, Lookup, NetOk, Transport.Valid, Ranked, Refs, Pieces, Placing, Placeable,
         MaybePlaceable, Growing, Formed, Counts;
    ghost var start := net.peers;
    QuietRefl(start);
    if forall p :: 0 <= p < |net.peers| ==> !net.peers[p].connected { net.Evolve(); }
    PlacingEvolved(start, net.peers, net.drops == old(net.drops), net.setbacks == old(net.setbacks));
    ghost var mid, was := net.peers, net.Tally();
    var candidates := Candidates(net.peers);
    r, made := PlaceOn(net, candidates, size);
    PlacingJoin(start, mid, net.peers, {}, made, old(net.Tally()), was, net.Tally());
    assert {} + made == made;
    if r.Some? { GrowingLess(net.peers, Pieces(r.value), size, net.drops == was.drops, net.drops == old(net.drops)); }
    if net.silent == old(net.silent) {
      StraysAfter(start, mid, net.peers, if r.Some? then Refs(Pieces(r.value)) else {});
    }
  }

  /** Both passes over the candidates. */
  method PlaceOn(net: Transport, candidates: seq<nat>, size: nat)
    returns (r: Option<RemoteAllocation>, ghost made: set<Ref>)
    requires net.Valid() && Ranking(net.peers, candidates)
    modifies net
    ensures net.Valid() && Onward(old(net.Tally()), net.Tally())
    ensures Placing(old(net.peers), net.peers, made, net.drops == old(net.drops), net.setbacks == old(net.setbacks))
    ensures r.Some? ==> r.value.size == size && Formed(r.value, |net.peers|) && Refs(Pieces(r.value)) <= made
    ensures r.Some? ==> Growing(net.peers, Pieces(r.value), size, net.drops == old(net.drops))
    ensures net.silent == old(net.silent) ==>
              NoStrays(old(net.peers), net.peers, if r.Some? then Refs(Pieces(r.value)) else {})
    ensures Undisturbed(old(net.Tally()), net.Tally()) ==>
              && (Placeable(old(net.peers), size) ==> r.Some?) && (r.Some? ==> MaybePlaceable(old(net.peers), size))
              && (if r.Some? then Charged(old(net.peers), net.peers, size) else Alike(old(net.peers), net.peers))
              && (r.Some? && r.value.Single? ==> net.peers[r.value.ref.peer].connected)
  {
    hide Quiet, NoStrays, Intact, Lookup, PeerOk, NetOk, Transport.Valid, Ranked, Refs, Pieces, Placing, Willing,
         Unplaced, Placeable, MaybePlaceable, Growing, Formed, Served, Alike, Charged;
    ghost var start := net.peers;
    PlacedAtOnce(start, candidates, size);
    net.AllOk();
    r, made := TrySingle(net, candidates, size);
    if Undisturbed(old(net.Tally()), net.Tally()) { SingleCharges(start, net.peers, r, size); }
    PlacingQuiet(start, net.peers, made, net.drops == old(net.drops), net.setbacks == old(net.setbacks));
    if r.Some? { GrownIsFormed(net.peers, r.value, net.drops == old(net.drops), net.drops == old(net.drops)); }
    if r.None? && |candidates| > 1 {
      ghost var again, second, more := net.peers, net.Tally(), {};
      QuietLength(start, again, made);
      r, more := TryStripes(net, candidates, start, size);
      PlacingJoin(start, again, net.peers, made, more, old(net.Tally()), second, net.Tally());
      if net.silent == old(net.silent) {
        StraysAfter(start, again, net.peers, if r.Some? then Refs(Pieces(r.value)) else {});
      }
      made := made + more;
      if r.Some? { GrownIsFormed(net.peers, r.value, net.drops == second.drops, net.drops == old(net.drops)); }
    }
  }

  lemma GrowingLess(net: Net, ps: seq<Stripe>, n: nat, lossless: bool, less: bool)
    requires Growing(net, ps, n, lossless) && (less ==> lossless)
    ensures Growing(net, ps, n, less)
  {
  }

  lemma GrownIsFormed(net: Net, a: RemoteAllocation, lossless: bool, less: bool)
    requires Growing(net, Pieces(a), a.size, lossless) && (less ==> lossless)
    requires a.Single? ==> a.ref.peer < |net| && (a.size == 0 ==> a.ref.handle == 0)
    ensures Formed(a, |net|) && Growing(net, Pieces(a), a.size, less)
  {
    hide Tile, OnDifferentPeers;
  }

  lemma PlacedAtOnce(net: Net, order: seq<nat>, size: nat)
    requires Ranking(net, order)
    ensures forall p :: p in order && Willing(net, p, size) ==> MaybePlaceable(net, size)
    ensures Placeable(net, size) ==> AddsUp(net, order, size) || exists p :: p in order && Willing(net, p, size)
    ensures AddsUp(net, order, size) ==> MaybePlaceable(net, size)
  {
    hide Ranked, AddsUp, HasRoom, MayFit;
  }

  lemma PlacingEvolved(a: Net, b: Net, lossless: bool, steady: bool)
    requires Quiet(a, b, {}) && NoStrays(a, b, {}) && (lossless ==> Intact(a, b, {})) && (steady ==> Counts(a, b))
    ensures Placing(a, b, {}, lossless, steady)
  {
  }
}
