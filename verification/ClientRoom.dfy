/**
 Room on the peers: when one of them can take everything the client may have to move
 there, in a world in which nothing changes by itself.
 */
module ClientRoom {
  import opened Bytes
  import opened Client
  import opened ClientModel
  import opened Lru
  import opened Peers
  import opened RemoteBlocks
  import opened ServerSpec
  import opened Stripes
  import opened Sums
  import opened Transports
  import opened Wrappers

  // ---- Pages of blocks ----

  ghost function SizePages(sizes: map<nat, nat>, ps: nat): (r: map<nat, nat>)
    requires ps > 0
  {
    map h | h in sizes :: PagesFor(sizes[h], ps)
  }

  /** How many pages blocks of these sizes take, each on its own pages. */
  ghost function PagesOfAll(sizes: map<nat, nat>, ps: nat): (n: nat)
    requires ps > 0
  {
    MapSum(SizePages(sizes, ps))
  }

  lemma NoPages(ps: nat)
    requires ps > 0
    ensures PagesOfAll(map[], ps) == 0
  {
    assert SizePages(map[], ps) == map[];
  }

  lemma PagesRemove(sizes: map<nat, nat>, h: nat, ps: nat)
    requires ps > 0 && h in sizes
    ensures PagesOfAll(sizes, ps) == PagesFor(sizes[h], ps) + PagesOfAll(sizes - {h}, ps)
  {
    hide PagesFor;
    assert SizePages(sizes - {h}, ps) == SizePages(sizes, ps) - {h};
    MapSumRemove(SizePages(sizes, ps), h);
  }

  lemma PagesInsert(sizes: map<nat, nat>, h: nat, n: nat, ps: nat)
    requires ps > 0 && h !in sizes
    ensures PagesOfAll(sizes[h := n], ps) == PagesOfAll(sizes, ps) + PagesFor(n, ps)
  {
    hide PagesOfAll, PagesFor;
    PagesRemove(sizes[h := n], h, ps);
    assert sizes[h := n] - {h} == sizes;
  }

  lemma {:induction false} PagesSplit(a: map<nat, nat>, b: map<nat, nat>, ps: nat)
    requires ps > 0 && a.Keys !! b.Keys
    ensures PagesOfAll(a + b, ps) == PagesOfAll(a, ps) + PagesOfAll(b, ps)
    decreases |b|
  {
    hide PagesOfAll, PagesFor;
    if b == map[] {
      assert a + b == a;
      NoPages(ps);
    } else {
      var h :| h in b;
      var rest := b - {h};
      assert |rest| < |b| by { assert rest.Keys == b.Keys - {h}; }
      PagesSplit(a, rest, ps);
      PagesRemove(b, h, ps);
      JoinedWithout(a, b, h);
      PagesRemove(a + b, h, ps);
    }
  }

  lemma JoinedWithout(a: map<nat, nat>, b: map<nat, nat>, h: nat)
    requires a.Keys !! b.Keys && h in b
    ensures h in a + b && (a + b)[h] == b[h] && (a + b) - {h} == a + (b - {h})
  {
  }

  // ---- What the client has where ----

  ghost function CachedSizes(index: map<nat, CacheBlock>): (s: map<nat, nat>) { map h | h in index :: |index[h].data| }

  ghost function RemoteSizes(remote: Remote): (s: map<nat, nat>) { map h | h in remote :: remote[h].size }

  /** The cached blocks one by one take as many pages as all of them. */
  lemma {:induction false} CachedPages(list: seq<CacheBlock>, touched: map<nat, nat>, bound: nat, ps: nat)
    requires ps > 0 && Descending(list, touched, bound)
    ensures PagesTogether(list, ps) == PagesOfAll(CachedSizes(IndexOf(list)), ps)
    ensures forall b :: b in list ==> b.handle in IndexOf(list) && IndexOf(list)[b.handle] == b
    decreases |list|
  {
    hide PagesOfAll, PagesFor;
    if list == [] {
      NoPages(ps);
      assert CachedSizes(IndexOf(list)) == map[];
    } else {
      var rest, head := list[1..], list[0];
      CachedPages(rest, touched, touched[head.handle], ps);
      if head.handle in IndexOf(rest) { Indexed(rest, touched, touched[head.handle], head.handle); }
      FrontPages(head, rest, ps);
      assert list == [head] + rest;
      PagesInsert(CachedSizes(IndexOf(rest)), head.handle, |head.data|, ps);
      assert CachedSizes(IndexOf(list)) == CachedSizes(IndexOf(rest))[head.handle := |head.data|];
    }
  }

  lemma {:induction false} FrontPages(head: CacheBlock, rest: seq<CacheBlock>, ps: nat)
    requires ps > 0
    ensures PagesTogether([head] + rest, ps) == PagesFor(|head.data|, ps) + PagesTogether(rest, ps)
    decreases |rest|
  {
    hide PagesFor;
    var all := [head] + rest;
    if rest == [] {
      assert all[..|all| - 1] == [];
    } else {
      assert all[..|all| - 1] == [head] + rest[..|rest| - 1];
      FrontPages(head, rest[..|rest| - 1], ps);
    }
  }

  /** A block of ours on a peer has the length of the piece that goes by it. */
  ghost predicate Matching(remote: Remote, p: nat, blocks: map<nat, Block>) {
    forall h, i :: h in remote && 0 <= i < |Pieces(remote[h])| ==>
      var s := Pieces(remote[h])[i];
      s.ref.peer == p && s.ref.handle in blocks ==> |blocks[s.ref.handle].bytes| == s.length
  }

  /** The blocks we own on a peer are pieces of handles, of the lengths of those pieces. */
  lemma OwnedAreMatching(remote: Remote, net: Net, p: nat)
    requires Registered(remote, net) && NoOrphans(remote, net) && p < |net|
    ensures var mine := OwnedBy(net[p].store.blocks, net[p].session);
            Matching(remote, p, mine) && forall k :: k in mine ==> Ref(p, k) in AllRefs(remote)
  {
    hide Pieces, RefsOf, AllRefs;
    var mine := OwnedBy(net[p].store.blocks, net[p].session);
    forall k | k in mine ensures Ref(p, k) in AllRefs(remote) {
      assert Lookup(net, Ref(p, k)).Some?;
    }
    forall h, i | h in remote && 0 <= i < |Pieces(remote[h])|
      ensures var s := Pieces(remote[h])[i];
              s.ref.peer == p && s.ref.handle in mine ==> |mine[s.ref.handle].bytes| == s.length
    {
      assert Sized(net, Pieces(remote[h]));
    }
  }

  // ---- Enough room ----

  /** The peer would take a block of this size, if it has the pages. */
  predicate Suits(s: Standing, size: nat) {
    s.connected && s.pageSize > 0 && (!s.capacityKnown || size <= s.freeRam) && size <= WORD_SIZE - s.pageSize
  }

  /** The peer has pages for blocks of all these sizes, and would take any of them. */
  ghost predicate Spacious(s: Standing, sizes: map<nat, nat>) {
    s.pageSize > 0 && PagesOfAll(sizes, s.pageSize) <= s.pages && forall h :: h in sizes ==> Suits(s, sizes[h])
  }

  /** In a calm world the pages a peer has free are enough for all that is cached. */
  lemma FreeEnough(c: MemoryClient, p: nat)
    requires c.Valid() && c.net.calm && p < |c.net.peers| && c.net.peers[p].pageSize > 0
    ensures |c.net.outlook| == |c.net.peers| && c.net.outlook[p] == StandingOf(c.net.peers[p])
    ensures var ps := c.net.peers[p].pageSize;
            c.net.outlook[p].pages <= c.net.peers[p].store.free + PagesOfAll(RemoteSizes(c.remote), ps)
  {
    hide PagesOfAll, PagesFor, Held, Formed, Pieces, LruCache.Valid, Matching;
    var peer := c.net.peers[p];
    OwnedAreMatching(c.remote, c.net.peers, p);
    HeldByHandles(c.remote, |c.net.peers|, p, OwnedBy(peer.store.blocks, peer.session), peer.pageSize);
  }

  lemma SizesAre(c: MemoryClient)
    requires c.Valid()
    ensures CachedSizes(c.cache.index).Keys !! RemoteSizes(c.remote).Keys
    ensures c.Sizes() == CachedSizes(c.cache.index) + RemoteSizes(c.remote)
  {
    hide Coherent, LruCache.Valid, Transport.Valid;
  }

  /** A peer with room for everything the client has can take all that is cached. */
  lemma RoomForAll(c: MemoryClient, p: nat)
    requires c.Valid() && c.net.calm && p < |c.net.outlook| && Spacious(c.net.outlook[p], c.Sizes())
    ensures Ample(c.net.peers, c.cache.list)
  {
    hide PagesOfAll, PagesFor, PagesTogether, MemoryClient.Sizes, Held;
    OutlookLength(c);
    var peer := c.net.peers[p];
    FreeEnough(c, p);
    SizesAre(c);
    PagesSplit(CachedSizes(c.cache.index), RemoteSizes(c.remote), peer.pageSize);
    CachedPages(c.cache.list, c.cache.touched, c.cache.clock, peer.pageSize);
    forall b | b in c.cache.list ensures MayFit(peer, |b.data|) && |b.data| <= WORD_SIZE - peer.pageSize {
      assert b.handle in c.Sizes() && c.Sizes()[b.handle] == |b.data|;
    }
    assert AmpleOn(c.net.peers[p], c.cache.list);
  }

  /** A peer with room for one block more can take that block as well. */
  lemma RoomForOne(c: MemoryClient, p: nat, h: nat, size: nat)
    requires c.Valid() && c.net.calm && p < |c.net.outlook| && h !in c.Sizes()
    requires Spacious(c.net.outlook[p], c.Sizes()[h := size])
    ensures Placeable(c.net.peers, size)
  {
    hide PagesOfAll, PagesFor, PagesTogether, MemoryClient.Sizes, Held;
    OutlookLength(c);
    var peer := c.net.peers[p];
    FreeEnough(c, p);
    SizesAre(c);
    PagesSplit(CachedSizes(c.cache.index), RemoteSizes(c.remote), peer.pageSize);
    PagesInsert(c.Sizes(), h, size, peer.pageSize);
    assert c.Sizes()[h := size][h] == size;
    assert Willing(c.net.peers, p, size) && peer.connected;
  }

  lemma OutlookLength(c: MemoryClient)
    requires c.Valid() && c.net.calm
    ensures |c.net.outlook| == |c.net.peers| && forall i :: 0 <= i < |c.net.peers| ==> c.net.peers[i].pageSize > 0
  {
    hide LruCache.Valid, Coherent, Listed;
  }

  /** What a peer holds for us is no more than the blocks we have on peers would take there. */
  lemma {:induction false} HeldByHandles(remote: Remote, peers: nat, p: nat, blocks: map<nat, Block>, ps: nat)
    requires ps > 0 && Matching(remote, p, blocks) && forall h :: h in remote ==> Formed(remote[h], peers)
    requires forall k :: k in blocks ==> Ref(p, k) in AllRefs(remote)
    ensures Held(blocks, ps) <= PagesOfAll(RemoteSizes(remote), ps)
    decreases |remote|
  {
    hide PagesOfAll, PagesFor, Held, Formed, Pieces;
    if remote == map[] {
      assert blocks == map[];
      HeldEmpty(ps);
    } else {
      var h :| h in remote;
      var rest := remote - {h};
      assert |rest| < |remote| by { assert rest.Keys == remote.Keys - {h}; }
      var less := HeldApart(remote[h], peers, p, blocks, ps, remote, h);
      OthersHold(remote, h, p, blocks, less);
      HeldByHandles(rest, peers, p, less, ps);
      PagesRemove(RemoteSizes(remote), h, ps);
      assert RemoteSizes(rest) == RemoteSizes(remote) - {h};
    }
  }

  /** The blocks on a peer that are not a piece of `a`; at most one is, and it is no longer than `a`. */
  lemma HeldApart(a: RemoteAllocation, peers: nat, p: nat, blocks: map<nat, Block>, ps: nat, remote: Remote, h: nat)
    returns (less: map<nat, Block>)
    requires ps > 0 && Formed(a, peers) && h in remote && remote[h] == a && Matching(remote, p, blocks)
    ensures Held(blocks, ps) <= Held(less, ps) + PagesFor(a.size, ps)
    ensures less.Keys <= blocks.Keys && forall k :: k in less ==> less[k] == blocks[k] && Ref(p, k) !in RefsOf(a)
    ensures forall k :: k in blocks && Ref(p, k) !in RefsOf(a) ==> k in less
  {
    hide PagesFor, Held, Tile, Pieces;
    var pieces := Pieces(a);
    if i :| 0 <= i < |pieces| && pieces[i].ref.peer == p && pieces[i].ref.handle in blocks {
      var k := pieces[i].ref.handle;
      less := blocks - {k};
      HeldRemove(blocks, k, ps);
      PieceWithin(pieces, 0, a.size, i);
      PagesForGrows(pieces[i].length, a.size, ps);
      assert Ref(p, k) in RefsOf(a);
    } else {
      less := blocks;
    }
  }

  lemma {:induction false} PieceWithin(ps: seq<Stripe>, from: nat, size: nat, i: nat)
    requires Tile(ps, from, size) && i < |ps|
    ensures from <= size && ps[i].length <= size - from
    decreases |ps|
  {
    if |ps| > 1 { PieceWithin(ps[1..], from + ps[0].length, size, if i > 0 then i - 1 else 0); }
  }

  lemma OthersHold(remote: Remote, h: nat, p: nat, blocks: map<nat, Block>, less: map<nat, Block>)
    requires h in remote && Matching(remote, p, blocks) && less.Keys <= blocks.Keys
    requires forall k :: k in blocks ==> Ref(p, k) in AllRefs(remote)
    requires forall k :: k in less ==> less[k] == blocks[k] && Ref(p, k) !in RefsOf(remote[h])
    ensures Matching(remote - {h}, p, less) && forall k :: k in less ==> Ref(p, k) in AllRefs(remote - {h})
  {
    hide Pieces, RefsOf;
    forall k | k in less ensures Ref(p, k) in AllRefs(remote - {h}) {
      var g :| g in remote && Ref(p, k) in RefsOf(remote[g]);
      assert g in remote - {h} && (remote - {h})[g] == remote[g];
    }
  }
}
