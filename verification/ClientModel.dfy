/**
 The client's two tiers as values: cached blocks and remote allocations, and the
 map from handle to cells that they stand for together.
 */
module ClientModel {
  import opened Bytes
  import opened Lru
  import opened Peers
  import opened RemoteBlocks
  import opened RemoteIo
  import opened ServerSpec
  import opened Stripes
  import opened Transports
  import opened Wrappers

  type Remote = map<nat, RemoteAllocation>
  type CellMap = map<nat, seq<Cell>>

  function RefsOf(a: RemoteAllocation): (r: set<Ref>) { Refs(Pieces(a)) }

  /** Every reference some handle goes by. */
  ghost function AllRefs(remote: Remote): (s: set<Ref>) { set h, r | h in remote && r in RefsOf(remote[h]) :: r }

  /** What every handle reads as. */
  ghost function ViewOf(index: map<nat, CacheBlock>, remote: Remote, net: Net): (v: CellMap) {
    map h | h in index.Keys + remote.Keys ::
      if h in index then AllKnown(index[h].data) else Cells(net, Pieces(remote[h]))
  }

  /** How long every handle's block is. */
  ghost function SizesOf(index: map<nat, CacheBlock>, remote: Remote): (s: map<nat, nat>) {
    map h | h in index.Keys + remote.Keys :: if h in index then |index[h].data| else remote[h].size
  }

  lemma ViewSizes(index: map<nat, CacheBlock>, remote: Remote, next: nat, net: Net)
    requires Listed(index.Keys, remote, next, |net|)
    ensures ViewOf(index, remote, net).Keys == SizesOf(index, remote).Keys == index.Keys + remote.Keys
    ensures forall h :: h in SizesOf(index, remote) ==> |ViewOf(index, remote, net)[h]| == SizesOf(index, remote)[h]
  {
    hide Cells, Tile, Pieces;
    forall h | h in remote ensures |Cells(net, Pieces(remote[h]))| == remote[h].size {
      CellsLength(net, Pieces(remote[h]), 0, remote[h].size);
    }
  }

  // ---- The registry ----

  /** Each live handle is in exactly one tier, and the allocations are well formed. */
  ghost predicate Listed(cached: set<nat>, remote: Remote, next: nat, peers: nat) {
    && cached !! remote.Keys && next >= 1
    && (forall h :: h in cached || h in remote ==> 1 <= h < next)
    && (forall h :: h in remote ==> Formed(remote[h], peers))
  }

  /** What is held under a handle's references is its own, and no two handles share a reference. */
  ghost predicate Registered(remote: Remote, net: Net) {
    && (forall h :: h in remote ==> Sized(net, Pieces(remote[h])))
    && (forall h, k :: h in remote && k in remote && h != k ==> RefsOf(remote[h]) !! RefsOf(remote[k]))
  }

  /** Everything held for us on a peer belongs to some handle. */
  ghost predicate NoOrphans(remote: Remote, net: Net) {
    forall r :: Lookup(net, r).Some? ==> r in AllRefs(remote)
  }

  /** The registry as the counters of the transport promise it. */
  ghost predicate Coherent(remote: Remote, net: Net, t: Counters) {
    && Registered(remote, net) && t.settled <= t.setbacks
    && (t.drops == 0 && t.silent == 0 ==> NoOrphans(remote, net))
    && (t.Steady() ==> Under(net, AllRefs(remote)))
  }

  /**
   A daemon handed out a reference that some handle still goes by, and the new block
   is kept under it, or is still held.
   */
  ghost predicate Clash(remote: Remote, made: set<Ref>, kept: set<Ref>, net: Net) {
    exists r :: r in made && r in AllRefs(remote) && (r in kept || Lookup(net, r).Some?)
  }

  /** No clash as long as no counter has gone back. */
  lemma NoClashAhead(remote: Remote, start: Net, net: Net, made: set<Ref>, kept: set<Ref>)
    requires Under(start, AllRefs(remote)) && Later(start, made)
    ensures !Clash(remote, made, kept, net) && AllRefs(remote) !! made
  {
    hide AllRefs, Lookup;
  }

  // ---- How the map may change ----

  ghost predicate DecayedView(v: CellMap, w: CellMap) {
    v.Keys == w.Keys && forall h :: h in v ==> Decayed(v[h], w[h])
  }

  lemma SelfDecayed(c: seq<Cell>)
    ensures Decayed(c, c)
  {
  }

  lemma DecayedViewTrans(u: CellMap, v: CellMap, w: CellMap)
    requires DecayedView(u, v) && DecayedView(v, w)
    ensures DecayedView(u, w)
  {
    hide Decayed;
    forall h | h in u ensures Decayed(u[h], w[h]) { DecayTrans(u[h], v[h], w[h]); }
  }

  lemma DecayedViewRefl(v: CellMap)
    ensures DecayedView(v, v)
  {
  }

  lemma ReplaceDecays(v: CellMap, w: CellMap, h: nat, c: seq<Cell>, d: seq<Cell>)
    requires DecayedView(v, w) && Decayed(c, d)
    ensures DecayedView(v[h := c], w[h := d])
  {
    hide Decayed;
  }

  // ---- Calls that leave the registry alone ----

  lemma InAllRefs(remote: Remote, h: nat)
    requires h in remote
    ensures RefsOf(remote[h]) <= AllRefs(remote)
  {
  }

  /** Every handle but `skip` decays at worst when only references of others are touched. */
  lemma ViewDecays(index: map<nat, CacheBlock>, remote: Remote, net: Net, net': Net, touched: set<Ref>, skip: set<nat>)
    requires Quiet(net, net', touched) && forall h :: h in remote && h !in skip ==> RefsOf(remote[h]) !! touched
    ensures var v, w := ViewOf(index, remote, net), ViewOf(index, remote, net');
            && v.Keys == w.Keys
            && (forall h :: h in v && h !in skip ==> Decayed(v[h], w[h]))
            && (Intact(net, net', touched) ==> forall h :: h in v && h !in skip ==> w[h] == v[h])
  {
    hide Quiet, Intact, Cells, Decayed, RefsOf, Pieces, AllKnown;
    forall h | h in remote && h !in skip
      ensures Decayed(Cells(net, Pieces(remote[h])), Cells(net', Pieces(remote[h])))
      ensures Intact(net, net', touched) ==> Cells(net', Pieces(remote[h])) == Cells(net, Pieces(remote[h]))
    {
      PiecesDecay(net, net', remote[h], touched);
    }
    forall h | h in index ensures Decayed(AllKnown(index[h].data), AllKnown(index[h].data)) {
      SelfDecayed(AllKnown(index[h].data));
    }
  }

  lemma PiecesDecay(net: Net, net': Net, a: RemoteAllocation, touched: set<Ref>)
    requires Quiet(net, net', touched) && RefsOf(a) !! touched
    ensures Decayed(Cells(net, Pieces(a)), Cells(net', Pieces(a))) && (Sized(net, Pieces(a)) ==> Sized(net', Pieces(a)))
    ensures Intact(net, net', touched) ==> Cells(net', Pieces(a)) == Cells(net, Pieces(a))
  {
    hide Quiet, Intact, Sized, Cells, Decayed;
    CellsDecay(net, net', Pieces(a), touched);
  }

  lemma RegisteredStays(remote: Remote, net: Net, net': Net, touched: set<Ref>)
    requires Registered(remote, net) && Quiet(net, net', touched) && AllRefs(remote) !! touched
    ensures Registered(remote, net')
  {
    hide Quiet, Cells, Decayed, RefsOf, Pieces, Sized, AllRefs;
    forall h | h in remote ensures Sized(net', Pieces(remote[h])) {
      InAllRefs(remote, h);
      PiecesDecay(net, net', remote[h], touched);
    }
  }

  lemma UnderStays(refs: set<Ref>, net: Net, net': Net)
    requires Under(net, refs) && Counts(net, net')
    ensures Under(net', refs)
  {
  }

  /** What a stretch of calls was, as the counters saw it. */
  ghost predicate Stretch(start: Net, net: Net, touched: set<Ref>, x: Counters, y: Counters) {
    && Onward(x, y) && Quiet(start, net, touched) && NoStrays(start, net, touched)
    && (y.drops == x.drops ==> Intact(start, net, touched))
    && (y.setbacks == x.setbacks ==> Counts(start, net))
  }

  /** Calls that touch nothing of ours keep the registry and can at worst lose cells. */
  lemma StretchKeeps(index: map<nat, CacheBlock>, remote: Remote, start: Net, net: Net, touched: set<Ref>, x: Counters,
                     y: Counters)
    requires Coherent(remote, start, x) && Stretch(start, net, touched, x, y) && AllRefs(remote) !! touched
    requires y.silent == x.silent ==> NoStrays(start, net, {})
    ensures Coherent(remote, net, y)
    ensures DecayedView(ViewOf(index, remote, start), ViewOf(index, remote, net))
    ensures y.drops == x.drops ==> ViewOf(index, remote, net) == ViewOf(index, remote, start)
  {
    hide Quiet, Intact, Registered, ViewOf, Decayed, AllRefs, Lookup, Counts, Under;
    RegisteredStays(remote, start, net, touched);
    forall h | h in remote ensures RefsOf(remote[h]) !! touched { InAllRefs(remote, h); }
    ViewDecays(index, remote, start, net, touched, {});
    if y.Steady() { UnderStays(AllRefs(remote), start, net); }
  }

  /** The same when our own pieces may be among what was lost. */
  lemma QuietKeeps(index: map<nat, CacheBlock>, remote: Remote, start: Net, net: Net, x: Counters, y: Counters)
    requires Coherent(remote, start, x) && Onward(x, y) && Quiet(start, net, {}) && NoStrays(start, net, {})
    requires y.setbacks == x.setbacks ==> Counts(start, net)
    ensures Coherent(remote, net, y)
    ensures DecayedView(ViewOf(index, remote, start), ViewOf(index, remote, net))
    ensures Intact(start, net, {}) ==> ViewOf(index, remote, net) == ViewOf(index, remote, start)
  {
    hide Quiet, Intact, Registered, ViewOf, Decayed, AllRefs, Lookup, Counts, Under;
    RegisteredStays(remote, start, net, {});
    ViewDecays(index, remote, start, net, {}, {});
    if y.Steady() { UnderStays(AllRefs(remote), start, net); }
  }

  /** A new block's references that clash with none of ours do not touch ours. */
  lemma MadeIsNotOurs(start: Net, net: Net, made: set<Ref>, remote: Remote, kept: set<Ref>, x: Counters, y: Counters)
    requires Placing(start, net, made, y.drops == x.drops, y.setbacks == x.setbacks) && Onward(x, y)
    requires !Clash(remote, made, kept, net)
    ensures Stretch(start, net, made - AllRefs(remote), x, y)
  {
    hide Lookup, AllRefs, Counts;
    var ours := AllRefs(remote);
    forall r | r !in made - ours ensures Lookup(net, r) == Lookup(start, r) || Lookup(net, r).None? {
      if r in made { assert Lookup(net, r).None?; }
    }
    if y.drops == x.drops {
      forall r | r !in made - ours ensures Lookup(net, r) == Lookup(start, r) {
        if r in made { assert Lookup(net, r).None? && Lookup(start, r).None?; }
      }
    }
  }

  // ---- Moving a block between the tiers ----

  /** Adding an allocation whose references are new to the registry. */
  lemma RegisterOne(remote: Remote, net: Net, h: nat, a: RemoteAllocation)
    requires Registered(remote, net) && h !in remote && Sized(net, Pieces(a)) && AllRefs(remote) !! RefsOf(a)
    ensures Registered(remote[h := a], net) && AllRefs(remote[h := a]) == AllRefs(remote) + RefsOf(a)
  {
    hide Sized, RefsOf, Pieces;
    var remote' := remote[h := a];
    forall k | k in remote ensures RefsOf(remote[k]) !! RefsOf(a) { InAllRefs(remote, k); }
    forall r | r in AllRefs(remote) + RefsOf(a) ensures r in AllRefs(remote') {
      if r in RefsOf(a) {
        assert h in remote' && r in RefsOf(remote'[h]);
      } else {
        var k :| k in remote && r in RefsOf(remote[k]);
        assert k in remote' && remote'[k] == remote[k];
      }
    }
    forall r | r in AllRefs(remote') ensures r in AllRefs(remote) + RefsOf(a) {
      var k :| k in remote' && r in RefsOf(remote'[k]);
      if k != h { assert k in remote && remote[k] == remote'[k]; }
    }
  }

  lemma RegisterLess(remote: Remote, net: Net, h: nat)
    requires Registered(remote, net) && h in remote
    ensures Registered(remote - {h}, net) && AllRefs(remote - {h}) == AllRefs(remote) - RefsOf(remote[h])
  {
    hide Sized, RefsOf, Pieces;
    var remote' := remote - {h};
    forall r | r in AllRefs(remote') ensures r in AllRefs(remote) - RefsOf(remote[h]) {
      var k :| k in remote' && r in RefsOf(remote'[k]);
      assert k in remote && remote[k] == remote'[k];
    }
    forall r | r in AllRefs(remote) - RefsOf(remote[h]) ensures r in AllRefs(remote') {
      var k :| k in remote && r in RefsOf(remote[k]);
      assert k in remote' && remote'[k] == remote[k];
    }
  }

  /** The registry with one more allocation, from the state before its calls to the state after. */
  lemma Joined(remote: Remote, start: Net, net: Net, h: nat, a: RemoteAllocation, made: set<Ref>, x: Counters,
               y: Counters)
    requires Coherent(remote, start, x) && h !in remote && RefsOf(a) <= made && Sized(net, Pieces(a))
    requires Placing(start, net, made, y.drops == x.drops, y.setbacks == x.setbacks) && Onward(x, y)
    requires !Clash(remote, made, RefsOf(a), net) && (y.silent == x.silent ==> NoStrays(start, net, RefsOf(a)))
    ensures Stretch(start, net, made - AllRefs(remote), x, y) && Coherent(remote[h := a], net, y)
  {
    hide Quiet, Intact, Registered, Decayed, Lookup, Counts, Sized, RefsOf, Pieces, AllRefs;
    MadeIsNotOurs(start, net, made, remote, RefsOf(a), x, y);
    RegisteredStays(remote, start, net, made - AllRefs(remote));
    KeptApart(remote, made, a, net);
    RegisterOne(remote, net, h, a);
    if y.Steady() { UnderStays(AllRefs(remote), start, net); }
  }

  lemma KeptApart(remote: Remote, made: set<Ref>, a: RemoteAllocation, net: Net)
    requires !Clash(remote, made, RefsOf(a), net) && RefsOf(a) <= made
    ensures AllRefs(remote) !! RefsOf(a)
  {
    hide AllRefs, RefsOf, Lookup;
  }

  /** A block that has just been evicted to fresh pieces reads as before. */
  lemma Evicted(index: map<nat, CacheBlock>, remote: Remote, start: Net, net: Net, h: nat, a: RemoteAllocation,
                touched: set<Ref>)
    requires h in index && h !in remote && Quiet(start, net, touched) && AllRefs(remote) !! touched
    requires Decayed(AllKnown(index[h].data), Cells(net, Pieces(a)))
    ensures DecayedView(ViewOf(index, remote, start), ViewOf(index - {h}, remote[h := a], net))
    ensures Intact(start, net, touched) && Cells(net, Pieces(a)) == AllKnown(index[h].data) ==>
              ViewOf(index - {h}, remote[h := a], net) == ViewOf(index, remote, start)
  {
    hide Quiet, Intact, Cells, Decayed, AllKnown, RefsOf, Pieces, AllRefs, ViewOf;
    forall k | k in remote ensures RefsOf(remote[k]) !! touched { InAllRefs(remote, k); }
    ViewDecays(index, remote, start, net, touched, {});
    var c, v := AllKnown(index[h].data), ViewOf(index, remote, start);
    ViewLeaves(index, remote, start, h);
    ViewEvicts(index, remote, net, h, a);
    ReplaceDecays(v, ViewOf(index, remote, net), h, c, Cells(net, Pieces(a)));
    assert v[h := c] == v;
  }

  lemma ViewLeaves(index: map<nat, CacheBlock>, remote: Remote, net: Net, h: nat)
    requires h in index
    ensures h in ViewOf(index, remote, net) && ViewOf(index, remote, net)[h] == AllKnown(index[h].data)
  {
    hide Cells, AllKnown, Pieces;
  }

  lemma ViewEvicts(index: map<nat, CacheBlock>, remote: Remote, net: Net, h: nat, a: RemoteAllocation)
    requires h in index && h !in remote
    ensures ViewOf(index - {h}, remote[h := a], net) == ViewOf(index, remote, net)[h := Cells(net, Pieces(a))]
  {
    hide Cells, AllKnown, Pieces;
  }

  /** A new handle on fresh pieces joins the others. */
  lemma Adopted(index: map<nat, CacheBlock>, remote: Remote, next: nat, start: Net, net: Net, a: RemoteAllocation,
                data: seq<byte>, touched: set<Ref>)
    requires next !in index && next !in remote && Quiet(start, net, touched) && AllRefs(remote) !! touched
    requires Decayed(AllKnown(data), Cells(net, Pieces(a)))
    ensures DecayedView(ViewOf(index, remote, start)[next := AllKnown(data)], ViewOf(index, remote[next := a], net))
    ensures Intact(start, net, touched) && Cells(net, Pieces(a)) == AllKnown(data) ==>
              ViewOf(index, remote[next := a], net) == ViewOf(index, remote, start)[next := AllKnown(data)]
  {
    hide Quiet, Intact, Cells, Decayed, AllKnown, RefsOf, Pieces, AllRefs, ViewOf;
    forall k | k in remote ensures RefsOf(remote[k]) !! touched { InAllRefs(remote, k); }
    ViewDecays(index, remote, start, net, touched, {});
    ViewAdds(index, remote, net, next, a);
    ReplaceDecays(ViewOf(index, remote, start), ViewOf(index, remote, net), next, AllKnown(data),
                  Cells(net, Pieces(a)));
  }

  lemma ViewAdds(index: map<nat, CacheBlock>, remote: Remote, net: Net, h: nat, a: RemoteAllocation)
    requires h !in index
    ensures ViewOf(index, remote[h := a], net) == ViewOf(index, remote, net)[h := Cells(net, Pieces(a))]
  {
    hide Cells, AllKnown, Pieces;
  }

  /** A block read back in full and dropped from its peers reads as before from the cache. */
  lemma Reloaded(index: map<nat, CacheBlock>, remote: Remote, start: Net, net: Net, h: nat, b: CacheBlock, x: Counters,
                 y: Counters)
    requires Coherent(remote, start, x) && h in remote && h !in index
    requires Cells(start, Pieces(remote[h])) == AllKnown(b.data)
    requires Onward(x, y) && Quiet(start, net, {}) && NoStrays(start, net, {})
    requires y.drops == x.drops ==> Intact(start, net, RefsOf(remote[h]))
    requires y.setbacks == x.setbacks ==> Counts(start, net)
    requires y.silent == x.silent ==> Gone(net, RefsOf(remote[h]))
    ensures Coherent(remote - {h}, net, y)
    ensures DecayedView(ViewOf(index, remote, start), ViewOf(index[h := b], remote - {h}, net))
    ensures y.drops == x.drops ==> ViewOf(index[h := b], remote - {h}, net) == ViewOf(index, remote, start)
  {
    hide Quiet, Intact, Cells, Decayed, AllKnown, RefsOf, Pieces, Registered, ViewOf, Lookup, Counts, AllRefs;
    var c, v, w := AllKnown(b.data), ViewOf(index, remote, start), ViewOf(index, remote, net);
    RemoteReads(index, remote, start, h);
    RegisteredStays(remote, start, net, {});
    RegisterLess(remote, net, h);
    ViewDecays(index, remote, start, net, {}, {});
    QuietWider(start, net, {}, RefsOf(remote[h]));
    OthersApart(remote, start, h);
    ViewDecays(index, remote, start, net, RefsOf(remote[h]), {h});
    ViewMoves(index, remote, net, h, b);
    SelfDecayed(c);
    ReplaceDecays(v, w, h, c, c);
    assert v[h := c] == v;
    if y.Steady() { UnderStays(AllRefs(remote), start, net); }
  }

  /** A reload that failed has touched no other handle, and this one as far as it got. */
  lemma ReloadFailed(index: map<nat, CacheBlock>, remote: Remote, start: Net, net: Net, h: nat, x: Counters,
                     y: Counters)
    requires Coherent(remote, start, x) && h in remote && h !in index && Formed(remote[h], |start|)
    requires Onward(x, y) && Quiet(start, net, {}) && NoStrays(start, net, {})
    requires y.drops == x.drops ==> Intact(start, net, RefsOf(remote[h]))
    requires y.setbacks == x.setbacks ==> Counts(start, net)
    ensures Coherent(remote, net, y)
    ensures DecayedView(ViewOf(index, remote, start), ViewOf(index, remote, net))
    ensures y.drops == x.drops ==> SameOthers(ViewOf(index, remote, start), ViewOf(index, remote, net), h)
    ensures var v, ps := ViewOf(index, remote, start), Pieces(remote[h]);
            y.drops == x.drops && Stuck(start, net, ps) && (Sticking(ps) < |ps| || remote[h].size == 0) ==>
              h in v && ViewOf(index, remote, net) == v[h := AfterReload(v[h], ps)]
  {
    hide Quiet, Intact, Cells, Decayed, AllKnown, RefsOf, Pieces, Registered, ViewOf, Lookup, Counts, AllRefs, Stuck,
         Sticking, AfterReload;
    var v, w, ps := ViewOf(index, remote, start), ViewOf(index, remote, net), Pieces(remote[h]);
    QuietKeeps(index, remote, start, net, x, y);
    QuietWider(start, net, {}, RefsOf(remote[h]));
    OthersApart(remote, start, h);
    ViewDecays(index, remote, start, net, RefsOf(remote[h]), {h});
    RemoteReads(index, remote, start, h);
    RemoteReads(index, remote, net, h);
    if Stuck(start, net, ps) && (Sticking(ps) < |ps| || remote[h].size == 0) {
      StuckCells(start, net, ps, remote[h].size);
      if y.drops == x.drops { SameButOne(v, w, h, AfterReload(v[h], ps)); }
    }
  }

  /** No handle but `h` reads differently. */
  ghost predicate SameOthers(v: CellMap, w: CellMap, h: nat) {
    v.Keys == w.Keys && forall k :: k in v && k != h ==> w[k] == v[k]
  }

  lemma SameButOne(v: CellMap, w: CellMap, h: nat, c: seq<Cell>)
    requires SameOthers(v, w, h) && h in w && w[h] == c
    ensures w == v[h := c]
  {
  }

  lemma RemoteReads(index: map<nat, CacheBlock>, remote: Remote, net: Net, h: nat)
    requires h in remote && h !in index
    ensures h in ViewOf(index, remote, net) && ViewOf(index, remote, net)[h] == Cells(net, Pieces(remote[h]))
  {
    hide Cells, AllKnown, Pieces;
  }

  lemma OthersApart(remote: Remote, net: Net, h: nat)
    requires Registered(remote, net) && h in remote
    ensures forall k :: k in remote && k !in {h} ==> RefsOf(remote[k]) !! RefsOf(remote[h])
  {
    hide Sized, RefsOf;
  }

  /** Moving a handle into the cache changes only what that handle reads as. */
  lemma ViewMoves(index: map<nat, CacheBlock>, remote: Remote, net: Net, h: nat, b: CacheBlock)
    requires h in remote && h !in index
    ensures ViewOf(index[h := b], remote - {h}, net) == ViewOf(index, remote, net)[h := AllKnown(b.data)]
  {
    hide Cells, AllKnown, Pieces;
  }

  /** Bytes that show through the whole block are the block. */
  lemma ShowsAll(c: seq<Cell>, out: seq<byte>)
    requires Shows(c, 0, out) && |c| == |out|
    ensures c == AllKnown(out)
  {
  }

  /** A call that touches only `h`'s pieces and leaves them well sized. */
  lemma TouchedOne(index: map<nat, CacheBlock>, remote: Remote, start: Net, net: Net, h: nat, x: Counters, y: Counters)
    requires Coherent(remote, start, x) && h in remote && Stretch(start, net, RefsOf(remote[h]), x, y)
    requires NoStrays(start, net, {})
    requires Sized(net, Pieces(remote[h]))
    ensures Coherent(remote, net, y)
    ensures var v, w := ViewOf(index, remote, start), ViewOf(index, remote, net);
            && v.Keys == w.Keys && (forall k :: k in v && k != h ==> Decayed(v[k], w[k]))
            && (y.drops == x.drops ==> forall k :: k in v && k != h ==> w[k] == v[k])
  {
    hide Quiet, Intact, Cells, Decayed, RefsOf, Pieces, ViewOf, Lookup, Counts, AllRefs, Sized;
    OthersApart(remote, start, h);
    ViewDecays(index, remote, start, net, RefsOf(remote[h]), {h});
    forall k | k in remote ensures Sized(net, Pieces(remote[k])) {
      if k != h { PiecesDecay(start, net, remote[k], RefsOf(remote[h])); }
    }
    if y.Steady() { UnderStays(AllRefs(remote), start, net); }
  }

  /** A handle whose pieces are given back leaves the registry. */
  lemma Forgotten(index: map<nat, CacheBlock>, remote: Remote, start: Net, net: Net, h: nat, x: Counters, y: Counters)
    requires Coherent(remote, start, x) && h in remote && h !in index && Stretch(start, net, RefsOf(remote[h]), x, y)
    requires NoStrays(start, net, {})
    requires y.silent == x.silent ==> Gone(net, RefsOf(remote[h]))
    ensures Coherent(remote - {h}, net, y)
    ensures DecayedView(ViewOf(index, remote, start) - {h}, ViewOf(index, remote - {h}, net))
    ensures y.drops == x.drops ==> ViewOf(index, remote - {h}, net) == ViewOf(index, remote, start) - {h}
  {
    hide Quiet, Intact, Cells, Decayed, RefsOf, Pieces, ViewOf, Lookup, Counts, AllRefs, Sized, Registered;
    var rest := remote - {h};
    RegisterLess(remote, start, h);
    RegisteredStays(rest, start, net, RefsOf(remote[h]));
    OthersApart(remote, start, h);
    ViewDecays(index, rest, start, net, RefsOf(remote[h]), {});
    ViewDrops(index, remote, start, h);
    if y.Steady() { UnderStays(AllRefs(remote), start, net); }
  }

  lemma ViewDrops(index: map<nat, CacheBlock>, remote: Remote, net: Net, h: nat)
    requires h in remote && h !in index
    ensures ViewOf(index, remote - {h}, net) == ViewOf(index, remote, net) - {h}
  {
    hide Cells, AllKnown, Pieces;
  }

  // ---- Cached blocks ----

  lemma CachedNew(index: map<nat, CacheBlock>, remote: Remote, net: Net, h: nat, b: CacheBlock)
    requires h !in index && h !in remote
    ensures ViewOf(index[h := b], remote, net) == ViewOf(index, remote, net)[h := AllKnown(b.data)]
  {
    hide Cells, AllKnown, Pieces;
  }

  lemma CachedGone(index: map<nat, CacheBlock>, remote: Remote, net: Net, h: nat)
    requires h in index && h !in remote
    ensures ViewOf(index - {h}, remote, net) == ViewOf(index, remote, net) - {h}
  {
    hide Cells, AllKnown, Pieces;
  }

  /** Overwriting part of a cached block overwrites its cells. */
  lemma CachedWritten(index: map<nat, CacheBlock>, remote: Remote, net: Net, h: nat, off: nat, data: seq<byte>)
    requires h in index && off + |data| <= |index[h].data|
    ensures var b := CacheBlock(h, Patch(index[h].data, off, data), true);
            && index[h := b].Keys == index.Keys
            && ViewOf(index[h := b], remote, net) ==
               ViewOf(index, remote, net)[h := Overlay(AllKnown(index[h].data), off, data)]
  {
    hide Cells, Pieces;
    assert AllKnown(Patch(index[h].data, off, data)) == Overlay(AllKnown(index[h].data), off, data);
    assert index[h := CacheBlock(h, Patch(index[h].data, off, data), true)].Keys == index.Keys;
  }
}
