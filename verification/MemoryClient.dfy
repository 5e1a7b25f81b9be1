/** The client: allocate, read, write and free over a local cache and remote peers. */
module Client {
  import opened Bytes
  import opened ClientModel
  import opened Framing
  import opened Lru
  import opened Peers
  import opened RemoteBlocks
  import opened RemoteIo
  import opened ServerSpec
  import opened Stripes
  import opened Transports
  import opened Wrappers

  datatype Eviction = NothingCached | Moved | Restored

  datatype ClientError = OutOfRange | InvalidHandle | RemoteFailure

  datatype ReadResult = Data(bytes: seq<byte>) | ReadThrew(error: ClientError)
  datatype WriteResult = Written | WriteThrew(error: ClientError)

  class MemoryClient {
    const cache: LruCache
    const net: Transport
    var remote: Remote
    var nextHandle: nat
    /**
     Set once a daemon has handed out a reference that a handle still goes by, which
     takes a daemon whose counter went back. From then on nothing is promised.
     */
    ghost var clashed: bool
    /** How many reloads released pieces of a block and then met one too long for a reply. */
    ghost var shed: nat
    /** How many bytes the operating system last said it has available; 0 if it does not say. */
    var available: nat

    /** The registry, were `index` the cached blocks. */
    ghost predicate Holds(index: map<nat, CacheBlock>)
      reads this, net
    {
      && net.Valid() && Listed(index.Keys, remote, nextHandle, |net.peers|) && net.settled <= net.setbacks
      && (net.calm ==> net.Tally().Steady())
      && (!clashed ==> Coherent(remote, net.peers, net.Tally())) && (net.Tally().Steady() ==> !clashed)
    }

    ghost predicate Valid()
      reads this, cache, net
    {
      cache.Valid() && Holds(cache.index)
    }

    lemma Parts(index: map<nat, CacheBlock>)
      ensures Holds(index) <==>
              && net.Valid() && Listed(index.Keys, remote, nextHandle, |net.peers|) && net.settled <= net.setbacks
              && (net.calm ==> net.Tally().Steady())
              && (!clashed ==> Coherent(remote, net.peers, net.Tally())) && (net.Tally().Steady() ==> !clashed)
    {
    }

    /** Memory pressure: less than 100 MB available. */
    predicate Pressed()
      reads `available
    {
      0 < available < 100 * 1024 * 1024
    }

    /** The map from handle to cells this client stands for. */
    ghost function View(): (v: CellMap)
      reads this, cache, net
    {
      ViewOf(cache.index, remote, net.peers)
    }

    ghost function Sizes(): (s: map<nat, nat>)
      reads this, cache
    {
      SizesOf(cache.index, remote)
    }

    /** A block's cells are as many as its bytes, whatever happens to them. */
    lemma SizesShow()
      requires Valid()
      ensures View().Keys == Sizes().Keys == cache.index.Keys + remote.Keys
      ensures forall h :: h in Sizes() ==> |View()[h]| == Sizes()[h]
    {
      hide ViewOf, SizesOf, Listed, Coherent;
      ViewSizes(cache.index, remote, nextHandle, net.peers);
    }

    /** A block larger than the cache is on the peers. */
    lemma TooLargeIsRemote(h: nat)
      requires Valid() && h in View() && |View()[h]| > cache.maxBytes
      ensures h in remote && h !in cache.index && remote[h].size == |View()[h]|
    {
      hide Cells, Coherent, Descending, TotalBytes;
      if h in cache.index {
        Indexed(cache.list, cache.touched, cache.clock, h);
      } else {
        SizeOfEntry(h);
      }
    }

    constructor (maxLocalBytes: nat, peers: seq<Peer>, calm: bool)
      requires NetOk(peers) && forall i :: 0 <= i < |peers| ==> Mine(peers[i]) == map[]
      requires calm ==> AllConnected(peers)
      ensures Valid() && fresh(cache) && fresh(net) && cache.maxBytes == maxLocalBytes && net.peers == peers
      ensures View() == map[] && !clashed && nextHandle == 1 && cache.list == [] && net.calm == calm
    {
      cache := new LruCache(maxLocalBytes);
      net := new Transport(peers, calm);
      remote, nextHandle, clashed, shed, available := map[], 1, false, 0, 0;
    }

    // ---- Eviction ----

    /** Pushes the least recently used block to the peers; if that throws, it is put back as it was. */
    method EvictBlock() returns (r: Eviction)
      requires Valid()
      modifies `remote, `clashed, cache, net
      ensures Valid() && Onward(old(net.Tally()), net.Tally())
      ensures old(clashed) ==> clashed
      ensures !clashed ==> DecayedView(old(View()), View()) && (net.drops == old(net.drops) ==> View() == old(View()))
      ensures r.NothingCached? <==> old(cache.list) == []
      ensures Sizes() == old(Sizes())
      ensures r.NothingCached? || r.Restored? ==> cache.index == old(cache.index) && remote == old(remote)
      ensures r.NothingCached? ==> cache.list == old(cache.list) && cache.currentBytes == old(cache.currentBytes)
      ensures r.Moved? ==>
                var victim := old(cache.list)[old(|cache.list|) - 1];
                && cache.list == old(cache.list)[..old(|cache.list|) - 1]
                && cache.index == old(cache.index) - {victim.handle}
                && victim.handle in old(cache.index) && victim.handle !in old(remote) && victim.handle in remote
                && remote == old(remote)[victim.handle := remote[victim.handle]]
                && remote[victim.handle].size == |victim.data|
      ensures r.Restored? ==>
                && cache.list == [old(cache.list)[old(|cache.list|) - 1]] + old(cache.list)[..old(|cache.list|) - 1]
                && cache.currentBytes == old(cache.currentBytes)
      ensures old(cache.list) != [] && Undisturbed(old(net.Tally()), net.Tally()) ==>
                var size := |old(cache.list)[old(|cache.list|) - 1].data|;
                && (Placeable(old(net.peers), size) ==> r.Moved?) && (r.Moved? ==> MaybePlaceable(old(net.peers), size))
                && (if r.Moved? then Charged(old(net.peers), net.peers, size) else Alike(old(net.peers), net.peers))
    {
      hide Listed, Coherent, ViewOf, DecayedView, Agree, TotalBytes, Transport.Valid, SizesOf, Placeable,
           MaybePlaceable, Charged, Alike;
      ghost var index0 := cache.index;
      DecayedViewRefl(View());
      var b := cache.EvictOne();
      if b.None? { return NothingCached; }
      var ok := Push(b.value, index0);
      if !ok {
        PutBack(b.value);
        assert cache.index == index0;
        return Restored;
      }
      SizesEvict(index0, old(remote), b.value.handle, remote[b.value.handle]);
      r := Moved;
    }

    /**
     Places one block remotely and writes it there. If either step throws, the
     reservation is released and no trace of it stays in the registry.
     */
    method Push(b: CacheBlock, ghost index: map<nat, CacheBlock>) returns (ok: bool)
      requires Holds(index) && b.handle in index && index[b.handle] == b
      modifies `remote, `clashed, net
      ensures Onward(old(net.Tally()), net.Tally()) && (old(clashed) ==> clashed)
      ensures if ok then Holds(index - {b.handle}) else Holds(index)
      ensures b.handle !in old(remote) && (!ok ==> remote == old(remote))
      ensures ok ==>
                && b.handle in remote && remote == old(remote)[b.handle := remote[b.handle]]
                && remote[b.handle].size == |b.data|
      ensures !clashed && ok ==>
                DecayedView(ViewOf(index, old(remote), old(net.peers)), ViewOf(index - {b.handle}, remote, net.peers))
      ensures !clashed && ok && net.drops == old(net.drops) ==>
                ViewOf(index - {b.handle}, remote, net.peers) == ViewOf(index, old(remote), old(net.peers))
      ensures !clashed && !ok ==> DecayedView(ViewOf(index, remote, old(net.peers)), ViewOf(index, remote, net.peers))
      ensures !clashed && !ok && net.drops == old(net.drops) ==>
                ViewOf(index, remote, net.peers) == ViewOf(index, remote, old(net.peers))
      ensures Undisturbed(old(net.Tally()), net.Tally()) ==>
                && (Placeable(old(net.peers), |b.data|) ==> ok) && (ok ==> MaybePlaceable(old(net.peers), |b.data|))
                && (if ok then Charged(old(net.peers), net.peers, |b.data|) else Alike(old(net.peers), net.peers))
    {
      hide Listed, Coherent, ViewOf, DecayedView, Transport.Valid, NoStrays, Placing, Formed, Clash,
           Cells, Pieces, Refs, AllRefs, AllKnown, Decayed, Sized, Lookup, Placeable, MaybePlaceable, Charged, Alike;
      ghost var start, x := net.peers, net.Tally();
      ListedAt(index.Keys, remote, nextHandle, |start|, b.handle);
      var a, made := Place(b);
      PlacingLength(start, net.peers, made, net.drops == x.drops, net.setbacks == x.setbacks);
      ListedMore(index.Keys, old(remote), nextHandle, |start|, |net.peers|);
      ok := a.Some?;
      ghost var kept := if ok then RefsOf(a.value) else {};
      clashed := clashed || Clash(old(remote), made, kept, net.peers);
      if net.Tally().Steady() { SteadyNoClash(old(remote), start, net.peers, made, kept, x, net.Tally()); }
      if ok {
        ListedEvict(index, old(remote), nextHandle, |net.peers|, b.handle, a.value);
        if !clashed { PushKept(index, old(remote), start, net.peers, b.handle, a.value, made, x, net.Tally()); }
      } else if !clashed {
        PushUndone(index, remote, start, net.peers, made, x, net.Tally());
      }
    }

    /** Reserves and fills a place for a block; a reservation that cannot be filled is taken back. */
    method Place(b: CacheBlock) returns (a: Option<RemoteAllocation>, ghost made: set<Ref>)
      requires net.Valid() && b.handle !in remote
      modifies `remote, net
      ensures net.Valid() && Onward(old(net.Tally()), net.Tally())
      ensures Placing(old(net.peers), net.peers, made, net.drops == old(net.drops), net.setbacks == old(net.setbacks))
      ensures remote == if a.Some? then old(remote)[b.handle := a.value] else old(remote)
      ensures a.Some? ==> Formed(a.value, |net.peers|) && a.value.size == |b.data| && RefsOf(a.value) <= made
      ensures a.Some? ==>
                Sized(net.peers, Pieces(a.value)) && Decayed(AllKnown(b.data), Cells(net.peers, Pieces(a.value)))
      ensures a.Some? && net.drops == old(net.drops) ==> Cells(net.peers, Pieces(a.value)) == AllKnown(b.data)
      ensures net.silent == old(net.silent) ==>
                NoStrays(old(net.peers), net.peers, if a.Some? then RefsOf(a.value) else {})
      ensures Undisturbed(old(net.Tally()), net.Tally()) ==>
                && (Placeable(old(net.peers), |b.data|) ==> a.Some?)
                && (a.Some? ==> MaybePlaceable(old(net.peers), |b.data|))
                && (if a.Some? then Charged(old(net.peers), net.peers, |b.data|) else Alike(old(net.peers), net.peers))
    {
      hide Transport.Valid, NoStrays, Placing, Formed, Cells, Pieces, Refs, AllKnown, Decayed, Sized, Growing, Zeros,
           Lookup, Placeable, MaybePlaceable, Charged, Alike;
      ghost var start, x := net.peers, net.Tally();
      a, made := AllocateRemote(net, |b.data|);
      if a.None? { return; }
      remote := remote[b.handle := a.value];
      PlacedFresh(net.peers, a.value, b.data, net.drops == old(net.drops));
      ghost var placed, y := net.peers, net.Tally();
      SinglePeer(a.value, |placed|);
      var ok := Fill(a.value, b.data, start, made, x);
      if Undisturbed(x, net.Tally()) { ChargedAlike(start, placed, net.peers, |b.data|); }
      if !ok {
        remote := remote - {b.handle};
        assert remote == old(remote);
        a := None;
      }
    }

    /** Writes a block into its fresh allocation, or gives the allocation back. */
    method Fill(a: RemoteAllocation, data: seq<byte>, ghost start: Net, ghost made: set<Ref>, ghost x: Counters)
      returns (ok: bool)
      requires net.Valid() && Onward(x, net.Tally()) && Formed(a, |net.peers|) && a.size == |data| && RefsOf(a) <= made
      requires Placing(start, net.peers, made, net.drops == x.drops, net.setbacks == x.setbacks)
      requires Sized(net.peers, Pieces(a)) && Decayed(AllKnown(Zeros(|data|)), Cells(net.peers, Pieces(a)))
      requires net.drops == x.drops ==> Cells(net.peers, Pieces(a)) == AllKnown(Zeros(|data|))
      requires net.silent == x.silent ==> NoStrays(start, net.peers, RefsOf(a))
      modifies net
      ensures net.Valid() && Onward(x, net.Tally()) && Onward(old(net.Tally()), net.Tally()) && Formed(a, |net.peers|)
      ensures Placing(start, net.peers, made, net.drops == x.drops, net.setbacks == x.setbacks)
      ensures ok ==> Sized(net.peers, Pieces(a)) && Decayed(AllKnown(data), Cells(net.peers, Pieces(a)))
      ensures ok && net.drops == x.drops ==> Cells(net.peers, Pieces(a)) == AllKnown(data)
      ensures net.silent == x.silent ==> NoStrays(start, net.peers, if ok then RefsOf(a) else {})
      ensures Undisturbed(old(net.Tally()), net.Tally()) && (a.Single? ==> a.ref.peer < |old(net.peers)|) ==>
                (a.Striped? || old(net.peers)[a.ref.peer].connected ==> ok && Alike(old(net.peers), net.peers))
    {
      hide Quiet, Intact, NoStrays, Placing, Counts, Transport.Valid, Formed,
           Cells, Pieces, Refs, AllKnown, Decayed, Sized, Zeros, Overlay, Torn, Lookup, Alike;
      SinglePeer(a, |net.peers|);
      ghost var placed, y := net.peers, net.Tally();
      ok := WriteRemote(net, a, 0, data);
      PlacingStep(start, placed, net.peers, made, RefsOf(a), x, y, net.Tally());
      FormedMore(a, |placed|, |net.peers|);
      ghost var torn, z := net.peers, net.Tally();
      if net.silent == x.silent { StraysSame(start, placed, torn, RefsOf(a)); }
      if !ok {
        FreeRemote(net, a);
        QuietLength(torn, net.peers, RefsOf(a));
        FormedMore(a, |torn|, |net.peers|);
        PlacingStep(start, torn, net.peers, made, RefsOf(a), x, z, net.Tally());
        if net.silent == x.silent { AllReleased(start, torn, net.peers, RefsOf(a)); }
      } else {
        WrittenWhole(placed, torn, a, data, net.drops == x.drops);
      }
    }

    method PutBack(b: CacheBlock)
      requires cache.Valid() && b.handle !in cache.index && cache.currentBytes + |b.data| <= cache.maxBytes
      modifies cache
      ensures cache.Valid() && cache.index == old(cache.index)[b.handle := b] && cache.list == [b] + old(cache.list)
      ensures cache.currentBytes == old(cache.currentBytes) + |b.data|
    {
      var ok := cache.Put(b.handle, b.data, b.dirty);
    }

    /**
     Evicts until `needed` more bytes fit, or until nothing is cached while the
     operating system reports memory pressure. Every handle keeps its contents,
     also those evicted before a later block could not be placed.
     */
    method EvictIfNeeded(needed: nat) returns (ok: bool)
      requires Valid()
      modifies `remote, `clashed, cache, net
      ensures Valid() && Onward(old(net.Tally()), net.Tally())
      ensures old(clashed) ==> clashed
      ensures !clashed ==> DecayedView(old(View()), View()) && (net.drops == old(net.drops) ==> View() == old(View()))
      ensures ok ==> cache.list == Kept(old(cache.list), cache.maxBytes - needed, Pressed())
      ensures ok ==> cache.currentBytes == 0 || cache.currentBytes + needed <= cache.maxBytes
      ensures !ok ==>
                var n := |cache.list| - 1;
                0 <= n < |old(cache.list)| && cache.list == [old(cache.list)[n]] + old(cache.list)[..n]
      ensures !ok && Undisturbed(old(net.Tally()), net.Tally()) ==> !Placeable(net.peers, |cache.list[0].data|)
      ensures Undisturbed(old(net.Tally()), net.Tally()) && Ample(old(net.peers), old(cache.list)) ==> ok
      ensures Sizes() == old(Sizes()) && cache.index.Keys <= old(cache.index).Keys
      ensures forall h :: h in old(remote) ==> h in remote && remote[h] == old(remote)[h]
      ensures cache.index.Keys + remote.Keys == old(cache.index.Keys + remote.Keys)
      ensures !Pressed() && old(cache.currentBytes) + needed <= cache.maxBytes ==>
                ok && cache.list == old(cache.list) && cache.index == old(cache.index) && remote == old(remote) &&
                net.peers == old(net.peers) && net.Tally() == old(net.Tally())
    {
      hide MemoryClient.Valid, MemoryClient.View, MemoryClient.Sizes, DecayedView, Placeable, MaybePlaceable, Ample,
           Charged, Alike, Kept, TotalBytes, Onward, Undisturbed;
      var pressure := Pressed();
      OnwardSelf(net.Tally());
      ghost var view0, list0, room := View(), cache.list, cache.maxBytes - needed;
      DecayedViewRefl(view0);
      while cache.NeedsEviction(needed) || pressure
        invariant Valid() && Onward(old(net.Tally()), net.Tally())
        invariant old(clashed) ==> clashed
        invariant !clashed ==> DecayedView(view0, View()) && (net.drops == old(net.drops) ==> View() == view0)
        invariant Sizes() == old(Sizes()) && cache.index.Keys <= old(cache.index).Keys
        invariant forall h :: h in old(remote) ==> h in remote && remote[h] == old(remote)[h]
        invariant cache.index.Keys + remote.Keys == old(cache.index.Keys + remote.Keys)
        invariant |cache.list| <= |list0| && cache.list == list0[..|cache.list|]
        invariant Kept(cache.list, room, pressure) == Kept(list0, room, pressure)
        invariant Undisturbed(old(net.Tally()), net.Tally()) && Ample(old(net.peers), list0) ==>
                    Ample(net.peers, cache.list)
        invariant !pressure && old(cache.currentBytes) + needed <= cache.maxBytes ==>
                    cache.currentBytes == old(cache.currentBytes) && cache.list == list0 &&
                    cache.index == old(cache.index) && remote == old(remote) &&
                    net.peers == old(net.peers) && net.Tally() == old(net.Tally())
        decreases |cache.list|
      {
        ghost var view1, net1, list1, x1 := View(), net.peers, cache.list, net.Tally();
        CacheCounts();
        KeptDropLast(list1, room, pressure);
        AmplePlaces(net1, list1);
        var r := EvictBlock();
        OnwardTrans(old(net.Tally()), x1, net.Tally());
        if !clashed { DecayedViewTrans(view0, view1, View()); }
        if r.NothingCached? { break; }
        if Undisturbed(old(net.Tally()), net.Tally()) {
          if r.Moved? {
            AmpleRest(net1, net.peers, list1);
          } else {
            PlaceableAlike(net1, net.peers, |cache.list[0].data|);
          }
        }
        if r.Restored? { return false; }
      }
      CacheCounts();
      KeptAll(cache.list, room, pressure);
      ok := true;
    }

    lemma CacheCounts()
      requires Valid()
      ensures cache.currentBytes == TotalBytes(cache.list) && (cache.list == [] ==> cache.currentBytes == 0)
    {
      hide Agree, Holds;
    }

    // ---- Reloading ----

    /** Brings a remote block back into the cache and releases it on its peers. */
    method LoadToLocal(h: nat) returns (ok: bool)
      requires Valid() && h in remote && remote[h].size <= cache.maxBytes
      modifies `remote, `clashed, `shed, cache, net
      ensures Valid() && Onward(old(net.Tally()), net.Tally())
      ensures h in old(View())
      ensures old(clashed) ==> clashed
      ensures Sizes() == old(Sizes()) && cache.index.Keys + remote.Keys == old(cache.index.Keys + remote.Keys)
      ensures ok ==> h in cache.index
      ensures !clashed ==>
                DecayedView(old(View()), View()) && (ok && net.drops == old(net.drops) ==> View() == old(View()))
      ensures shed == old(shed) || (shed == old(shed) + 1 && Sheds(Pieces(old(remote)[h])))
      ensures !clashed && net.drops == old(net.drops) ==> SameOthers(old(View()), View(), h)
      ensures !clashed && net.drops == old(net.drops) && net.silent == old(net.silent) ==>
                NothingLost(old(View())[h]) ==> View() == Reloading(old(View()), h, old(remote), shed > old(shed))
      ensures old(remote)[h].Single? && old(remote)[h].size == 0 ==> !ok
      ensures !Pressed() && old(cache.currentBytes) + old(remote)[h].size <= cache.maxBytes ==>
                net.drops == old(net.drops) && net.silent == old(net.silent) && NothingLost(old(View())[h]) ==>
                (ok <==> Fetchable(old(remote)[h]))
      ensures !clashed && Undisturbed(old(net.Tally()), net.Tally()) && NothingLost(old(View())[h]) ==>
                Ample(old(net.peers), old(cache.list)) ==> (ok <==> Fetchable(old(remote)[h]))
      ensures ok ==> cache.list == [CacheBlock(h, cache.index[h].data, false)] +
                                   Kept(old(cache.list), cache.maxBytes - old(remote)[h].size, Pressed())
    {
      hide Holds, ViewOf, DecayedView, Agree, TotalBytes, Transport.Valid, SizesOf, Ample, Kept, Placeable, Fetchable,
           NothingLost, SameOthers, Sheds;
      ghost var view0 := View();
      SizeOfEntry(h);
      ok := EvictIfNeeded(remote[h].size);
      NotReloaded(view0, h, remote);
      SameToOthers(view0, h);
      if !ok { return; }
      ghost var view1 := View();
      SizeOfEntry(h);
      ok := Reload(h);
      if !clashed { DecayedViewTrans(view0, view1, View()); }
    }

    lemma SizeOfEntry(h: nat)
      requires Valid() && h in remote
      ensures h !in cache.index && h in View() && |View()[h]| == remote[h].size
    {
      hide Cells, Coherent;
      ListedAt(cache.index.Keys, remote, nextHandle, |net.peers|, h);
      RemoteEntry(cache.index, remote, net.peers, h);
    }

    lemma FormedEntry(h: nat)
      requires Valid() && h in remote
      ensures Formed(remote[h], |net.peers|)
    {
      hide Formed, Coherent;
      ListedAt(cache.index.Keys, remote, nextHandle, |net.peers|, h);
    }

    /** The second half: there is room in the cache now. */
    method Reload(h: nat) returns (ok: bool)
      requires Valid() && h in remote && remote[h].size <= cache.maxBytes
      requires cache.currentBytes == 0 || cache.currentBytes + remote[h].size <= cache.maxBytes
      modifies `remote, `shed, cache, net
      ensures Valid() && Onward(old(net.Tally()), net.Tally()) && h in old(View())
      ensures Sizes() == old(Sizes()) && cache.index.Keys + remote.Keys == old(cache.index.Keys + remote.Keys)
      ensures ok ==> h in cache.index
      ensures !clashed ==>
                DecayedView(old(View()), View()) && (ok && net.drops == old(net.drops) ==> View() == old(View()))
      ensures shed == old(shed) + (if Sheds(Pieces(old(remote)[h])) then 1 else 0)
      ensures !clashed && net.drops == old(net.drops) ==> SameOthers(old(View()), View(), h)
      ensures net.drops == old(net.drops) && net.silent == old(net.silent) && NothingLost(old(View())[h]) ==>
                && (ok <==> Fetchable(old(remote)[h]))
                && (!clashed ==> View() == Reloading(old(View()), h, old(remote), true))
      ensures old(remote)[h].Single? && old(remote)[h].size == 0 ==> !ok
      ensures ok ==> cache.list == [CacheBlock(h, cache.index[h].data, false)] + old(cache.list)
      ensures !ok ==> cache.list == old(cache.list)
    {
      hide Listed, Coherent, ViewOf, DecayedView, Agree, Transport.Valid, Quiet, Intact, NoStrays, Counts, Formed,
           Cells, Pieces, Refs, AllRefs, AllKnown, Decayed, Lookup, TotalBytes, Shows, RangeKnown, NothingLost, Gone,
           SizesOf, RunsFit, Sticking, Sheds, Stuck, SameOthers, Reloading, Fetchable, Without, Fitting, Undisturbed,
           Onward, Holds, Alike, Charged, Freed, Descending, IndexOf;
      Parts(cache.index);
      var a := remote[h];
      ghost var start, x, index := net.peers, net.Tally(), cache.index;
      ListedAt(index.Keys, remote, nextHandle, |start|, h);
      RemoteEntry(index, remote, start, h);
      FetchableRuns(start, a);
      var data := ReadRemote(net, a, 0, a.size, true);
      StaysSteady(x, net.Tally());
      QuietLength(start, net.peers, {});
      ListedMore(index.Keys, remote, nextHandle, |start|, |net.peers|);
      if Sheds(Pieces(a)) { shed := shed + 1; }
      if data.None? {
        if !clashed {
          ReloadFailed(index, remote, start, net.peers, h, x, net.Tally());
          ReloadingIs(old(View()), h, remote);
        }
        Parts(index);
        return false;
      }
      ok := true;
      ghost var b := CacheBlock(h, data.value, false);
      ListedReload(index, remote, nextHandle, |net.peers|, h, b);
      if !clashed {
        ShowsAll(Cells(start, Pieces(a)), data.value);
        Reloaded(index, remote, start, net.peers, h, b, x, net.Tally());
        SameToOthers(old(View()), h);
        ReloadingIs(old(View()), h, remote);
      }
      SizesReload(index, remote, h, b);
      remote := remote - {h};
      Parts(index[h := b]);
      var stored := cache.Put(h, data.value, false);
      Parts(cache.index);
    }

    /** Once every daemon's counter is past all references in use, earlier setbacks no longer matter. */
    ghost method Settle()
      requires Valid() && !clashed && Under(net.peers, AllRefs(remote))
      modifies net`settled
      ensures Valid() && net.Tally().Steady() && View() == old(View())
    {
      net.settled := net.setbacks;
    }

    // ---- The public operations ----

    /**
     A new zeroed block: cached if it can ever be, else on the peers. It succeeds if
     there is room in the cache and no memory pressure, or if nothing else happens and
     some connected peer would take it.
     */
    method Allocate(size: nat) returns (r: Option<nat>)
      requires Valid()
      modifies `remote, `clashed, `nextHandle, cache, net
      ensures Valid() && Onward(old(net.Tally()), net.Tally()) && (old(clashed) ==> clashed)
      ensures r.Some? ==>
                r.value == old(nextHandle) && r.value !in old(View()) && View().Keys == old(View()).Keys + {r.value}
      ensures r.None? ==> View().Keys == old(View()).Keys
      ensures Sizes() == (if r.Some? then old(Sizes())[r.value := size] else old(Sizes())) && shed == old(shed)
      ensures !clashed && r.Some? ==> DecayedView(old(View())[r.value := AllKnown(Zeros(size))], View())
      ensures !clashed && r.Some? && net.drops == old(net.drops) ==>
                View() == old(View())[r.value := AllKnown(Zeros(size))]
      ensures !clashed && r.None? ==>
                DecayedView(old(View()), View()) && (net.drops == old(net.drops) ==> View() == old(View()))
      ensures nextHandle == old(nextHandle) + 1
      ensures r.Some? ==> if size <= cache.maxBytes then r.value in cache.index else r.value in remote
      ensures r.Some? && size <= cache.maxBytes ==>
                cache.list == [CacheBlock(r.value, Zeros(size), false)] +
                              Kept(old(cache.list), cache.maxBytes - size, Pressed())
      ensures !Pressed() && old(cache.currentBytes) + size <= cache.maxBytes ==> r.Some?
      ensures Undisturbed(old(net.Tally()), net.Tally()) && size <= cache.maxBytes ==>
                && (Ample(old(net.peers), old(cache.list)) ==> r.Some?)
                && (r.None? ==> cache.list != [] && !Placeable(net.peers, |cache.list[0].data|))
      ensures Undisturbed(old(net.Tally()), net.Tally()) && size > cache.maxBytes ==>
                (Placeable(old(net.peers), size) ==> r.Some?) && (r.Some? ==> MaybePlaceable(old(net.peers), size))
    {
      hide Listed, Coherent, ViewOf, DecayedView, Agree, Transport.Valid, Quiet, Intact, NoStrays, Counts, Formed,
           Cells, Pieces, Refs, AllRefs, AllKnown, Decayed, Lookup, TotalBytes, Zeros, Placing, Growing, Clash, Sized,
           SizesOf, Placeable, MaybePlaceable, Ample, Kept;
      var h := nextHandle;
      ListedAt(cache.index.Keys, remote, h, |net.peers|, h);
      ViewKeys(cache.index, remote, net.peers);
      if size > cache.maxBytes {
        r := AllocateOversized(size);
        return;
      }
      var ok := EvictIfNeeded(size);
      ViewKeys(cache.index, remote, net.peers);
      nextHandle := nextHandle + 1;
      ListedNext(cache.index, remote, h, |net.peers|, CacheBlock(h, Zeros(size), false));
      if !ok { return None; }
      CachedNew(cache.index, remote, net.peers, h, CacheBlock(h, Zeros(size), false));
      SelfDecayed(AllKnown(Zeros(size)));
      if !clashed { ReplaceDecays(old(View()), View(), h, AllKnown(Zeros(size)), AllKnown(Zeros(size))); }
      SizesNew(cache.index, remote, h, CacheBlock(h, Zeros(size), false));
      var stored := cache.Put(h, Zeros(size), false);
      r := Some(h);
    }

    /** A block too large for the cache goes straight to the peers. */
    method AllocateOversized(size: nat) returns (r: Option<nat>)
      requires Valid()
      modifies `remote, `nextHandle, `clashed, net
      ensures Valid() && Onward(old(net.Tally()), net.Tally()) && (old(clashed) ==> clashed)
      ensures r.Some? ==> r.value == old(nextHandle) && View().Keys == old(View()).Keys + {r.value}
      ensures r.None? ==> View().Keys == old(View()).Keys
      ensures Sizes() == (if r.Some? then old(Sizes())[r.value := size] else old(Sizes())) && shed == old(shed)
      ensures !clashed && r.Some? ==> DecayedView(old(View())[r.value := AllKnown(Zeros(size))], View())
      ensures !clashed && r.Some? && net.drops == old(net.drops) ==>
                View() == old(View())[r.value := AllKnown(Zeros(size))]
      ensures !clashed && r.None? ==>
                DecayedView(old(View()), View()) && (net.drops == old(net.drops) ==> View() == old(View()))
      ensures Undisturbed(old(net.Tally()), net.Tally()) ==>
                (Placeable(old(net.peers), size) ==> r.Some?) && (r.Some? ==> MaybePlaceable(old(net.peers), size))
      ensures nextHandle == old(nextHandle) + 1 && (r.Some? ==> r.value in remote)
    {
      hide Listed, Coherent, ViewOf, DecayedView, Agree, Transport.Valid, Quiet, Intact, NoStrays, Counts, Formed,
           Cells, Pieces, Refs, AllRefs, AllKnown, Decayed, Lookup, TotalBytes, Zeros, Placing, Growing, Clash, Sized,
           Placeable, MaybePlaceable, SizesOf, Holds, Alike, Charged, Descending, IndexOf, Under;
      Parts(cache.index);
      var h := nextHandle;
      ghost var start, x, index := net.peers, net.Tally(), cache.index;
      ListedAt(index.Keys, remote, h, |start|, h);
      ViewKeys(index, remote, start);
      nextHandle := nextHandle + 1;
      var a, made := AllocateRemote(net, size);
      PlacingLength(start, net.peers, made, net.drops == x.drops, net.setbacks == x.setbacks);
      ListedMore(index.Keys, remote, h, |start|, |net.peers|);
      ListedNext(index, remote, h, |net.peers|, CacheBlock(h, [], false));
      ghost var kept := if a.Some? then RefsOf(a.value) else {};
      clashed := clashed || Clash(remote, made, kept, net.peers);
      if net.Tally().Steady() { SteadyNoClash(remote, start, net.peers, made, kept, x, net.Tally()); }
      ViewKeys(index, remote, net.peers);
      if a.None? {
        if !clashed { PushUndone(index, remote, start, net.peers, made, x, net.Tally()); }
        Parts(index);
        return None;
      }
      ListedAdopt(index.Keys, remote, h, |net.peers|, a.value);
      PlacedFresh(net.peers, a.value, Zeros(size), net.drops == old(net.drops));
      if !clashed { AdoptKept(index, remote, start, net.peers, h, a.value, Zeros(size), made, x, net.Tally()); }
      SizesAdopt(index, remote, h, a.value);
      remote := remote[h := a.value];
      Parts(index);
      ViewKeys(index, remote, net.peers);
      r := Some(h);
    }

    /** Frees a handle in whichever tier it is; an unknown handle is ignored. */
    method Free(h: nat)
      requires Valid()
      modifies `remote, cache, net
      ensures Valid() && Onward(old(net.Tally()), net.Tally())
      ensures clashed == old(clashed)
      ensures View().Keys == old(View()).Keys - {h} && Sizes() == old(Sizes()) - {h}
      ensures !clashed ==>
                DecayedView(old(View()) - {h}, View()) && (net.drops == old(net.drops) ==> View() == old(View()) - {h})
    {
      hide Listed, Coherent, ViewOf, DecayedView, Agree, Transport.Valid, Quiet, Intact, NoStrays, Counts, Formed,
           Cells, Pieces, Refs, AllRefs, AllKnown, Decayed, Lookup, TotalBytes, Stretch, Gone, SizesOf;
      DecayedViewRefl(old(View()) - {h});
      SizesFree(cache.index, remote, h);
      ghost var index, start, x := cache.index, net.peers, net.Tally();
      ListedAt(index.Keys, remote, nextHandle, |start|, h);
      ViewKeys(index, remote, start);
      if h in index {
        CachedGone(index, remote, start, h);
        ListedLess(index, remote, nextHandle, |start|, h);
      }
      var found := cache.Remove(h);
      if found { return; }
      assert cache.index == index;
      if h !in remote {
        NotInView(index, remote, start, h);
        return;
      }
      FreeRemote(net, remote[h]);
      QuietLength(start, net.peers, RefsOf(remote[h]));
      ListedMore(index.Keys, remote, nextHandle, |start|, |net.peers|);
      ListedForget(index, remote, nextHandle, |net.peers|, h);
      FreedStretch(start, net.peers, remote[h], x, net.Tally());
      if !clashed { Forgotten(index, remote, start, net.peers, h, x, net.Tally()); }
      remote := remote - {h};
      ViewKeys(index, remote, net.peers);
    }

    /** Part of a cached block. */
    method ReadCached(h: nat, offset: nat, n: nat) returns (r: ReadResult)
      requires Valid() && h in cache.index
      modifies cache
      ensures Valid() && cache.index == old(cache.index)
      ensures r.Data? <==> offset + n <= |View()[h]|
      ensures r.Data? ==> |r.bytes| == n && Shows(View()[h], offset, r.bytes)
      ensures r.ReadThrew? ==> r.error.OutOfRange?
    {
      hide Listed, Coherent, Agree, Transport.Valid, Cells, TotalBytes;
      var data := cache.Get(h);
      if offset > |data.value| || n > |data.value| - offset { return ReadThrew(OutOfRange); }
      r := Data(data.value[offset..offset + n]);
    }

    /**
     Bytes that come back are the ones stored. A read can throw although the
     arguments are fine, but at worst the block loses what its peers lost.
     */
    method Read(h: nat, offset: nat, n: nat) returns (r: ReadResult)
      requires Valid()
      modifies `remote, `clashed, `shed, cache, net
      ensures Valid() && Onward(old(net.Tally()), net.Tally())
      ensures old(clashed) ==> clashed
      ensures Sizes() == old(Sizes()) && View().Keys == old(View()).Keys
      ensures r == ReadThrew(InvalidHandle) <==> h !in old(View())
      ensures !clashed ==> DecayedView(old(View()), View())
      ensures r.Data? ==> h in old(View()) && |r.bytes| == n
      ensures !clashed && r.Data? ==> Shows(old(View())[h], offset, r.bytes)
      ensures r == ReadThrew(OutOfRange) ==> h in old(View()) && (!clashed ==> offset + n > |old(View())[h]|)
      ensures h in old(View()) && !clashed && offset + n > |old(View())[h]| ==>
                r == ReadThrew(OutOfRange) || r == ReadThrew(RemoteFailure)
      ensures !clashed && r.Data? && net.drops == old(net.drops) ==> View() == old(View())
      ensures shed == old(shed) ||
              (shed == old(shed) + 1 && ComesBack(old(remote), cache.maxBytes, h) && Sheds(Pieces(old(remote)[h])))
      ensures !clashed && net.drops == old(net.drops) ==> SameOthers(old(View()), View(), h)
      ensures !clashed && net.drops == old(net.drops) && net.silent == old(net.silent) ==>
                (ComesBack(old(remote), cache.maxBytes, h) && h in old(View()) ==> NothingLost(old(View())[h])) ==>
                View() == Reloading(old(View()), h, old(remote), shed > old(shed))
      ensures h in old(cache.index) && offset + n <= |old(View())[h]| ==> r.Data?
      ensures h in old(remote) && old(remote)[h].Single? && old(remote)[h].size == 0 ==> r.ReadThrew?
      ensures h in old(remote) && h in old(View()) && offset + n <= old(remote)[h].size ==>
                old(remote)[h].size > cache.maxBytes && net.drops == old(net.drops) && net.silent == old(net.silent) ==>
                (r.Data? <==> Gettable(old(remote)[h], old(View())[h], offset, n))
      ensures h in old(remote) && h in old(View()) && offset + n <= old(remote)[h].size ==>
                !Pressed() && old(cache.currentBytes) + old(remote)[h].size <= cache.maxBytes && !clashed ==>
                net.drops == old(net.drops) && net.silent == old(net.silent) && NothingLost(old(View())[h]) ==>
                (r.Data? <==> Fetchable(old(remote)[h]))
      ensures h in old(remote) && h in old(View()) && old(remote)[h].size <= cache.maxBytes ==>
                !clashed && Undisturbed(old(net.Tally()), net.Tally()) && NothingLost(old(View())[h]) ==>
                Ample(old(net.peers), old(cache.list)) ==>
                (r != ReadThrew(RemoteFailure) <==> Fetchable(old(remote)[h]))
      ensures h in old(cache.index) || (h in old(remote) && cache.maxBytes < old(remote)[h].size < offset + n) ==>
                r != ReadThrew(RemoteFailure)
    {
      hide Listed, Coherent, ViewOf, DecayedView, Agree, Transport.Valid, Quiet, Intact, NoStrays, Counts, Formed,
           Cells, Pieces, Refs, AllRefs, AllKnown, Decayed, Lookup, TotalBytes, Shows, NothingLost, Sheds,
           SameOthers, Reloading, Fetchable, RunsFit, RangeKnown, Ample, Kept;
      SameToOthers(View(), h);
      NotReloaded(View(), h, remote);
      DecayedViewRefl(View());
      ViewKeys(cache.index, remote, net.peers);
      ListedAt(cache.index.Keys, remote, nextHandle, |net.peers|, h);
      if h in cache.index {
        r := ReadCached(h, offset, n);
        return;
      }
      if h !in remote { return ReadThrew(InvalidHandle); }
      RemoteEntry(cache.index, remote, net.peers, h);
      if remote[h].size > cache.maxBytes {
        var a := remote[h];
        if offset > a.size || n > a.size - offset { return ReadThrew(OutOfRange); }
        ghost var start, x := net.peers, net.Tally();
        var data := ReadRemote(net, a, offset, n, false);
        QuietLength(start, net.peers, {});
        ListedMore(cache.index.Keys, remote, nextHandle, |start|, |net.peers|);
        ViewKeys(cache.index, remote, net.peers);
        if !clashed { QuietKeeps(cache.index, remote, start, net.peers, x, net.Tally()); }
        if data.Some? { ShownIsKnown(Cells(start, Pieces(a)), offset, data.value); }
        return if data.None? then ReadThrew(RemoteFailure) else Data(data.value);
      }
      var ok := LoadToLocal(h);
      ViewKeys(cache.index, remote, net.peers);
      if !ok { return ReadThrew(RemoteFailure); }
      if !clashed { KnownShows(old(View()), View(), cache.index, remote, net.peers, h); }
      r := ReadCached(h, offset, n);
    }

    /** Overwrites part of a cached block and marks it dirty; nothing is pushed out. */
    method WriteCached(h: nat, offset: nat, data: seq<byte>) returns (r: WriteResult)
      requires Valid() && h in cache.index
      modifies cache
      ensures Valid() && cache.index.Keys == old(cache.index).Keys && Sizes() == old(Sizes())
      ensures r.Written? <==> offset + |data| <= |old(View())[h]|
      ensures r.Written? ==> View() == old(View())[h := Overlay(old(View())[h], offset, data)] && cache.index[h].dirty
      ensures r.WriteThrew? ==> r.error.OutOfRange? && View() == old(View())
    {
      hide Listed, Coherent, ViewOf, Agree, Transport.Valid, Cells, TotalBytes, Overlay;
      ViewKeys(cache.index, remote, net.peers);
      ViewLeaves(cache.index, remote, net.peers, h);
      var block := cache.Get(h);
      if offset > |block.value| || |data| > |block.value| - offset { return WriteThrew(OutOfRange); }
      CachedWritten(cache.index, remote, net.peers, h, offset, data);
      var stored := cache.Put(h, Patch(block.value, offset, data), true);
      r := Written;
    }

    /**
     A write that returns has changed exactly its range. One that throws part-way
     leaves every byte old, new or lost, and other handles as they were.
     */
    method Write(h: nat, offset: nat, data: seq<byte>) returns (r: WriteResult)
      requires Valid()
      modifies `remote, `clashed, `shed, cache, net
      ensures Valid() && Onward(old(net.Tally()), net.Tally())
      ensures old(clashed) ==> clashed
      ensures Sizes() == old(Sizes()) && View().Keys == old(View()).Keys
      ensures r == WriteThrew(InvalidHandle) <==> h !in old(View())
      ensures !clashed && r.Written? ==>
                && offset + |data| <= |old(View())[h]|
                && DecayedView(old(View())[h := Overlay(old(View())[h], offset, data)], View())
                && (net.drops == old(net.drops) ==> View() == old(View())[h := Overlay(old(View())[h], offset, data)])
      ensures !clashed && r == WriteThrew(OutOfRange) ==> offset + |data| > |old(View())[h]|
      ensures !clashed && r.WriteThrew? ==> TornView(old(View()), h, offset, data, View())
      ensures !clashed && (r == WriteThrew(OutOfRange) || r == WriteThrew(InvalidHandle)) ==>
                DecayedView(old(View()), View())
      ensures !clashed && r.WriteThrew? && net.drops == old(net.drops) && net.silent == old(net.silent) ==>
                (ComesBack(old(remote), cache.maxBytes, h) && h in old(View()) ==> NothingLost(old(View())[h])) ==>
                View() == Reloading(old(View()), h, old(remote), shed > old(shed))
      ensures shed == old(shed) ||
              (shed == old(shed) + 1 && ComesBack(old(remote), cache.maxBytes, h) && Sheds(Pieces(old(remote)[h])))
      ensures !clashed && net.drops == old(net.drops) ==> SameOthers(old(View()), View(), h)
      ensures h in old(cache.index) && offset + |data| <= |old(View())[h]| ==> r.Written?
      ensures h in old(remote) && old(remote)[h].size > cache.maxBytes && h in old(View()) ==>
                net.silent == old(net.silent) && NothingLost(old(View())[h]) && offset + |data| <= |old(View())[h]| ==>
                r.Written?
      ensures h in old(remote) && h in old(View()) && old(remote)[h].size <= cache.maxBytes ==>
                !clashed && Undisturbed(old(net.Tally()), net.Tally()) && NothingLost(old(View())[h]) ==>
                Ample(old(net.peers), old(cache.list)) ==>
                (r != WriteThrew(RemoteFailure) <==> Fetchable(old(remote)[h]))
      ensures h in old(cache.index) || (h in old(remote) && cache.maxBytes < old(remote)[h].size < offset + |data|) ==>
                r != WriteThrew(RemoteFailure)
    {
      hide Listed, Coherent, ViewOf, DecayedView, Agree, Transport.Valid, TornView, Torn, Overlay, AllKnown, Decayed,
           TotalBytes, NothingLost, Formed, Cells, Pieces, Sheds, SameOthers, Reloading, Fetchable, Ample, Kept;
      ghost var view0 := View();
      SameToOthers(view0, h);
      NotReloaded(view0, h, remote);
      DecayedViewRefl(view0);
      ViewKeys(cache.index, remote, net.peers);
      ListedAt(cache.index.Keys, remote, nextHandle, |net.peers|, h);
      if h in cache.index {
        r := WriteCached(h, offset, data);
        DecayedViewRefl(View());
        ViewKeys(cache.index, remote, net.peers);
        if r.WriteThrew? { DecayedIsTorn(view0, h, offset, data, View()); }
        UpdatedOthers(view0, h, Overlay(view0[h], offset, data));
        return;
      }
      if h !in remote {
        DecayedIsTorn(view0, h, offset, data, view0);
        return WriteThrew(InvalidHandle);
      }
      RemoteEntry(cache.index, remote, net.peers, h);
      if remote[h].size > cache.maxBytes {
        r := WriteOversized(h, offset, data);
        ViewKeys(cache.index, remote, net.peers);
        return;
      }
      var ok := LoadToLocal(h);
      ViewKeys(cache.index, remote, net.peers);
      if !ok {
        if !clashed { DecayedIsTorn(view0, h, offset, data, View()); }
        return WriteThrew(RemoteFailure);
      }
      ghost var view1 := View();
      if !clashed { KnownShows(view0, view1, cache.index, remote, net.peers, h); }
      r := WriteCached(h, offset, data);
      ViewKeys(cache.index, remote, net.peers);
      if !clashed {
        if r.WriteThrew? {
          DecayedIsTorn(view0, h, offset, data, View());
        } else {
          UpdatedOthers(view0, h, Overlay(view0[h], offset, data));
          SelfDecayed(Overlay(view0[h], offset, data));
          ReplaceDecays(view0, view1, h, Overlay(view0[h], offset, data), Overlay(view0[h], offset, data));
        }
      }
    }

    /** A block that can never be cached is written where it is. */
    method WriteOversized(h: nat, offset: nat, data: seq<byte>) returns (r: WriteResult)
      requires Valid() && h in remote && h in View() && remote[h].size > cache.maxBytes && |View()[h]| == remote[h].size
      modifies net
      ensures Valid() && Onward(old(net.Tally()), net.Tally()) && r != WriteThrew(InvalidHandle)
      ensures r.Written? ==> offset + |data| <= |old(View())[h]|
      ensures !clashed && r.Written? ==>
                && DecayedView(old(View())[h := Overlay(old(View())[h], offset, data)], View())
                && (net.drops == old(net.drops) ==> View() == old(View())[h := Overlay(old(View())[h], offset, data)])
      ensures !clashed && r.WriteThrew? ==> TornView(old(View()), h, offset, data, View())
      ensures !clashed && r.WriteThrew? && net.drops == old(net.drops) && net.silent == old(net.silent) ==>
                View() == old(View())
      ensures !clashed && net.drops == old(net.drops) ==> SameOthers(old(View()), View(), h)
      ensures r == WriteThrew(OutOfRange) ==>
                offset + |data| > |old(View())[h]| && View() == old(View()) && DecayedView(old(View()), View())
      ensures offset + |data| > |old(View())[h]| ==> r == WriteThrew(OutOfRange)
      ensures net.silent == old(net.silent) && NothingLost(old(View())[h]) && offset + |data| <= |old(View())[h]| ==>
                r.Written?
    {
      hide Listed, Coherent, ViewOf, DecayedView, Agree, Transport.Valid, Quiet, Intact, NoStrays, Counts, Formed,
           TornView, Torn, Overlay, Cells, Pieces, Refs, AllRefs, AllKnown, Decayed, Lookup, TotalBytes, Sized, Stretch,
           NothingLost;
      ghost var view0 := View();
      var a := remote[h];
      ListedAt(cache.index.Keys, remote, nextHandle, |net.peers|, h);
      if offset > a.size || |data| > a.size - offset {
        DecayedViewRefl(view0);
        DecayedIsTorn(view0, h, offset, data, view0);
        return WriteThrew(OutOfRange);
      }
      ghost var start, x := net.peers, net.Tally();
      RemoteEntry(cache.index, remote, start, h);
      var ok := WriteRemote(net, a, offset, data);
      ListedMore(cache.index.Keys, remote, nextHandle, |start|, |net.peers|);
      ListedAt(cache.index.Keys, remote, nextHandle, |net.peers|, h);
      RemoteEntry(cache.index, remote, net.peers, h);
      if !clashed {
        WrittenOne(cache.index, remote, start, net.peers, h, x, net.Tally());
        JoinOne(view0, View(), h, Overlay(view0[h], offset, data));
        TornJoin(view0, View(), h, offset, data);
      }
      r := if ok then Written else WriteThrew(RemoteFailure);
    }

    // ---- Steps taken on the client's behalf ----

    /** The operating system reports memory pressure. */
    method OnPressure() returns (ok: bool)
      requires Valid()
      modifies `remote, `clashed, cache, net
      ensures var aim := if old(cache.currentBytes) / 2 < 1048576 then 1048576 else old(cache.currentBytes) / 2;
              ok ==> cache.list == Kept(old(cache.list), cache.maxBytes - aim, Pressed())
      ensures Undisturbed(old(net.Tally()), net.Tally()) && Ample(old(net.peers), old(cache.list)) ==> ok
      ensures Valid() && Onward(old(net.Tally()), net.Tally())
      ensures old(clashed) ==> clashed
      ensures Sizes() == old(Sizes()) && View().Keys == old(View()).Keys
      ensures !clashed ==> DecayedView(old(View()), View()) && (net.drops == old(net.drops) ==> View() == old(View()))
    {
      hide ViewOf, Ample, Kept, Placeable;
      ViewKeys(cache.index, remote, net.peers);
      var half := cache.currentBytes / 2;
      ok := EvictIfNeeded(if half < 1048576 then 1048576 else half);
      ViewKeys(cache.index, remote, net.peers);
    }

    /** Peers come and go, daemons restart, other sessions use them, and memory gets scarce or not. */
    method Elapse()
      requires Valid()
      modifies net, `available
      ensures Valid() && Onward(old(net.Tally()), net.Tally()) && net.silent == old(net.silent)
      ensures Sizes() == old(Sizes()) && View().Keys == old(View()).Keys
      ensures !clashed ==> DecayedView(old(View()), View()) && (net.drops == old(net.drops) ==> View() == old(View()))
    {
      hide Listed, Coherent, ViewOf, DecayedView, Agree, Transport.Valid, Quiet, Intact, NoStrays, Counts;
      ghost var start, x := net.peers, net.Tally();
      ViewKeys(cache.index, remote, start);
      net.Evolve();
      available := *;
      ListedMore(cache.index.Keys, remote, nextHandle, |start|, |net.peers|);
      ViewKeys(cache.index, remote, net.peers);
      if !clashed { QuietKeeps(cache.index, remote, start, net.peers, x, net.Tally()); }
    }
  }

  // ---- Making room ----

  /** What eviction leaves: under pressure nothing, else the longest most recent run that fits. */
  function Kept(list: seq<CacheBlock>, room: int, pressed: bool): (r: seq<CacheBlock>) {
    if pressed || room < 0 then [] else Fitting(list, room)
  }

  lemma KeptDropLast(list: seq<CacheBlock>, room: int, pressed: bool)
    requires pressed || TotalBytes(list) > room
    ensures list != [] ==> Kept(list[..|list| - 1], room, pressed) == Kept(list, room, pressed)
  {
    if list != [] && !pressed && room >= 0 { FittingDropLast(list, room); }
  }

  lemma KeptAll(list: seq<CacheBlock>, room: int, pressed: bool)
    requires list == [] || (!pressed && TotalBytes(list) <= room)
    ensures Kept(list, room, pressed) == list
  {
    if list != [] { FittingAll(list, room); }
  }

  /** The pages these blocks take on a peer with pages of this size. */
  function PagesTogether(list: seq<CacheBlock>, ps: nat): (n: nat)
    requires ps > 0
  {
    if list == [] then 0 else PagesTogether(list[..|list| - 1], ps) + PagesFor(|list[|list| - 1].data|, ps)
  }

  /** The peer would take any of these blocks, and has the pages for all of them. */
  predicate AmpleOn(p: Peer, list: seq<CacheBlock>) {
    && p.connected && p.pageSize > 0 && PagesTogether(list, p.pageSize) <= p.store.free
    && forall b :: b in list ==> MayFit(p, |b.data|) && |b.data| <= WORD_SIZE - p.pageSize
  }

  /** Some peer has room for all of these blocks. */
  ghost predicate Ample(net: Net, list: seq<CacheBlock>) { exists p :: 0 <= p < |net| && AmpleOn(net[p], list) }

  lemma AmplePlaces(net: Net, list: seq<CacheBlock>)
    ensures Ample(net, list) && list != [] ==> Placeable(net, |list[|list| - 1].data|)
  {
    hide PagesFor;
    if Ample(net, list) && list != [] {
      var p: nat :| p < |net| && AmpleOn(net[p], list);
      var b := list[|list| - 1];
      assert b in list && Willing(net, p, |b.data|);
    }
  }

  lemma AmpleRest(a: Net, b: Net, list: seq<CacheBlock>)
    requires list != [] && Charged(a, b, |list[|list| - 1].data|)
    ensures Ample(a, list) ==> Ample(b, list[..|list| - 1])
  {
    hide PagesFor;
    if Ample(a, list) {
      var p: nat :| p < |a| && AmpleOn(a[p], list);
      var rest := list[..|list| - 1];
      assert forall x :: x in rest ==> x in list;
      assert AmpleOn(b[p], rest);
    }
  }

  /** In a calm world no counter goes back. */
  lemma StaysSteady(a: Counters, b: Counters)
    requires Onward(a, b) && a.settled <= a.setbacks
    ensures b.calm == a.calm && b.settled == a.settled <= b.setbacks
    ensures (a.calm ==> a.Steady()) ==> (b.calm ==> b.Steady())
    ensures b.Steady() ==> a.Steady()
  {
  }

  lemma OnwardSelf(x: Counters)
    ensures Onward(x, x)
  {
  }

  lemma SinglePeer(a: RemoteAllocation, n: nat)
    requires Formed(a, n)
    ensures a.Single? ==> a.ref.peer < n
  {
  }

  lemma ChargedAlike(a: Net, b: Net, c: Net, size: nat)
    ensures Charged(a, b, size) && Alike(b, c) ==> Charged(a, c, size)
  {
    hide PagesFor;
  }

  /** Other handles at worst decay; `h` is torn between its old contents and the write. */
  ghost predicate TornView(v: CellMap, h: nat, off: nat, data: seq<byte>, w: CellMap) {
    v.Keys == w.Keys && forall k :: k in v ==> if k == h then Torn(v[h], off, data, w[h]) else Decayed(v[k], w[k])
  }

  lemma DecayedIsTorn(v: CellMap, h: nat, off: nat, data: seq<byte>, w: CellMap)
    requires DecayedView(v, w)
    ensures TornView(v, h, off, data, w)
  {
    if h in v { assert Decayed(v[h], w[h]); }
  }

  lemma JoinOne(v: CellMap, w: CellMap, h: nat, c: seq<Cell>)
    requires v.Keys == w.Keys && h in v && forall k :: k in v && k != h ==> Decayed(v[k], w[k])
    ensures Decayed(c, w[h]) ==> DecayedView(v[h := c], w)
    ensures w[h] == c && (forall k :: k in v && k != h ==> w[k] == v[k]) ==> w == v[h := c]
  {
    hide Decayed;
  }

  lemma TornJoin(v: CellMap, w: CellMap, h: nat, off: nat, data: seq<byte>)
    requires v.Keys == w.Keys && h in v && forall k :: k in v && k != h ==> Decayed(v[k], w[k])
    requires Torn(v[h], off, data, w[h])
    ensures TornView(v, h, off, data, w)
  {
    hide Decayed, Torn;
  }

  lemma WrittenOne(index: map<nat, CacheBlock>, remote: Remote, start: Net, net: Net, h: nat, x: Counters, y: Counters)
    requires Coherent(remote, start, x) && h in remote && Onward(x, y) && Quiet(start, net, RefsOf(remote[h]))
    requires NoStrays(start, net, {})
    requires y.drops == x.drops ==> Intact(start, net, RefsOf(remote[h]))
    requires y.setbacks == x.setbacks ==> Counts(start, net)
    requires Sized(start, Pieces(remote[h])) ==> Sized(net, Pieces(remote[h]))
    ensures Coherent(remote, net, y) && Sized(start, Pieces(remote[h]))
    ensures var v, w := ViewOf(index, remote, start), ViewOf(index, remote, net);
            && v.Keys == w.Keys && (forall k :: k in v && k != h ==> Decayed(v[k], w[k]))
            && (y.drops == x.drops ==> forall k :: k in v && k != h ==> w[k] == v[k])
  {
    hide Quiet, Intact, Cells, Decayed, Pieces, ViewOf, Lookup, Counts, AllRefs, Sized;
    TouchedOne(index, remote, start, net, h, x, y);
  }

  lemma ViewKeys(index: map<nat, CacheBlock>, remote: Remote, net: Net)
    ensures ViewOf(index, remote, net).Keys == index.Keys + remote.Keys
  {
  }

  lemma NotInView(index: map<nat, CacheBlock>, remote: Remote, net: Net, h: nat)
    requires h !in index && h !in remote
    ensures ViewOf(index, remote, net) - {h} == ViewOf(index, remote, net)
  {
  }

  /** A cached block is complete, so it cannot have decayed. */
  lemma KnownShows(v: CellMap, w: CellMap, index: map<nat, CacheBlock>, remote: Remote, net: Net, h: nat)
    requires DecayedView(v, w) && h in v && w == ViewOf(index, remote, net) && h in index
    ensures h in w && w[h] == v[h] == AllKnown(index[h].data)
  {
    hide Cells;
    assert forall i :: 0 <= i < |w[h]| ==> w[h][i].Known?;
  }

  /** Whether using the handle brings its block back into the cache. */
  predicate ComesBack(remote: Remote, max: nat, h: nat) { h in remote && remote[h].size <= max }

  /** The map after a handle was reloaded with every call answered, if it came to that. */
  ghost function Reloading(v: CellMap, h: nat, remote: Remote, reloaded: bool): (w: CellMap) {
    if reloaded && h in v && h in remote then v[h := AfterReload(v[h], Pieces(remote[h]))] else v
  }

  /** A reload can succeed: there is something to ask for, and no piece is too long for one reply. */
  predicate Fetchable(a: RemoteAllocation) { (a.Striped? || a.size > 0) && Sticking(Pieces(a)) == |Pieces(a)| }

  lemma FetchableRuns(net: Net, a: RemoteAllocation)
    requires Formed(a, |net|)
    ensures Fetchable(a) <==> (a.Striped? || a.size > 0) && RunsFit(Pieces(a), 0, a.size)
    ensures |Cells(net, Pieces(a))| == a.size
    ensures NothingLost(Cells(net, Pieces(a))) ==> RangeKnown(Cells(net, Pieces(a)), 0, a.size)
    ensures !Fetchable(a) ==> Sticking(Pieces(a)) < |Pieces(a)| || a.size == 0
    ensures Fetchable(a) ==> !Sheds(Pieces(a))
  {
    WholeRuns(net, Pieces(a), a.size);
    CellsLength(net, Pieces(a), 0, a.size);
  }

  lemma ReloadingIs(v: CellMap, h: nat, remote: Remote)
    requires h in v && h in remote
    ensures Reloading(v, h, remote, true) == v[h := AfterReload(v[h], Pieces(remote[h]))]
    ensures !Sheds(Pieces(remote[h])) ==> Reloading(v, h, remote, true) == v
  {
  }

  lemma NotReloaded(v: CellMap, h: nat, remote: Remote)
    ensures Reloading(v, h, remote, false) == v
  {
  }

  /** A part of a remote block can be read in place: it is all there, and each piece's part fits one reply. */
  predicate Gettable(a: RemoteAllocation, c: seq<Cell>, offset: nat, n: nat) {
    (a.Striped? || n > 0) && RangeKnown(c, offset, n) && RunsFit(Pieces(a), offset, n)
  }

  lemma ShownIsKnown(c: seq<Cell>, off: nat, out: seq<byte>)
    requires Shows(c, off, out)
    ensures RangeKnown(c, off, |out|)
  {
    forall i | off <= i < off + |out| ensures c[i].Known? { assert c[off + (i - off)] == Known(out[i - off]); }
  }

  lemma UpdatedOthers(v: CellMap, h: nat, c: seq<Cell>)
    ensures h in v ==> SameOthers(v, v[h := c], h)
  {
  }

  lemma SameToOthers(v: CellMap, h: nat)
    ensures SameOthers(v, v, h)
  {
  }

  /** What a remote handle reads as. */
  lemma RemoteEntry(index: map<nat, CacheBlock>, remote: Remote, net: Net, h: nat)
    requires h in remote && h !in index && Formed(remote[h], |net|)
    ensures h in ViewOf(index, remote, net) && |Cells(net, Pieces(remote[h]))| == remote[h].size
    ensures ViewOf(index, remote, net)[h] == Cells(net, Pieces(remote[h]))
  {
    CellsLength(net, Pieces(remote[h]), 0, remote[h].size);
  }

  lemma FreedStretch(start: Net, net: Net, a: RemoteAllocation, x: Counters, y: Counters)
    requires Onward(x, y) && Quiet(start, net, RefsOf(a)) && NoStrays(start, net, {})
    requires (y.drops == x.drops ==> Intact(start, net, RefsOf(a))) && (y.setbacks == x.setbacks ==> Counts(start, net))
    requires y.silent == x.silent ==> forall r :: r in RefsOf(a) ==> Lookup(net, r).None?
    ensures Stretch(start, net, RefsOf(a), x, y) && (y.silent == x.silent ==> Gone(net, RefsOf(a)))
  {
  }

  /** A new handle on fresh pieces that clash with nothing. */
  lemma AdoptKept(index: map<nat, CacheBlock>, remote: Remote, start: Net, net: Net, h: nat, a: RemoteAllocation,
                  data: seq<byte>,
                  made: set<Ref>, x: Counters, y: Counters)
    requires Coherent(remote, start, x) && h !in index && h !in remote && RefsOf(a) <= made && Sized(net, Pieces(a))
    requires Placing(start, net, made, y.drops == x.drops, y.setbacks == x.setbacks) && Onward(x, y)
    requires !Clash(remote, made, RefsOf(a), net) && (y.silent == x.silent ==> NoStrays(start, net, RefsOf(a)))
    requires Decayed(AllKnown(data), Cells(net, Pieces(a)))
    requires y.drops == x.drops ==> Cells(net, Pieces(a)) == AllKnown(data)
    ensures Coherent(remote[h := a], net, y)
    ensures DecayedView(ViewOf(index, remote, start)[h := AllKnown(data)], ViewOf(index, remote[h := a], net))
    ensures y.drops == x.drops ==>
              ViewOf(index, remote[h := a], net) == ViewOf(index, remote, start)[h := AllKnown(data)]
  {
    hide Coherent, Placing, Clash, NoStrays, Decayed, Cells, Pieces, Sized, ViewOf, DecayedView, Stretch, Quiet, Intact,
         AllKnown, AllRefs;
    Joined(remote, start, net, h, a, made, x, y);
    StretchQuiet(start, net, made - AllRefs(remote), x, y);
    Adopted(index, remote, h, start, net, a, data, made - AllRefs(remote));
  }

  // ---- The registry's list ----

  lemma ListedAt(cached: set<nat>, remote: Remote, next: nat, n: nat, h: nat)
    requires Listed(cached, remote, next, n)
    ensures h in cached ==> h !in remote
    ensures h in remote ==> h !in cached && Formed(remote[h], n)
    ensures next !in cached && next !in remote && next >= 1
  {
  }

  lemma ListedMore(cached: set<nat>, remote: Remote, next: nat, n: nat, m: nat)
    requires Listed(cached, remote, next, n) && n <= m
    ensures Listed(cached, remote, next, m)
  {
    hide Formed;
    forall h | h in remote ensures Formed(remote[h], m) { FormedMore(remote[h], n, m); }
  }

  lemma FormedMore(a: RemoteAllocation, n: nat, m: nat)
    requires Formed(a, n) && n <= m
    ensures Formed(a, m)
  {
  }

  lemma ListedEvict(index: map<nat, CacheBlock>, remote: Remote, next: nat, n: nat, h: nat, a: RemoteAllocation)
    requires Listed(index.Keys, remote, next, n) && h in index && Formed(a, n)
    ensures Listed((index - {h}).Keys, remote[h := a], next, n)
  {
    hide Formed;
  }

  lemma ListedReload(index: map<nat, CacheBlock>, remote: Remote, next: nat, n: nat, h: nat, b: CacheBlock)
    requires Listed(index.Keys, remote, next, n) && h in remote
    ensures Listed(index[h := b].Keys, remote - {h}, next, n)
  {
    hide Formed;
  }

  lemma ListedNext(index: map<nat, CacheBlock>, remote: Remote, next: nat, n: nat, b: CacheBlock)
    requires Listed(index.Keys, remote, next, n)
    ensures Listed(index.Keys, remote, next + 1, n) && Listed(index[next := b].Keys, remote, next + 1, n)
  {
    hide Formed;
  }

  lemma ListedAdopt(cached: set<nat>, remote: Remote, next: nat, n: nat, a: RemoteAllocation)
    requires Listed(cached, remote, next, n) && Formed(a, n)
    ensures Listed(cached, remote[next := a], next + 1, n)
  {
    hide Formed;
  }

  lemma ListedLess(index: map<nat, CacheBlock>, remote: Remote, next: nat, n: nat, h: nat)
    requires Listed(index.Keys, remote, next, n)
    ensures Listed((index - {h}).Keys, remote, next, n)
  {
    hide Formed;
  }

  lemma ListedForget(index: map<nat, CacheBlock>, remote: Remote, next: nat, n: nat, h: nat)
    requires Listed(index.Keys, remote, next, n)
    ensures Listed(index.Keys, remote - {h}, next, n)
  {
    hide Formed;
  }

  lemma SizesEvict(index: map<nat, CacheBlock>, remote: Remote, h: nat, a: RemoteAllocation)
    requires h in index && h !in remote && a.size == |index[h].data|
    ensures SizesOf(index - {h}, remote[h := a]) == SizesOf(index, remote)
  {
  }

  lemma SizesNew(index: map<nat, CacheBlock>, remote: Remote, h: nat, b: CacheBlock)
    ensures SizesOf(index[h := b], remote) == SizesOf(index, remote)[h := |b.data|]
  {
  }

  lemma SizesAdopt(index: map<nat, CacheBlock>, remote: Remote, h: nat, a: RemoteAllocation)
    requires h !in index
    ensures SizesOf(index, remote[h := a]) == SizesOf(index, remote)[h := a.size]
  {
  }

  lemma SizesFree(index: map<nat, CacheBlock>, remote: Remote, h: nat)
    ensures h !in remote ==> SizesOf(index - {h}, remote) == SizesOf(index, remote) - {h}
    ensures h !in index ==> SizesOf(index, remote - {h}) == SizesOf(index, remote) - {h}
    ensures h !in index && h !in remote ==> SizesOf(index, remote) == SizesOf(index, remote) - {h}
  {
  }

  lemma SizesReload(index: map<nat, CacheBlock>, remote: Remote, h: nat, b: CacheBlock)
    requires h in remote && h !in index && |b.data| == remote[h].size
    ensures SizesOf(index[h := b], remote - {h}) == SizesOf(index, remote)
  {
  }

  // ---- Stretches of calls ----

  lemma PlacingLength(start: Net, net: Net, made: set<Ref>, lossless: bool, steady: bool)
    requires Placing(start, net, made, lossless, steady)
    ensures |start| <= |net|
  {
  }

  lemma SteadyNoClash(remote: Remote, start: Net, net: Net, made: set<Ref>, kept: set<Ref>, x: Counters, y: Counters)
    requires Coherent(remote, start, x) && x.Steady() && y.Steady() && x.settled == y.settled
    requires Placing(start, net, made, y.drops == x.drops, y.setbacks == x.setbacks)
    ensures !Clash(remote, made, kept, net)
  {
    hide Clash, Quiet, Intact, NoStrays, Registered, NoOrphans, AllRefs, Lookup;
    NoClashAhead(remote, start, net, made, kept);
  }

  /** A block that found its place on the peers. */
  lemma PushKept(index: map<nat, CacheBlock>, remote: Remote, start: Net, net: Net, h: nat, a: RemoteAllocation,
                 made: set<Ref>,
                 x: Counters, y: Counters)
    requires Coherent(remote, start, x) && h in index && h !in remote && RefsOf(a) <= made && Sized(net, Pieces(a))
    requires Placing(start, net, made, y.drops == x.drops, y.setbacks == x.setbacks) && Onward(x, y)
    requires !Clash(remote, made, RefsOf(a), net) && (y.silent == x.silent ==> NoStrays(start, net, RefsOf(a)))
    requires Decayed(AllKnown(index[h].data), Cells(net, Pieces(a)))
    requires y.drops == x.drops ==> Cells(net, Pieces(a)) == AllKnown(index[h].data)
    ensures Coherent(remote[h := a], net, y)
    ensures DecayedView(ViewOf(index, remote, start), ViewOf(index - {h}, remote[h := a], net))
    ensures y.drops == x.drops ==> ViewOf(index - {h}, remote[h := a], net) == ViewOf(index, remote, start)
  {
    hide Coherent, Placing, Clash, NoStrays, Decayed, Cells, Pieces, Sized, ViewOf, DecayedView, Stretch, Quiet, Intact,
         AllKnown, AllRefs;
    Joined(remote, start, net, h, a, made, x, y);
    StretchQuiet(start, net, made - AllRefs(remote), x, y);
    Evicted(index, remote, start, net, h, a, made - AllRefs(remote));
  }

  /** A block that did not, and whose reservation was given back. */
  lemma PushUndone(index: map<nat, CacheBlock>, remote: Remote, start: Net, net: Net, made: set<Ref>, x: Counters,
                   y: Counters)
    requires Coherent(remote, start, x) && Placing(start, net, made, y.drops == x.drops, y.setbacks == x.setbacks)
    requires Onward(x, y)
    requires !Clash(remote, made, {}, net) && (y.silent == x.silent ==> NoStrays(start, net, {}))
    ensures Coherent(remote, net, y)
    ensures DecayedView(ViewOf(index, remote, start), ViewOf(index, remote, net))
    ensures y.drops == x.drops ==> ViewOf(index, remote, net) == ViewOf(index, remote, start)
  {
    hide Coherent, Placing, Clash, NoStrays, ViewOf, DecayedView, Stretch, AllRefs;
    MadeIsNotOurs(start, net, made, remote, {}, x, y);
    StretchKeeps(index, remote, start, net, made - AllRefs(remote), x, y);
  }

  lemma StretchQuiet(start: Net, net: Net, touched: set<Ref>, x: Counters, y: Counters)
    requires Stretch(start, net, touched, x, y)
    ensures Quiet(start, net, touched) && (y.drops == x.drops ==> Intact(start, net, touched))
  {
  }

  /** Further calls on references just handed out. */
  lemma PlacingStep(start: Net, net: Net, net': Net, made: set<Ref>, touched: set<Ref>, x: Counters, y: Counters,
                    z: Counters)
    requires Placing(start, net, made, y.drops == x.drops, y.setbacks == x.setbacks) && touched <= made && Onward(x, y)
    requires Onward(y, z)
    requires Quiet(net, net', touched) && NoStrays(net, net', {})
    requires (z.drops == y.drops ==> Intact(net, net', touched)) && (z.setbacks == y.setbacks ==> Counts(net, net'))
    ensures Placing(start, net', made, z.drops == x.drops, z.setbacks == x.setbacks)
  {
    hide Placing, Quiet, NoStrays, Intact, Counts;
    PlacingLess(start, net, made, y.drops == x.drops, y.setbacks == x.setbacks, z.drops == x.drops,
                z.setbacks == x.setbacks);
    PlacingTouch(start, net, net', made, touched, z.drops == x.drops, z.setbacks == x.setbacks);
  }

  /** A fresh allocation is ready to take the block. */
  lemma PlacedFresh(net: Net, a: RemoteAllocation, data: seq<byte>, lossless: bool)
    requires Growing(net, Pieces(a), |data|, lossless)
    ensures Sized(net, Pieces(a)) && Decayed(AllKnown(Zeros(|data|)), Cells(net, Pieces(a)))
    ensures lossless ==> Cells(net, Pieces(a)) == AllKnown(Zeros(|data|))
  {
  }

  /** Writing the whole block over the zeros leaves the block. */
  lemma WrittenWhole(placed: Net, net: Net, a: RemoteAllocation, data: seq<byte>, lossless: bool)
    requires Decayed(AllKnown(Zeros(|data|)), Cells(placed, Pieces(a)))
    requires Decayed(Overlay(Cells(placed, Pieces(a)), 0, data), Cells(net, Pieces(a)))
    requires lossless ==>
               && Cells(placed, Pieces(a)) == AllKnown(Zeros(|data|))
               && Cells(net, Pieces(a)) == Overlay(Cells(placed, Pieces(a)), 0, data)
    ensures Decayed(AllKnown(data), Cells(net, Pieces(a)))
    ensures lossless ==> Cells(net, Pieces(a)) == AllKnown(data)
  {
    hide Cells;
  }

  lemma StraysSame(a: Net, b: Net, c: Net, t: set<Ref>)
    requires NoStrays(a, b, t) && NoStrays(b, c, {})
    ensures NoStrays(a, c, t)
  {
    hide NoStrays;
    NoStraysTrans(a, b, c, t, {});
    assert t + {} == t;
  }
}
