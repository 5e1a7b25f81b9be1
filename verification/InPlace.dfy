/** A block too large for the client's cache, used where it is, seen as its cells alone. */
module InPlace {
  import opened Bytes
  import opened Client
  import opened ClientModel
  import opened Framing
  import opened Lru
  import opened RemoteIo
  import opened Stripes
  import opened Transports
  import opened Wrappers

  /** What a handle reads as. */
  ghost function CellsOf(c: MemoryClient, h: nat): (cells: seq<Cell>)
    reads c, c.cache, c.net
  {
    if h in c.View() then c.View()[h] else []
  }

  /** The client has a block of this size under the handle. */
  ghost predicate Holding(c: MemoryClient, h: nat, size: nat)
    reads c, c.cache, c.net
  {
    c.Valid() && h in c.View() && |CellsOf(c, h)| == size
  }

  /** No session ended, every call was answered and no references clashed. */
  predicate Attended(x: Counters, y: Counters, clashed: bool) { y.drops == x.drops && y.silent == x.silent && !clashed }

  lemma HeldLength(c: MemoryClient, h: nat, size: nat)
    requires Holding(c, h, size)
    ensures |CellsOf(c, h)| == size && c.Valid()
  {
  }

  /** In a calm world references never clash. */
  lemma CalmIsSteady(c: MemoryClient)
    requires c.Valid()
    ensures c.net.calm ==> !c.clashed
  {
  }

  lemma SizeStays(c: MemoryClient, h: nat, size: nat)
    requires c.Valid()
    ensures Holding(c, h, size) <==> h in c.Sizes() && c.Sizes()[h] == size
  {
    c.SizesShow();
  }

  lemma WholeIsKnown(c: seq<Cell>, off: nat, n: nat)
    requires off + n <= |c|
    ensures NothingLost(c) ==> RangeKnown(c, off, n)
  {
  }

  lemma ShortRuns(ps: seq<Stripe>, off: nat, n: nat)
    ensures n <= MAX_MESSAGE_SIZE ==> RunsFit(ps, off, n)
  {
  }

  lemma OverlayLosesNothing(c: seq<Cell>, off: nat, data: seq<byte>)
    ensures NothingLost(c) ==> NothingLost(Overlay(c, off, data))
  {
  }

  lemma TornAt(v: CellMap, h: nat, off: nat, data: seq<byte>, w: CellMap)
    requires TornView(v, h, off, data, w) && h in v
    ensures h in w && Torn(v[h], off, data, w[h])
  {
  }

  lemma DecayedAt(v: CellMap, w: CellMap, h: nat)
    requires DecayedView(v, w) && h in v
    ensures h in w && Decayed(v[h], w[h])
  {
  }

  /** Reads a part of the block. It succeeds if the peers serve, hold the block and the part fits one reply. */
  method Receive(c: MemoryClient, h: nat, off: nat, n: nat) returns (r: Option<seq<byte>>)
    requires Holding(c, h, |CellsOf(c, h)|) && c.cache.maxBytes < |CellsOf(c, h)| && off + n <= |CellsOf(c, h)| && n > 0
    modifies c, c.cache, c.net
    ensures Holding(c, h, |old(CellsOf(c, h))|) && Onward(old(c.net.Tally()), c.net.Tally())
    ensures (old(c.clashed) ==> c.clashed) && (!c.clashed ==> Decayed(old(CellsOf(c, h)), CellsOf(c, h)))
    ensures r.Some? ==> |r.value| == n && (!c.clashed ==> Shows(old(CellsOf(c, h)), off, r.value))
    ensures Attended(old(c.net.Tally()), c.net.Tally(), c.clashed) && NothingLost(old(CellsOf(c, h))) ==>
              NothingLost(CellsOf(c, h)) && (n <= MAX_MESSAGE_SIZE ==> r.Some?)
  {
    hide MemoryClient.Valid, MemoryClient.View, MemoryClient.Sizes, DecayedView, Decayed, Shows, NothingLost,
         RangeKnown, RunsFit, SameOthers, Reloading, Sheds;
    ghost var v, size := c.View(), |CellsOf(c, h)|;
    SizeStays(c, h, size);
    c.TooLargeIsRemote(h);
    WholeIsKnown(v[h], off, n);
    ShortRuns(Pieces(c.remote[h]), off, n);
    NotReloaded(v, h, c.remote);
    var data := c.Read(h, off, n);
    SizeStays(c, h, size);
    if !c.clashed { DecayedAt(v, c.View(), h); }
    r := if data.Data? then Some(data.bytes) else None;
  }

  /** Overwrites a part of the block. It succeeds if the peers serve and hold the block. */
  method Send(c: MemoryClient, h: nat, off: nat, data: seq<byte>) returns (ok: bool)
    requires Holding(c, h, |CellsOf(c, h)|) && c.cache.maxBytes < |CellsOf(c, h)| && off + |data| <= |CellsOf(c, h)|
    modifies c, c.cache, c.net
    ensures Holding(c, h, |old(CellsOf(c, h))|) && Onward(old(c.net.Tally()), c.net.Tally())
    ensures old(c.clashed) ==> c.clashed
    ensures !c.clashed && ok ==> Decayed(Overlay(old(CellsOf(c, h)), off, data), CellsOf(c, h))
    ensures !c.clashed && !ok ==> Torn(old(CellsOf(c, h)), off, data, CellsOf(c, h))
    ensures Attended(old(c.net.Tally()), c.net.Tally(), c.clashed) && NothingLost(old(CellsOf(c, h))) ==>
              ok && NothingLost(CellsOf(c, h))
  {
    hide MemoryClient.Valid, MemoryClient.View, MemoryClient.Sizes, DecayedView, Decayed, TornView, Torn, Overlay,
         NothingLost, SameOthers, Reloading, Sheds;
    ghost var v, size := c.View(), |CellsOf(c, h)|;
    SizeStays(c, h, size);
    c.TooLargeIsRemote(h);
    OverlayLosesNothing(v[h], off, data);
    var w := c.Write(h, off, data);
    SizeStays(c, h, size);
    ok := w.Written?;
    if !c.clashed {
      if ok {
        DecayedAt(v[h := Overlay(v[h], off, data)], c.View(), h);
      } else {
        TornAt(v, h, off, data, c.View());
      }
    }
  }

  // ---- What else the client is used for ----

  datatype Use =
    | Allocates(size: nat)
    | Frees(h: nat)
    | Reads(h: nat, offset: nat, n: nat)
    | Writes(h: nat, offset: nat, data: seq<byte>)
    | Presses
    | Waits

  /** Another use of the client leaves the block alone. Only whoever allocated a block knows its handle. */
  method Elsewhere(c: MemoryClient, h: nat, use: Use)
    requires Holding(c, h, |CellsOf(c, h)|)
    modifies c, c.cache, c.net
    ensures Holding(c, h, |old(CellsOf(c, h))|) && Onward(old(c.net.Tally()), c.net.Tally())
    ensures (old(c.clashed) ==> c.clashed) && (!c.clashed ==> Decayed(old(CellsOf(c, h)), CellsOf(c, h)))
    ensures !c.clashed && c.net.drops == old(c.net.drops) ==> CellsOf(c, h) == old(CellsOf(c, h))
  {
    hide MemoryClient.Valid, MemoryClient.View, MemoryClient.Sizes, DecayedView, Decayed, TornView, Overlay, Torn,
         NothingLost, Reloading, Sheds, AllKnown, Zeros, Shows;
    ghost var v, size := c.View(), |CellsOf(c, h)|;
    SizeStays(c, h, size);
    DecayedViewRefl(v);
    DecayedAt(v, v, h);
    match use {
      case Allocates(n) =>
        var k := c.Allocate(n);
        if !c.clashed {
          if k.Some? { DecayedAt(v[k.value := AllKnown(Zeros(n))], c.View(), h); } else { DecayedAt(v, c.View(), h); }
        }
      case Frees(k) =>
        if k != h {
          c.Free(k);
          if !c.clashed { DecayedAt(v - {k}, c.View(), h); }
        }
      case Reads(k, offset, n) =>
        if k != h {
          var r := c.Read(k, offset, n);
          if !c.clashed { DecayedAt(v, c.View(), h); }
        }
      case Writes(k, offset, data) =>
        if k != h {
          var r := c.Write(k, offset, data);
          if !c.clashed {
            if r.Written? {
              DecayedAt(v[k := Overlay(v[k], offset, data)], c.View(), h);
            } else {
              OtherDecays(v, k, offset, data, c.View(), h);
            }
          }
        }
      case Presses =>
        var ok := c.OnPressure();
        if !c.clashed { DecayedAt(v, c.View(), h); }
      case Waits =>
        c.Elapse();
        if !c.clashed { DecayedAt(v, c.View(), h); }
    }
    SizeStays(c, h, size);
  }

  lemma OtherDecays(v: CellMap, k: nat, off: nat, data: seq<byte>, w: CellMap, h: nat)
    requires TornView(v, k, off, data, w) && h in v && h != k
    ensures h in w && Decayed(v[h], w[h])
  {
  }
}
