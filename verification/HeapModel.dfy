/**
 The remote heap as values: which byte lives where, and the invariant that ties
 the pages in memory and the backing block to one flat memory.
 */
module HeapModel {
  import opened Bytes
  import opened FaultBackends
  import opened PageStates
  import opened Paging
  import opened RemoteIo
  import opened Stripes
  import opened Wrappers

  /** Heap pages are whole operating-system pages, and the heap is whole heap pages. */
  datatype Layout = Layout(base: nat, osPage: nat, pageBytes: nat, pages: nat)

  predicate LayoutOk(l: Layout) {
    l.osPage > 0 && l.pageBytes > 0 && InPage(l.pageBytes, l.osPage) == 0 && l.base > 0 && InPage(l.base, l.osPage) == 0
  }

  function Capacity(l: Layout): (n: nat) { Start(l.pages, l.pageBytes) }

  /** The operating-system page of heap byte `x`, its place there, and its heap page. */
  function OsOf(l: Layout, x: nat): (p: nat)
    requires LayoutOk(l)
  {
    PageNo(l.base + x, l.osPage)
  }

  function InOs(l: Layout, x: nat): (j: nat)
    requires LayoutOk(l)
    ensures j < l.osPage
  {
    InPage(l.base + x, l.osPage)
  }

  function HeapPage(l: Layout, x: nat): (i: nat)
    requires LayoutOk(l)
  {
    PageNo(x, l.pageBytes)
  }

  /** The operating-system pages of heap page `i`, as the backend computes them. */
  function PagesOfHeap(l: Layout, i: nat): (s: set<nat>)
    requires LayoutOk(l)
  {
    Span(PageNo(l.base + Start(i, l.pageBytes), l.osPage),
         PagesTouched(l.base + Start(i, l.pageBytes), l.pageBytes, l.osPage))
  }

  // ---- Where bytes are ----

  lemma WholePages(l: Layout)
    requires LayoutOk(l)
    ensures l.pageBytes == Start(PageNo(l.pageBytes, l.osPage), l.osPage) && PageNo(l.pageBytes, l.osPage) > 0
    ensures l.base == Start(PageNo(l.base, l.osPage), l.osPage)
  {
    Position(l.pageBytes, l.osPage);
    Position(l.base, l.osPage);
  }

  lemma StartScales(i: nat, k: nat, ps: nat)
    ensures Start(i, Start(k, ps)) == Start(Start(i, k), ps)
  {
    assert i * (k * ps) == (i * k) * ps;
  }

  /** A heap page starts on an operating-system page and is `k` of them long. */
  lemma HeapPageSpan(l: Layout, i: nat)
    requires LayoutOk(l)
    ensures var k := PageNo(l.pageBytes, l.osPage);
            && PageNo(l.base + Start(i, l.pageBytes), l.osPage) == PageNo(l.base, l.osPage) + Start(i, k)
            && InPage(l.base + Start(i, l.pageBytes), l.osPage) == 0
            && PagesTouched(l.base + Start(i, l.pageBytes), l.pageBytes, l.osPage) == k
  {
    hide Start, PageNo, InPage;
    WholePages(l);
    var k, b := PageNo(l.pageBytes, l.osPage), PageNo(l.base, l.osPage);
    StartScales(i, k, l.osPage);
    StartsAdd(b, Start(i, k), l.osPage);
    Located(b + Start(i, k), 0, l.osPage);
    Located(k, l.osPage - 1, l.osPage);
    DivIsPageNo(l.pageBytes + l.osPage - 1, l.osPage);
  }

  /** The backend's span for heap page `i` holds exactly the bytes of that page. */
  lemma SpanHolds(l: Layout, i: nat, x: nat)
    requires LayoutOk(l)
    ensures OsOf(l, x) in PagesOfHeap(l, i) <==> HeapPage(l, x) == i
    ensures HeapPage(l, x) == i <==> Start(i, l.pageBytes) <= x < Start(i, l.pageBytes) + l.pageBytes
  {
    hide Start, PageNo, InPage, PagesTouched;
    HeapPageSpan(l, i);
    WholePages(l);
    var k, b, o := PageNo(l.pageBytes, l.osPage), PageNo(l.base, l.osPage), Start(i, l.pageBytes);
    Position(x, l.pageBytes);
    StartsOrder(HeapPage(l, x), i, l.pageBytes);
    StartsOrder(i, HeapPage(l, x), l.pageBytes);
    var first := b + Start(i, k);
    StartScales(i, k, l.osPage);
    StartsAdd(b, Start(i, k), l.osPage);
    StartsAdd(first, k, l.osPage);
    Position(l.base + x, l.osPage);
    StartsOrder(OsOf(l, x), first, l.osPage);
    StartsOrder(OsOf(l, x), first + k, l.osPage);
  }

  lemma InCapacity(l: Layout, i: nat, x: nat)
    requires LayoutOk(l)
    ensures i < l.pages ==> Start(i, l.pageBytes) + l.pageBytes <= Capacity(l)
    ensures x < Capacity(l) <==> HeapPage(l, x) < l.pages
  {
    hide Start, PageNo, InPage;
    if i < l.pages { StartsOrder(i, l.pages, l.pageBytes); }
    Position(x, l.pageBytes);
    StartsOrder(HeapPage(l, x), l.pages, l.pageBytes);
    StartsOrder(l.pages, HeapPage(l, x), l.pageBytes);
  }

  /** Different bytes are in different places. */
  lemma Apart(l: Layout, x: nat, y: nat)
    requires LayoutOk(l) && OsOf(l, x) == OsOf(l, y) && InOs(l, x) == InOs(l, y)
    ensures x == y
  {
    hide Start, PageNo, InPage;
    Position(l.base + x, l.osPage);
    Position(l.base + y, l.osPage);
  }

  // ---- The invariant ----

  datatype Snapshot = Snapshot(
    state: map<nat, PageState>, os: Memory, lost: set<nat>, cells: seq<Cell>, mem: seq<byte>, resident: set<nat>)

  /** Every byte of the heap has a place in memory. */
  ghost predicate Mapped(l: Layout, os: Memory) {
    && LayoutOk(l) && (forall x: nat :: x < Capacity(l) ==> OsOf(l, x) in os)
    && (forall p :: p in os ==> |os[p].bytes| == l.osPage)
  }

  ghost predicate Shaped(l: Layout, s: Snapshot) {
    Mapped(l, s.os) && |s.mem| == Capacity(l) && |s.cells| == Capacity(l) && s.state.Keys == s.os.Keys
  }

  predicate Backed(c: Cell, b: byte) { c.Lost? || c == Known(b) }

  /** A byte in memory is the flat memory's; one that is not dirty is safe on the peers, unless lost there. */
  ghost predicate ByteGood(l: Layout, s: Snapshot, x: nat)
    requires Shaped(l, s) && x < Capacity(l)
  {
    var p := OsOf(l, x);
    && p in s.state && p !in s.lost && (s.state[p].Absent? <==> HeapPage(l, x) !in s.resident)
    && (!s.state[p].Absent? ==> s.os[p].bytes[InOs(l, x)] == s.mem[x])
    && (!s.state[p].Dirty? ==> Backed(s.cells[x], s.mem[x]))
  }

  ghost predicate Good(l: Layout, s: Snapshot, damaged: set<nat>) {
    Shaped(l, s) && forall x: nat :: x < Capacity(l) && HeapPage(l, x) !in damaged ==> ByteGood(l, s, x)
  }

  /** Everything of heap page `i` is on the peers, unless lost there. */
  ghost predicate PageBacked(l: Layout, s: Snapshot, i: nat) {
    Shaped(l, s) && forall x: nat :: x < Capacity(l) && HeapPage(l, x) == i ==> Backed(s.cells[x], s.mem[x])
  }

  /** The whole flat memory is on the peers, unless lost there. */
  ghost predicate AllBacked(l: Layout, s: Snapshot, damaged: set<nat>) {
    Shaped(l, s) && forall x: nat :: x < Capacity(l) && HeapPage(l, x) !in damaged ==> Backed(s.cells[x], s.mem[x])
  }

  /** If the peers lost nothing either, they hold exactly the flat memory. */
  lemma BackedIsFlat(l: Layout, s: Snapshot)
    requires AllBacked(l, s, {}) && NothingLost(s.cells)
    ensures s.cells == AllKnown(s.mem)
  {
    hide OsOf, InOs, HeapPage, Capacity;
    forall x: nat | x < Capacity(l) ensures s.cells[x] == Known(s.mem[x]) { assert Backed(s.cells[x], s.mem[x]); }
  }

  // ---- Steps of the client ----

  lemma DecayKeepsGood(l: Layout, s: Snapshot, cells: seq<Cell>, damaged: set<nat>)
    requires Good(l, s, damaged) && Decayed(s.cells, cells)
    ensures Good(l, s.(cells := cells), damaged)
  {
    hide OsOf, InOs, HeapPage, Capacity;
    var t := s.(cells := cells);
    forall x: nat | x < Capacity(l) && HeapPage(l, x) !in damaged ensures ByteGood(l, t, x) {
      assert ByteGood(l, s, x);
    }
  }

  /** The contents of heap page `i` as they are in memory. */
  function InMemory(l: Layout, os: Memory, i: nat): (bytes: seq<byte>)
    requires Mapped(l, os) && i < l.pages
    ensures |bytes| == l.pageBytes
    ensures forall x: nat :: x < Capacity(l) && HeapPage(l, x) == i ==>
              0 <= x - Start(i, l.pageBytes) < l.pageBytes &&
                  bytes[x - Start(i, l.pageBytes)] == os[OsOf(l, x)].bytes[InOs(l, x)]
  {
    InCapacity(l, i, 0);
    forall x: nat
      ensures HeapPage(l, x) == i <==> Start(i, l.pageBytes) <= x < Start(i, l.pageBytes) + l.pageBytes
    {
      SpanHolds(l, i, x);
    }
    seq(l.pageBytes, j requires 0 <= j < l.pageBytes =>
      os[OsOf(l, Start(i, l.pageBytes) + j)].bytes[InOs(l, Start(i, l.pageBytes) + j)])
  }

  /** A page resident and undamaged is in memory as the flat memory has it. */
  lemma InMemoryIsFlat(l: Layout, s: Snapshot, damaged: set<nat>, i: nat, x: nat)
    requires Good(l, s, damaged) && i < l.pages && i in s.resident && i !in damaged && x < Capacity(l)
    requires HeapPage(l, x) == i
    ensures var j := x - Start(i, l.pageBytes); 0 <= j < l.pageBytes && InMemory(l, s.os, i)[j] == s.mem[x]
  {
    hide OsOf, InOs, HeapPage, Capacity, Start;
    assert ByteGood(l, s, x);
    SpanHolds(l, i, x);
    assert InMemory(l, s.os, i)[x - Start(i, l.pageBytes)] == s.os[OsOf(l, x)].bytes[InOs(l, x)];
  }

  /** Writing a page back leaves it on the peers, and every other page as it was. */
  lemma FlushKeepsGood(l: Layout, s: Snapshot, cells: seq<Cell>, damaged: set<nat>, i: nat)
    requires Good(l, s, damaged) && i < l.pages && (i in s.resident || i in damaged)
    requires Decayed(Overlay(s.cells, Start(i, l.pageBytes), InMemory(l, s.os, i)), cells)
    ensures Good(l, s.(cells := cells), damaged) && (i !in damaged ==> PageBacked(l, s.(cells := cells), i))
    ensures forall j :: j !in damaged && PageBacked(l, s, j) ==> PageBacked(l, s.(cells := cells), j)
  {
    hide OsOf, InOs, HeapPage, Capacity, Start, InMemory;
    var t := s.(cells := cells);
    forall x: nat | x < Capacity(l) && HeapPage(l, x) !in damaged
      ensures ByteGood(l, t, x) && (HeapPage(l, x) == i || Backed(s.cells[x], s.mem[x]) ==> Backed(cells[x], s.mem[x]))
    {
      assert ByteGood(l, s, x);
      SpanHolds(l, i, x);
      if HeapPage(l, x) == i { InMemoryIsFlat(l, s, damaged, i, x); }
    }
  }

  /** A write-back that throws part-way still leaves the clean pages on the peers. */
  lemma TornFlushKeepsGood(l: Layout, s: Snapshot, cells: seq<Cell>, damaged: set<nat>, i: nat)
    requires Good(l, s, damaged) && i < l.pages && (i in s.resident || i in damaged)
    requires Torn(s.cells, Start(i, l.pageBytes), InMemory(l, s.os, i), cells)
    ensures Good(l, s.(cells := cells), damaged)
    ensures forall j :: j !in damaged && PageBacked(l, s, j) ==> PageBacked(l, s.(cells := cells), j)
  {
    hide OsOf, InOs, HeapPage, Capacity, Start, InMemory;
    var t := s.(cells := cells);
    forall x: nat | x < Capacity(l) && HeapPage(l, x) !in damaged
      ensures ByteGood(l, t, x) && (Backed(s.cells[x], s.mem[x]) ==> Backed(cells[x], s.mem[x]))
    {
      assert ByteGood(l, s, x);
      SpanHolds(l, i, x);
      if HeapPage(l, x) == i { InMemoryIsFlat(l, s, damaged, i, x); }
    }
  }

  // ---- Steps of the backend ----

  /** Nothing dirty in the page: the peers have it. */
  lemma CleanIsBacked(l: Layout, s: Snapshot, damaged: set<nat>, i: nat)
    requires Good(l, s, damaged) && i !in damaged
    requires forall p :: p in PagesOfHeap(l, i) && p in s.state ==> !s.state[p].Dirty?
    ensures PageBacked(l, s, i)
  {
    hide OsOf, InOs, HeapPage, Capacity, Start, PagesOfHeap;
    forall x: nat | x < Capacity(l) && HeapPage(l, x) == i ensures Backed(s.cells[x], s.mem[x]) {
      assert ByteGood(l, s, x);
      SpanHolds(l, i, x);
    }
  }

  /** Two snapshots that differ at most in heap page `i`. */
  ghost predicate SameElsewhere(l: Layout, s: Snapshot, t: Snapshot, i: nat) {
    && t.mem == s.mem && t.cells == s.cells && s.state.Keys <= t.state.Keys && s.os.Keys <= t.os.Keys
    && (forall p :: p in s.state && p !in PagesOfHeapOk(l, i) ==> t.state[p] == s.state[p])
    && (forall p :: p in s.os && p !in PagesOfHeapOk(l, i) ==> t.os[p] == s.os[p])
    && t.lost <= s.lost + PagesOfHeapOk(l, i)
    && (forall k :: k != i ==> (k in t.resident <==> k in s.resident))
  }

  function PagesOfHeapOk(l: Layout, i: nat): (s: set<nat>) { if LayoutOk(l) then PagesOfHeap(l, i) else {} }

  /** Whatever happens to one page, the others stay good. */
  lemma ElsewhereGood(l: Layout, s: Snapshot, t: Snapshot, damaged: set<nat>, i: nat)
    requires Good(l, s, damaged) && Shaped(l, t) && SameElsewhere(l, s, t, i)
    ensures Good(l, t, damaged + {i})
  {
    hide OsOf, InOs, HeapPage, Capacity, Start, PagesOfHeap;
    forall x: nat | x < Capacity(l) && HeapPage(l, x) !in damaged + {i} ensures ByteGood(l, t, x) {
      assert ByteGood(l, s, x);
      SpanHolds(l, i, x);
    }
  }

  /** ... and the heap is good if that page is. */
  lemma OnePageGood(l: Layout, s: Snapshot, t: Snapshot, damaged: set<nat>, i: nat)
    requires Good(l, s, damaged) && Shaped(l, t) && SameElsewhere(l, s, t, i)
    requires i !in damaged ==> forall x: nat :: x < Capacity(l) && HeapPage(l, x) == i ==> ByteGood(l, t, x)
    ensures Good(l, t, damaged)
  {
    hide OsOf, InOs, HeapPage, Capacity, Start, PagesOfHeap, ByteGood, Shaped, SameElsewhere;
    ElsewhereGood(l, s, t, damaged, i);
  }

  /** Dirty bits forgotten once the page is on the peers. */
  lemma ClearKeepsGood(l: Layout, s: Snapshot, damaged: set<nat>, i: nat, lost: set<nat>)
    requires Good(l, s, damaged) && (i in s.resident || i in damaged) && (i !in damaged ==> PageBacked(l, s, i))
    requires lost <= s.lost + Vacant(s.state, PagesOfHeap(l, i))
    ensures var t := s.(state := Changed(s.state, PagesOfHeap(l, i), Clean),
                        os := Protected(s.os, PagesOfHeap(l, i), ReadOnly), lost := lost);
            Good(l, t, damaged) && forall j :: PageBacked(l, s, j) ==> PageBacked(l, t, j)
  {
    hide OsOf, InOs, HeapPage, Capacity, Start, PagesOfHeap;
    var t := s.(state := Changed(s.state, PagesOfHeap(l, i), Clean),
                os := Protected(s.os, PagesOfHeap(l, i), ReadOnly), lost := lost);
    if i !in damaged {
      forall x: nat | x < Capacity(l) && HeapPage(l, x) == i ensures ByteGood(l, t, x) {
        assert ByteGood(l, s, x);
        SpanHolds(l, i, x);
      }
    }
    OnePageGood(l, s, t, damaged, i);
  }

  /** A page given back to the operating system is still on the peers. */
  lemma EvictKeepsGood(l: Layout, s: Snapshot, damaged: set<nat>, i: nat, os: Memory)
    requires Good(l, s, damaged) && (i !in damaged ==> PageBacked(l, s, i))
    requires os.Keys == s.os.Keys && (forall p :: p in os ==> |os[p].bytes| == l.osPage)
    requires forall p :: p in os && p !in PagesOfHeap(l, i) ==> os[p] == s.os[p]
    ensures Good(l, s.(state := Changed(s.state, PagesOfHeap(l, i), Drop), os := os,
                       lost := s.lost - PagesOfHeap(l, i), resident := s.resident - {i}), damaged)
  {
    hide OsOf, InOs, HeapPage, Capacity, Start, PagesOfHeap;
    var t := s.(state := Changed(s.state, PagesOfHeap(l, i), Drop), os := os,
                lost := s.lost - PagesOfHeap(l, i), resident := s.resident - {i});
    if i !in damaged {
      forall x: nat | x < Capacity(l) && HeapPage(l, x) == i ensures ByteGood(l, t, x) {
        assert ByteGood(l, s, x);
        SpanHolds(l, i, x);
      }
    }
    OnePageGood(l, s, t, damaged, i);
  }

  /** The bytes are those of the flat memory's page `i`. */
  ghost predicate FlatPage(l: Layout, mem: seq<byte>, i: nat, bytes: seq<byte>) {
    && LayoutOk(l) && |bytes| == l.pageBytes && |mem| == Capacity(l)
    && forall x: nat :: x < Capacity(l) && HeapPage(l, x) == i ==>
         0 <= x - Start(i, l.pageBytes) < |bytes| && bytes[x - Start(i, l.pageBytes)] == mem[x]
  }

  /** What the peers return for an absent page is what the program stored there. */
  lemma FetchedIsFlat(l: Layout, s: Snapshot, damaged: set<nat>, i: nat, bytes: seq<byte>)
    requires Good(l, s, damaged) && i < l.pages && i !in s.resident && i !in damaged
    requires |bytes| == l.pageBytes && Shows(s.cells, Start(i, l.pageBytes), bytes)
    ensures FlatPage(l, s.mem, i, bytes)
  {
    hide OsOf, InOs, HeapPage, Capacity, Start;
    forall x: nat | x < Capacity(l) && HeapPage(l, x) == i
      ensures 0 <= x - Start(i, l.pageBytes) < |bytes| && bytes[x - Start(i, l.pageBytes)] == s.mem[x]
    {
      assert ByteGood(l, s, x);
      SpanHolds(l, i, x);
      assert s.cells[Start(i, l.pageBytes) + (x - Start(i, l.pageBytes))] == Known(bytes[x - Start(i, l.pageBytes)]);
    }
  }

  /** A fetched page lands in memory as the flat memory has it. */
  lemma FillKeepsGood(l: Layout, s: Snapshot, damaged: set<nat>, i: nat, bytes: seq<byte>,
                      platform: Platform, state: map<nat, PageState>, os: Memory, dirty: bool)
    requires Good(l, s, damaged) && i < l.pages && |bytes| == l.pageBytes
    requires i !in damaged ==> i !in s.resident && FlatPage(l, s.mem, i, bytes)
    requires FilledBy(platform, PagesOfHeap(l, i), l.base + Start(i, l.pageBytes), Some(bytes), s.state, s.os, state,
                      os, dirty)
    ensures Good(l, s.(state := state, os := os, lost := s.lost - PagesOfHeap(l, i), resident := s.resident + {i}),
                 damaged)
  {
    hide OsOf, InOs, HeapPage, Capacity, Start, PagesOfHeap, FilledPage;
    var t := s.(state := state, os := os, lost := s.lost - PagesOfHeap(l, i), resident := s.resident + {i});
    FilledSizes(l, s, i, bytes, platform, state, os, dirty);
    if i !in damaged {
      forall x: nat | x < Capacity(l) && HeapPage(l, x) == i ensures ByteGood(l, t, x) {
        assert ByteGood(l, s, x);
        SpanHolds(l, i, x);
        FilledByte(l, platform, s.os[OsOf(l, x)], i, bytes, x);
      }
    }
    OnePageGood(l, s, t, damaged, i);
  }

  lemma FilledSizes(l: Layout, s: Snapshot, i: nat, bytes: seq<byte>, platform: Platform, state: map<nat, PageState>,
                    os: Memory, dirty: bool)
    requires Shaped(l, s)
    requires FilledBy(platform, PagesOfHeap(l, i), l.base + Start(i, l.pageBytes), Some(bytes), s.state, s.os, state,
                      os, dirty)
    ensures os.Keys == s.os.Keys == state.Keys && forall p :: p in os ==> |os[p].bytes| == l.osPage
  {
    hide OsOf, Start, PagesOfHeap, Capacity;
  }

  lemma FilledByte(l: Layout, platform: Platform, page: OsPage, i: nat, bytes: seq<byte>, x: nat)
    requires LayoutOk(l) && |page.bytes| == l.osPage && |bytes| == l.pageBytes
    requires Start(i, l.pageBytes) <= x < Start(i, l.pageBytes) + l.pageBytes
    ensures FilledPage(platform, page, OsOf(l, x), l.base + Start(i, l.pageBytes), Some(bytes))[InOs(l, x)] ==
            bytes[x - Start(i, l.pageBytes)]
  {
    hide Start, PageNo, InPage;
    Position(l.base + x, l.osPage);
  }

  /** A store to a resident page that trapped: the page becomes writable and dirty. */
  lemma PromoteKeepsGood(l: Layout, s: Snapshot, damaged: set<nat>, p: nat)
    requires Good(l, s, damaged) && p in s.state && !s.state[p].Absent?
    ensures Good(l, s.(state := Changed(s.state, {p}, Fill(Dirty)), os := Protected(s.os, {p}, ReadWrite)), damaged)
  {
    hide OsOf, InOs, HeapPage, Capacity, Start;
    var t := s.(state := Changed(s.state, {p}, Fill(Dirty)), os := Protected(s.os, {p}, ReadWrite));
    forall x: nat | x < Capacity(l) && HeapPage(l, x) !in damaged ensures ByteGood(l, t, x) {
      assert ByteGood(l, s, x);
    }
  }

  /** A store changes one byte of memory, and the same byte of the flat memory. */
  lemma StoreKeepsGood(l: Layout, s: Snapshot, damaged: set<nat>, x: nat, b: byte)
    requires Good(l, s, damaged) && x < Capacity(l) && (HeapPage(l, x) in damaged || s.state[OsOf(l, x)].Dirty?)
    ensures Good(l, Stored(l, s, x, b), damaged)
  {
    hide OsOf, InOs, HeapPage, Capacity, Start, PagesOfHeap;
    var t := Stored(l, s, x, b);
    forall y: nat | y < Capacity(l) && HeapPage(l, y) !in damaged ensures ByteGood(l, t, y) {
      assert ByteGood(l, s, y);
      if OsOf(l, y) == OsOf(l, x) {
        SpanHolds(l, HeapPage(l, x), x);
        SpanHolds(l, HeapPage(l, x), y);
        if InOs(l, y) == InOs(l, x) { Apart(l, x, y); }
      }
    }
  }

  ghost function Stored(l: Layout, s: Snapshot, x: nat, b: byte): (t: Snapshot)
    requires Shaped(l, s) && x < Capacity(l)
  {
    var p := OsOf(l, x);
    s.(os := s.os[p := OsPage(ReadWrite, s.os[p].bytes[InOs(l, x) := b])], mem := s.mem[x := b])
  }
}
