/** Setting a heap up, tearing it down, and whole runs of a program that uses it. */
module HeapRuns {
  import opened ArenaModel
  import opened Bytes
  import opened Client
  import opened ClientModel
  import opened FaultBackends
  import opened Framing
  import opened HeapModel
  import opened InPlace
  import opened Lru
  import opened PageStates
  import opened Paging
  import opened RemoteBlocks
  import opened RemoteHeaps
  import opened RemoteIo
  import opened Stripes
  import opened Transports
  import opened Wrappers

  // ---- Sizes ----

  datatype Config = Config(capacityBytes: nat, localBudgetBytes: nat, pageBytes: nat)

  datatype Sizes = Sizes(pageBytes: nat, capacity: nat, budget: nat)

  function Max(a: nat, b: nat): (m: nat) { if a < b then b else a }

  /** `round_up` on 64-bit integers. */
  function RoundUp(value: nat, multiple: nat): (r: nat)
    requires multiple > 0
  {
    Start(PageNo((value + multiple - 1) % WORD, multiple), multiple)
  }

  /** The next multiple, unless the addition wraps: then it is zero. */
  lemma RoundUpNext(value: nat, multiple: nat)
    requires 0 < multiple < WORD && value < WORD
    ensures InPage(RoundUp(value, multiple), multiple) == 0
    ensures value + multiple - 1 < WORD ==> value <= RoundUp(value, multiple) < value + multiple
    ensures value + multiple - 1 >= WORD ==> RoundUp(value, multiple) == 0
  {
    hide Start, PageNo, InPage;
    var t := value + multiple - 1;
    SmallMod(t, WORD);
    Position(t % WORD, multiple);
    Located(PageNo(t % WORD, multiple), 0, multiple);
    if t >= WORD {
      Located(0, t - WORD, multiple);
      StartsAdd(0, 0, multiple);
    }
  }

  /** The sizes a heap uses. None where the page size wraps to zero, by which the next step divides. */
  function Sizing(c: Config, osPage: nat): (r: Option<Sizes>)
    requires osPage > 0
  {
    var pageBytes := RoundUp(Max(c.pageBytes, osPage), osPage);
    if pageBytes == 0 then None
    else Some(Sizes(pageBytes, RoundUp(c.capacityBytes, pageBytes),
                    Max(RoundUp(c.localBudgetBytes, pageBytes), pageBytes)))
  }

  /** The smallest multiple that is no smaller than a value. */
  ghost predicate LeastMultiple(r: nat, value: nat, multiple: nat)
    requires multiple > 0
  {
    InPage(r, multiple) == 0 && value <= r && forall k: nat :: value <= Start(k, multiple) ==> r <= Start(k, multiple)
  }

  lemma RoundUpIsLeast(value: nat, multiple: nat)
    requires 0 < multiple < WORD && value + multiple - 1 < WORD
    ensures LeastMultiple(RoundUp(value, multiple), value, multiple)
  {
    hide RoundUp, Start, PageNo, InPage;
    var r := RoundUp(value, multiple);
    RoundUpNext(value, multiple);
    Position(r, multiple);
    forall k: nat | value <= Start(k, multiple) ensures r <= Start(k, multiple) {
      StartsOrder(k, PageNo(r, multiple), multiple);
      StartsOrder(PageNo(r, multiple), k, multiple);
    }
  }

  /** Of no bytes at all, the smallest positive multiple is one page. */
  lemma AtLeastOne(r: nat, value: nat, multiple: nat)
    requires multiple > 0 && LeastMultiple(r, value, multiple)
    ensures LeastMultiple(Max(r, multiple), Max(value, 1), multiple)
  {
    hide InPage;
    Located(1, 0, multiple);
    StartOne(multiple);
    if value == 0 { StartsAdd(0, 0, multiple); }
    forall k: nat | Max(value, 1) <= Start(k, multiple) ensures Max(r, multiple) <= Start(k, multiple) {
      StartsOrder(0, k, multiple);
    }
  }

  /**
   Whole pages throughout, each size the smallest that is enough, and a budget of at
   least one page, unless an addition wraps.
   */
  lemma SizesFit(c: Config, osPage: nat)
    requires 0 < osPage < WORD && c.pageBytes < WORD && c.capacityBytes < WORD && c.localBudgetBytes < WORD
    ensures Sizing(c, osPage).Some? <==> Max(c.pageBytes, osPage) + osPage - 1 < WORD
    ensures Sizing(c, osPage).Some? ==>
              var s := Sizing(c, osPage).value;
              && InPage(s.pageBytes, osPage) == 0 && c.pageBytes <= s.pageBytes < WORD && s.pageBytes > 0
              && InPage(s.capacity, s.pageBytes) == 0 && s.budget >= s.pageBytes
              && (c.capacityBytes <= s.capacity <==> c.capacityBytes == 0 || c.capacityBytes + s.pageBytes - 1 < WORD)
              && (c.localBudgetBytes <= s.budget <==>
                    c.localBudgetBytes <= s.pageBytes || c.localBudgetBytes + s.pageBytes - 1 < WORD)
              && (c.localBudgetBytes + s.pageBytes - 1 >= WORD ==> s.budget == s.pageBytes)
              && LeastMultiple(s.pageBytes, Max(c.pageBytes, osPage), osPage)
              && (if c.capacityBytes + s.pageBytes - 1 < WORD
                  then LeastMultiple(s.capacity, c.capacityBytes, s.pageBytes) else s.capacity == 0)
              && (c.localBudgetBytes + s.pageBytes - 1 < WORD ==>
                    LeastMultiple(s.budget, Max(c.localBudgetBytes, 1), s.pageBytes))
  {
    hide RoundUp, InPage, LeastMultiple;
    RoundUpNext(Max(c.pageBytes, osPage), osPage);
    var pageBytes := RoundUp(Max(c.pageBytes, osPage), osPage);
    if pageBytes > 0 {
      RoundUpBelow(Max(c.pageBytes, osPage), osPage);
      RoundUpNext(c.capacityBytes, pageBytes);
      RoundUpNext(c.localBudgetBytes, pageBytes);
      RoundUpIsLeast(Max(c.pageBytes, osPage), osPage);
      if c.capacityBytes + pageBytes - 1 < WORD { RoundUpIsLeast(c.capacityBytes, pageBytes); }
      if c.localBudgetBytes + pageBytes - 1 < WORD {
        RoundUpIsLeast(c.localBudgetBytes, pageBytes);
        AtLeastOne(RoundUp(c.localBudgetBytes, pageBytes), c.localBudgetBytes, pageBytes);
      }
    }
  }

  lemma RoundUpBelow(value: nat, multiple: nat)
    requires 0 < multiple
    ensures RoundUp(value, multiple) < WORD
  {
    hide Start, PageNo;
    Position((value + multiple - 1) % WORD, multiple);
  }

  /** An unlimited budget becomes a budget of one page. */
  lemma UnlimitedBudgetIsOnePage()
    ensures Sizing(Config(1, WORD - 1, 65536), 4096) == Some(Sizes(65536, 65536, 65536))
  {
    hide RoundUp;
    RoundUpMultiple(16, 4096);
    RoundUpNext(WORD - 1, 65536);
    OnePageUp(65536);
  }

  lemma RoundUpMultiple(k: nat, multiple: nat)
    requires 0 < multiple && k * multiple + multiple - 1 < WORD
    ensures RoundUp(k * multiple, multiple) == k * multiple
  {
    SmallMod(k * multiple + multiple - 1, WORD);
    ModOf(k, multiple, multiple - 1);
  }

  lemma OnePageUp(multiple: nat)
    requires 0 < multiple < WORD
    ensures RoundUp(1, multiple) == multiple
  {
    SmallMod(multiple, WORD);
    ModOf(1, multiple, 0);
  }

  // ---- Setting up and tearing down ----

  /** Every byte of a region of whole pages is on one of them. */
  lemma RegionHolds(l: Layout, x: nat)
    requires LayoutOk(l) && x < Capacity(l)
    ensures OsOf(l, x) in Span(PageNo(l.base, l.osPage), PagesTouched(0, Capacity(l), l.osPage))
  {
    hide Start, PageNo, InPage;
    WholeCapacity(l);
    var n := PagesTouched(0, Capacity(l), l.osPage);
    Position(l.base + x, l.osPage);
    WholePages(l);
    StartsAdd(PageNo(l.base, l.osPage), n, l.osPage);
    StartsOrder(OsOf(l, x), PageNo(l.base, l.osPage) + n, l.osPage);
    StartsOrder(OsOf(l, x), PageNo(l.base, l.osPage), l.osPage);
  }

  lemma WholeCapacity(l: Layout)
    requires LayoutOk(l)
    ensures Start(PagesTouched(0, Capacity(l), l.osPage), l.osPage) == Capacity(l)
  {
    hide Start, PageNo, InPage;
    WholePages(l);
    var k := PageNo(l.pageBytes, l.osPage);
    StartScales(l.pages, k, l.osPage);
    Located(Start(l.pages, k), l.osPage - 1, l.osPage);
    DivIsPageNo(Capacity(l) + l.osPage - 1, l.osPage);
    Located(0, 0, l.osPage);
    StartsAdd(0, 0, l.osPage);
  }

  /** A configuration that makes sense: more capacity than the client's cache holds, and sizes that do not wrap. */
  predicate Sensible(c: Config, osPage: nat, maxLocalBytes: nat)
    requires osPage > 0
  {
    c.capacityBytes > 0 && Sizing(c, osPage).Some? && Sizing(c, osPage).value.capacity > maxLocalBytes
  }

  /** What a heap needs of its surroundings: a backend that works, and address space for all of it at `offer`. */
  predicate Equipped(backend: FaultBackend, supported: bool, offer: nat, c: Config, maxLocalBytes: nat)
    requires backend.pageSize > 0
    reads backend
  {
    && supported && Sensible(c, backend.pageSize, maxLocalBytes)
    && backend.Grantable(Sizing(c, backend.pageSize).value.capacity, offer)
  }

  /**
   Reserves address space and places the backing block, or throws and leaves neither
   behind. `supported` is what the backend says of itself, and `offer` the address the
   system would put the heap at. It succeeds if the surroundings allow it and the peers
   can take a block of that size; peers are asked only once there is address space.
   */
  method Create(client: MemoryClient, backend: FaultBackend, supported: bool, offer: nat, c: Config)
    returns (r: Option<RemoteHeap>)
    requires client.Valid() && backend.Valid() && backend.pageSize < WORD
    requires c.pageBytes < WORD && c.capacityBytes < WORD && c.localBudgetBytes < WORD
    modifies client, client.cache, client.net, backend
    ensures client.Valid() && backend.Valid() && (old(client.clashed) ==> client.clashed)
    ensures Onward(old(client.net.Tally()), client.net.Tally())
    ensures backend.misfills == old(backend.misfills) && backend.denials == old(backend.denials)
    ensures r.None? ==>
              && backend.regions == old(backend.regions) && backend.state == old(backend.state)
              && client.View().Keys == old(client.View()).Keys
    ensures r.None? && !client.clashed ==> DecayedView(old(client.View()), client.View())
    ensures r.Some? ==>
              && fresh(r.value) && r.value.client == client && r.value.backend == backend && r.value.Valid()
              && r.value.alive
              && r.value.mem == Zeros(Capacity(r.value.layout)) && r.value.order == [] && r.value.unfilled == 0
              && r.value.discarded == 0
              && Capacity(r.value.layout) > client.cache.maxBytes && (!client.clashed ==> r.value.damaged == {})
              && (!client.clashed && client.net.drops == old(client.net.drops) ==> r.value.Account().complete)
              && Sizing(c, backend.pageSize) ==
                 Some(Sizes(r.value.layout.pageBytes, Capacity(r.value.layout), r.value.budget))
    ensures backend.pageSize > 0 && (c.capacityBytes == 0 || !supported ==> r.None?)
    ensures r.Some? ==> old(Equipped(backend, supported, offer, c, client.cache.maxBytes))
    ensures r.Some? ==> r.value.layout.base == offer && r.value.layout.osPage == backend.pageSize
    ensures !old(Equipped(backend, supported, offer, c, client.cache.maxBytes)) ==>
              unchanged(client) && unchanged(client.cache) && unchanged(client.net)
    ensures old(Equipped(backend, supported, offer, c, client.cache.maxBytes)) ==>
              Undisturbed(old(client.net.Tally()), client.net.Tally()) ==>
              var capacity := Sizing(c, backend.pageSize).value.capacity;
              && (Placeable(old(client.net.peers), capacity) ==> r.Some?)
              && (r.Some? ==> MaybePlaceable(old(client.net.peers), capacity))
  {
    hide MemoryClient.Valid, MemoryClient.View, FaultBackend.Valid, Start, PageNo, InPage, PagesTouched, DecayedView,
         RemoteHeap.Sane, Grown, AllKnown, Decayed, Sizing, MemoryClient.Sizes, NothingLost, Placeable, MaybePlaceable,
         FaultBackend.Grantable, LeastMultiple, Onward, Undisturbed;
    backend.PositivePage();
    OnwardSelf(client.net.Tally());
    DecayedViewRefl(client.View());
    if c.capacityBytes == 0 || !supported { return None; }
    var osPage := backend.pageSize;
    SizesFit(c, osPage);
    var sizes := Sizing(c, osPage);
    if sizes.None? || sizes.value.capacity <= client.cache.maxBytes { return None; }
    backend.LostIsTracked();
    var base, size := backend.ReserveRegion(sizes.value.capacity, offer);
    if base == 0 { return None; }
    var pageBytes := sizes.value.pageBytes;
    var l := Layout(base, osPage, pageBytes, PageNo(sizes.value.capacity, pageBytes));
    Position(sizes.value.capacity, pageBytes);
    WholeCapacity(l);
    ghost var v := client.View();
    var h := client.Allocate(size);
    if h.None? {
      ReleaseRestores(old(backend.state), old(backend.os), backend.state, backend.os, old(backend.regions),
                      backend.regions, osPage, base,
                      PagesTouched(0, sizes.value.capacity, osPage), size);
      backend.ReleaseRegion(base);
      return None;
    }
    SizeStays(client, h.value, size);
    KnownIsWhole(Zeros(size));
    if !client.clashed { DecayedAt(v[h.value := AllKnown(Zeros(size))], client.View(), h.value); }
    forall x: nat | x < Capacity(l)
      ensures OsOf(l, x) in backend.state && backend.state[OsOf(l, x)].Absent? && OsOf(l, x) !in backend.lost
    {
      RegionHolds(l, x);
      FreshPage(old(backend.state), old(backend.os), backend.state, backend.os, PageNo(base, osPage),
                PagesTouched(0, Capacity(l), osPage), OsOf(l, x));
    }
    var heap := new RemoteHeap(client, backend, l, sizes.value.budget, h.value);
    r := Some(heap);
  }

  lemma KnownIsWhole(data: seq<byte>)
    ensures NothingLost(AllKnown(data))
  {
  }

  lemma FreshPage(state: map<nat, PageState>, os: Memory, state': map<nat, PageState>, os': Memory, first: nat, n: nat,
                  p: nat)
    requires Grown(state, os, state', os', first, n) && p in Span(first, n)
    ensures p in state' && state'[p].Absent? && p !in state
  {
  }

  /** Taking a region back right after reserving it leaves no trace. */
  lemma ReleaseRestores(state: map<nat, PageState>, os: Memory, state': map<nat, PageState>, os': Memory,
                        regions: map<nat, Region>, regions': map<nat, Region>, ps: nat, base: nat, n: nat, size: nat)
    requires ps > 0 && Grown(state, os, state', os', PageNo(base, ps), n) && base !in regions
    requires regions' == regions[base := Region(size, seq(n, _ => Absent))]
    ensures regions' - {base} == regions && state' - PagesOf(regions', ps, base) == state
  {
    hide PageNo;
  }

  /** The destructor: the address space first, then the backing block. */
  method Destroy(heap: RemoteHeap)
    requires heap.Valid()
    modifies heap.backend, heap.client, heap.client.cache, heap.client.net
    ensures heap.client.Valid() && heap.backend.Valid() && heap.layout.base !in heap.backend.regions
    ensures heap.client.View().Keys == old(heap.client.View()).Keys - {heap.handle}
    ensures heap.client.clashed == old(heap.client.clashed)
    ensures !heap.client.clashed ==> DecayedView(old(heap.client.View()) - {heap.handle}, heap.client.View())
  {
    hide MemoryClient.Valid, MemoryClient.View, FaultBackend.Valid, DecayedView, Good, Booked;
    HeldLength(heap.client, heap.handle, Capacity(heap.layout));
    heap.backend.ReleaseRegion(heap.layout.base);
    heap.client.Free(heap.handle);
  }

  // ---- Whole runs ----

  datatype HeapOp =
    | LoadAt(x: nat, attempts: nat)
    | StoreAt(x: nat, b: byte, attempts: nat)
    | FlushAll
    | EvictAll
    | Elsewise(use: Use)

  datatype HeapEvent = Loaded(x: nat, value: byte) | Stored(x: nat, b: byte) | Nothing

  /** How many faults an operation can raise. */
  function Tries(op: HeapOp): (n: nat) { if op.LoadAt? || op.StoreAt? then op.attempts + 1 else 0 }

  function AllTries(ops: seq<HeapOp>): (n: nat) {
    if ops == [] then 0 else AllTries(ops[..|ops| - 1]) + Tries(ops[|ops| - 1])
  }

  /** Enough attempts for a load, and for a store, which also has to be let through to a page that is there. */
  predicate Patient(op: HeapOp) { (op.LoadAt? ==> op.attempts >= 1) && (op.StoreAt? ==> op.attempts >= 2) }

  /** A load or store within the heap went through. */
  predicate Completed(op: HeapOp, e: HeapEvent, n: nat) {
    && (op.LoadAt? && op.x < n ==> e.Loaded? && e.x == op.x)
    && (op.StoreAt? && op.x < n ==> e == Stored(op.x, op.b))
  }

  /** An event is that of the operation at its place: only a load loads, and only a store stores, within the heap. */
  predicate Matches(op: HeapOp, e: HeapEvent, n: nat) {
    && (e.Loaded? ==> op.LoadAt? && op.x == e.x < n)
    && (e.Stored? ==> op.StoreAt? && op.x == e.x < n && op.b == e.b)
  }

  /** Memory of `n` bytes after the program's stores, the operations alone considered. */
  function Program(n: nat, ops: seq<HeapOp>): (mem: seq<byte>)
    ensures |mem| == n
  {
    if ops == [] then Zeros(n)
    else
      var before, op := Program(n, ops[..|ops| - 1]), ops[|ops| - 1];
      if op.StoreAt? && op.x < n then before[op.x := op.b] else before
  }

  /** What an operation shows on plain memory. */
  function PlainEvent(mem: seq<byte>, op: HeapOp): (e: HeapEvent) {
    if op.LoadAt? && op.x < |mem| then Loaded(op.x, mem[op.x])
    else if op.StoreAt? && op.x < |mem| then Stored(op.x, op.b)
    else Nothing
  }

  /** The plain memory a run should show: zeros, then every completed store. */
  function Flat(n: nat, trace: seq<HeapEvent>): (mem: seq<byte>)
    ensures |mem| == n
  {
    if trace == [] then Zeros(n)
    else
      var before := Flat(n, trace[..|trace| - 1]);
      match trace[|trace| - 1]
      case Stored(x, b) => if x < n then before[x := b] else before
      case _ => before
  }

  /** Every completed load outside the damaged pages returned the plain memory's byte. */
  ghost predicate Faithful(l: Layout, trace: seq<HeapEvent>, damaged: set<nat>)
    requires LayoutOk(l)
  {
    trace == [] ||
    (&& Faithful(l, trace[..|trace| - 1], damaged)
     && (trace[|trace| - 1].Loaded? ==>
           var x := trace[|trace| - 1].x;
           x < Capacity(l) &&
               (HeapPage(l, x) !in damaged ==> trace[|trace| - 1].value == Flat(Capacity(l), trace[..|trace| - 1])[x])))
  }

  lemma {:induction false} FaithfulMore(l: Layout, trace: seq<HeapEvent>, damaged: set<nat>, more: set<nat>)
    requires LayoutOk(l) && Faithful(l, trace, damaged) && damaged <= more
    ensures Faithful(l, trace, more)
  {
    if trace != [] { FaithfulMore(l, trace[..|trace| - 1], damaged, more); }
  }

  /**
   Any program of loads, stores, flushes and evictions, with other users of the client
   and peers failing and coming back in between, sees plain memory outside the damaged
   pages. While the peers serve and hold the block, pages are damaged only by what the
   operating system refuses: by no more than refused fills on Linux, and on Windows not
   at all. If it refuses nothing, every load and store goes through and every load is
   right.
   */
  method Run(heap: RemoteHeap, ops: seq<HeapOp>) returns (trace: seq<HeapEvent>)
    requires heap.Valid() && heap.alive && heap.mem == Zeros(Capacity(heap.layout)) && LayoutOk(heap.layout)
    modifies heap, heap.backend, heap.client, heap.client.cache, heap.client.net
    ensures heap.Valid() && |trace| <= |ops| && (heap.alive ==> |trace| == |ops|)
    ensures forall i :: 0 <= i < |trace| ==> Matches(ops[i], trace[i], Capacity(heap.layout))
    ensures heap.mem == Flat(Capacity(heap.layout), trace)
    ensures Faithful(heap.layout, trace, heap.damaged) && Follows(old(heap.Account()), heap.Account(), heap.Small())
    ensures heap.unfilled <= old(heap.unfilled) + AllTries(ops)
    ensures ops == [] ==> heap.Account() == old(heap.Account())
    ensures !heap.client.clashed ==> |heap.damaged| <= heap.unfilled + heap.discarded
    ensures !heap.backend.platform.MacOS? ==> heap.discarded == 0
    ensures heap.client.net.Tally().Steady() ==> !heap.client.clashed
    ensures Harms(heap.Account()) == Harms(old(heap.Account())) ==>
              heap.damaged == old(heap.damaged) && Faithful(heap.layout, trace, old(heap.damaged))
    ensures Supplied(old(heap.Account()), heap.Account()) && heap.Small() ==>
              heap.backend.misfills == old(heap.backend.misfills) && heap.discarded == old(heap.discarded) ==>
              heap.damaged == old(heap.damaged) && Faithful(heap.layout, trace, old(heap.damaged))
    ensures heap.unfilled == 0 && heap.discarded == 0 && !heap.client.clashed ==> Faithful(heap.layout, trace, {})
    ensures heap.backend.platform.Windows? && heap.alive ==> heap.unfilled == 0
    ensures heap.backend.platform.Windows? && !heap.client.clashed ==> Faithful(heap.layout, trace, {})
    ensures Calm(old(heap.Account()), heap.Account(), heap.Small()) && old(heap.damaged) == {} ==>
              heap.alive && Faithful(heap.layout, trace, {}) &&
              forall i :: 0 <= i < |ops| && Patient(ops[i]) ==> Completed(ops[i], trace[i], Capacity(heap.layout))
    ensures Calm(old(heap.Account()), heap.Account(), heap.Small()) && old(heap.damaged) == {} ==>
              (forall i :: 0 <= i < |ops| ==> Patient(ops[i])) ==>
              heap.mem == Program(Capacity(heap.layout), ops) && Plainly(Capacity(heap.layout), ops, trace)
    ensures Orderly(old(heap.Account()), heap.Small()) ==> Calm(old(heap.Account()), heap.Account(), heap.Small())
  {
    hide RemoteHeap.Sane, RemoteHeap.Account, Capacity, HeapPage, LayoutOk, Follows, Supplied, Calm, Patient, Completed,
         AllTries, Faithful, Flat, Matches, Program, Plainly, Orderly;
    ghost var a := heap.Account();
    FollowsSelf(a, heap.Small());
    Concluded(heap, a);
    trace := Steps(heap, ops);
    Concluded(heap, a);
    CalmFrom(a, heap.Account(), heap.Small());
    if Calm(a, heap.Account(), heap.Small()) && a.damaged == {} && forall i :: 0 <= i < |ops| ==> Patient(ops[i]) {
      ShowsProgram(heap.layout, ops, trace);
    }
  }

  /** Every event is what the program, run on plain memory, would show at that place. */
  predicate Plainly(n: nat, ops: seq<HeapOp>, trace: seq<HeapEvent>) {
    |trace| == |ops| && forall i :: 0 <= i < |ops| ==> trace[i] == PlainEvent(Program(n, ops[..i]), ops[i])
  }

  /** A byte the program stored is what its loads there show until it stores there again, whatever lies between. */
  lemma LoadsBack(n: nat, ops: seq<HeapOp>, trace: seq<HeapEvent>, j: nat, i: nat)
    requires Plainly(n, ops, trace) && j < i < |ops| && ops[j].StoreAt? && ops[i].LoadAt? && ops[i].x == ops[j].x < n
    requires forall k :: j < k < i && ops[k].StoreAt? ==> ops[k].x != ops[j].x
    ensures trace[i] == Loaded(ops[j].x, ops[j].b)
  {
    hide Program;
    Remembered(n, ops, j, i);
  }

  lemma {:induction false} Remembered(n: nat, ops: seq<HeapOp>, j: nat, i: nat)
    requires j < i <= |ops| && ops[j].StoreAt? && ops[j].x < n
    requires forall k :: j < k < i && ops[k].StoreAt? ==> ops[k].x != ops[j].x
    ensures Program(n, ops[..i])[ops[j].x] == ops[j].b
    decreases i
  {
    assert ops[..i][..i - 1] == ops[..i - 1] && ops[..i][i - 1] == ops[i - 1];
    if i > j + 1 { Remembered(n, ops, j, i - 1); }
  }

  /** A faithful run in which everything went through is the program's on plain memory. */
  lemma {:induction false} ShowsProgram(l: Layout, ops: seq<HeapOp>, trace: seq<HeapEvent>)
    requires LayoutOk(l) && |trace| == |ops| && Faithful(l, trace, {})
    requires forall i :: 0 <= i < |ops| ==>
               Matches(ops[i], trace[i], Capacity(l)) && Completed(ops[i], trace[i], Capacity(l))
    ensures Flat(Capacity(l), trace) == Program(Capacity(l), ops) && Plainly(Capacity(l), ops, trace)
    decreases |ops|
  {
    hide Capacity, HeapPage, LayoutOk, PlainEvent, Plainly, Matches, Completed;
    var n := Capacity(l);
    if ops == [] {
      NothingPlain(n);
    } else {
      var m := |ops| - 1;
      ShowsProgram(l, ops[..m], trace[..m]);
      var mem := Program(n, ops[..m]);
      LastIsPlain(ops[m], trace[m], mem);
      PlainlyNext(n, ops, trace);
    }
  }

  lemma NothingPlain(n: nat)
    ensures Plainly(n, [], [])
  {
  }

  lemma LastIsPlain(op: HeapOp, e: HeapEvent, mem: seq<byte>)
    requires Matches(op, e, |mem|) && Completed(op, e, |mem|) && (e.Loaded? ==> e.x < |mem| && e.value == mem[e.x])
    ensures e == PlainEvent(mem, op) && (e.Stored? <==> op.StoreAt? && op.x < |mem|)
    ensures e.Stored? ==> e.x == op.x && e.b == op.b
  {
  }

  lemma PlainlyNext(n: nat, ops: seq<HeapOp>, trace: seq<HeapEvent>)
    requires |trace| == |ops| > 0 && Plainly(n, ops[..|ops| - 1], trace[..|ops| - 1])
    requires trace[|ops| - 1] == PlainEvent(Program(n, ops[..|ops| - 1]), ops[|ops| - 1])
    ensures Plainly(n, ops, trace)
  {
    hide PlainEvent, Program;
    var m := |ops| - 1;
    forall i | 0 <= i < m ensures trace[i] == PlainEvent(Program(n, ops[..i]), ops[i]) {
      assert ops[..m][..i] == ops[..i] && trace[..m][i] == trace[i] && ops[..m][i] == ops[i];
    }
  }

  /**
   A heap from its creation: if it could be created, the peers serve, the operating
   system refuses nothing and a page fits one reply, then every load and store of the
   program goes through, and every load returns what plain memory would.
   */
  method Session(client: MemoryClient, backend: FaultBackend, supported: bool, offer: nat, c: Config, ops: seq<HeapOp>)
    returns (r: Option<RemoteHeap>, trace: seq<HeapEvent>)
    requires client.Valid() && backend.Valid() && backend.pageSize < WORD
    requires c.pageBytes < WORD && c.capacityBytes < WORD && c.localBudgetBytes < WORD
    modifies client, client.cache, client.net, backend
    ensures r.Some? ==> r.value.Valid() && LayoutOk(r.value.layout) && |trace| <= |ops|
    ensures r.Some? ==> forall i :: 0 <= i < |trace| ==> Matches(ops[i], trace[i], Capacity(r.value.layout))
    ensures r.Some? && Attended(old(client.net.Tally()), client.net.Tally(), client.clashed) && r.value.Small() ==>
              backend.misfills == old(backend.misfills) && backend.denials == old(backend.denials) ==>
              && r.value.alive && |trace| == |ops| && Faithful(r.value.layout, trace, {})
              && (forall i :: 0 <= i < |ops| && Patient(ops[i]) ==>
                    Completed(ops[i], trace[i], Capacity(r.value.layout)))
              && ((forall i :: 0 <= i < |ops| ==> Patient(ops[i])) ==> Plainly(Capacity(r.value.layout), ops, trace))
    ensures c.capacityBytes == 0 || !supported ==> r.None?
    ensures backend.pageSize > 0 && (r.Some? ==> old(Equipped(backend, supported, offer, c, client.cache.maxBytes)))
    ensures old(Equipped(backend, supported, offer, c, client.cache.maxBytes)) ==>
              Undisturbed(old(client.net.Tally()), client.net.Tally()) ==>
              Placeable(old(client.net.peers), Sizing(c, backend.pageSize).value.capacity) ==> r.Some?
    ensures old(Equipped(backend, supported, offer, c, client.cache.maxBytes)) ==>
              var s := Sizing(c, backend.pageSize).value;
              Placeable(old(client.net.peers), s.capacity) && s.pageBytes <= MAX_MESSAGE_SIZE ==>
              client.net.calm && backend.lenient && (forall i :: 0 <= i < |ops| ==> Patient(ops[i])) ==>
              r.Some? && r.value.alive && Plainly(s.capacity, ops, trace)
  {
    hide RemoteHeap.Sane, RemoteHeap.Account, Capacity, LayoutOk, Follows, Supplied, Calm, Patient, Completed, AllTries,
         Faithful, Flat, MemoryClient.Valid, FaultBackend.Valid, DecayedView, Sizing, Matches, Plainly, Program,
         Placeable, Equipped;
    trace := [];
    r := Create(client, backend, supported, offer, c);
    if r.Some? {
      var heap := r.value;
      heap.Bytes();
      ghost var a := heap.Account();
      Entered(heap);
      CalmIsSteady(client);
      trace := Run(heap, ops);
      Entered(heap);
      heap.Bytes();
      CalmFrom(a, heap.Account(), heap.Small());
    }
  }

  lemma Entered(heap: RemoteHeap)
    ensures var a := heap.Account();
            && a.drops == heap.client.net.drops && a.silent == heap.client.net.silent
            && a.shifts == heap.client.net.shifts && a.damaged == heap.damaged
            && a.serene == (heap.client.net.calm && heap.backend.lenient)
            && a.misfills == heap.backend.misfills
            && a.denials == heap.backend.denials && a.clashed == heap.client.clashed && a.discarded == heap.discarded
  {
  }

  lemma CalmFrom(a: Ledger, b: Ledger, small: bool)
    requires Follows(a, b, small)
    ensures a.drops <= b.drops && a.silent <= b.silent && a.misfills <= b.misfills && a.denials <= b.denials
    ensures a.shifts <= b.shifts
    ensures a.clashed ==> b.clashed
    ensures Calm(a, b, small) <==>
            && b.drops == a.drops && b.silent == a.silent && !b.clashed && a.complete && small
            && b.misfills == a.misfills && b.denials == a.denials
    ensures Orderly(a, small) ==> Calm(a, b, small)
  {
  }

  /** The run itself. */
  method Steps(heap: RemoteHeap, ops: seq<HeapOp>) returns (trace: seq<HeapEvent>)
    requires heap.Valid() && heap.alive && heap.mem == Zeros(Capacity(heap.layout)) && LayoutOk(heap.layout)
    modifies heap, heap.backend, heap.client, heap.client.cache, heap.client.net
    ensures heap.Valid() && |trace| <= |ops| && (heap.alive ==> |trace| == |ops|)
    ensures forall i :: 0 <= i < |trace| ==> Matches(ops[i], trace[i], Capacity(heap.layout))
    ensures heap.mem == Flat(Capacity(heap.layout), trace) && Faithful(heap.layout, trace, heap.damaged)
    ensures Follows(old(heap.Account()), heap.Account(), heap.Small())
    ensures heap.unfilled <= old(heap.unfilled) + AllTries(ops) && (ops == [] ==> heap.Account() == old(heap.Account()))
    ensures heap.backend.platform.Windows? && !heap.client.clashed ==> Faithful(heap.layout, trace, {})
    ensures Calm(old(heap.Account()), heap.Account(), heap.Small()) && old(heap.damaged) == {} ==>
              heap.alive &&
              forall i :: 0 <= i < |ops| && Patient(ops[i]) ==> Completed(ops[i], trace[i], Capacity(heap.layout))
  {
    hide RemoteHeap.Sane, RemoteHeap.Account, Capacity, HeapPage, LayoutOk, Follows, Supplied, Calm, Patient, Completed,
         Flat, Faithful, AllTries;
    trace := [];
    var l := heap.layout;
    ghost var a := heap.Account();
    FollowsSelf(a, heap.Small());
    TraceStart(l);
    assert ops[..0] == [];
    for k := 0 to |ops|
      invariant heap.Valid() && heap.alive && |trace| == k && Follows(a, heap.Account(), heap.Small())
      invariant heap.unfilled <= old(heap.unfilled) + AllTries(ops[..k]) && (k == 0 ==> heap.Account() == a)
      invariant forall i :: 0 <= i < |trace| ==> Matches(ops[i], trace[i], Capacity(l))
      invariant heap.mem == Flat(Capacity(l), trace) && Faithful(l, trace, heap.damaged)
      invariant heap.backend.platform.Windows? && !heap.client.clashed ==> Faithful(l, trace, {})
      invariant Calm(a, heap.Account(), heap.Small()) && a.damaged == {} ==>
                  forall i :: 0 <= i < k && Patient(ops[i]) ==> Completed(ops[i], trace[i], Capacity(l))
    {
      ghost var b, mem := heap.Account(), heap.mem;
      Concluded(heap, a);
      var e := Step(heap, ops[k]);
      FollowsTrans(a, b, heap.Account(), heap.Small());
      StillUnharmed(a, b, heap.Small());
      StillUnharmed(b, heap.Account(), heap.Small());
      Concluded(heap, b);
      TraceNext(l, trace, e, b.damaged, heap.damaged, mem);
      MoreTries(ops, k + 1);
      trace := trace + [e];
      if !heap.alive { return; }
    }
    assert ops[..|ops|] == ops;
  }

  lemma TraceStart(l: Layout)
    requires LayoutOk(l)
    ensures Flat(Capacity(l), []) == Zeros(Capacity(l)) && forall damaged :: Faithful(l, [], damaged)
    ensures AllTries([]) == 0
  {
  }

  lemma TraceNext(l: Layout, trace: seq<HeapEvent>, e: HeapEvent, before: set<nat>, damaged: set<nat>, mem: seq<byte>)
    requires LayoutOk(l) && Faithful(l, trace, before) && before <= damaged && mem == Flat(Capacity(l), trace)
    requires (e.Loaded? || e.Stored?) ==> e.x < Capacity(l)
    requires e.Loaded? && HeapPage(l, e.x) !in damaged ==> e.value == mem[e.x]
    ensures Faithful(l, trace + [e], damaged)
    ensures Flat(Capacity(l), trace + [e]) == if e.Stored? then mem[e.x := e.b] else mem
    ensures Faithful(l, trace, {}) && (damaged == {} || !e.Loaded?) ==> Faithful(l, trace + [e], {})
  {
    hide Capacity, HeapPage, LayoutOk;
    FaithfulMore(l, trace, before, damaged);
    assert (trace + [e])[..|trace|] == trace;
  }

  lemma {:induction false} MoreTries(ops: seq<HeapOp>, k: nat)
    requires 0 < k <= |ops|
    ensures AllTries(ops[..k]) <= AllTries(ops)
    ensures AllTries(ops[..k]) == AllTries(ops[..k - 1]) + Tries(ops[k - 1])
    decreases |ops|
  {
    assert ops[..k][..k - 1] == ops[..k - 1];
    if k < |ops| {
      assert ops[..|ops| - 1][..k] == ops[..k];
      assert ops[..|ops| - 1][..k - 1] == ops[..k - 1];
      MoreTries(ops[..|ops| - 1], k);
    } else {
      assert ops[..k] == ops;
    }
  }

  lemma StillUnharmed(a: Ledger, b: Ledger, small: bool)
    requires Follows(a, b, small)
    ensures (Calm(a, b, small) ==> b.damaged == a.damaged) && a.damaged <= b.damaged && (a.clashed ==> b.clashed)
  {
  }

  /** What the ledgers of a run mean for its pages. */
  lemma Concluded(heap: RemoteHeap, a: Ledger)
    requires heap.Valid() && Follows(a, heap.Account(), heap.Small())
    ensures !heap.client.clashed ==> |heap.damaged| <= heap.unfilled + heap.discarded
    ensures heap.unfilled == 0 && heap.discarded == 0 && !heap.client.clashed ==> heap.damaged == {}
    ensures !heap.backend.platform.MacOS? ==> heap.discarded == 0
    ensures heap.client.net.Tally().Steady() ==> !heap.client.clashed
    ensures heap.alive && heap.backend.platform.Windows? ==>
              heap.unfilled == 0 && (!heap.client.clashed ==> heap.damaged == {})
    ensures Harms(heap.Account()) == Harms(a) ==> heap.damaged == a.damaged
    ensures heap.Account().misfills == heap.backend.misfills && heap.Account().discarded == heap.discarded
    ensures heap.Account().clashed == heap.client.clashed
    ensures Supplied(a, heap.Account()) && heap.Small() && heap.backend.misfills == a.misfills ==>
              heap.discarded == a.discarded ==> heap.damaged == a.damaged
    ensures Calm(a, heap.Account(), heap.Small()) ==> heap.damaged == a.damaged
  {
    hide RemoteHeap.Sane, RemoteHeap.Account, RemoteHeap.Valid, Follows, Supplied, Calm;
    Sanity(heap);
    Entered(heap);
    FewerHarms(a, heap.Account(), heap.Small());
  }

  lemma Sanity(heap: RemoteHeap)
    requires heap.Valid()
    ensures !heap.client.clashed ==> |heap.damaged| <= heap.unfilled + heap.discarded
    ensures heap.unfilled == 0 && heap.discarded == 0 && !heap.client.clashed ==> heap.damaged == {}
    ensures !heap.backend.platform.MacOS? ==> heap.discarded == 0
    ensures heap.client.net.Tally().Steady() ==> !heap.client.clashed
    ensures heap.alive && heap.backend.platform.Windows? ==> heap.unfilled == 0
  {
    hide CellsOf, FaultBackend.Valid, Good, Booked, Capacity, AllPages, LruCache.Valid, Listed, Coherent,
         MemoryClient.View;
  }

  lemma FewerHarms(a: Ledger, b: Ledger, small: bool)
    requires Follows(a, b, small)
    ensures Harms(b) == Harms(a) ==> b.damaged == a.damaged
    ensures Supplied(a, b) && small && b.misfills == a.misfills && b.discarded == a.discarded ==> b.damaged == a.damaged
    ensures Calm(a, b, small) ==> b.damaged == a.damaged
  {
  }

  /** One operation of the program, or of its surroundings. */
  method Step(heap: RemoteHeap, op: HeapOp) returns (e: HeapEvent)
    requires heap.Valid() && heap.alive && LayoutOk(heap.layout)
    modifies heap, heap.backend, heap.client, heap.client.cache, heap.client.net
    ensures heap.Valid() && |old(heap.mem)| == Capacity(heap.layout)
    ensures Follows(old(heap.Account()), heap.Account(), heap.Small())
    ensures heap.unfilled <= old(heap.unfilled) + Tries(op) && Matches(op, e, Capacity(heap.layout))
    ensures e.Stored? ==> e.x < Capacity(heap.layout) && heap.mem == old(heap.mem)[e.x := e.b]
    ensures !e.Stored? ==> heap.mem == old(heap.mem)
    ensures e.Loaded? ==> heap.alive && e.x < Capacity(heap.layout)
    ensures e.Loaded? && HeapPage(heap.layout, e.x) !in heap.damaged ==> e.value == heap.mem[e.x]
    ensures Calm(old(heap.Account()), heap.Account(), heap.Small()) && old(heap.damaged) == {} ==>
              heap.alive && (Patient(op) ==> Completed(op, e, Capacity(heap.layout)))
  {
    hide RemoteHeap.Account, RemoteHeap.Sane, Capacity, HeapPage, LayoutOk, AllBacked, NoneRefused, Follows, Calm,
         Supplied, Refusals;
    e := Nothing;
    heap.Bytes();
    FollowsSelf(heap.Account(), heap.Small());
    match op {
      case LoadAt(x, attempts) =>
        if x < Capacity(heap.layout) {
          var r, log := heap.Load(x, attempts);
          if r.Some? { e := Loaded(x, r.value); }
        }
      case StoreAt(x, b, attempts) =>
        if x < Capacity(heap.layout) {
          var ok, log := heap.Store(x, b, attempts);
          if ok { e := Stored(x, b); }
        }
      case FlushAll => var ok := heap.Flush();
      case EvictAll => heap.FlushAndEvictAll();
      case Elsewise(use) => Around(heap, use);
    }
  }

  /** Something else the client is used for. */
  method Around(heap: RemoteHeap, use: Use)
    requires heap.Valid()
    modifies heap`damaged, heap.client, heap.client.cache, heap.client.net
    ensures heap.Valid() && Follows(old(heap.Account()), heap.Account(), heap.Small())
  {
    hide CellsOf, MemoryClient.Valid, MemoryClient.View, FaultBackend.Valid, Good, Booked, Decayed, Accounted, AllPages,
         Capacity, LayoutOk, NothingLost, Follows;
    ghost var s, a := heap.Snap(), heap.Account();
    HeldLength(heap.client, heap.handle, Capacity(heap.layout));
    ClashAccounted(heap.layout, heap.damaged, heap.unfilled, heap.discarded);
    Elsewhere(heap.client, heap.handle, use);
    HeldLength(heap.client, heap.handle, Capacity(heap.layout));
    if heap.client.clashed {
      ClashDamages(heap.layout, s, heap.Snap(), heap.damaged);
      heap.damaged := heap.damaged + AllPages(heap.layout);
    } else {
      DecayKeepsGood(heap.layout, s, heap.Backing(), heap.damaged);
    }
    CalmIsSteady(heap.client);
    ClientFollows(a, heap.Account(), AllPages(heap.layout), heap.Small());
  }
}
