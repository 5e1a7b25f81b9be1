/** Demand paging over a remote block. */
module RemoteHeaps {
  import opened Bytes
  import opened Client
  import opened ClientModel
  import opened FaultBackends
  import opened Framing
  import opened HeapModel
  import opened InPlace
  import opened PageStates
  import opened Paging
  import opened RemoteIo
  import opened Stripes
  import opened Transports
  import opened Wrappers
  import Slab

  // ---- Which page goes ----

  /** One attempt at the oldest page: gone, or moved to the back because it could not be written back. */
  function Turned(order: seq<nat>, evicted: bool): (r: seq<nat>) {
    if order == [] then [] else if evicted then order[1..] else order[1..] + [order[0]]
  }

  function Rotated(order: seq<nat>, log: seq<bool>): (r: seq<nat>) {
    if log == [] then order else Turned(Rotated(order, log[..|log| - 1]), log[|log| - 1])
  }

  lemma TurnedLength(order: seq<nat>, evicted: bool)
    requires order != []
    ensures |Turned(order, evicted)| == |order| - if evicted then 1 else 0
  {
  }

  predicate NoneEvicted(log: seq<bool>) { forall k :: 0 <= k < |log| ==> !log[k] }

  /** How many attempts failed. */
  function Refusals(log: seq<bool>): (n: nat)
    ensures n == 0 <==> NoneRefused(log)
  {
    if log == [] then 0 else Refusals(log[..|log| - 1]) + if log[|log| - 1] then 0 else 1
  }

  lemma LogStart(order: seq<nat>)
    ensures Rotated(order, []) == order && NoneEvicted([]) && StopsAtFirst([]) && NoneRefused([]) && Refusals([]) == 0
  {
  }

  lemma LogNext(order: seq<nat>, log: seq<bool>, evicted: bool)
    ensures Rotated(order, log + [evicted]) == Turned(Rotated(order, log), evicted)
    ensures NoneEvicted(log) && !evicted ==> NoneEvicted(log + [evicted])
    ensures NoneEvicted(log) ==> StopsAtFirst(log + [evicted])
    ensures NoneRefused(log + [evicted]) <==> NoneRefused(log) && evicted
    ensures Refusals(log + [evicted]) == Refusals(log) + if evicted then 0 else 1
  {
    assert (log + [evicted])[..|log|] == log && (log + [evicted])[|log|] == evicted;
  }

  /** At most one page was evicted, and that ended the loop. */
  predicate StopsAtFirst(log: seq<bool>) { forall k :: 0 <= k < |log| - 1 ==> !log[k] }

  /** The list starting at its `k`-th entry. */
  function Spin(order: seq<nat>, k: nat): (r: seq<nat>)
    requires k <= |order|
  {
    order[k..] + order[..k]
  }

  lemma {:induction false} FailuresRotate(order: seq<nat>, log: seq<bool>)
    requires order != [] && NoneEvicted(log)
    ensures Rotated(order, log) == Spin(order, InPage(|log|, |order|))
  {
    hide InPage, Turned, Spin;
    ModStep(|log|, |order|);
    if log == [] {
      SpinNothing(order);
    } else {
      FailuresRotate(order, log[..|log| - 1]);
      TurnOnce(order, InPage(|log| - 1, |order|));
    }
  }

  lemma SpinNothing(order: seq<nat>)
    ensures Spin(order, 0) == order == Spin(order, |order|)
  {
  }

  lemma TurnOnce(order: seq<nat>, k: nat)
    requires k < |order|
    ensures Turned(Spin(order, k), false) == if k + 1 == |order| then Spin(order, 0) else Spin(order, k + 1)
  {
    var s := Spin(order, k);
    assert s[0] == order[k] && s[1..] == order[k + 1..] + order[..k];
    assert order[..k] + [order[k]] == order[..k + 1];
  }

  lemma ModStep(n: nat, m: nat)
    requires m > 0
    ensures n == 0 ==> InPage(n, m) == 0
    ensures n > 0 ==> InPage(n, m) == if InPage(n - 1, m) + 1 == m then 0 else InPage(n - 1, m) + 1
  {
    hide InPage, PageNo, Start;
    Located(0, 0, m);
    StartsAdd(0, 0, m);
    if n > 0 {
      var q, k := PageNo(n - 1, m), InPage(n - 1, m);
      Position(n - 1, m);
      StartsAdd(q, 1, m);
      StartOne(m);
      if k + 1 == m { Located(q + 1, 0, m); } else { Located(q, k + 1, m); }
    }
  }

  /** When the failures before an eviction leave the page just fetched alone. */
  predicate Spared(log: seq<bool>, others: nat) {
    log == [] || !log[|log| - 1] || InPage(|log| - 1, others + 1) != others
  }

  /**
   The page just faulted in is the last of the list. It survives exactly if the
   failures before the one eviction do not bring it to the front.
   */
  lemma NewestSurvives(order: seq<nat>, newest: nat, log: seq<bool>)
    requires Slab.Distinct(order + [newest]) && StopsAtFirst(log)
    ensures newest in Rotated(order + [newest], log) <==> Spared(log, |order|)
  {
    hide Slab.Distinct, NoneEvicted, InPage, Rotated;
    var all, n := order + [newest], |log|;
    if n > 0 && log[n - 1] {
      EvictionCuts(all, log);
      CutKeepsLast(all, InPage(n - 1, |all|));
    } else {
      NothingEvicted(log);
      FailuresRotate(all, log);
      TurnKeepsLast(all, InPage(n, |all|));
    }
  }

  lemma NothingEvicted(log: seq<bool>)
    requires StopsAtFirst(log) && (log != [] ==> !log[|log| - 1])
    ensures NoneEvicted(log)
  {
  }

  /** Failures and then one eviction take out the page they have brought to the front. */
  lemma EvictionCuts(order: seq<nat>, log: seq<bool>)
    requires order != [] && StopsAtFirst(log) && log != [] && log[|log| - 1]
    ensures var k := InPage(|log| - 1, |order|); Rotated(order, log) == order[k + 1..] + order[..k]
  {
    hide InPage;
    FailuresRotate(order, log[..|log| - 1]);
  }

  lemma CutKeepsLast(s: seq<nat>, k: nat)
    requires k < |s| && Slab.Distinct(s)
    ensures s[|s| - 1] in s[k + 1..] + s[..k] <==> k != |s| - 1
  {
    if k != |s| - 1 { assert s[k + 1..][|s| - k - 2] == s[|s| - 1]; }
  }

  lemma TurnKeepsLast(s: seq<nat>, k: nat)
    requires k < |s|
    ensures s[|s| - 1] in Spin(s, k)
  {
    assert s[k..][|s| - 1 - k] == s[|s| - 1];
  }

  /** Two pages, the older cannot be written back: the page just faulted in is the one evicted. */
  lemma NewestCanBeEvicted(older: nat, newest: nat)
    requires older != newest
    ensures Rotated([older] + [newest], [false, true]) == [older] && StopsAtFirst([false, true])
  {
    var log := [false, true];
    assert log[..1] == [false] && log[..1][..0] == [];
    assert Rotated([older] + [newest], [false]) == [newest] + [older];
  }

  predicate NoneRefused(log: seq<bool>) { forall k :: 0 <= k < |log| ==> log[k] }

  /** The list after a fetch: the page is added at the back, and if it does not fit, the oldest is gone. */
  predicate FirstOut(before: seq<nat>, i: nat, after: seq<nat>, fits: bool) {
    if fits then after == before + [i] else before != [] && after == before[1..] + [i]
  }

  lemma OutOrIn(before: seq<nat>, i: nat, after: seq<nat>, fits: bool)
    requires FirstOut(before, i, after, fits)
    ensures i in after
  {
  }

  /** If write-backs succeed, at most one page goes, it is the oldest, and the newest stays. */
  lemma OldestGoes(order: seq<nat>, newest: nat, log: seq<bool>)
    requires StopsAtFirst(log) && NoneRefused(log) && (log != [] ==> order != [])
    ensures FirstOut(order, newest, Rotated(order + [newest], log), log == [])
    ensures Spared(log, |order|)
  {
    if log != [] {
      assert log[0];
      assert log == [true] && log[..0] == [];
      Located(0, 0, |order| + 1);
    }
  }

  // ---- The heap ----

  /** The list holds each resident page once, and the byte count is exact. */
  ghost predicate Booked(l: Layout, order: seq<nat>, resident: set<nat>, residentBytes: nat) {
    && Slab.Distinct(order) && (forall i :: i in order <==> i in resident) && (forall i :: i in order ==> i < l.pages)
    && residentBytes == Start(|order|, l.pageBytes)
  }

  datatype Outcome = Done | Retry | Dead

  /**
   What a stretch of the heap's life depends on: sessions ended, calls unanswered, a
   clash, whether the peers hold the whole block, what the operating system refused;
   what has gone wrong so far; and whether anything of the kind can happen at all.
   */
  datatype Ledger = Ledger(drops: nat, silent: nat, shifts: nat, clashed: bool, complete: bool, misfills: nat,
                           denials: nat, unfilled: nat, discarded: nat, damaged: set<nat>, serene: bool)

  /** The peers did their part in between. */
  predicate Supplied(a: Ledger, b: Ledger) {
    b.drops == a.drops && b.silent == a.silent && !b.clashed && a.complete
  }

  /** The operating system did too, and pages fit one reply. */
  predicate Calm(a: Ledger, b: Ledger, small: bool) {
    Supplied(a, b) && small && b.misfills == a.misfills && b.denials == a.denials
  }

  /**
   Nothing goes wrong by itself. Pages are damaged only by faults left unfilled, by
   contents discarded, or by a clash. A page is discarded only if an eviction was
   refused. Every refused fill leaves a fault unfilled, and while the peers do their
   part nothing else does. In a serene world a heap that is in order stays calm.
   */
  ghost predicate Follows(a: Ledger, b: Ledger, small: bool) {
    && a.drops <= b.drops && a.silent <= b.silent && a.shifts <= b.shifts && (a.clashed ==> b.clashed)
    && a.misfills <= b.misfills && a.denials <= b.denials && a.unfilled <= b.unfilled && a.discarded <= b.discarded
    && a.damaged <= b.damaged && (Harms(b) == Harms(a) ==> b.damaged == a.damaged)
    && b.discarded - a.discarded <= b.denials - a.denials && b.misfills - a.misfills <= b.unfilled - a.unfilled
    && (Supplied(a, b) ==> b.complete && (small ==> b.unfilled - a.unfilled <= b.misfills - a.misfills))
    && b.serene == a.serene && (Orderly(a, small) ==> Calm(a, b, small))
  }

  /** Nothing can go wrong, and nothing has. */
  predicate Orderly(a: Ledger, small: bool) {
    a.serene && small && a.complete && !a.clashed && a.damaged == {}
  }

  /** Everything that can damage a page. */
  function Harms(a: Ledger): (h: (nat, nat, bool)) { (a.unfilled, a.discarded, a.clashed) }

  lemma FollowsTrans(a: Ledger, b: Ledger, c: Ledger, small: bool)
    requires Follows(a, b, small) && Follows(b, c, small)
    ensures Follows(a, c, small)
    ensures Supplied(a, c) ==> Supplied(a, b) && Supplied(b, c)
    ensures Calm(a, c, small) ==> Calm(a, b, small) && Calm(b, c, small)
    ensures Orderly(a, small) ==> Orderly(b, small) && Orderly(c, small) && Calm(a, c, small)
    ensures a.misfills <= b.misfills <= c.misfills && a.denials <= b.denials <= c.denials
  {
  }

  lemma FollowsSelf(a: Ledger, small: bool)
    ensures Follows(a, a, small)
  {
  }

  /** When all goes well, a page that was in order still is. */
  lemma Undamaged(a: Ledger, b: Ledger, small: bool, i: nat)
    requires Follows(a, b, small)
    ensures a.damaged <= b.damaged && a.denials <= b.denials && a.unfilled <= b.unfilled
    ensures Calm(a, b, small) && i !in a.damaged ==> i !in b.damaged
  {
  }

  lemma TrapFollows(a: Ledger, b: Ledger, small: bool)
    requires b == a.(denials := b.denials) && a.denials <= b.denials && (a.serene ==> b.denials == a.denials)
    ensures Follows(a, b, small)
  {
  }

  /** A use of the client, which can damage the pages only by a clash. */
  lemma ClientFollows(a: Ledger, b: Ledger, pages: set<nat>, small: bool)
    requires a.drops <= b.drops && a.silent <= b.silent && a.shifts <= b.shifts && (a.clashed ==> b.clashed)
    requires Supplied(a, b) ==> b.complete
    requires b.misfills == a.misfills && b.denials == a.denials && Harms(b) == (a.unfilled, a.discarded, b.clashed)
    requires b.damaged == if b.clashed then a.damaged + pages else a.damaged
    requires a.clashed ==> pages <= a.damaged
    requires b.serene == a.serene && (a.serene ==> b.drops == a.drops && b.silent == a.silent && !b.clashed)
    ensures Follows(a, b, small)
  {
    if a.clashed { assert a.damaged + pages == a.damaged; }
  }

  lemma UnfetchedFollows(a: Ledger, b: Ledger, c: Ledger, small: bool)
    requires Follows(a, b, small) && !(Supplied(a, b) && small)
    requires b.damaged <= c.damaged && c == b.(unfilled := b.unfilled + 1, damaged := c.damaged)
    ensures Follows(a, c, small) && !(Supplied(a, c) && small)
  {
  }

  /** No page became dirty in between. */
  predicate NoNewDirt(a: map<nat, PageState>, b: map<nat, PageState>) {
    forall p :: p in b && b[p].Dirty? ==> p in a && a[p].Dirty?
  }

  lemma NoDirtYet(a: map<nat, PageState>)
    ensures NoNewDirt(a, a)
  {
  }

  lemma DirtTrans(a: map<nat, PageState>, b: map<nat, PageState>, c: map<nat, PageState>)
    requires NoNewDirt(a, b) && NoNewDirt(b, c)
    ensures NoNewDirt(a, c)
  {
  }

  class RemoteHeap {
    const client: MemoryClient
    const backend: FaultBackend
    const layout: Layout
    const budget: nat
    const handle: nat
    /** Resident heap pages, oldest first. */
    var order: seq<nat>
    var resident: set<nat>
    var residentBytes: nat
    var fetches: nat
    var flushes: nat
    var evictions: nat
    /** False once the process has been killed by a fault, or hangs. */
    var alive: bool
    /** What the program has stored, byte by byte. */
    ghost var mem: seq<byte>
    /** Heap pages whose contents have been given up. */
    ghost var damaged: set<nat>
    /** Faults the heap left unresolved, and evictions macOS refused when the contents may have been gone already. */
    ghost var unfilled: nat
    ghost var discarded: nat

    /** The backing block as it reads now. */
    ghost function Backing(): (c: seq<Cell>)
      reads client, client.cache, client.net
    {
      CellsOf(client, handle)
    }

    ghost function Account(): (a: Ledger)
      reads `damaged, `unfilled, `discarded, backend, client, client.cache, client.net
      ensures a.damaged == damaged && a.unfilled == unfilled
    {
      Ledger(client.net.drops, client.net.silent, client.net.shifts, client.clashed, NothingLost(Backing()),
             backend.misfills, backend.denials, unfilled, discarded, damaged, client.net.calm && backend.lenient)
    }

    /** Whether a page fits one reply. */
    predicate Small() { layout.pageBytes <= MAX_MESSAGE_SIZE }

    ghost function Snap(): (s: Snapshot)
      reads `resident, `mem, backend, client, client.cache, client.net
    {
      Snapshot(backend.state, backend.os, backend.lost, Backing(), mem, resident)
    }

    ghost predicate Sane()
      reads `order, `resident, `residentBytes, `mem, `damaged, `unfilled, `discarded
      reads backend, client, client.cache, client.net
    {
      && Holding(client, handle, Capacity(layout)) && Capacity(layout) > client.cache.maxBytes
      && backend.Valid() && backend.pageSize == layout.osPage
      && Booked(layout, order, resident, residentBytes) && layout.pageBytes <= budget && Good(layout, Snap(), damaged)
      && Accounted(layout, damaged, unfilled, discarded, client.clashed)
      && (!backend.platform.MacOS? ==> discarded == 0)
    }

    /** While the program runs, the resident pages fit the budget, and on Windows no fault was left unresolved. */
    ghost predicate Valid()
      reads this, backend, client, client.cache, client.net
    {
      Sane() && (alive ==> residentBytes <= budget && (backend.platform.Windows? ==> unfilled == 0))
    }

    constructor (client: MemoryClient, backend: FaultBackend, layout: Layout, budget: nat, handle: nat)
      requires backend.Valid() && backend.pageSize == layout.osPage && LayoutOk(layout) && layout.pageBytes <= budget
      requires Holding(client, handle, Capacity(layout)) && Capacity(layout) > client.cache.maxBytes
      requires !client.clashed ==> Decayed(AllKnown(Zeros(Capacity(layout))), CellsOf(client, handle))
      requires forall x: nat :: x < Capacity(layout) ==>
                 OsOf(layout, x) in backend.state && backend.state[OsOf(layout, x)].Absent? &&
                 OsOf(layout, x) !in backend.lost
      ensures Valid() && alive && mem == Zeros(Capacity(layout)) && order == [] && unfilled == 0 && discarded == 0
      ensures !client.clashed ==> damaged == {}
      ensures this.client == client && this.backend == backend && this.layout == layout && this.budget == budget
      ensures this.handle == handle
    {
      hide CellsOf, Holding, FaultBackend.Valid, Good, Zeros, AllKnown, Decayed, Accounted, AllPages, Capacity, Start,
           OsOf, PageNo, InPage, LayoutOk, NothingLost;
      this.client, this.backend, this.layout, this.budget, this.handle := client, backend, layout, budget, handle;
      order, resident, residentBytes, fetches, flushes, evictions, alive := [], {}, 0, 0, 0, 0, true;
      mem, damaged, unfilled, discarded :=
            Zeros(Capacity(layout)), if client.clashed then AllPages(layout) else {}, 0, 0;
      new;
      backend.Shape();
      HeldLength(client, handle, Capacity(layout));
      FreshGood(layout, Snap(), client.clashed);
    }

    lemma Bytes()
      requires Sane()
      ensures residentBytes == Start(|order|, layout.pageBytes) && (|order| <= 1 ==> residentBytes <= budget)
      ensures order != [] ==> Start(|order| - 1, layout.pageBytes) == residentBytes - layout.pageBytes
      ensures |mem| == Capacity(layout) && LayoutOk(layout)
    {
      hide CellsOf, Holding, FaultBackend.Valid, Accounted, Start, Capacity;
      BookedBytes(layout, order, resident, residentBytes);
    }

    /** Something of a heap page is marked dirty. */
    ghost predicate Dirtied(i: nat)
      requires LayoutOk(layout)
      reads backend
    {
      exists p :: p in PagesOfHeap(layout, i) && p in backend.state && backend.state[p].Dirty?
    }

    /**
     Writes a page back if it is dirty, and only then. If that throws, the page stays
     dirty; else it is clean, where the system can tell.
     */
    method FlushPage(i: nat) returns (ok: bool)
      requires Sane() && i in resident
      modifies this`flushes, this`damaged, backend, client, client.cache, client.net
      ensures Sane() && (ok && i !in damaged ==> PageBacked(layout, Snap(), i))
      ensures old(damaged) <= damaged && Follows(old(Account()), Account(), Small())
      ensures Supplied(old(Account()), Account()) ==> ok
      ensures Account().misfills == old(Account()).misfills && Account().denials == old(Account()).denials
      ensures !client.clashed ==> damaged == old(damaged)
      ensures LayoutOk(layout) && flushes == old(flushes) + (if ok && old(Dirtied(i)) then 1 else 0)
      ensures !old(Dirtied(i)) ==>
                ok && unchanged(backend) && unchanged(client) && unchanged(client.cache) && unchanged(client.net)
      ensures ok && backend.lenient && !backend.platform.Linux? && i !in damaged ==> !Dirtied(i)
      ensures NoNewDirt(old(backend.state), backend.state)
      ensures forall j :: j in resident && j !in damaged && PageBacked(layout, old(Snap()), j) ==>
                PageBacked(layout, Snap(), j)
    {
      hide CellsOf, Holding, FaultBackend.Valid, Good, PageBacked, AllPages, Accounted, Changed, Protected, Capacity,
           Start, PageNo, PagesTouched, InPage, InMemory, Mapped, Backed, Vacant, Booked, Follows, Supplied,
           NothingLost;
      GoodMapped(layout, Snap(), damaged);
      var offset := Start(i, layout.pageBytes);
      var addr := layout.base + offset;
      ghost var s := Snap();
      FollowsSelf(Account(), Small());
      var dirty := backend.IsDirty(addr, layout.pageBytes);
      if !dirty {
        if i !in damaged { CleanIsBacked(layout, s, damaged, i); }
        return true;
      }
      BookedIndex(layout, order, resident, residentBytes, i);
      ok := WriteBack(i);
      if !ok { return; }
      MarkClean(i);
      flushes := flushes + 1;
    }

    /** Arms write detection again for a page that has been written back. */
    method MarkClean(i: nat)
      requires Sane() && i in resident && i < layout.pages && (i !in damaged ==> PageBacked(layout, Snap(), i))
      modifies backend
      ensures Sane() && Account() == old(Account()) && LayoutOk(layout)
      ensures forall j :: PageBacked(layout, old(Snap()), j) ==> PageBacked(layout, Snap(), j)
      ensures backend.lenient && !backend.platform.Linux? && i !in damaged ==> !Dirtied(i)
      ensures NoNewDirt(old(backend.state), backend.state)
    {
      hide CellsOf, Holding, FaultBackend.Valid, Good, AllPages, Accounted, Changed, Protected, Capacity, Start, PageNo,
           PagesTouched, InPage, Backed, Vacant, Booked, NothingLost, Present, Span;
      ghost var s := Snap();
      GoodMapped(layout, s, damaged);
      PagesAreMapped(layout, s.os, i);
      if i !in damaged { AllThere(i); }
      ghost var cleared := backend.ClearDirty(layout.base + Start(i, layout.pageBytes), layout.pageBytes);
      if cleared { ClearKeepsGood(layout, s, damaged, i, backend.lost); }
      GoodMapped(layout, Snap(), damaged);
    }

    /** Sends the memory of one page to the backing block. */
    method WriteBack(i: nat) returns (ok: bool)
      requires Sane() && i in resident && i < layout.pages
      modifies `damaged, client, client.cache, client.net
      ensures Sane() && (ok && i !in damaged ==> PageBacked(layout, Snap(), i))
      ensures old(damaged) <= damaged && Follows(old(Account()), Account(), Small())
      ensures Supplied(old(Account()), Account()) ==> ok
      ensures !client.clashed ==> damaged == old(damaged)
      ensures forall j :: j in resident && j !in damaged && PageBacked(layout, old(Snap()), j) ==>
                PageBacked(layout, Snap(), j)
    {
      hide CellsOf, Holding, FaultBackend.Valid, Good, PageBacked, Torn, Overlay, AllPages,
           Accounted, Decayed, Capacity, Start, InMemory, Mapped, Backed, Booked, HeapPage, NothingLost, Follows,
           Orderly, Calm, Shaped, LayoutOk, MemoryClient.Valid, MemoryClient.View;
      GoodMapped(layout, Snap(), damaged);
      InCapacity(layout, i, 0);
      ClashAccounted(layout, damaged, unfilled, discarded);
      ghost var s, a := Snap(), Account();
      HeldLength(client, handle, Capacity(layout));
      ok := Send(client, handle, Start(i, layout.pageBytes), InMemory(layout, backend.os, i));
      HeldLength(client, handle, Capacity(layout));
      if client.clashed {
        ClashDamages(layout, s, Snap(), damaged);
        ResidentInAll(layout, order, resident, residentBytes);
        damaged := damaged + AllPages(layout);
      } else if ok {
        FlushKeepsGood(layout, s, Backing(), damaged, i);
      } else {
        TornFlushKeepsGood(layout, s, Backing(), damaged, i);
      }
      CalmIsSteady(client);
      ClientFollows(a, Account(), AllPages(layout), Small());
    }

    /**
     Evicts the oldest page. A page that cannot be written back, or that the
     operating system will not take, moves to the back of the list instead.
     */
    method EvictOldest() returns (evicted: bool)
      requires Sane() && order != []
      modifies this, backend, client, client.cache, client.net
      ensures Sane() && alive == old(alive) && mem == old(mem) && order == Turned(old(order), evicted)
      ensures old(damaged) <= damaged && Follows(old(Account()), Account(), Small()) && unfilled == old(unfilled)
      ensures Account().misfills == old(Account()).misfills
      ensures Account().denials <= old(Account()).denials + (if evicted then 0 else 1)
      ensures Supplied(old(Account()), Account()) && Account().denials == old(Account()).denials ==> evicted
      ensures evictions == old(evictions) + (if evicted then 1 else 0) && fetches == old(fetches)
      ensures NoNewDirt(old(backend.state), backend.state)
      ensures !client.clashed ==> damaged <= old(damaged) + {old(order)[0]}
    {
      hide CellsOf, Holding, AllPages, Accounted, FaultBackend.Valid, Good, PageBacked, Shaped, SameElsewhere, Changed,
           Protected, Capacity, Start, PageNo, PagesTouched, InPage, Mapped, Backed, Reclaimed, Booked, LayoutOk,
           NothingLost, Supplied, Follows, RemoteHeap.Account, RemoteHeap.Snap, RemoteHeap.Backing, RemoteHeap.Dirtied,
           PagesOfHeap, RemoteHeap.Valid, NoNewDirt, Orderly, Calm, Harms;
      var i := order[0];
      TurnedBooked(layout, order, resident, residentBytes);
      ghost var a := Account();
      var flushed := FlushPage(i);
      ghost var b, state := Account(), backend.state;
      evicted := false;
      FollowsSelf(b, Small());
      if flushed {
        evicted := GiveBack(i);
        DirtTrans(old(backend.state), state, backend.state);
      }
      FollowsTrans(a, b, Account(), Small());
      if evicted {
        order := order[1..];
        residentBytes := residentBytes - layout.pageBytes;
        evictions := evictions + 1;
      } else {
        order := order[1..] + [i];
      }
    }

    /** Returns a written-back page to the operating system. */
    method GiveBack(i: nat) returns (evicted: bool)
      requires Sane() && i < layout.pages && (i !in damaged ==> PageBacked(layout, Snap(), i))
      modifies `damaged, `discarded, `resident, backend
      ensures backend.Valid() && Good(layout, Snap(), damaged)
      ensures Accounted(layout, damaged, unfilled, discarded, client.clashed)
      ensures Follows(old(Account()), Account(), Small())
      ensures Account().denials == old(Account()).denials + (if evicted then 0 else 1)
      ensures backend.lenient ==> evicted
      ensures NoNewDirt(old(backend.state), backend.state)
      ensures Account().misfills == old(Account()).misfills
      ensures discarded == if evicted || !backend.platform.MacOS? then old(discarded) else old(discarded) + 1
      ensures resident == if evicted then old(resident) - {i} else old(resident)
      ensures damaged == if evicted || !backend.platform.MacOS? then old(damaged) else old(damaged) + {i}
    {
      hide CellsOf, Holding, NothingLost, FaultBackend.Valid, Good, PageBacked, Shaped, SameElsewhere, Changed,
           Protected, Capacity, Start, PageNo, PagesTouched, InPage, Mapped, Backed, Reclaimed, Booked, Accounted;
      ghost var s := Snap();
      GoodMapped(layout, s, damaged);
      ghost var span := PagesOfHeap(layout, i);
      PagesAreMapped(layout, s.os, i);
      evicted := backend.EvictPages(layout.base + Start(i, layout.pageBytes), layout.pageBytes);
      backend.Shape();
      if evicted {
        EvictKeepsGood(layout, s, damaged, i, backend.os);
        resident := resident - {i};
      } else if backend.platform.MacOS? {
        ReclaimedOutside(s.os, backend.os, span);
        ReclaimDamages(layout, s, damaged, i, backend.os);
        OneMoreDamaged(layout, damaged, unfilled, discarded, client.clashed, i);
        damaged, discarded := damaged + {i}, discarded + 1;
      }
    }

    /**
     Evicts until the resident pages fit the budget. The loop has no bound of its
     own: while every attempt fails it goes on, and then the process hangs.
     */
    method EnforceBudget() returns (ghost log: seq<bool>)
      requires Sane() && residentBytes <= budget + layout.pageBytes
      modifies this, backend, client, client.cache, client.net
      ensures Sane() && mem == old(mem) && order == Rotated(old(order), log) && StopsAtFirst(log)
      ensures alive ==> old(alive) && residentBytes <= budget
      ensures NoneRefused(log) ==> alive == old(alive)
      ensures log == [] <==> old(residentBytes) <= budget
      ensures log != [] ==> |old(order)| > 1
      ensures old(damaged) <= damaged && Follows(old(Account()), Account(), Small()) && unfilled == old(unfilled)
      ensures Account().misfills == old(Account()).misfills
      ensures Account().denials <= old(Account()).denials + Refusals(log)
      ensures Supplied(old(Account()), Account()) && Account().denials == old(Account()).denials ==> NoneRefused(log)
      ensures NoNewDirt(old(backend.state), backend.state) && fetches == old(fetches)
      ensures evictions == old(evictions) + |old(order)| - |order|
    {
      hide RemoteHeap.Account, RemoteHeap.Sane, Start, Follows, Supplied, Rotated, NoneEvicted, StopsAtFirst,
           NoneRefused, Refusals, NoNewDirt, Turned, Orderly, Calm, Harms, LayoutOk, Capacity;
      NoDirtYet(backend.state);
      LogStart(order);
      log := [];
      Bytes();
      ghost var a := Account();
      FollowsSelf(a, Small());
      var rounds: nat := *;
      while residentBytes > budget && |order| > 1
        invariant Sane() && mem == old(mem) && alive == old(alive) && order == Rotated(old(order), log)
        invariant old(damaged) <= damaged && Follows(a, Account(), Small()) && unfilled == old(unfilled)
        invariant Account().misfills == a.misfills
        invariant NoNewDirt(old(backend.state), backend.state) && fetches == old(fetches)
        invariant evictions == old(evictions) + |old(order)| - |order|
        invariant Account().denials <= a.denials + Refusals(log)
        invariant Supplied(a, Account()) && Account().denials == a.denials ==> NoneRefused(log)
        invariant if residentBytes > budget then NoneEvicted(log) else StopsAtFirst(log)
        invariant residentBytes <= budget + layout.pageBytes
        invariant log != [] ==> |old(order)| > 1
        invariant old(residentBytes) <= budget ==> log == []
        invariant log == [] ==> residentBytes == old(residentBytes)
        decreases rounds, |order|
      {
        Bytes();
        ghost var b, state := Account(), backend.state;
        var evicted := EvictOldest();
        FollowsTrans(a, b, Account(), Small());
        DirtTrans(old(backend.state), state, backend.state);
        TurnedLength(Rotated(old(order), log), evicted);
        Bytes();
        LogNext(old(order), log, evicted);
        log := log + [evicted];
        if !evicted {
          if rounds == 0 {
            alive := false;
            break;
          }
          rounds := rounds - 1;
        }
      }
      Bytes();
    }

    /**
     Fetches the page of a faulting address. A fetch that throws, or a fill that the
     operating system refuses, leaves the fault unresolved.
     */
    method HandleFault(addr: nat, inWriteFault: bool) returns (resolved: bool, ghost log: seq<bool>)
      requires Valid() && alive && layout.base <= addr < layout.base + Capacity(layout)
      requires var i := HeapPage(layout, addr - layout.base); i in resident ==> i in damaged
      modifies this, backend, client, client.cache, client.net
      ensures Sane() && mem == old(mem) && (alive ==> residentBytes <= budget) && StopsAtFirst(log)
      ensures old(damaged) <= damaged && Follows(old(Account()), Account(), Small())
      ensures unfilled == old(unfilled) + (if resolved then 0 else 1)
      ensures Account().denials <= old(Account()).denials + Refusals(log)
      ensures Calm(old(Account()), Account(), Small()) ==> resolved && NoneRefused(log)
      ensures var i := HeapPage(layout, addr - layout.base);
              && (!resolved ==> i in damaged)
              && (resolved && i !in old(resident) ==> order == Rotated(old(order) + [i], log))
      ensures log != [] ==> old(order) != []
      ensures backend.lenient && !inWriteFault && !backend.platform.Linux? ==>
                NoNewDirt(old(backend.state), backend.state)
      ensures old(fetches) <= fetches <= old(fetches) + 1 && (resolved ==> fetches == old(fetches) + 1)
      ensures resolved && NoneRefused(log) ==> alive
      ensures var i := HeapPage(layout, addr - layout.base);
              resolved && NoneRefused(log) && i !in old(resident) ==>
                i in resident && FirstOut(old(order), i, order, old(residentBytes) + layout.pageBytes <= budget)
    {
      hide RemoteHeap.Account, CellsOf, Holding, FaultBackend.Valid, Good, Capacity, Start, Booked, HeapPage, Rotated,
           FirstOut, FlatPage, AllPages, Accounted, Follows, Supplied, NoNewDirt, RemoteHeap.Sane, RemoteHeap.Snap,
           Orderly, StopsAtFirst, NoneRefused, Refusals, LayoutOk;
      Bytes();
      LogStart([]);
      var i := HeapPage(layout, addr - layout.base);
      InCapacity(layout, i, addr - layout.base);
      ghost var a := Account();
      var r := Fetch(i);
      ghost var b := Account();
      NoDirtYet(backend.state);
      if r.None? {
        Unfetched(i, a);
        return false, [];
      }
      resolved := Install(i, r.value, inWriteFault);
      ghost var c, state := Account(), backend.state;
      FollowsTrans(a, b, c, Small());
      log := EnforceBudget();
      if NoNewDirt(old(backend.state), state) { DirtTrans(old(backend.state), state, backend.state); }
      FollowsTrans(a, c, Account(), Small());
      if NoneRefused(log) && i !in old(resident) {
        OldestGoes(old(order), i, log);
        Member(i);
        OutOrIn(old(order), i, order, log == []);
      }
    }

    lemma Member(i: nat)
      requires Sane()
      ensures i in order <==> i in resident
    {
      hide CellsOf, Holding, FaultBackend.Valid, Good, Accounted;
    }

    /** A page that could not be fetched is given up. */
    ghost method Unfetched(i: nat, a: Ledger)
      requires Sane() && i < layout.pages && Follows(a, Account(), Small()) && !(Supplied(a, Account()) && Small())
      modifies `damaged, `unfilled
      ensures Sane() && unfilled == old(unfilled) + 1 && damaged == old(damaged) + {i}
      ensures Follows(a, Account(), Small()) && !(Supplied(a, Account()) && Small())
      ensures Account().denials == old(Account()).denials
    {
      hide CellsOf, Holding, FaultBackend.Valid, Good, Capacity, Booked, AllPages, Accounted, Follows, NothingLost;
      ghost var b := Account();
      DamageOne(layout, Snap(), damaged, i);
      OneMoreDamaged(layout, damaged, unfilled, discarded, client.clashed, i);
      damaged, unfilled := damaged + {i}, unfilled + 1;
      UnfetchedFollows(a, b, Account(), Small());
    }

    /** Asks the peers for a page that is not resident. What they answer is what the program stored there. */
    method Fetch(i: nat) returns (r: Option<seq<byte>>)
      requires Sane() && i < layout.pages && (i in resident ==> i in damaged)
      modifies `damaged, client, client.cache, client.net
      ensures Sane() && old(damaged) <= damaged && Follows(old(Account()), Account(), Small())
      ensures Account().misfills == old(Account()).misfills && Account().denials == old(Account()).denials
      ensures Supplied(old(Account()), Account()) && Small() ==> r.Some?
      ensures r.Some? ==> |r.value| == layout.pageBytes && (i !in damaged ==> FlatPage(layout, mem, i, r.value))
    {
      hide CellsOf, Holding, FaultBackend.Valid, Good, Decayed, Shows, Capacity, Start,
           Mapped, Booked, HeapPage, FlatPage, AllPages, Accounted, NothingLost, Follows;
      GoodMapped(layout, Snap(), damaged);
      InCapacity(layout, i, 0);
      ClashAccounted(layout, damaged, unfilled, discarded);
      ghost var s, a := Snap(), Account();
      HeldLength(client, handle, Capacity(layout));
      r := Receive(client, handle, Start(i, layout.pageBytes), layout.pageBytes);
      HeldLength(client, handle, Capacity(layout));
      if client.clashed {
        ClashDamages(layout, s, Snap(), damaged);
        PageInAll(layout, i);
        damaged := damaged + AllPages(layout);
      } else {
        if r.Some? && i !in damaged { FetchedIsFlat(layout, s, damaged, i, r.value); }
        DecayKeepsGood(layout, s, Backing(), damaged);
      }
      CalmIsSteady(client);
      ClientFollows(a, Account(), AllPages(layout), Small());
    }

    /** Maps fetched bytes in and books the page, also when the backend could not map it. */
    method Install(i: nat, bytes: seq<byte>, inWriteFault: bool) returns (resolved: bool)
      requires Sane() && i < layout.pages && (i in resident ==> i in damaged) && |bytes| == layout.pageBytes
      requires i !in damaged ==> FlatPage(layout, mem, i, bytes)
      modifies `order, `resident, `residentBytes, `fetches, `damaged, `unfilled, backend
      ensures unfilled == old(unfilled) + (if resolved then 0 else 1)
      ensures Sane() && residentBytes == old(residentBytes) + (if i in old(resident) then 0 else layout.pageBytes)
      ensures damaged == if resolved then old(damaged) else old(damaged) + {i}
      ensures Follows(old(Account()), Account(), Small()) && Account().denials == old(Account()).denials
      ensures Account().misfills == old(Account()).misfills + (if resolved then 0 else 1)
      ensures alive == old(alive) && order == if i in old(resident) then old(order) else old(order) + [i]
      ensures backend.lenient && !inWriteFault && !backend.platform.Linux? ==>
                NoNewDirt(old(backend.state), backend.state)
      ensures fetches == old(fetches) + 1 && evictions == old(evictions)
    {
      hide CellsOf, Holding, FaultBackend.Valid, Good, Booked, Accounted, AllPages, FlatPage, NothingLost, NoNewDirt;
      BookOne(layout, order, resident, residentBytes, i);
      var booked := i in resident;
      resolved := MapIn(i, bytes, inWriteFault);
      if !booked { order, residentBytes := order + [i], residentBytes + layout.pageBytes; }
      fetches := fetches + 1;
    }

    /** Hands fetched bytes to the backend; the page counts as resident whether or not that worked. */
    method MapIn(i: nat, bytes: seq<byte>, inWriteFault: bool) returns (resolved: bool)
      requires Sane() && i < layout.pages && (i in resident ==> i in damaged) && |bytes| == layout.pageBytes
      requires i !in damaged ==> FlatPage(layout, mem, i, bytes)
      modifies `resident, `damaged, `unfilled, backend
      ensures backend.Valid() && Good(layout, Snap(), damaged)
      ensures Accounted(layout, damaged, unfilled, discarded, client.clashed)
      ensures resident == old(resident) + {i} && backend.denials == old(backend.denials)
      ensures backend.misfills == old(backend.misfills) + (if resolved then 0 else 1)
      ensures damaged == (if resolved then old(damaged) else old(damaged) + {i})
      ensures unfilled == old(unfilled) + (if resolved then 0 else 1)
      ensures backend.lenient && i !in old(damaged) ==> resolved
      ensures backend.lenient && !inWriteFault && !backend.platform.Linux? ==>
                NoNewDirt(old(backend.state), backend.state)
    {
      hide CellsOf, Holding, NothingLost, FaultBackend.Valid, Good, Shaped, SameElsewhere,
           FilledBy, FlatPage, AllPages, Accounted, Changed, Capacity, Start, PageNo, InPage, PagesTouched, Mapped,
           Booked, Present, FillSpan, Span, PagesOfHeap;
      ghost var s := Snap();
      GoodMapped(layout, s, damaged);
      WholeFill(layout, i);
      PagesAreMapped(layout, s.os, i);
      if i !in damaged { NotThereYet(i); }
      var addr := layout.base + Start(i, layout.pageBytes);
      resolved := backend.ResolveFault(addr, Some(bytes), layout.pageBytes, inWriteFault);
      backend.Shape();
      PresentWithin(backend.os, PagesOfHeap(layout, i));
      if resolved {
        FillKeepsGood(layout, s, damaged, i, bytes, backend.platform, backend.state, backend.os,
                      inWriteFault || backend.platform.Linux?);
      } else {
        RefusedKeepsGood(layout, s, damaged, i, backend.state, backend.lost);
        OneMoreDamaged(layout, damaged, unfilled, discarded, client.clashed, i);
        damaged, unfilled := damaged + {i}, unfilled + 1;
      }
      resident := resident + {i};
    }

    /** The operating-system pages of a heap page that is not resident are not there. */
    lemma NotThereYet(i: nat)
      requires Sane() && i < layout.pages && i !in resident && i !in damaged
      ensures LayoutOk(layout) && Present(backend.os, PagesOfHeap(layout, i)) == {}
    {
      hide CellsOf, Holding, FaultBackend.Valid, Capacity, OsOf, InOs, HeapPage, PagesOfHeap, Booked, Accounted,
           AllPages;
      forall p | p in PagesOfHeap(layout, i)
        ensures p in backend.os && backend.os[p].prot.NoAccess?
      {
        var x := SomeByte(layout, i, p);
        assert ByteGood(layout, Snap(), x);
        backend.GuardedPage(p);
      }
    }

    /** Those of a resident page are. */
    lemma AllThere(i: nat)
      requires Sane() && i < layout.pages && i in resident && i !in damaged
      ensures LayoutOk(layout) && Present(backend.os, PagesOfHeap(layout, i)) == PagesOfHeap(layout, i)
    {
      hide CellsOf, Holding, FaultBackend.Valid, Capacity, OsOf, InOs, HeapPage, PagesOfHeap, Booked, Accounted,
           AllPages;
      forall p | p in PagesOfHeap(layout, i)
        ensures p in backend.os && !backend.os[p].prot.NoAccess?
      {
        var x := SomeByte(layout, i, p);
        assert ByteGood(layout, Snap(), x);
        backend.GuardedPage(p);
      }
    }

    // ---- Accesses ----

    /**
     One attempt at an access: permitted, or one fault serviced so that the
     processor tries again, or the end of the process.
     */
    method Access(x: nat, isWrite: bool) returns (o: Outcome, ghost log: seq<bool>)
      requires Valid() && alive && x < Capacity(layout)
      modifies this, backend, client, client.cache, client.net
      ensures Valid() && mem == old(mem) && (o.Dead? <==> !alive)
      ensures Follows(old(Account()), Account(), Small()) && unfilled <= old(unfilled) + 1
      ensures Account().denials <= old(Account()).denials + Refusals(log) + (if o.Dead? then 1 else 0)
      ensures Calm(old(Account()), Account(), Small()) && HeapPage(layout, x) !in old(damaged) ==>
                !o.Dead? && NoneRefused(log)
      ensures o.Done? <==> old(backend.Permits(layout.base + x, isWrite))
      ensures backend.lenient && !isWrite && !backend.platform.Linux? && HeapPage(layout, x) !in old(damaged) ==>
                NoNewDirt(old(backend.state), backend.state)
      ensures o.Done? ==> Account() == old(Account()) && backend.Permits(layout.base + x, isWrite) && log == []
      ensures o.Retry? && HeapPage(layout, x) in old(resident) && HeapPage(layout, x) !in old(damaged) ==>
                Account() == old(Account()) && backend.Permits(layout.base + x, isWrite) && log == []
      ensures o.Retry? && HeapPage(layout, x) !in old(resident) && HeapPage(layout, x) !in damaged ==>
                && StopsAtFirst(log) && (log != [] ==> old(order) != [])
                && order == Rotated(old(order) + [HeapPage(layout, x)], log)
                && (HeapPage(layout, x) in resident <==> Spared(log, |old(order)|))
                && (NoneRefused(log) ==> HeapPage(layout, x) in resident)
    {
      hide RemoteHeap.Account, CellsOf, FaultBackend.Valid, Holding, Good, Snap, Capacity, PageNo, InPage, Booked,
           HeapPage, StopsAtFirst, Rotated, NoneRefused, Slab.Distinct, FirstOut, AllPages, Accounted, Follows,
           Supplied, NoNewDirt;
      NoDirtYet(backend.state);
      log := [];
      ghost var a := Account();
      FollowsSelf(a, Small());
      GoodByte(layout, Snap(), damaged, x);
      var addr, i := layout.base + x, HeapPage(layout, x);
      o := Done;
      if backend.Permits(addr, isWrite) { return; }
      o := Trapped(x, isWrite);
      TrapFollows(a, Account(), Small());
      if o.Done? {
        var resolved, dead;
        resolved, log := HandleFault(addr, isWrite && !backend.platform.MacOS?);
        dead := Settled(x, resolved);
        o := if dead then Dead else Retry;
        if resolved && i !in old(resident) {
          BookedDistinct(layout, old(order), old(resident), old(residentBytes), i);
          BookedMember(layout, order, resident, residentBytes, i);
          NewestSurvives(old(order), i, log);
        }
      }
    }

    /** A resident page that is not damaged can be read without a fault. */
    lemma Readable(x: nat)
      requires Sane() && x < Capacity(layout) && LayoutOk(layout)
      requires HeapPage(layout, x) in resident && HeapPage(layout, x) !in damaged
      ensures backend.Permits(layout.base + x, false)
    {
      hide CellsOf, FaultBackend.Valid, Holding, Good, Shaped, Capacity,
           HeapPage, PageNo, InPage, Booked, Accounted;
      GoodByte(layout, Snap(), damaged, x);
      backend.GuardedPage(OsOf(layout, x));
    }

    /** The trap itself: `Done` here means that the heap is asked for the page. */
    method Trapped(x: nat, isWrite: bool) returns (o: Outcome)
      requires Valid() && alive && x < Capacity(layout) && !backend.Permits(layout.base + x, isWrite)
      modifies `alive, backend
      ensures Sane() && (o.Dead? <==> !alive) && (o.Done? ==> Valid() && Snap() == old(Snap()))
      ensures Account() == old(Account()).(denials := Account().denials)
      ensures old(Account()).denials <= Account().denials <= old(Account()).denials + (if o.Dead? then 1 else 0)
      ensures old(Account()).serene ==> Account().denials == old(Account()).denials
      ensures o.Dead? && Account().denials == old(Account()).denials ==> HeapPage(layout, x) in damaged
      ensures o.Done? && HeapPage(layout, x) in resident ==> HeapPage(layout, x) in damaged
      ensures o.Retry? ==> Valid() && backend.Permits(layout.base + x, isWrite)
      ensures HeapPage(layout, x) in resident && HeapPage(layout, x) !in damaged ==> !o.Done?
      ensures HeapPage(layout, x) !in resident && HeapPage(layout, x) !in damaged ==> !o.Retry?
      ensures o.Retry? && HeapPage(layout, x) !in damaged ==> isWrite
      ensures !o.Retry? ==> backend.state == old(backend.state)
    {
      hide CellsOf, FaultBackend.Tracked, Sound, Holding, Good, Shaped,
           Capacity, PageNo, InPage, Booked, HeapPage, Accounted, NothingLost;
      ghost var s := Snap();
      GoodByte(layout, s, damaged, x);
      ghost var p := PageNo(layout.base + x, layout.osPage);
      backend.NativePage(p);
      if p !in backend.lost { backend.GuardedPage(p); }
      var v := backend.Trap(layout.base + x, isWrite, true);
      if v.Resume? {
        PromoteKeepsGood(layout, s, damaged, p);
        o := Retry;
      } else if v.Ask? {
        o := Done;
      } else {
        alive, o := false, Dead;
      }
    }

    /** After the heap's answer. Linux maps a zero page where the heap had none to offer. */
    method Settled(x: nat, resolved: bool) returns (dead: bool)
      requires Sane() && x < Capacity(layout) && (!resolved ==> HeapPage(layout, x) in damaged)
      requires alive ==> residentBytes <= budget
      requires backend.platform.Windows? && resolved ==> unfilled == 0
      modifies `alive, backend
      ensures Valid() && dead == !alive && (alive ==> old(alive))
      ensures Account() == old(Account()) && (resolved ==> alive == old(alive))
      ensures !backend.platform.Linux? ==> backend.state == old(backend.state)
    {
      hide CellsOf, FaultBackend.Tracked, Sound, Holding, Good, Shaped,
           Capacity, PageNo, InPage, Booked, HeapPage, Present, Accounted, NothingLost;
      ghost var s := Snap();
      GoodByte(layout, s, damaged, x);
      ghost var p := PageNo(layout.base + x, layout.osPage);
      var v := backend.Settle(layout.base + x, resolved);
      backend.Shape();
      PresentWithin(backend.os, {p});
      if !resolved && backend.platform.Linux? { ZeroKeepsGood(layout, s, Snap(), damaged, x); }
      if !v.Resume? { alive := false; }
      dead := !alive;
    }

    /**
     A load that completes returns what was last stored there, or zero. It completes
     at once on a resident page, and after one fault if the process lives, the page is
     not damaged and every page that had to go could be written back.
     */
    method Load(x: nat, attempts: nat) returns (r: Option<byte>, ghost log: seq<bool>)
      requires Valid() && alive && x < Capacity(layout)
      modifies this, backend, client, client.cache, client.net
      ensures Valid() && mem == old(mem) && |mem| == Capacity(layout) && LayoutOk(layout) && (r.Some? ==> alive)
      ensures Follows(old(Account()), Account(), Small()) && unfilled <= old(unfilled) + attempts + 1
      ensures Account().denials <= old(Account()).denials + Refusals(log) + (if alive then 0 else 1)
      ensures r.Some? && HeapPage(layout, x) !in damaged ==> r.value == mem[x]
      ensures HeapPage(layout, x) in old(resident) && HeapPage(layout, x) !in old(damaged) ==>
                r.Some? && log == [] && Account() == old(Account())
      ensures attempts >= 1 && alive && HeapPage(layout, x) !in damaged && NoneRefused(log) ==> r.Some?
      ensures Calm(old(Account()), Account(), Small()) && HeapPage(layout, x) !in old(damaged) ==>
                alive && NoneRefused(log) && HeapPage(layout, x) !in damaged && (attempts >= 1 ==> r.Some?)
      ensures backend.lenient && !backend.platform.Linux? && HeapPage(layout, x) !in damaged ==>
                NoNewDirt(old(backend.state), backend.state)
      decreases attempts
    {
      hide RemoteHeap.Account, RemoteHeap.Sane, Capacity, HeapPage, LayoutOk, Rotated, StopsAtFirst, Spared, Follows,
           Calm, Refusals, NoNewDirt, Orderly, NoneRefused;
      Bytes();
      ghost var a := Account();
      if HeapPage(layout, x) in resident && HeapPage(layout, x) !in damaged { Readable(x); }
      var o;
      o, log := Access(x, false);
      Undamaged(a, Account(), Small(), HeapPage(layout, x));
      Bytes();
      if o.Dead? || (o.Retry? && attempts == 0) { return None, log; }
      if o.Retry? {
        ghost var mid, state, more := Account(), backend.state, [];
        r, more := Load(x, attempts - 1);
        if NoNewDirt(old(backend.state), state) && NoNewDirt(state, backend.state) {
          DirtTrans(old(backend.state), state, backend.state);
        }
        log := Joint(log, more);
        FollowsTrans(a, mid, Account(), Small());
        Undamaged(a, Account(), Small(), HeapPage(layout, x));
        Undamaged(mid, Account(), Small(), HeapPage(layout, x));
        return;
      }
      var b := Peek(x);
      r := Some(b);
    }

    /** The byte the processor sees. */
    method Peek(x: nat) returns (b: byte)
      requires Sane() && x < Capacity(layout) && backend.Permits(layout.base + x, false)
      ensures |mem| == Capacity(layout) && LayoutOk(layout) && (HeapPage(layout, x) !in damaged ==> b == mem[x])
    {
      hide CellsOf, FaultBackend.Valid, Holding, Good, Shaped, Capacity, Booked, HeapPage, AllPages, Accounted;
      FlatLength(layout, Snap(), damaged);
      GoodByte(layout, Snap(), damaged, x);
      backend.Shape();
      ghost var p := OsOf(layout, x);
      if HeapPage(layout, x) !in damaged { backend.GuardedPage(p); }
      b := backend.os[PageNo(layout.base + x, layout.osPage)].bytes[InPage(layout.base + x, layout.osPage)];
    }

    /**
     A store that completes changes that one byte of the flat memory. It completes
     after one trap on a resident page and after two on an absent one, if the process
     lives, the page is not damaged and every page that had to go could be written back.
     */
    method Store(x: nat, b: byte, attempts: nat) returns (ok: bool, ghost log: seq<bool>)
      requires Valid() && alive && x < Capacity(layout)
      modifies this, backend, client, client.cache, client.net
      ensures Valid() && LayoutOk(layout) && (ok ==> alive)
      ensures |old(mem)| == Capacity(layout) && mem == if ok then old(mem)[x := b] else old(mem)
      ensures Follows(old(Account()), Account(), Small()) && unfilled <= old(unfilled) + attempts + 1
      ensures Account().denials <= old(Account()).denials + Refusals(log) + (if alive then 0 else 1)
      ensures old(backend.Permits(layout.base + x, true)) ==> ok && Account() == old(Account())
      ensures attempts >= 1 && alive && HeapPage(layout, x) in old(resident) && HeapPage(layout, x) !in damaged ==> ok
      ensures attempts >= 2 && alive && HeapPage(layout, x) !in damaged && NoneRefused(log) ==> ok
      ensures Calm(old(Account()), Account(), Small()) && HeapPage(layout, x) !in old(damaged) ==>
                alive && NoneRefused(log) && HeapPage(layout, x) !in damaged && (attempts >= 2 ==> ok)
      decreases attempts
    {
      hide RemoteHeap.Account, RemoteHeap.Sane, Capacity, HeapPage, LayoutOk, Rotated, StopsAtFirst, Spared, Follows,
           Calm, Refusals, Orderly, NoNewDirt, NoneRefused;
      Bytes();
      ghost var a := Account();
      var o;
      o, log := Access(x, true);
      Undamaged(a, Account(), Small(), HeapPage(layout, x));
      if o.Dead? || (o.Retry? && attempts == 0) { return false, log; }
      if o.Retry? {
        ghost var mid, more := Account(), [];
        ok, more := Store(x, b, attempts - 1);
        log := Joint(log, more);
        FollowsTrans(a, mid, Account(), Small());
        Undamaged(a, Account(), Small(), HeapPage(layout, x));
        Undamaged(mid, Account(), Small(), HeapPage(layout, x));
        return;
      }
      Poke(x, b);
      ok := true;
    }

    /** The store itself. */
    method Poke(x: nat, b: byte)
      requires Valid() && alive && x < Capacity(layout) && backend.Permits(layout.base + x, true)
      modifies `mem, backend
      ensures Valid() && |old(mem)| == Capacity(layout) && mem == old(mem)[x := b] && Account() == old(Account())
    {
      hide CellsOf, FaultBackend.Valid, Holding, Good, Shaped, Capacity, Booked, HeapPage, AllPages, Accounted,
           NothingLost;
      ghost var s := Snap();
      FlatLength(layout, s, damaged);
      GoodByte(layout, s, damaged, x);
      GoodMapped(layout, s, damaged);
      ghost var p := OsOf(layout, x);
      if HeapPage(layout, x) !in damaged { backend.GuardedPage(p); }
      StoreKeepsGood(layout, s, damaged, x, b);
      backend.StoreByte(layout.base + x, b);
      mem := mem[x := b];
    }

    // ---- Flushing ----

    /** Writes every resident page back, or stops at the first that cannot be. */
    method Flush() returns (ok: bool)
      requires Valid() && alive
      modifies this`flushes, this`damaged, backend, client, client.cache, client.net
      ensures Valid() && (ok ==> AllBacked(layout, Snap(), damaged))
      ensures Follows(old(Account()), Account(), Small()) && (Supplied(old(Account()), Account()) ==> ok)
      ensures Account().misfills == old(Account()).misfills && Account().denials == old(Account()).denials
    {
      hide CellsOf, FaultBackend.Valid, Holding, Good, PageBacked, Booked,
           AllBacked, AllPages, Accounted, RemoteHeap.Account, Follows, Supplied;
      ghost var a := Account();
      FollowsSelf(a, Small());
      forall k | 0 <= k < |order|
        ensures order[k] in resident
      {
        BookedMember(layout, order, resident, residentBytes, order[k]);
      }
      for k := 0 to |order|
        invariant Follows(a, Account(), Small())
        invariant Account().misfills == a.misfills && Account().denials == a.denials
        invariant Valid() && forall j :: 0 <= j < k && order[j] !in damaged ==> PageBacked(layout, Snap(), order[j])
      {
        BookedMember(layout, order, resident, residentBytes, order[k]);
        ghost var b := Account();
        ok := FlushPage(order[k]);
        FollowsTrans(a, b, Account(), Small());
        if !ok { return; }
      }
      ok := true;
      FlushedIsBacked(layout, Snap(), damaged, order, residentBytes);
    }

    /** Writes back and evicts everything, oldest first, or stops at the first page that stays. */
    method FlushAndEvictAll()
      requires Valid() && alive
      modifies this, backend, client, client.cache, client.net
      ensures Valid() && alive && mem == old(mem)
      ensures Follows(old(Account()), Account(), Small()) && unfilled == old(unfilled)
      ensures Account().misfills == old(Account()).misfills && Account().denials <= old(Account()).denials + 1
      ensures Supplied(old(Account()), Account()) && Account().denials == old(Account()).denials ==> order == []
      ensures order == [] ==> AllBacked(layout, Snap(), damaged) && residentBytes == 0
      ensures order != [] ==> |order| <= |old(order)|
    {
      hide CellsOf, FaultBackend.Valid, Holding, Good, Booked, Start,
           AllBacked, AllPages, Accounted, RemoteHeap.Account, Follows, Supplied;
      ghost var a := Account();
      FollowsSelf(a, Small());
      while order != []
        invariant Valid() && alive && mem == old(mem)
        invariant Follows(a, Account(), Small()) && unfilled == old(unfilled)
        invariant Account().misfills == a.misfills && Account().denials == a.denials
        invariant |order| <= |old(order)|
        decreases |order|
      {
        BookedBytes(layout, order, resident, residentBytes);
        ghost var b := Account();
        var evicted := EvictOldest();
        FollowsTrans(a, b, Account(), Small());
        BookedBytes(layout, order, resident, residentBytes);
        if !evicted { break; }
      }
      if order == [] {
        BookedBytes(layout, order, resident, residentBytes);
        StartsAdd(0, 0, layout.pageBytes);
        FlushedIsBacked(layout, Snap(), damaged, order, residentBytes);
      }
    }
  }

  lemma {:induction false} RefusalsAdd(a: seq<bool>, b: seq<bool>)
    ensures Refusals(a + b) == Refusals(a) + Refusals(b)
    decreases |b|
  {
    if b == [] {
      assert a + b == a;
    } else {
      assert (a + b)[..|a + b| - 1] == a + b[..|b| - 1];
      RefusalsAdd(a, b[..|b| - 1]);
    }
  }

  /** The attempts of two stretches, one after the other. */
  function Joint(a: seq<bool>, b: seq<bool>): (r: seq<bool>)
    ensures NoneRefused(r) <==> NoneRefused(a) && NoneRefused(b)
    ensures |r| == |a| + |b| && Refusals(r) == Refusals(a) + Refusals(b)
  {
    RefusalsAdd(a, b);
    assert forall k :: 0 <= k < |a| ==> (a + b)[k] == a[k];
    assert forall k :: 0 <= k < |b| ==> (a + b)[|a| + k] == b[k];
    a + b
  }

  /** There are no more damaged pages than mishaps, until references clash. */
  ghost predicate Accounted(l: Layout, damaged: set<nat>, unfilled: nat, discarded: nat, clashed: bool) {
    if clashed then AllPages(l) <= damaged else |damaged| <= unfilled + discarded
  }

  lemma OneMoreDamaged(l: Layout, damaged: set<nat>, unfilled: nat, discarded: nat, clashed: bool, i: nat)
    requires Accounted(l, damaged, unfilled, discarded, clashed)
    ensures Accounted(l, damaged + {i}, unfilled + 1, discarded, clashed)
    ensures Accounted(l, damaged + {i}, unfilled, discarded + 1, clashed)
  {
    if i in damaged { assert damaged + {i} == damaged; }
  }

  lemma ClashAccounted(l: Layout, damaged: set<nat>, unfilled: nat, discarded: nat)
    ensures Accounted(l, damaged + AllPages(l), unfilled, discarded, true)
    ensures Accounted(l, damaged, unfilled, discarded, true) ==> damaged + AllPages(l) == damaged
  {
  }

  /** Every page of the heap. */
  ghost function AllPages(l: Layout): (s: set<nat>) { Span(0, l.pages) }

  lemma PageInAll(l: Layout, i: nat)
    requires i < l.pages
    ensures i in AllPages(l)
  {
    assert InSpan(i, 0, l.pages);
  }

  lemma AllDamaged(l: Layout, s: Snapshot, damaged: set<nat>)
    requires Shaped(l, s) && AllPages(l) <= damaged
    ensures Good(l, s, damaged)
  {
    hide Capacity, HeapPage, OsOf, InOs;
    forall x: nat | x < Capacity(l) ensures HeapPage(l, x) in damaged {
      InCapacity(l, 0, x);
      PageInAll(l, HeapPage(l, x));
    }
  }

  /** After a clash of references no page of the heap can be relied on. */
  lemma ClashDamages(l: Layout, s: Snapshot, t: Snapshot, damaged: set<nat>)
    requires Good(l, s, damaged) && t == s.(cells := t.cells) && |t.cells| == |s.cells|
    ensures Good(l, t, damaged + AllPages(l)) && AllPages(l) <= damaged + AllPages(l)
  {
    hide Capacity, OsOf, AllPages, Accounted;
    AllDamaged(l, t, damaged + AllPages(l));
  }

  lemma ResidentInAll(l: Layout, order: seq<nat>, resident: set<nat>, residentBytes: nat)
    requires Booked(l, order, resident, residentBytes)
    ensures resident <= AllPages(l)
  {
    forall i | i in resident ensures i in AllPages(l) { PageInAll(l, i); }
  }

  lemma BookedIndex(l: Layout, order: seq<nat>, resident: set<nat>, residentBytes: nat, i: nat)
    requires Booked(l, order, resident, residentBytes) && i in resident
    ensures i < l.pages
  {
  }

  lemma FlushedIsBacked(l: Layout, s: Snapshot, damaged: set<nat>, order: seq<nat>, residentBytes: nat)
    requires Good(l, s, damaged) && Booked(l, order, s.resident, residentBytes)
    requires forall j :: 0 <= j < |order| && order[j] !in damaged ==> PageBacked(l, s, order[j])
    ensures AllBacked(l, s, damaged)
  {
    hide HeapPage, Capacity, OsOf, InOs, Start;
    forall x: nat | x < Capacity(l) && HeapPage(l, x) !in damaged ensures Backed(s.cells[x], s.mem[x]) {
      assert ByteGood(l, s, x);
      if HeapPage(l, x) in s.resident {
        var j :| 0 <= j < |order| && order[j] == HeapPage(l, x);
        assert PageBacked(l, s, order[j]);
      }
    }
  }

  lemma FlatLength(l: Layout, s: Snapshot, damaged: set<nat>)
    requires Good(l, s, damaged)
    ensures |s.mem| == Capacity(l)
  {
  }

  lemma GoodByte(l: Layout, s: Snapshot, damaged: set<nat>, x: nat)
    requires Good(l, s, damaged) && x < Capacity(l)
    ensures LayoutOk(l) && PageNo(l.base + x, l.osPage) in s.state && s.state.Keys == s.os.Keys
    ensures HeapPage(l, x) < l.pages
    ensures HeapPage(l, x) !in damaged ==> ByteGood(l, s, x)
  {
    hide PageNo, Capacity;
    assert OsOf(l, x) in s.os;
    InCapacity(l, 0, x);
  }

  lemma ZeroKeepsGood(l: Layout, s: Snapshot, t: Snapshot, damaged: set<nat>, x: nat)
    requires Good(l, s, damaged) && x < Capacity(l) && HeapPage(l, x) in damaged
    requires t.mem == s.mem && t.cells == s.cells && t.resident == s.resident && t.state.Keys == s.state.Keys
    requires t.os.Keys == s.os.Keys
    requires forall q :: q in t.os ==> |t.os[q].bytes| == l.osPage
    requires forall q :: q in s.state && q != OsOf(l, x) ==> t.state[q] == s.state[q] && t.os[q] == s.os[q]
    requires t.lost <= s.lost + {OsOf(l, x)}
    ensures Good(l, t, damaged)
  {
    hide PagesOfHeap, Capacity, OsOf, HeapPage;
    SpanHolds(l, HeapPage(l, x), x);
    ElsewhereGood(l, s, t, damaged, HeapPage(l, x));
    assert damaged + {HeapPage(l, x)} == damaged;
  }

  lemma BookedDistinct(l: Layout, order: seq<nat>, resident: set<nat>, residentBytes: nat, i: nat)
    requires Booked(l, order, resident, residentBytes) && i !in resident
    ensures Slab.Distinct(order + [i])
  {
  }

  lemma BookedMember(l: Layout, order: seq<nat>, resident: set<nat>, residentBytes: nat, i: nat)
    requires Booked(l, order, resident, residentBytes)
    ensures i in order <==> i in resident
  {
  }

  /** A heap page is never empty, so a fill covers exactly its pages. */
  lemma WholeFill(l: Layout, i: nat)
    requires LayoutOk(l)
    ensures FillSpan(l.base + Start(i, l.pageBytes), l.pageBytes, l.osPage) == PagesOfHeap(l, i)
  {
  }

  /** Every operating-system page of a heap page holds a byte of it. */
  lemma SomeByte(l: Layout, i: nat, p: nat) returns (x: nat)
    requires LayoutOk(l) && i < l.pages && p in PagesOfHeap(l, i)
    ensures x < Capacity(l) && OsOf(l, x) == p && HeapPage(l, x) == i
  {
    hide Start, PageNo, InPage, PagesTouched, Capacity;
    HeapPageSpan(l, i);
    WholePages(l);
    StartsAdd(PageNo(l.base, l.osPage), p - PageNo(l.base, l.osPage), l.osPage);
    x := Start(p - PageNo(l.base, l.osPage), l.osPage);
    Located(p, 0, l.osPage);
    SpanHolds(l, i, x);
    InCapacity(l, i, x);
  }

  lemma PagesAreMapped(l: Layout, os: Memory, i: nat)
    requires Mapped(l, os) && i < l.pages
    ensures PagesOfHeap(l, i) <= os.Keys
  {
    hide PagesOfHeap, Capacity, OsOf, HeapPage;
    forall p | p in PagesOfHeap(l, i) ensures p in os { var x := SomeByte(l, i, p); }
  }

  lemma PresentWithin(os: Memory, span: set<nat>)
    ensures Present(os, span) <= span
  {
  }

  lemma BookOne(l: Layout, order: seq<nat>, resident: set<nat>, residentBytes: nat, i: nat)
    requires Booked(l, order, resident, residentBytes) && i < l.pages
    ensures i !in resident ==> Booked(l, order + [i], resident + {i}, residentBytes + l.pageBytes)
    ensures i in resident ==> resident + {i} == resident
  {
    hide Start;
    StartsAdd(|order|, 1, l.pageBytes);
    StartOne(l.pageBytes);
  }

  lemma StartOne(pageBytes: nat)
    ensures Start(1, pageBytes) == pageBytes
  {
  }

  /** A refused fill spoils at most its own page. */
  lemma RefusedKeepsGood(l: Layout, s: Snapshot, damaged: set<nat>, i: nat, state: map<nat, PageState>, lost: set<nat>)
    requires Good(l, s, damaged) && lost <= s.lost + PagesOfHeap(l, i)
    requires state == s.state || state == Changed(s.state, PagesOfHeap(l, i), Drop)
    ensures Good(l, s.(state := state, lost := lost, resident := s.resident + {i}), damaged + {i})
  {
    hide PagesOfHeap, Capacity, OsOf;
    ElsewhereGood(l, s, s.(state := state, lost := lost, resident := s.resident + {i}), damaged, i);
  }

  lemma DamageOne(l: Layout, s: Snapshot, damaged: set<nat>, i: nat)
    requires Good(l, s, damaged)
    ensures Good(l, s, damaged + {i})
  {
  }

  lemma BookedBytes(l: Layout, order: seq<nat>, resident: set<nat>, residentBytes: nat)
    requires Booked(l, order, resident, residentBytes)
    ensures residentBytes == Start(|order|, l.pageBytes) && (|order| <= 1 ==> residentBytes <= l.pageBytes)
    ensures order != [] ==> Start(|order| - 1, l.pageBytes) == residentBytes - l.pageBytes
  {
    if order != [] { OneFewer(|order|, l.pageBytes); }
  }

  lemma OneFewer(n: nat, pageBytes: nat)
    requires n > 0
    ensures Start(n - 1, pageBytes) == Start(n, pageBytes) - pageBytes
  {
    StartsAdd(n - 1, 1, pageBytes);
  }

  /** Turning the list keeps it a list of the resident pages. */
  lemma TurnedBooked(l: Layout, order: seq<nat>, resident: set<nat>, residentBytes: nat)
    requires Booked(l, order, resident, residentBytes) && order != []
    ensures Booked(l, order[1..] + [order[0]], resident, residentBytes)
    ensures residentBytes >= l.pageBytes && Booked(l, order[1..], resident - {order[0]}, residentBytes - l.pageBytes)
    ensures order[0] in resident && order[0] < l.pages
  {
    hide Start;
    OneFewer(|order|, l.pageBytes);
    var rest := order[1..];
    assert forall i :: i in order <==> i == order[0] || i in rest;
    assert order[0] !in rest;
  }

  lemma ReclaimDamages(l: Layout, s: Snapshot, damaged: set<nat>, i: nat, os: Memory)
    requires Good(l, s, damaged) && os.Keys == s.os.Keys && (forall p :: p in os ==> |os[p].bytes| == l.osPage)
    requires forall p :: p in os && p !in PagesOfHeap(l, i) ==> os[p] == s.os[p]
    ensures Good(l, s.(os := os), damaged + {i})
  {
    hide PagesOfHeap, Capacity, OsOf;
    ElsewhereGood(l, s, s.(os := os), damaged, i);
  }

  lemma FreshGood(l: Layout, s: Snapshot, clashed: bool)
    requires LayoutOk(l) && s.mem == Zeros(Capacity(l)) && |s.cells| == Capacity(l) && s.state.Keys == s.os.Keys
    requires s.resident == {}
    requires !clashed ==> Decayed(AllKnown(Zeros(Capacity(l))), s.cells)
    requires forall p :: p in s.os ==> |s.os[p].bytes| == l.osPage
    requires forall x: nat :: x < Capacity(l) ==>
               OsOf(l, x) in s.state && s.state[OsOf(l, x)].Absent? && OsOf(l, x) !in s.lost
    ensures var damaged := if clashed then AllPages(l) else {};
            Good(l, s, damaged) && Accounted(l, damaged, 0, 0, clashed) && Booked(l, [], {}, 0)
  {
    hide OsOf, InOs, HeapPage, Capacity;
    StartsAdd(0, 0, l.pageBytes);
    if clashed { AllDamaged(l, s, AllPages(l)); }
  }

  lemma GoodMapped(l: Layout, s: Snapshot, damaged: set<nat>)
    requires Good(l, s, damaged)
    ensures Shaped(l, s) && Mapped(l, s.os) && LayoutOk(l)
  {
  }
}
