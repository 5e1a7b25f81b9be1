/**
 Page tables as values: which scattered pages make up a handle, and the flat
 array they stand for.
 */
module PageTables {
  import opened Bytes
  import opened Paging
  import opened ServerSpec
  import opened Slab

  type Image = seq<seq<byte>>

  datatype Allocation = Allocation(totalSize: nat, pages: seq<nat>, owner: nat)

  /** Logical byte `i` of an allocation. */
  function ByteOf(image: Image, ps: nat, a: Allocation, i: nat): (b: byte)
    requires ps > 0
  {
    if PageNo(i, ps) < |a.pages| && a.pages[PageNo(i, ps)] < |image| && InPage(i, ps) < |image[a.pages[PageNo(i, ps)]]|
    then image[a.pages[PageNo(i, ps)]][InPage(i, ps)]
    else 0
  }

  /** The allocation as one flat array. */
  function FlatOf(image: Image, ps: nat, a: Allocation): (s: seq<byte>)
    requires ps > 0
    ensures |s| == a.totalSize && forall i :: 0 <= i < |s| ==> s[i] == ByteOf(image, ps, a, i)
  {
    seq(a.totalSize, i requires 0 <= i < a.totalSize => ByteOf(image, ps, a, i))
  }

  function BlocksOf(allocs: map<nat, Allocation>, image: Image, ps: nat): (r: map<nat, Block>)
    requires ps > 0
  {
    map h | h in allocs :: Block(allocs[h].owner, FlatOf(image, ps, allocs[h]))
  }

  /** A page table is complete, in use and free of duplicates. */
  predicate Mapped(a: Allocation, states: seq<PageState>, ps: nat)
    requires ps > 0
  {
    && a.totalSize > 0 && |a.pages| == PagesFor(a.totalSize, ps) && Distinct(a.pages)
    && forall i :: 0 <= i < |a.pages| ==> a.pages[i] < |states| && states[a.pages[i]].ALLOCATED?
  }

  /** Every handle is mapped, and no page has two holders. */
  predicate Tables(allocs: map<nat, Allocation>, next: nat, states: seq<PageState>, ps: nat)
    requires ps > 0
  {
    && next >= 1
    && (forall h :: h in allocs ==> 1 <= h < next && Mapped(allocs[h], states, ps))
    && (forall h, k, p :: h in allocs && k in allocs && p in allocs[h].pages && p in allocs[k].pages ==> h == k)
  }

  predicate Shaped(image: Image, n: nat, ps: nat) { |image| == n && forall p :: 0 <= p < n ==> |image[p]| == ps }

  // ---- Arithmetic of places ----

  lemma PageOfByte(i: nat, size: nat, ps: nat)
    requires ps > 0 && i < size
    ensures i / ps < PagesFor(size, ps)
  {
    var a, n := i / ps, PagesFor(size, ps);
    assert i == a * ps + i % ps;
    assert size + ps - 1 == n * ps + (size + ps - 1) % ps;
    if n < a { MulMono(n, a, ps); }
  }

  lemma InRun(i: nat, l: nat, n: nat, ps: nat)
    requires ps > 0 && l % ps + n <= ps
    ensures l <= i < l + n <==> i / ps == l / ps && l % ps <= i % ps < l % ps + n
    ensures i / ps == l / ps ==> i - l == i % ps - l % ps
  {
    var a, b := i / ps, l / ps;
    assert i == a * ps + i % ps && l == b * ps + l % ps;
    if a < b { MulMono(a, b, ps); }
    if b < a { MulMono(b, a, ps); }
  }

  lemma FindPage(pages: seq<nat>, size: nat, ps: nat, i: nat)
    requires ps > 0 && |pages| == PagesFor(size, ps) && i < size
    ensures PageNo(i, ps) < |pages| && pages[PageNo(i, ps)] in pages
  {
    PageOfByte(i, size, ps);
  }

  /** A run inside one page covers exactly the positions its page and offsets name. */
  lemma RunOnPage(pages: seq<nat>, size: nat, ps: nat, i: nat, pos: nat, n: nat)
    requires ps > 0 && |pages| == PagesFor(size, ps) && Distinct(pages)
    requires i < size && pos < size && InPage(pos, ps) + n <= ps
    ensures PageNo(i, ps) < |pages| && PageNo(pos, ps) < |pages|
    ensures pos <= i < pos + n <==>
              pages[PageNo(i, ps)] == pages[PageNo(pos, ps)] && InPage(pos, ps) <= InPage(i, ps) < InPage(pos, ps) + n
    ensures pos <= i < pos + n ==> InPage(i, ps) - InPage(pos, ps) == i - pos
  {
    PageOfByte(i, size, ps);
    PageOfByte(pos, size, ps);
    InRun(i, pos, n, ps);
  }

  // ---- What page operations do to the flat array ----

  /** Bytes stay put when their pages do. */
  lemma FlatSame(image: Image, image': Image, ps: nat, a: Allocation)
    requires ps > 0 && |a.pages| == PagesFor(a.totalSize, ps) && |image| == |image'|
    requires forall p :: p in a.pages && p < |image| ==> image'[p] == image[p]
    ensures FlatOf(image', ps, a) == FlatOf(image, ps, a)
  {
    hide PagesFor, PageNo, InPage;
    forall i | 0 <= i < a.totalSize ensures ByteOf(image', ps, a, i) == ByteOf(image, ps, a, i) {
      FindPage(a.pages, a.totalSize, ps, i);
    }
  }

  /** Cleared pages read as zeros. */
  lemma FlatOfCleared(image: Image, ps: nat, a: Allocation)
    requires ps > 0 && forall p :: p in a.pages && p < |image| ==> image[p] == Zeros(ps)
    ensures FlatOf(image, ps, a) == Zeros(a.totalSize)
  {
  }

  /** Writing a run to its page writes that run of the flat array. */
  lemma FlatWriteRun(image: Image, states: seq<PageState>, ps: nat, a: Allocation, pos: nat, run: seq<byte>)
    requires ps > 0 && Mapped(a, states, ps) && Shaped(image, |states|, ps)
    requires 0 < |run| && pos + |run| <= a.totalSize && InPage(pos, ps) + |run| <= ps
    ensures PageNo(pos, ps) < |a.pages| && a.pages[PageNo(pos, ps)] < |image|
    ensures var p := a.pages[PageNo(pos, ps)];
            FlatOf(image[p := Patch(image[p], InPage(pos, ps), run)], ps, a) == Patch(FlatOf(image, ps, a), pos, run)
  {
    hide PagesFor, PageNo, InPage, Distinct;
    RunOnPage(a.pages, a.totalSize, ps, pos, pos, |run|);
    var p := a.pages[PageNo(pos, ps)];
    var image' := image[p := Patch(image[p], InPage(pos, ps), run)];
    forall i | 0 <= i < a.totalSize ensures FlatOf(image', ps, a)[i] == Patch(FlatOf(image, ps, a), pos, run)[i] {
      RunOnPage(a.pages, a.totalSize, ps, i, pos, |run|);
    }
    assert FlatOf(image', ps, a) == Patch(FlatOf(image, ps, a), pos, run);
  }

  /** Reading a run off its page reads that run of the flat array. */
  lemma FlatReadRun(image: Image, states: seq<PageState>, ps: nat, a: Allocation, pos: nat, n: nat)
    requires ps > 0 && Mapped(a, states, ps) && Shaped(image, |states|, ps)
    requires 0 < n && pos + n <= a.totalSize && InPage(pos, ps) + n <= ps
    ensures PageNo(pos, ps) < |a.pages| && a.pages[PageNo(pos, ps)] < |image|
    ensures image[a.pages[PageNo(pos, ps)]][InPage(pos, ps)..InPage(pos, ps) + n] == FlatOf(image, ps, a)[pos..pos + n]
  {
    hide PagesFor, PageNo, InPage, Distinct;
    RunOnPage(a.pages, a.totalSize, ps, pos, pos, n);
    var page := image[a.pages[PageNo(pos, ps)]];
    var x, y := page[InPage(pos, ps)..InPage(pos, ps) + n], FlatOf(image, ps, a)[pos..pos + n];
    forall k | 0 <= k < n ensures x[k] == y[k] {
      RunOnPage(a.pages, a.totalSize, ps, pos + k, pos, n);
    }
  }

  lemma PatchNothing(s: seq<byte>, off: nat)
    requires off <= |s|
    ensures Patch(s, off, []) == s
  {
  }

  lemma PatchTwice(s: seq<byte>, off: nat, d: seq<byte>, e: seq<byte>)
    requires off + |d| + |e| <= |s|
    ensures Patch(Patch(s, off, d), off + |d|, e) == Patch(s, off, d + e)
  {
  }

  // ---- What tracker operations do to the store ----

  /** A new handle on cleared pages is a zeroed block; every other block keeps its bytes. */
  lemma AddTable(allocs: map<nat, Allocation>, next: nat, states: seq<PageState>, states': seq<PageState>,
                 image: Image, image': Image, ps: nat, size: nat, pages: seq<nat>)
    requires ps > 0 && Tables(allocs, next, states, ps) && |states'| == |states| == |image| == |image'|
    requires size > 0 && |pages| == PagesFor(size, ps) && Distinct(pages)
    requires forall i :: 0 <= i < |pages| ==> pages[i] < |states| && states[pages[i]].FREE?
    requires forall p :: 0 <= p < |states| ==> states'[p] == if p in pages then ALLOCATED else states[p]
    requires forall p :: 0 <= p < |states| ==> image'[p] == if p in pages then Zeros(ps) else image[p]
    ensures Tables(allocs[next := Allocation(size, pages, 0)], next + 1, states', ps)
    ensures BlocksOf(allocs[next := Allocation(size, pages, 0)], image', ps)
            == BlocksOf(allocs, image, ps)[next := Block(0, Zeros(size))]
  {
    hide PagesFor, FlatOf, Distinct;
    var a := Allocation(size, pages, 0);
    var allocs' := allocs[next := a];
    forall h | h in allocs
      ensures Mapped(allocs[h], states', ps) && FlatOf(image', ps, allocs[h]) == FlatOf(image, ps, allocs[h])
    {
      forall p | p in allocs[h].pages ensures p !in pages {
        assert states[p].ALLOCATED?;
      }
      FlatSame(image, image', ps, allocs[h]);
    }
    FlatOfCleared(image', ps, a);
  }

  /** Dropping a handle and freeing its pages leaves every other block alone. */
  lemma DropTable(allocs: map<nat, Allocation>, next: nat, states: seq<PageState>, states': seq<PageState>,
                  image: Image, ps: nat, h: nat)
    requires ps > 0 && Tables(allocs, next, states, ps) && h in allocs && |states'| == |states|
    requires forall p :: 0 <= p < |states| ==> states'[p] == if p in allocs[h].pages then FREE else states[p]
    ensures Tables(allocs - {h}, next, states', ps)
    ensures BlocksOf(allocs - {h}, image, ps) == BlocksOf(allocs, image, ps) - {h}
    ensures Released(states, allocs[h].pages) == allocs[h].pages
  {
    hide PagesFor, FlatOf;
    ReleasesAll(states, allocs[h].pages);
    forall k | k in allocs && k != h ensures Mapped(allocs[k], states', ps) {
      forall i | 0 <= i < |allocs[k].pages| ensures allocs[k].pages[i] !in allocs[h].pages {
      }
    }
  }

  /** Writing one block changes no other. */
  lemma WriteTable(allocs: map<nat, Allocation>, next: nat, states: seq<PageState>, image: Image, image': Image,
                   ps: nat, h: nat, bytes: seq<byte>)
    requires ps > 0 && Tables(allocs, next, states, ps) && h in allocs && |image| == |image'|
    requires forall p :: 0 <= p < |image| && p !in allocs[h].pages ==> image'[p] == image[p]
    requires FlatOf(image', ps, allocs[h]) == bytes
    ensures BlocksOf(allocs, image', ps) == BlocksOf(allocs, image, ps)[h := Block(allocs[h].owner, bytes)]
  {
    hide PagesFor, FlatOf, Distinct;
    forall k | k in allocs && k != h ensures FlatOf(image', ps, allocs[k]) == FlatOf(image, ps, allocs[k]) {
      FlatSame(image, image', ps, allocs[k]);
    }
  }
}

/** Handles over scattered pages, and the request handler that drives them. */
module Tracker {
  import opened Bytes
  import opened Crc32c
  import opened Framing
  import opened PageTables
  import opened Paging
  import opened ServerSpec
  import opened Slab
  import opened Sums
  import opened Wrappers

  datatype TrackerError = InvalidArgument | PermissionDenied | OutOfBounds

  class PageTracker {
    const slab: SlabAllocator
    var allocations: map<nat, Allocation>
    var nextHandle: nat

    ghost predicate Valid()
      reads this, slab, slab.pageStates
    {
      slab.Valid() && Tables(allocations, nextHandle, slab.pageStates[..], slab.pageSize)
    }

    /** The store the page tables stand for. */
    ghost function View(): (s: Store)
      requires Valid()
      reads this, slab, slab.pageStates, slab.buffer
    {
      Store(BlocksOf(allocations, slab.Image(), slab.pageSize), nextHandle, |slab.freeList|)
    }

    constructor (slab: SlabAllocator)
      requires slab.Valid()
      ensures Valid() && this.slab == slab && View() == Store(map[], 1, |slab.freeList|)
    {
      this.slab := slab;
      allocations, nextHandle := map[], 1;
    }

    /** Who may touch the handle. */
    method CheckOwnership(handle: nat, owner: nat) returns (r: Option<TrackerError>)
      requires Valid()
      ensures r == match Access(View(), handle, owner) {
                     case OK => None
                     case INVALID_HANDLE => Some(InvalidArgument)
                     case _ => Some(PermissionDenied)
                   }
    {
      if handle !in allocations { return Some(InvalidArgument); }
      if allocations[handle].owner != 0 && allocations[handle].owner != owner { return Some(PermissionDenied); }
      r := None;
    }

    /** Reserves cleared pages for a new, still unowned handle. Zero bytes need no handle. */
    method Allocate(size: nat) returns (r: Option<nat>)
      requires Valid() && size < WORD_SIZE
      modifies this, slab, slab.buffer, slab.pageStates
      ensures Valid()
      ensures size == 0 ==> r == Some(0)
      ensures size > 0 ==>
                (r.None? <==>
                   size > WORD_SIZE - 1 - (slab.pageSize - 1) || PagesFor(size, slab.pageSize) > old(|slab.freeList|))
      ensures size == 0 || r.None? ==> View() == old(View())
      ensures size > 0 && r.Some? ==> r.value == old(nextHandle)
      ensures size > 0 && r.Some? ==>
                View() == Store(old(View()).blocks[r.value := Block(0, Zeros(size))], r.value + 1,
                                old(View()).free - PagesFor(size, slab.pageSize))
    {
      hide PagesFor, SlabAllocator.Image, Tables, BlocksOf, Zeros, Distinct;
      if size == 0 { return Some(0); }
      if size > WORD_SIZE - 1 - (slab.pageSize - 1) { return None; }
      ghost var states, image := slab.pageStates[..], slab.Image();
      var pages := slab.AllocatePages(PagesFor(size, slab.pageSize));
      if pages.None? { return None; }
      AddTable(allocations, nextHandle, states, slab.pageStates[..], image, slab.Image(), slab.pageSize, size,
               pages.value);
      r := Some(nextHandle);
      allocations := allocations[nextHandle := Allocation(size, pages.value, 0)];
      nextHandle := nextHandle + 1;
    }

    /** Returns the handle's pages to the pool. */
    method Free(handle: nat, owner: nat) returns (r: Option<TrackerError>)
      requires Valid()
      modifies this, slab, slab.pageStates
      ensures Valid() && (r.None? <==> Access(old(View()), handle, owner) == OK)
      ensures r.Some? ==>
                && r.value == (if handle in old(allocations) then PermissionDenied else InvalidArgument)
                && View() == old(View())
      ensures r.None? ==>
                View() == old(View()).(blocks := old(View()).blocks - {handle},
                                       free := old(View()).free +
                                               PagesFor(|old(View()).blocks[handle].bytes|, slab.pageSize))
    {
      r := CheckOwnership(handle, owner);
      if r.Some? { return; }
      ReleaseHandle(handle);
    }

    method ReleaseHandle(handle: nat)
      requires Valid() && handle in allocations
      modifies this, slab, slab.pageStates
      ensures Valid() && allocations == old(allocations) - {handle}
      ensures View() == old(View()).(blocks := old(View()).blocks - {handle},
                                     free := old(View()).free +
                                             PagesFor(|old(View()).blocks[handle].bytes|, slab.pageSize))
    {
      hide PagesFor, SlabAllocator.Image, Released, Distinct;
      ghost var states, image := slab.pageStates[..], slab.Image();
      slab.FreePages(allocations[handle].pages);
      DropTable(allocations, nextHandle, states, slab.pageStates[..], image, slab.pageSize, handle);
      hide Tables, BlocksOf, FlatOf, Mapped;
      allocations := allocations - {handle};
    }

    /** Writes `data` over [offset, offset + |data|) of an allocation, page by page; never stops halfway. */
    method CopyIn(a: Allocation, offset: nat, data: seq<byte>)
      requires slab.Valid() && Mapped(a, slab.pageStates[..], slab.pageSize) && offset + |data| <= a.totalSize
      modifies slab.buffer
      ensures FlatOf(slab.Image(), slab.pageSize, a) == Patch(old(FlatOf(slab.Image(), slab.pageSize, a)), offset, data)
      ensures forall p :: 0 <= p < slab.totalPages && p !in a.pages ==> slab.Image()[p] == old(slab.Image())[p]
    {
      hide PagesFor, PageNo, InPage, SlabAllocator.Image, FlatOf, Distinct, Patch;
      var ps := slab.pageSize;
      ghost var flat := FlatOf(slab.Image(), ps, a);
      PatchNothing(flat, offset);
      var done := 0;
      assert data[..0] == [];
      while done < |data|
        invariant 0 <= done <= |data|
        invariant FlatOf(slab.Image(), ps, a) == Patch(flat, offset, data[..done])
        invariant forall p :: 0 <= p < slab.totalPages && p !in a.pages ==> slab.Image()[p] == old(slab.Image())[p]
      {
        var pos := offset + done;
        var inPage := InPage(pos, ps);
        var n := if |data| - done < ps - inPage then |data| - done else ps - inPage;
        var run := data[done..done + n];
        FlatWriteRun(slab.Image(), slab.pageStates[..], ps, a, pos, run);
        PatchTwice(flat, offset, data[..done], run);
        assert data[..done] + run == data[..done + n];
        var e := slab.WritePage(a.pages[PageNo(pos, ps)], inPage, run);
        assert e.None?;
        done := done + n;
      }
      assert data[..done] == data;
    }

    /** Reads [offset, offset + size) of an allocation, page by page. */
    method CopyOut(a: Allocation, offset: nat, size: nat) returns (out: seq<byte>)
      requires slab.Valid() && Mapped(a, slab.pageStates[..], slab.pageSize) && offset + size <= a.totalSize
      ensures out == FlatOf(slab.Image(), slab.pageSize, a)[offset..offset + size]
    {
      hide PagesFor, PageNo, InPage, SlabAllocator.Image, FlatOf, Distinct;
      var ps := slab.pageSize;
      ghost var flat := FlatOf(slab.Image(), ps, a);
      out := [];
      while |out| < size
        invariant |out| <= size && out == flat[offset..offset + |out|]
        decreases size - |out|
      {
        var pos := offset + |out|;
        var inPage := InPage(pos, ps);
        var n := if size - |out| < ps - inPage then size - |out| else ps - inPage;
        FlatReadRun(slab.Image(), slab.pageStates[..], ps, a, pos, n);
        var e, run := slab.ReadPage(a.pages[PageNo(pos, ps)], inPage, n);
        assert e.None?;
        out := out + run;
      }
    }

    /** Lays `data` over the handle's bytes, or refuses without touching anything. */
    method Write(handle: nat, offset: nat, data: seq<byte>, owner: nat) returns (r: Option<TrackerError>)
      requires Valid()
      modifies slab.buffer
      ensures Valid()
      ensures data == [] ==> r.None? && View() == old(View())
      ensures data != [] && Access(old(View()), handle, owner) != OK ==>
                r == Some(if handle in allocations then PermissionDenied else InvalidArgument) && View() == old(View())
      ensures data != [] && Access(old(View()), handle, owner) == OK ==>
                var b := old(View()).blocks[handle];
                if offset > |b.bytes| || |data| > |b.bytes| - offset then
                     r == Some(OutOfBounds) && View() == old(View())
                else r.None? &&
                     View() ==
                     old(View()).(blocks := old(View()).blocks[handle := b.(bytes := Patch(b.bytes, offset, data))])
    {
      hide PagesFor, SlabAllocator.Image, FlatOf, Distinct, Patch;
      if data == [] { return None; }
      r := CheckOwnership(handle, owner);
      if r.Some? { return; }
      var a := allocations[handle];
      if offset > a.totalSize || |data| > a.totalSize - offset { return Some(OutOfBounds); }
      ghost var image := slab.Image();
      CopyIn(a, offset, data);
      WriteTable(allocations, nextHandle, slab.pageStates[..], image, slab.Image(), slab.pageSize, handle,
                 Patch(FlatOf(image, slab.pageSize, a), offset, data));
    }

    /** Reads a range of the handle's bytes. */
    method Read(handle: nat, offset: nat, size: nat, owner: nat) returns (r: Option<TrackerError>, out: seq<byte>)
      requires Valid()
      ensures size == 0 ==> r.None? && out == []
      ensures size > 0 && Access(View(), handle, owner) != OK ==>
                r == Some(if handle in allocations then PermissionDenied else InvalidArgument)
      ensures size > 0 && Access(View(), handle, owner) == OK ==>
                var bytes := View().blocks[handle].bytes;
                if offset > |bytes| || size > |bytes| - offset then r == Some(OutOfBounds)
                else r.None? && out == bytes[offset..offset + size]
    {
      hide PagesFor, SlabAllocator.Image, FlatOf, Distinct;
      out := [];
      if size == 0 { return None, out; }
      r := CheckOwnership(handle, owner);
      if r.Some? { return; }
      var a := allocations[handle];
      if offset > a.totalSize || size > a.totalSize - offset { return Some(OutOfBounds), out; }
      out := CopyOut(a, offset, size);
    }

    method AssignOwner(handle: nat, owner: nat)
      requires Valid()
      modifies this
      ensures Valid()
      ensures handle in old(allocations) ==>
                View() ==
                    old(View()).(blocks := old(View()).blocks[handle := old(View()).blocks[handle].(owner := owner)])
      ensures handle !in old(allocations) ==> View() == old(View())
    {
      hide PagesFor, SlabAllocator.Image, Distinct;
      if handle in allocations {
        ghost var a := allocations[handle];
        allocations := allocations[handle := allocations[handle].(owner := owner)];
        SameTable(a, a.(owner := owner), slab.Image(), slab.pageSize);
      }
    }

    /** The sweep on disconnect. */
    method FreeAllForOwner(owner: nat)
      requires Valid()
      modifies this, slab, slab.pageStates
      ensures Valid() && View() == Disconnect(slab.pageSize, old(View()), owner)
    {
      if owner == 0 { return; }
      hide PagesFor, SlabAllocator.Image, FlatOf, Distinct, Held, Mapped, Tables, Kept, Gone;
      ghost var start := View();
      var left := allocations.Keys;
      SweepStart(start.blocks, owner, slab.pageSize);
      while left != {}
        invariant Valid() && left <= allocations.Keys
        invariant View().blocks == Kept(start.blocks, left, owner)
        invariant View().next == start.next
        invariant View().free == start.free + Held(Gone(start.blocks, left, owner), slab.pageSize)
      {
        var h :| h in left;
        SweepStep(start.blocks, left, owner, h, slab.pageSize);
        left := left - {h};
        if allocations[h].owner == owner { ReleaseHandle(h); }
      }
      SweepEnd(start.blocks, owner);
    }
  }

  /** The blocks that stay, and those that go, once the handles outside `left` have been looked at. */
  ghost function Kept(blocks: map<nat, Block>, left: set<nat>, owner: nat): (r: map<nat, Block>) {
    map h | h in blocks && (h in left || blocks[h].owner != owner) :: blocks[h]
  }

  ghost function Gone(blocks: map<nat, Block>, left: set<nat>, owner: nat): (r: map<nat, Block>) {
    map h | h in blocks && h !in left && blocks[h].owner == owner :: blocks[h]
  }

  lemma SweepStart(blocks: map<nat, Block>, owner: nat, ps: nat)
    requires ps > 0
    ensures Kept(blocks, blocks.Keys, owner) == blocks && Held(Gone(blocks, blocks.Keys, owner), ps) == 0
  {
    HeldEmpty(ps);
    assert Gone(blocks, blocks.Keys, owner) == map[];
  }

  lemma SweepStep(blocks: map<nat, Block>, left: set<nat>, owner: nat, h: nat, ps: nat)
    requires ps > 0 && h in left && h in Kept(blocks, left, owner)
    ensures Kept(blocks, left, owner)[h] == blocks[h]
    ensures blocks[h].owner == owner ==>
              Kept(blocks, left - {h}, owner) == Kept(blocks, left, owner) - {h} &&
              Held(Gone(blocks, left - {h}, owner), ps) ==
                  Held(Gone(blocks, left, owner), ps) + PagesFor(|blocks[h].bytes|, ps)
    ensures blocks[h].owner != owner ==>
              Kept(blocks, left - {h}, owner) == Kept(blocks, left, owner) &&
                  Gone(blocks, left - {h}, owner) == Gone(blocks, left, owner)
  {
    hide PagesFor, Held;
    if blocks[h].owner == owner {
      assert Gone(blocks, left - {h}, owner) == Gone(blocks, left, owner)[h := blocks[h]];
      HeldInsert(Gone(blocks, left, owner), h, blocks[h], ps);
    }
  }

  lemma SweepEnd(blocks: map<nat, Block>, owner: nat)
    ensures Kept(blocks, {}, owner) == NotOwnedBy(blocks, owner) && Gone(blocks, {}, owner) == OwnedBy(blocks, owner)
  {
  }

  lemma SameTable(a: Allocation, b: Allocation, image: Image, ps: nat)
    requires ps > 0 && a.pages == b.pages && a.totalSize == b.totalSize
    ensures FlatOf(image, ps, a) == FlatOf(image, ps, b)
  {
  }

  lemma NoHandleZero(tracker: PageTracker)
    requires tracker.Valid()
    ensures 0 !in tracker.allocations
  {
  }

  /** Answers one decoded request exactly as the flat store would. */
  method ProcessRequest(tracker: PageTracker, session: nat, req: Request) returns (resp: Response)
    requires tracker.Valid() && session != 0
    requires req.op.Alloc? ==> req.op.size < WORD_SIZE
    modifies tracker, tracker.slab, tracker.slab.buffer, tracker.slab.pageStates
    ensures tracker.Valid()
    ensures (tracker.View(), resp) == Serve(tracker.slab.pageSize, old(tracker.View()), session, req)
  {
    hide PagesFor, SlabAllocator.Image, FlatOf, Distinct, Checksum, Patch, Tables, Zeros;
    if req.version != PROTOCOL_VERSION { return Say(VERSION_MISMATCH); }
    match req.op
    case Alloc(size) =>
      var h := tracker.Allocate(size);
      if h.None? { return Say(OUT_OF_MEMORY); }
      assert size == 0 ==> 0 !in tracker.allocations by { NoHandleZero(tracker); }
      tracker.AssignOwner(h.value, session);
      assert size > 0 ==> tracker.View().blocks == old(tracker.View()).blocks[h.value := Block(session, Zeros(size))];
      resp := Say(OK).(handle := h.value);
    case Free(handle) =>
      var e := tracker.Free(handle, session);
      resp := Say(StatusOf(e));
    case Write(handle, offset, data, checksum) =>
      if data.None? { return Say(ERROR_GENERIC); }
      var crc := Compute(data.value, Falses(32));
      if crc != checksum { return Say(CHECKSUM_MISMATCH); }
      var e := tracker.Write(handle, offset, data.value, session);
      resp := Say(StatusOf(e));
    case Read(handle, offset, size) =>
      if size > MAX_MESSAGE_SIZE { return Say(ERROR_GENERIC); }
      var e, out := tracker.Read(handle, offset, size, session);
      if e.Some? { return Say(StatusOf(e)); }
      var crc := Compute(out, Falses(32));
      resp := if size > 0 then Say(OK).(data := Some(out), checksum := crc) else Say(OK);
    case Ping => resp := Say(OK);
    case Unknown => resp := Say(ERROR_GENERIC);
  }

  /** How exceptions map to status codes. */
  function StatusOf(e: Option<TrackerError>): (s: Status) {
    match e
    case None => OK
    case Some(InvalidArgument) => INVALID_HANDLE
    case Some(PermissionDenied) => PERMISSION_DENIED
    case Some(OutOfBounds) => ERROR_GENERIC
  }
}
