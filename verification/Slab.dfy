/** The daemon's page pool: one buffer cut into fixed pages, and a free list. */
module Slab {
  import opened Bytes
  import opened Paging
  import opened Wrappers

  datatype PageState = FREE | ALLOCATED

  datatype PageError = OutOfRange | Unallocated

  lemma FullPatch(s: seq<byte>, data: seq<byte>)
    requires |s| == |data|
    ensures Patch(s, 0, data) == data
  {
  }

  lemma SliceOfSlice(s: seq<byte>, start: nat, len: nat, off: nat, size: nat)
    requires start + len <= |s| && off + size <= len
    ensures s[start..start + len][off..off + size] == s[start + off..start + off + size]
  {
    var a, b := s[start..start + len][off..off + size], s[start + off..start + off + size];
    forall k | 0 <= k < size ensures a[k] == b[k] {
      assert a[k] == s[start..start + len][off + k] == s[start + (off + k)];
    }
    assert a == b;
  }

  predicate Distinct(s: seq<nat>) { forall i, j :: 0 <= i < j < |s| ==> s[i] != s[j] }

  /** A reversed tail of a duplicate-free list has no duplicates, and shares nothing with the rest. */
  lemma TailsAreDistinct(list: seq<nat>, pages: seq<nat>)
    requires Distinct(list) && |pages| <= |list|
    requires forall k :: 0 <= k < |pages| ==> pages[k] == list[|list| - 1 - k]
    ensures Distinct(pages)
    ensures forall k :: 0 <= k < |pages| ==> pages[k] in list && pages[k] !in list[..|list| - |pages|]
  {
  }

  /** The pages a release actually frees: those in range and allocated, each once. */
  function Released(states: seq<PageState>, pages: seq<nat>): (r: seq<nat>)
    decreases |pages|
  {
    if pages == [] then []
    else if pages[0] < |states| && states[pages[0]].ALLOCATED?
    then [pages[0]] + Released(states[pages[0] := FREE], pages[1..])
    else Released(states, pages[1..])
  }

  /** A list of distinct allocated pages is released as a whole. */
  lemma {:induction false} ReleasesAll(states: seq<PageState>, pages: seq<nat>)
    requires Distinct(pages)
    requires forall i :: 0 <= i < |pages| ==> pages[i] < |states| && states[pages[i]].ALLOCATED?
    ensures Released(states, pages) == pages
    decreases |pages|
  {
    if pages != [] { ReleasesAll(states[pages[0] := FREE], pages[1..]); }
  }

  class SlabAllocator {
    const pageSize: nat
    const totalPages: nat
    const buffer: array<byte>
    const pageStates: array<PageState>
    var freeList: seq<nat>

    ghost predicate Valid()
      reads this, pageStates
    {
      && pageSize > 0 && buffer.Length == Start(totalPages, pageSize) && pageStates.Length == totalPages
      && Distinct(freeList)
      && (forall i :: 0 <= i < |freeList| ==> freeList[i] < totalPages && pageStates[freeList[i]].FREE?)
      && (forall p :: 0 <= p < totalPages && pageStates[p].FREE? ==> p in freeList)
    }

    /** The contents of page `p`. */
    ghost function Page(p: nat): (s: seq<byte>)
      requires p < totalPages && buffer.Length == Start(totalPages, pageSize)
      reads buffer
      ensures |s| == pageSize
    {
      PagesInOrder(p, totalPages, pageSize);
      buffer[Start(p, pageSize)..Start(p, pageSize) + pageSize]
    }

    /** The contents of the first `n` pages. */
    ghost function PagesTo(n: nat): (s: seq<seq<byte>>)
      requires n <= totalPages && buffer.Length == Start(totalPages, pageSize)
      reads buffer
      ensures |s| == n && forall p :: 0 <= p < n ==> s[p] == Page(p)
    {
      if n == 0 then [] else PagesTo(n - 1) + [Page(n - 1)]
    }

    /** The contents of the whole pool, page by page. */
    ghost function Image(): (s: seq<seq<byte>>)
      requires buffer.Length == Start(totalPages, pageSize)
      reads buffer
      ensures |s| == totalPages && forall p :: 0 <= p < totalPages ==> s[p] == Page(p) && |s[p]| == pageSize
    {
      PagesTo(totalPages)
    }

    /** All pages free. The buffer's contents are whatever the memory held. */
    constructor (totalPages: nat, pageSize: nat)
      requires pageSize > 0
      ensures Valid() && this.totalPages == totalPages && this.pageSize == pageSize
      ensures |freeList| == totalPages && fresh(buffer) && fresh(pageStates)
      ensures forall p :: 0 <= p < totalPages ==> pageStates[p] == FREE
    {
      this.totalPages, this.pageSize := totalPages, pageSize;
      buffer := new byte[Start(totalPages, pageSize)];
      pageStates := new PageState[totalPages](_ => ALLOCATED);
      freeList := [];
      new;
      var i := totalPages;
      while i > 0
        invariant 0 <= i <= totalPages && |freeList| == totalPages - i
        invariant forall k :: 0 <= k < |freeList| ==> freeList[k] == totalPages - 1 - k
        invariant forall p :: 0 <= p < totalPages ==> pageStates[p] == if p < i then ALLOCATED else FREE
      {
        pageStates[i - 1] := FREE;
        freeList := freeList + [i - 1];
        i := i - 1;
      }
      forall p | 0 <= p < totalPages ensures p in freeList { assert freeList[totalPages - 1 - p] == p; }
    }

    /** Refuses bad sizes; otherwise as many whole pages as fit. */
    static method Create(totalSize: nat, pageSize: nat) returns (r: Option<SlabAllocator>)
      ensures r.None? <==> pageSize == 0 || totalSize < pageSize
      ensures r.Some? ==>
                && fresh(r.value) && r.value.Valid() && r.value.pageSize == pageSize
                && r.value.totalPages == totalSize / pageSize
    {
      if pageSize == 0 { return None; }
      if totalSize / pageSize == 0 { return None; }
      var s := new SlabAllocator(totalSize / pageSize, pageSize);
      r := Some(s);
    }

    /** Takes pages off the end of the free list, cleared; all or nothing. */
    method AllocatePages(count: nat) returns (r: Option<seq<nat>>)
      requires Valid()
      modifies this, buffer, pageStates
      ensures Valid()
      ensures r.None? <==> old(|freeList|) < count
      ensures r.None? ==> freeList == old(freeList) && Image() == old(Image()) && pageStates[..] == old(pageStates[..])
      ensures r.Some? ==>
                && |r.value| == count && Distinct(r.value)
                && freeList == old(freeList)[..old(|freeList|) - count]
                && (forall i :: 0 <= i < count ==>
                      r.value[i] < totalPages && r.value[i] in old(freeList) && r.value[i] !in freeList)
                && (forall p :: 0 <= p < totalPages ==>
                      pageStates[p] == if p in r.value then ALLOCATED else old(pageStates[p]))
                && (forall p :: 0 <= p < totalPages ==>
                      Image()[p] == if p in r.value then Zeros(pageSize) else old(Image())[p])
    {
      hide Start, Image, Page, Distinct, Zeros, Valid;
      Shape();
      if |freeList| < count { return None; }
      var pages: seq<nat> := [];
      for i := 0 to count
        invariant Valid() && |pages| == i && forall k :: 0 <= k < i ==> pages[k] < totalPages
        invariant freeList == old(freeList)[..old(|freeList|) - i]
        invariant forall k :: 0 <= k < i ==> pages[k] == old(freeList)[old(|freeList|) - 1 - k]
        invariant forall p :: 0 <= p < totalPages ==>
                    pageStates[p] == if p in pages then ALLOCATED else old(pageStates[p])
        invariant forall p :: 0 <= p < totalPages ==>
                    Image()[p] == if p in pages then Zeros(pageSize) else old(Image())[p]
      {
        var p := TakePage();
        pages := pages + [p];
      }
      TailsAreDistinct(old(freeList), pages);
      r := Some(pages);
    }

    lemma Shape()
      requires Valid()
      ensures buffer.Length == Start(totalPages, pageSize) && pageStates.Length == totalPages && Distinct(freeList)
    {
    }

    method TakePage() returns (p: nat)
      requires Valid() && |freeList| > 0
      modifies this, buffer, pageStates
      ensures Valid() && p == old(freeList)[old(|freeList|) - 1] && freeList == old(freeList)[..old(|freeList|) - 1]
      ensures p < totalPages && old(pageStates[p]).FREE?
      ensures pageStates[..] == old(pageStates[..])[p := ALLOCATED]
      ensures Image() == old(Image())[p := Zeros(pageSize)]
    {
      hide Start, Image, Page, Zeros;
      p := freeList[|freeList| - 1];
      freeList := freeList[..|freeList| - 1];
      pageStates[p] := ALLOCATED;
      forall q | 0 <= q < totalPages && pageStates[q].FREE? ensures q in freeList {
        assert q in old(freeList);
      }
      FullPatch(Image()[p], Zeros(pageSize));
      Overwrite(p, 0, Zeros(pageSize));
    }

    /** Copies bytes into one page of the buffer. */
    method Overwrite(p: nat, off: nat, data: seq<byte>)
      requires p < totalPages && pageSize > 0 && buffer.Length == Start(totalPages, pageSize)
      requires off + |data| <= pageSize
      modifies buffer
      ensures Image() == old(Image())[p := Patch(old(Image())[p], off, data)]
    {
      hide Start, Image, PagesTo;
      PagesInOrder(p, totalPages, pageSize);
      var start := Start(p, pageSize) + off;
      forall k | 0 <= k < |data| { buffer[start + k] := data[k]; }
      assert Page(p) == Patch(old(Page(p)), off, data);
      forall q | 0 <= q < totalPages && q != p ensures Page(q) == old(Page(q)) {
        PagesInOrder(q, totalPages, pageSize);
        if q < p { PagesInOrder(q, p, pageSize); } else { PagesInOrder(p, q, pageSize); }
      }
    }

    /** Gives pages back; anything out of range or already free is skipped. */
    method FreePages(pages: seq<nat>)
      requires Valid()
      modifies this, pageStates
      ensures Valid()
      ensures freeList == old(freeList) + Released(old(pageStates[..]), pages)
      ensures forall p :: 0 <= p < totalPages ==> pageStates[p] == if p in pages then FREE else old(pageStates[p])
    {
      ghost var before := pageStates[..];
      for i := 0 to |pages|
        invariant Valid()
        invariant freeList + Released(pageStates[..], pages[i..]) == old(freeList) + Released(before, pages)
        invariant forall p :: 0 <= p < totalPages ==> pageStates[p] == if p in pages[..i] then FREE else before[p]
      {
        var p := pages[i];
        assert pages[i..][1..] == pages[i + 1..] && pages[..i + 1] == pages[..i] + [p];
        if p < totalPages {
          if pageStates[p] == ALLOCATED {
            ghost var now := pageStates[..];
            assert p !in freeList;
            pageStates[p] := FREE;
            assert pageStates[..] == now[p := FREE];
            freeList := freeList + [p];
          }
        }
      }
      assert pages[..|pages|] == pages && pages[|pages|..] == [];
    }

    /** Overwrites part of one page. */
    method WritePage(p: nat, off: nat, data: seq<byte>) returns (r: Option<PageError>)
      requires Valid()
      modifies buffer
      ensures r == if p >= totalPages || off > pageSize || |data| > pageSize - off then Some(OutOfRange)
                   else if pageStates[p].FREE? then Some(Unallocated) else None
      ensures r.Some? ==> Image() == old(Image())
      ensures r.None? ==> Image() == old(Image())[p := Patch(old(Image())[p], off, data)]
    {
      if p >= totalPages || off > pageSize || |data| > pageSize - off { return Some(OutOfRange); }
      if pageStates[p] != ALLOCATED { return Some(Unallocated); }
      Overwrite(p, off, data);
      r := None;
    }

    /** Copies part of one page out. */
    method ReadPage(p: nat, off: nat, size: nat) returns (r: Option<PageError>, data: seq<byte>)
      requires Valid()
      ensures r == if p >= totalPages || off > pageSize || size > pageSize - off then Some(OutOfRange)
                   else if pageStates[p].FREE? then Some(Unallocated) else None
      ensures r.None? ==> data == Image()[p][off..off + size]
    {
      data := [];
      if p >= totalPages || off > pageSize || size > pageSize - off { return Some(OutOfRange), data; }
      if pageStates[p] != ALLOCATED { return Some(Unallocated), data; }
      hide Start;
      PagesInOrder(p, totalPages, pageSize);
      var start := Start(p, pageSize) + off;
      data := buffer[start..start + size];
      SliceOfSlice(buffer[..], Start(p, pageSize), pageSize, off, size);
      assert Image()[p] == Page(p) == buffer[..][Start(p, pageSize)..Start(p, pageSize) + pageSize];
      r := None;
    }
  }
}
