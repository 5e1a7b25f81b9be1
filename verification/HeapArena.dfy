/** The first-fit allocator that hands out spans of a peer-backed range. */
module HeapArenas {
  import opened ArenaModel
  import opened Sums
  import opened Wrappers

  /** `std::map::lower_bound`: the least key that is at least `from`. */
  method LowerBound(m: Blocks, from: nat) returns (r: Option<nat>)
    ensures r.None? ==> forall o :: o in m ==> o < from
    ensures r.Some? ==> r.value in m && from <= r.value && forall o :: o in m && from <= o ==> r.value <= o
  {
    r := None;
    var left := m.Keys;
    while left != {}
      invariant left <= m.Keys
      invariant r.Some? ==> r.value in m && from <= r.value
      invariant forall o :: o in m && o !in left && from <= o ==> r.Some? && r.value <= o
    {
      var o :| o in left;
      left := left - {o};
      if from <= o && (r.None? || o < r.value) { r := Some(o); }
    }
  }

  /** `std::prev(lower_bound(from))`: the greatest key below `from`. */
  method LastBelow<V>(m: map<nat, V>, from: nat) returns (r: Option<nat>)
    ensures r.None? ==> forall o :: o in m ==> from <= o
    ensures r.Some? ==> r.value in m && r.value < from && forall o :: o in m && o < from ==> o <= r.value
  {
    r := None;
    var left := m.Keys;
    while left != {}
      invariant left <= m.Keys
      invariant r.Some? ==> r.value in m && r.value < from
      invariant forall o :: o in m && o !in left && o < from ==> r.Some? && o <= r.value
    {
      var o :| o in left;
      left := left - {o};
      if o < from && (r.None? || r.value < o) { r := Some(o); }
    }
  }

  lemma BlockInRange(free: Blocks, live: Blocks, size: nat, o: nat)
    requires Partition(free, live, size) && o in free
    ensures free[o] > 0 && o + free[o] <= size
  {
  }

  lemma LiveInRange(free: Blocks, live: Blocks, size: nat, o: nat)
    requires Partition(free, live, size) && o in live
    ensures live[o] > 0 && o + live[o] <= size
  {
  }

  lemma NoFitInNothing(live: Blocks, base: nat, bytes: nat, alignment: nat)
    requires bytes > 0 && alignment > 0
    ensures forall p: nat :: !FitsAt(live, 0, base, bytes, alignment, p)
  {
  }

  datatype Stats = Stats(inUseBytes: nat, freeBytes: nat, liveBlocks: nat, largestFreeBlock: nat)

  /** The ownership test, whose upper bound is a 64-bit sum. */
  predicate Owns(base: nat, size: nat, ptr: nat) {
    base <= ptr && ptr < (base + size) % WORD
  }

  /**
   The test is exact except at the very top of the address space, where the
   upper bound wraps to zero and the arena owns nothing.
   */
  lemma OwnsExactly(base: nat, size: nat)
    requires base < WORD && base + size <= WORD
    ensures (forall p: nat :: Owns(base, size, p) <==> base <= p < base + size) <==> (base + size < WORD || size == 0)
  {
    SmallMod(base + size, WORD);
    if base + size == WORD && size > 0 {
      assert !Owns(base, size, base);
    }
  }

  class HeapArena {
    const base: nat
    const size: nat
    var freeBlocks: Blocks
    var liveBlocks: Blocks
    var inUseBytes: nat

    /** A null base manages nothing. */
    ghost function Managed(): nat { if base == 0 then 0 else size }

    ghost predicate Valid()
      reads this
    {
      && base < WORD && base + size <= WORD
      && Partition(freeBlocks, liveBlocks, Managed())
      && inUseBytes == MapSum(liveBlocks)
      && MapSum(freeBlocks) + inUseBytes == Managed()
    }

    constructor (base: nat, size: nat)
      requires base < WORD && base + size <= WORD
      ensures Valid() && this.base == base && this.size == size
      ensures liveBlocks == map[]
    {
      this.base, this.size := base, size;
      liveBlocks, inUseBytes := map[], 0;
      freeBlocks := if base != 0 && size != 0 then map[0 := size] else map[];
      new;
      assert freeBlocks == map[] || forall x: nat :: x < size ==> 0 in freeBlocks && Covers(freeBlocks, x);
      if freeBlocks != map[] { MapSumInsert(map[], 0, size); }
    }

    /**
     Complete and lowest-address: null exactly when no aligned span of that
     length avoids every live block, and otherwise the least such span.
     */
    method Allocate(bytes: nat, alignment: nat) returns (r: Option<nat>)
      requires Valid() && bytes < WORD && alignment < WORD
      modifies this
      ensures Valid()
      ensures bytes == 0 || base == 0 || !IsPowerOfTwo(alignment) ==> r.None?
      ensures r.None? && bytes > 0 && IsPowerOfTwo(alignment) ==>
                forall p: nat :: !FitsAt(old(liveBlocks), Managed(), base, bytes, alignment, p)
      ensures r.None? ==>
                freeBlocks == old(freeBlocks) && liveBlocks == old(liveBlocks) && inUseBytes == old(inUseBytes)
      ensures r.Some? ==> bytes > 0 && IsPowerOfTwo(alignment) && base <= r.value && r.value + bytes <= base + size
      ensures r.Some? ==>
                var p := r.value - base;
                && FitsAt(old(liveBlocks), Managed(), base, bytes, alignment, p)
                && (forall q: nat :: q < p ==> !FitsAt(old(liveBlocks), Managed(), base, bytes, alignment, q))
                && liveBlocks == old(liveBlocks)[p := bytes]
                && p !in old(liveBlocks)
    {
      hide Partition, TilesAround, Bounded, Separated, Disjoint, Apart, Avoids, Covers;
      hide FitsAt, Gap, AlignedOffset, AlignUp, IsPowerOfTwo, MapSum;
      if bytes == 0 || !IsPowerOfTwo(alignment) { return None; }
      AlignmentDividesWord(alignment);
      if base == 0 {
        NoFitInNothing(liveBlocks, base, bytes, alignment);
        return None;
      }
      var it := LowerBound(freeBlocks, 0);
      if it.Some? { BlockInRange(freeBlocks, liveBlocks, size, it.value); }
      while it.Some? && TooShort(it.value, bytes, alignment)
        invariant it.Some? ==> it.value in freeBlocks
        invariant forall o :: o in freeBlocks && (it.None? || o < it.value) ==>
                    TooSmall(freeBlocks, base, bytes, alignment, o)
        invariant it.Some? ==> it.value <= size
        decreases if it.None? then 0 else 1 + size - it.value
        modifies {}
      {
        it := LowerBound(freeBlocks, it.value + 1);
        if it.Some? { BlockInRange(freeBlocks, liveBlocks, size, it.value); }
      }
      if it.None? {
        NoBlockNoFit(freeBlocks, liveBlocks, size, base, bytes, alignment);
        return None;
      }
      var start := it.value;
      BlockInRange(freeBlocks, liveBlocks, size, start);
      FirstFitIsLowest(freeBlocks, liveBlocks, size, base, bytes, alignment, start);
      var aligned := AlignedOffset(base, start, alignment);
      LeadIsGap(base, start, alignment);
      CarveKeepsPartition(freeBlocks, liveBlocks, size, start, aligned - start, bytes);
      TakeBlock(start, aligned, bytes);
      r := Some(base + aligned);
    }

    /** The block's first aligned address leaves too little of it; computed in wrapping words. */
    predicate TooShort(start: nat, bytes: nat, alignment: nat)
      requires Valid() && start in freeBlocks && 0 < alignment < WORD && base > 0 && WORD % alignment == 0
      reads this
      ensures TooShort(start, bytes, alignment) <==> TooSmall(freeBlocks, base, bytes, alignment, start)
    {
      LeadIsGap(base, start, alignment);
      SmallMod(Gap(base + start, alignment), WORD);
      var lead := (AlignedOffset(base, start, alignment) - start) % WORD;
      lead > freeBlocks[start] || freeBlocks[start] - lead < bytes
    }

    /** Moves [aligned, aligned+bytes) from the free block at `start` to the live map. */
    method TakeBlock(start: nat, aligned: nat, bytes: nat)
      requires start in freeBlocks && start <= aligned && aligned - start + bytes <= freeBlocks[start]
      modifies this
      ensures freeBlocks == Carve(old(freeBlocks), start, aligned - start, bytes)
      ensures liveBlocks == old(liveBlocks)[aligned := bytes] && inUseBytes == old(inUseBytes) + bytes
    {
      var lead := aligned - start;
      var trail := freeBlocks[start] - lead - bytes;
      freeBlocks := freeBlocks - {start};
      if lead > 0 { freeBlocks := freeBlocks[start := lead]; }
      if trail > 0 { freeBlocks := freeBlocks[aligned + bytes := trail]; }
      liveBlocks := liveBlocks[aligned := bytes];
      inUseBytes := inUseBytes + bytes;
    }

    /** Releases exactly the block handed out at `ptr`; null, foreign, interior and repeated frees do nothing. */
    method Deallocate(ptr: nat)
      requires Valid() && ptr < WORD
      modifies this
      ensures Valid()
      ensures ptr >= base && ptr - base in old(liveBlocks) && base + size < WORD ==>
                liveBlocks == old(liveBlocks) - {ptr - base}
      ensures ptr < base || ptr - base !in old(liveBlocks) || base + size == WORD ==>
                liveBlocks == old(liveBlocks) && freeBlocks == old(freeBlocks) && inUseBytes == old(inUseBytes)
    {
      hide Partition, TilesAround, Bounded, Separated, Disjoint, Apart, Avoids, Covers, MapSum;
      SmallMod(base + size, WORD);
      if ptr >= base && ptr - base in liveBlocks { LiveInRange(freeBlocks, liveBlocks, Managed(), ptr - base); }
      if ptr == 0 || !Owns(base, size, ptr) { return; }
      var offset := ptr - base;
      if offset !in liveBlocks { return; }
      var length := liveBlocks[offset];
      TakeLive(freeBlocks, liveBlocks, size, offset);
      MapSumRemove(liveBlocks, offset);
      liveBlocks := liveBlocks - {offset};
      inUseBytes := inUseBytes - length;
      MergeBack(offset, length);
    }

    /** A freed span goes back to the free map, which then partitions the range again. */
    method MergeBack(off: nat, len: nat)
      requires len > 0 && TilesAround(freeBlocks, liveBlocks, size, off, len)
      modifies `freeBlocks
      ensures Partition(freeBlocks, liveBlocks, size)
      ensures MapSum(freeBlocks) == old(MapSum(freeBlocks)) + len
    {
      hide Partition, TilesAround, Bounded, Separated, Disjoint, Apart, Avoids, Covers, Merge, MapSum;
      var prev := InsertFree(off, len);
      MergeKeepsPartition(old(freeBlocks), liveBlocks, size, off, len, prev);
    }

    /** Merges a freed span with its free neighbours on both sides. */
    method InsertFree(off: nat, len: nat) returns (ghost prev: Option<nat>)
      requires len > 0
      modifies `freeBlocks
      ensures prev.None? ==> forall o :: o in old(freeBlocks) ==> off <= o
      ensures prev.Some? ==> prev.value in old(freeBlocks) && prev.value < off
      ensures prev.Some? ==> forall o :: o in old(freeBlocks) && o < off ==> o <= prev.value
      ensures freeBlocks == Merge(old(freeBlocks), off, len, prev)
    {
      var offset, length := off, len;
      if offset + length in freeBlocks {
        var next := offset + length;
        length := length + freeBlocks[next];
        freeBlocks := freeBlocks - {next};
      }
      assert forall o :: o in old(freeBlocks) && o < off ==> o in freeBlocks;
      var below := LastBelow(freeBlocks, offset);
      if below.Some? && below.value + freeBlocks[below.value] == offset {
        offset, length := below.value, length + freeBlocks[below.value];
        freeBlocks := freeBlocks - {below.value};
      }
      freeBlocks := freeBlocks[offset := length];
      prev := below;
    }

    /** Usable bytes of the live block at `ptr`, or 0. */
    method BlockSize(ptr: nat) returns (n: nat)
      requires Valid() && ptr < WORD
      ensures n > 0 <==> ptr >= base && ptr - base in liveBlocks && base + size < WORD
      ensures n > 0 ==> n == liveBlocks[ptr - base]
    {
      SmallMod(base + size, WORD);
      if ptr == 0 || !Owns(base, size, ptr) { return 0; }
      n := if ptr - base in liveBlocks then liveBlocks[ptr - base] else 0;
    }

    /** The accumulating loop reports the conserved totals. */
    method GetStats() returns (s: Stats)
      requires Valid()
      ensures s.inUseBytes == MapSum(liveBlocks) && s.freeBytes == MapSum(freeBlocks)
      ensures s.inUseBytes + s.freeBytes == Managed() && s.liveBlocks == |liveBlocks|
      ensures forall o :: o in freeBlocks ==> freeBlocks[o] <= s.largestFreeBlock
      ensures s.largestFreeBlock == 0 || exists o :: o in freeBlocks && freeBlocks[o] == s.largestFreeBlock
      ensures liveBlocks == map[] ==> s.largestFreeBlock == Managed()
    {
      hide Partition, TilesAround, Bounded, Separated, Disjoint, Apart, Avoids, Covers, MapSum;
      var free, largest := 0, 0;
      assert MapSum(map[]) == 0 by { EmptySum(); }
      var left := freeBlocks;
      while left != map[]
        invariant left.Keys <= freeBlocks.Keys && forall o :: o in left ==> left[o] == freeBlocks[o]
        invariant free + MapSum(left) == MapSum(freeBlocks)
        invariant forall o :: o in freeBlocks && o !in left ==> freeBlocks[o] <= largest
        invariant largest == 0 || exists o :: o in freeBlocks && freeBlocks[o] == largest
        decreases left.Keys
      {
        var o :| o in left;
        MapSumRemove(left, o);
        free := free + left[o];
        largest := if left[o] > largest then left[o] else largest;
        left := left - {o};
      }
      if liveBlocks == map[] { NothingLiveIsWhole(freeBlocks, Managed()); }
      s := Stats(inUseBytes, free, |liveBlocks|, largest);
    }
  }

  /** Allocating a block, if there is room for it, and then releasing it gives back the very same free list. */
  method AllocateThenRelease(arena: HeapArena, bytes: nat, alignment: nat) returns (p: Option<nat>)
    requires arena.Valid() && bytes < WORD && alignment < WORD && arena.base + arena.size < WORD
    modifies arena
    ensures arena.Valid() && arena.liveBlocks == old(arena.liveBlocks) && arena.freeBlocks == old(arena.freeBlocks)
    ensures p.Some? <==>
            bytes > 0 && IsPowerOfTwo(alignment) &&
                exists x: nat :: FitsAt(arena.liveBlocks, arena.Managed(), arena.base, bytes, alignment, x)
  {
    hide Partition, TilesAround, Bounded, Separated, Disjoint, Apart, Avoids, Covers, FitsAt, MapSum, IsPowerOfTwo;
    p := arena.Allocate(bytes, alignment);
    if p.Some? {
      arena.Deallocate(p.value);
      assert arena.liveBlocks == old(arena.liveBlocks);
    }
    FreeIsDetermined(arena.freeBlocks, old(arena.freeBlocks), arena.liveBlocks, arena.Managed());
  }
}
