/**
 The arena's bookkeeping seen as values: two maps from offset to length, one of
 free and one of live blocks, that together tile the managed range.
 */
module ArenaModel {
  import opened Sums
  import opened Wrappers

  type Blocks = map<nat, nat>

  /** 2^64: addresses and sizes are 64-bit words. */
  const WORD: nat := 0x1_0000_0000_0000_0000

  /** Byte `x` lies inside one of the blocks. */
  ghost predicate Covers(m: Blocks, x: nat) {
    exists o :: o in m && o <= x < o + m[o]
  }

  ghost predicate Bounded(m: Blocks, size: nat) {
    forall o :: o in m ==> m[o] > 0 && o + m[o] <= size
  }

  /** No two blocks overlap and, moreover, no two touch. */
  ghost predicate Separated(m: Blocks) {
    forall o, p :: o in m && p in m && o < p ==> o + m[o] < p
  }

  ghost predicate Disjoint(m: Blocks) {
    forall o, p :: o in m && p in m && o < p ==> o + m[o] <= p
  }

  ghost predicate Apart(a: Blocks, b: Blocks) {
    forall o, p :: o in a && p in b ==> o + a[o] <= p || p + b[p] <= o
  }

  /** [off, off+len) meets no block of `m`. */
  ghost predicate Avoids(m: Blocks, off: nat, len: nat) {
    forall o :: o in m ==> o + m[o] <= off || off + len <= o
  }

  /**
   Free and live blocks tile [0, size) except for the hole [off, off+len): the
   state between taking a block out of one map and putting it into the other.
   */
  ghost predicate TilesAround(free: Blocks, live: Blocks, size: nat, off: nat, len: nat) {
    && Bounded(free, size) && Bounded(live, size)
    && Separated(free) && Disjoint(live) && Apart(free, live)
    && off + len <= size && Avoids(free, off, len) && Avoids(live, off, len)
    && forall x: nat :: x < size ==> Covers(free, x) || Covers(live, x) || off <= x < off + len
  }

  /** Free and live blocks partition [0, size), and no two free blocks touch. */
  ghost predicate Partition(free: Blocks, live: Blocks, size: nat) {
    && Bounded(free, size) && Bounded(live, size)
    && Separated(free) && Disjoint(live) && Apart(free, live)
    && forall x: nat :: x < size ==> Covers(free, x) || Covers(live, x)
  }

  /** [p, p+bytes) is an aligned span of the range that avoids every live block. */
  ghost predicate FitsAt(live: Blocks, size: nat, base: nat, bytes: nat, alignment: nat, p: nat)
    requires alignment > 0
  {
    p + bytes <= size && (base + p) % alignment == 0 && Avoids(live, p, bytes)
  }

  // ---- Alignment ----

  predicate IsPowerOfTwo(n: nat) {
    n == 1 || (n > 1 && n % 2 == 0 && IsPowerOfTwo(n / 2))
  }

  /** The source's mask arithmetic, in 64-bit words: add alignment - 1, clear the low bits. */
  function AlignUp(value: nat, alignment: nat): (r: nat)
    requires alignment > 0
  {
    var t := (value + (alignment - 1)) % WORD;
    t - t % alignment
  }

  /** Offset of the first aligned address in the block at `start`, as a wrapping difference. */
  function AlignedOffset(base: nat, start: nat, alignment: nat): (r: nat)
    requires alignment > 0
  {
    (AlignUp((base + start) % WORD, alignment) - base) % WORD
  }

  /** Distance from `v` to the next multiple of `a`. */
  function Gap(v: nat, a: nat): (g: nat)
    requires a > 0
  {
    if v % a == 0 then 0 else a - v % a
  }

  lemma ModOf(k: int, a: nat, r: nat)
    requires r < a
    ensures (k * a + r) % a == r && (k * a + r) / a == k
  {
    var q, s := (k * a + r) / a, (k * a + r) % a;
    assert q * a + s == k * a + r;
    assert (k - q) * a == k * a - q * a == s - r;
    assert (q - k) * a == q * a - k * a == r - s;
    if q < k { MulAtLeast(k - q, a); }
    if q > k { MulAtLeast(q - k, a); }
  }

  lemma MulAtLeast(c: int, a: nat)
    requires c >= 1
    ensures c * a >= a
  {
    assert (c - 1) * a >= 0;
    assert c * a == (c - 1) * a + a;
  }

  /** The gap reaches a multiple, and no smaller step does. */
  lemma GapIsLeast(v: nat, a: nat, j: nat)
    requires a > 0
    ensures (v + Gap(v, a)) % a == 0
    ensures (v + j) % a == 0 ==> j >= Gap(v, a)
  {
    var k, r := v / a, v % a;
    assert v == k * a + r;
    if r == 0 { ModOf(k, a, 0); } else {
      assert v + (a - r) == (k + 1) * a + 0;
      ModOf(k + 1, a, 0);
      if j < a - r {
        assert v + j == k * a + (r + j);
        ModOf(k, a, r + j);
      }
    }
  }

  lemma {:induction false} PowerOfTwoDivides(a: nat, n: nat)
    requires IsPowerOfTwo(a) && IsPowerOfTwo(n) && a <= n
    ensures n % a == 0
    decreases n
  {
    if a > 1 {
      PowerOfTwoDivides(a / 2, n / 2);
      var h, c := a / 2, (n / 2) / (a / 2);
      assert n / 2 == c * h;
      assert n == c * a by { assert n == 2 * (c * h); assert c * (2 * h) == 2 * (c * h); }
      ModOf(c, a, 0);
    }
  }

  lemma {:induction false} PowersMultiply(m: nat, n: nat)
    requires IsPowerOfTwo(m) && IsPowerOfTwo(n)
    ensures IsPowerOfTwo(m * n)
  {
    if m > 1 {
      PowersMultiply(m / 2, n);
      assert m * n == 2 * (m / 2 * n);
      ModOf(m / 2 * n, 2, 0);
      assert m / 2 * n >= 1 by { MulAtLeast(m / 2, n); }
    }
  }

  lemma WordIsPowerOfTwo()
    ensures IsPowerOfTwo(WORD)
  {
    assert IsPowerOfTwo(0x1_0000);
    PowersMultiply(0x1_0000, 0x1_0000);
    PowersMultiply(0x1_0000_0000, 0x1_0000_0000);
  }

  /** Above a multiple `m` by less than `a`, the remainder is the distance. */
  lemma AboveMultiple(t: nat, m: nat, a: nat)
    requires a > 0 && m % a == 0 && m <= t < m + a
    ensures t % a == t - m
  {
    assert m == m / a * a + 0;
    ModOf(m / a, a, t - m);
  }

  /** Word rounding up gives the next multiple, or 0 when that multiple is the word size `w`. */
  lemma RoundUpWraps(v: nat, a: nat, w: nat, t: nat)
    requires 0 < a && v < w && w % a == 0
    requires t == if v + (a - 1) < w then v + (a - 1) else v + (a - 1) - w
    ensures v + Gap(v, a) <= w
    ensures t - t % a == if v + Gap(v, a) == w then 0 else v + Gap(v, a)
  {
    var n := v + Gap(v, a);
    GapIsLeast(v, a, w - v);
    if v + (a - 1) < w {
      AboveMultiple(t, n, a);
    } else {
      AboveMultiple(w, n, a);
      AboveMultiple(t, 0, a);
    }
  }

  lemma SmallMod(u: nat, w: nat)
    requires u < 2 * w
    ensures u % w == if u < w then u else u - w
  {
    if u < w { ModOf(0, w, u); } else { ModOf(1, w, u - w); }
  }

  lemma AlignUpIs(v: nat, a: nat)
    requires v < WORD && 0 < a < WORD && WORD % a == 0
    ensures v + Gap(v, a) <= WORD
    ensures AlignUp(v, a) == if v + Gap(v, a) == WORD then 0 else v + Gap(v, a)
  {
    SmallMod(v + (a - 1), WORD);
    RoundUpWraps(v, a, WORD, (v + (a - 1)) % WORD);
  }

  lemma AlignmentDividesWord(a: nat)
    requires IsPowerOfTwo(a) && a < WORD
    ensures 0 < a && WORD % a == 0
  {
    WordIsPowerOfTwo();
    PowerOfTwoDivides(a, WORD);
  }

  /** Wrap-around never changes the answer: the computed lead is the true gap. */
  lemma LeadIsGap(base: nat, start: nat, a: nat)
    requires 0 < base && base + start < WORD && 0 < a < WORD && WORD % a == 0
    ensures base + start + Gap(base + start, a) <= WORD
    ensures AlignedOffset(base, start, a) == start + Gap(base + start, a)
  {
    SmallMod(base + start, WORD);
    AlignUpIs(base + start, a);
    WrapDifference(base, start + Gap(base + start, a), WORD);
  }

  lemma WrapDifference(base: nat, off: nat, w: nat)
    requires 0 < base && base + off <= w
    ensures ((if base + off == w then 0 else base + off) - base) % w == off
  {
    ModOf(-1, w, off);
    ModOf(0, w, off);
  }

  // ---- Splitting and merging ----

  /** A span that avoids every live block lies inside a single free block. */
  lemma SpanInOneBlock(free: Blocks, live: Blocks, size: nat, p: nat, bytes: nat) returns (o: nat)
    requires Partition(free, live, size)
    requires bytes > 0 && p + bytes <= size && Avoids(live, p, bytes)
    ensures o in free && o <= p && p + bytes <= o + free[o]
  {
    assert !Covers(live, p);
    o :| o in free && o <= p < o + free[o];
    var e := o + free[o];
    assert e < size ==> Covers(free, e) || Covers(live, e);
  }

  /** Taking a free block out leaves exactly its span uncovered. */
  lemma TakeOut(free: Blocks, live: Blocks, size: nat, o: nat)
    requires Partition(free, live, size) && o in free
    ensures TilesAround(free - {o}, live, size, o, free[o])
  {
    forall x: nat | x < size ensures Covers(free - {o}, x) || Covers(live, x) || o <= x < o + free[o] {
      if Covers(free, x) {
        var q :| q in free && q <= x < q + free[q];
        assert q != o ==> q in free - {o};
      }
    }
  }

  /** Part of the hole is given to the live map. */
  lemma GiveLive(free: Blocks, live: Blocks, size: nat, off: nat, len: nat, p: nat, bytes: nat)
    requires TilesAround(free, live, size, off, len)
    requires p == off && 0 < bytes <= len
    ensures TilesAround(free, live[p := bytes], size, off + bytes, len - bytes)
  {
    var live' := live[p := bytes];
    forall x: nat | x < size ensures Covers(free, x) || Covers(live', x) || off + bytes <= x < off + len {
      if Covers(live, x) {
        var q :| q in live && q <= x < q + live[q];
        assert q in live' && live'[q] == live[q];
      } else if off <= x < off + bytes {
        assert p in live';
      }
    }
  }

  /** The head of the hole becomes a free block, when nothing free ends where it starts. */
  lemma GiveFree(free: Blocks, live: Blocks, size: nat, off: nat, len: nat, n: nat)
    requires TilesAround(free, live, size, off, len)
    requires 0 < n <= len
    requires forall o :: o in free ==> o + free[o] != off && o != off + n
    ensures TilesAround(free[off := n], live, size, off + n, len - n)
    ensures off !in free
  {
    assert off !in free;
    var free' := free[off := n];
    forall x: nat | x < size ensures Covers(free', x) || Covers(live, x) || off + n <= x < off + len {
      if Covers(free, x) {
        var q :| q in free && q <= x < q + free[q];
        assert q in free' && free'[q] == free[q];
      } else if off <= x < off + n {
        assert off in free';
      }
    }
  }

  /** A free block touching the hole on either side is absorbed into it. */
  lemma Absorb(free: Blocks, live: Blocks, size: nat, off: nat, len: nat, o: nat, off': nat)
    requires TilesAround(free, live, size, off, len) && o in free
    requires (o == off + len && off' == off) || (o + free[o] == off && off' == o)
    ensures TilesAround(free - {o}, live, size, off', len + free[o])
    ensures forall q :: q in free - {o} ==> (o == off + len ==> q != off' + len + free[o])
    ensures forall q :: q in free - {o} ==> (o + free[o] == off ==> q + free[q] != off')
  {
    forall x: nat | x < size ensures Covers(free - {o}, x) || Covers(live, x) || off' <= x < off' + len + free[o] {
      if Covers(free, x) {
        var q :| q in free && q <= x < q + free[q];
        assert q != o ==> q in free - {o};
      }
    }
  }

  lemma EmptyHole(free: Blocks, live: Blocks, size: nat, off: nat)
    requires TilesAround(free, live, size, off, 0)
    ensures Partition(free, live, size)
  {
  }

  /** A live block taken out of the live map is a hole. */
  lemma TakeLive(free: Blocks, live: Blocks, size: nat, o: nat)
    requires Partition(free, live, size) && o in live
    ensures TilesAround(free, live - {o}, size, o, live[o])
  {
    forall x: nat | x < size ensures Covers(free, x) || Covers(live - {o}, x) || o <= x < o + live[o] {
      if Covers(live, x) {
        var q :| q in live && q <= x < q + live[q];
        assert q != o ==> q in live - {o};
      }
    }
  }

  // ---- What the partition determines ----

  /** A free block of one tiling is a free block of any other with the same live blocks. */
  lemma SameBlock(f: Blocks, g: Blocks, live: Blocks, size: nat, o: nat)
    requires Partition(f, live, size) && Partition(g, live, size) && o in f
    ensures o in g && g[o] == f[o]
  {
    var p := SpanInOneBlock(g, live, size, o, f[o]);
    var q := SpanInOneBlock(f, live, size, p, g[p]);
    assert q == o;
  }

  /** The free map is a function of the live map: there is one maximal way to tile the rest. */
  lemma FreeIsDetermined(f: Blocks, g: Blocks, live: Blocks, size: nat)
    requires Partition(f, live, size) && Partition(g, live, size)
    ensures f == g
  {
    forall o | o in f ensures o in g && g[o] == f[o] { SameBlock(f, g, live, size, o); }
    forall o | o in g ensures o in f && g[o] == f[o] { SameBlock(g, f, live, size, o); }
  }

  /** With nothing live there is exactly one free block, and it is the whole range. */
  lemma NothingLiveIsWhole(free: Blocks, size: nat)
    requires Partition(free, map[], size)
    ensures free == if size > 0 then map[0 := size] else map[]
  {
    var whole: Blocks := if size > 0 then map[0 := size] else map[];
    forall x: nat | x < size ensures Covers(whole, x) { assert 0 in whole; }
    FreeIsDetermined(free, whole, map[], size);
  }

  // ---- First fit ----

  /** The free map after [start+lead, start+lead+bytes) is carved out of the block at `start`. */
  function Carve(free: Blocks, start: nat, lead: nat, bytes: nat): (r: Blocks)
    requires start in free && lead + bytes <= free[start]
  {
    var trail := free[start] - lead - bytes;
    var rest := free - {start};
    var front := if lead > 0 then rest[start := lead] else rest;
    if trail > 0 then front[start + lead + bytes := trail] else front
  }

  /** The skipped bytes go back to the free map; the hole shrinks to the aligned rest. */
  lemma CarveLead(free: Blocks, live: Blocks, size: nat, start: nat, lead: nat)
    requires Partition(free, live, size) && start in free && lead < free[start]
    ensures var front := if lead > 0 then (free - {start})[start := lead] else free - {start};
            && TilesAround(front, live, size, start + lead, free[start] - lead)
            && (forall o :: o in front ==> o != start + free[start])
  {
    TakeOut(free, live, size, start);
    if lead > 0 { GiveFree(free - {start}, live, size, start, free[start], lead); }
  }

  /** The head of the hole becomes live and what is left of it becomes free. */
  lemma CarveTrail(front: Blocks, live: Blocks, size: nat, at: nat, len: nat, bytes: nat)
    requires TilesAround(front, live, size, at, len) && 0 < bytes <= len
    requires forall o :: o in front ==> o != at + len
    ensures at !in live
    ensures Partition(if len > bytes then front[at + bytes := len - bytes] else front, live[at := bytes], size)
  {
    var live' := live[at := bytes];
    assert at !in live;
    GiveLive(front, live, size, at, len, at, bytes);
    assert forall o :: o in front ==> o + front[o] <= at || at + len <= o;
    if len > bytes {
      GiveFree(front, live', size, at + bytes, len - bytes, len - bytes);
      EmptyHole(front[at + bytes := len - bytes], live', size, at + len);
    } else {
      EmptyHole(front, live', size, at + bytes);
    }
  }

  lemma NothingStartsInside(free: Blocks, live: Blocks, size: nat, start: nat, d: nat)
    requires Partition(free, live, size) && start in free && 0 < d <= free[start]
    ensures start + d !in free && start + free[start] <= size
  {
  }

  lemma CarveSum(free: Blocks, start: nat, lead: nat, bytes: nat)
    requires start in free && 0 < bytes && lead + bytes <= free[start]
    requires start + lead + bytes !in free
    ensures MapSum(Carve(free, start, lead, bytes)) == MapSum(free) - bytes
  {
    var rest, trail := free - {start}, free[start] - lead - bytes;
    var front := if lead > 0 then rest[start := lead] else rest;
    MapSumRemove(free, start);
    if lead > 0 { MapSumInsert(rest, start, lead); }
    if trail > 0 { MapSumInsert(front, start + lead + bytes, trail); }
  }

  /** Carving an aligned block out of a free one keeps the partition and moves `bytes` bytes. */
  lemma CarveKeepsPartition(free: Blocks, live: Blocks, size: nat, start: nat, lead: nat, bytes: nat)
    requires Partition(free, live, size)
    requires start in free && 0 < bytes && lead + bytes <= free[start]
    ensures start + lead !in live
    ensures Partition(Carve(free, start, lead, bytes), live[start + lead := bytes], size)
    ensures MapSum(Carve(free, start, lead, bytes)) == MapSum(free) - bytes
    ensures MapSum(live[start + lead := bytes]) == MapSum(live) + bytes
  {
    hide Partition, TilesAround, Bounded, Separated, Disjoint, Apart, Avoids, Covers;
    NothingStartsInside(free, live, size, start, lead + bytes);
    CarveSum(free, start, lead, bytes);
    CarveLead(free, live, size, start, lead);
    var front := if lead > 0 then (free - {start})[start := lead] else free - {start};
    CarveTrail(front, live, size, start + lead, free[start] - lead, bytes);
    MapSumInsert(live, start + lead, bytes);
  }

  // ---- Merging ----

  /** The free map after [off, off+len) is freed, `prev` being the free block just below it, if any. */
  function Merge(free: Blocks, off: nat, len: nat, prev: Option<nat>): (r: Blocks)
    requires prev.Some? ==> prev.value in free && prev.value < off
  {
    var next := off + len;
    var len1 := if next in free then len + free[next] else len;
    var free1 := if next in free then free - {next} else free;
    if prev.Some? && prev.value + free[prev.value] == off
    then (free1 - {prev.value})[prev.value := len1 + free[prev.value]]
    else free1[off := len1]
  }

  lemma MergeForward(free: Blocks, live: Blocks, size: nat, off: nat, len: nat)
    requires TilesAround(free, live, size, off, len) && len > 0
    ensures var next := off + len;
            var len1 := if next in free then len + free[next] else len;
            var free1 := if next in free then free - {next} else free;
            && TilesAround(free1, live, size, off, len1)
            && (forall o :: o in free1 ==> o != off + len1)
            && MapSum(free1) + len1 == MapSum(free) + len
  {
    var next := off + len;
    if next in free {
      Absorb(free, live, size, off, len, next, off);
      MapSumRemove(free, next);
    }
  }

  lemma MergeBackward(free: Blocks, live: Blocks, size: nat, off: nat, len: nat, prev: Option<nat>)
    requires TilesAround(free, live, size, off, len) && len > 0
    requires forall o :: o in free ==> o != off + len
    requires prev.None? ==> forall o :: o in free ==> off <= o
    requires prev.Some? ==>
               prev.value in free && prev.value < off && forall o :: o in free && o < off ==> o <= prev.value
    ensures var touch := prev.Some? && prev.value + free[prev.value] == off;
            var free1 :=
                  if touch then (free - {prev.value})[prev.value := len + free[prev.value]] else free[off := len];
            Partition(free1, live, size) && MapSum(free1) == MapSum(free) + len
  {
    hide Partition, TilesAround, Bounded, Separated, Disjoint, Apart, Avoids, Covers, MapSum;
    if prev.Some? && prev.value + free[prev.value] == off {
      MergePrevious(free, live, size, off, len, prev.value);
    } else {
      NothingEndsAt(free, live, size, off, len, prev);
      Seal(free, live, size, off, len);
    }
  }

  /** The block just below the hole is the only one that could end where it starts. */
  lemma NothingEndsAt(free: Blocks, live: Blocks, size: nat, off: nat, len: nat, prev: Option<nat>)
    requires TilesAround(free, live, size, off, len) && len > 0
    requires prev.None? ==> forall o :: o in free ==> off <= o
    requires prev.Some? ==>
               prev.value in free && prev.value < off && forall o :: o in free && o < off ==> o <= prev.value
    requires prev.Some? ==> prev.value + free[prev.value] != off
    ensures forall o :: o in free ==> o + free[o] != off
  {
    assert Separated(free) && Bounded(free, size);
  }

  lemma MergePrevious(free: Blocks, live: Blocks, size: nat, off: nat, len: nat, o: nat)
    requires TilesAround(free, live, size, off, len) && len > 0
    requires forall p :: p in free ==> p != off + len
    requires o in free && o + free[o] == off
    ensures Partition((free - {o})[o := len + free[o]], live, size)
    ensures MapSum((free - {o})[o := len + free[o]]) == MapSum(free) + len
  {
    hide Partition, TilesAround, Bounded, Separated, Disjoint, Apart, Avoids, Covers, MapSum;
    Absorb(free, live, size, off, len, o, o);
    MapSumRemove(free, o);
    Seal(free - {o}, live, size, o, len + free[o]);
  }

  /** A hole that touches no free block becomes one. */
  lemma Seal(free: Blocks, live: Blocks, size: nat, off: nat, len: nat)
    requires TilesAround(free, live, size, off, len) && len > 0
    requires forall o :: o in free ==> o + free[o] != off && o != off + len
    ensures Partition(free[off := len], live, size) && MapSum(free[off := len]) == MapSum(free) + len
  {
    GiveFree(free, live, size, off, len, len);
    EmptyHole(free[off := len], live, size, off + len);
    MapSumInsert(free, off, len);
  }

  /** Two-sided merging restores the partition, and frees exactly `len` bytes. */
  lemma MergeKeepsPartition(free: Blocks, live: Blocks, size: nat, off: nat, len: nat, prev: Option<nat>)
    requires TilesAround(free, live, size, off, len) && len > 0
    requires prev.None? ==> forall o :: o in free ==> off <= o
    requires prev.Some? ==>
               prev.value in free && prev.value < off && forall o :: o in free && o < off ==> o <= prev.value
    ensures Partition(Merge(free, off, len, prev), live, size)
    ensures MapSum(Merge(free, off, len, prev)) == MapSum(free) + len
  {
    hide Partition, TilesAround, Bounded, Separated, Disjoint, Apart, Avoids, Covers, MapSum;
    MergeForward(free, live, size, off, len);
    var next := off + len;
    if next in free {
      MergeBackward(free - {next}, live, size, off, len + free[next], prev);
    } else {
      MergeBackward(free, live, size, off, len, prev);
    }
  }

  /** The first aligned span of the block at `o` does not fit in it. */
  predicate TooSmall(free: Blocks, base: nat, bytes: nat, alignment: nat, o: nat)
    requires alignment > 0 && o in free
  {
    Gap(base + o, alignment) + bytes > free[o]
  }

  /** Every span that fits lies in a block that is not too small, past that block's own first span. */
  lemma FitComesFromBlock(free: Blocks, live: Blocks, size: nat, base: nat, bytes: nat, a: nat, p: nat) returns (o: nat)
    requires Partition(free, live, size) && a > 0 && bytes > 0
    requires FitsAt(live, size, base, bytes, a, p)
    ensures o in free && !TooSmall(free, base, bytes, a, o) && o + Gap(base + o, a) <= p
  {
    o := SpanInOneBlock(free, live, size, p, bytes);
    GapIsLeast(base + o, a, p - o);
  }

  /** The first block that is not too small yields the lowest offset that fits. */
  lemma FirstFitIsLowest(free: Blocks, live: Blocks, size: nat, base: nat, bytes: nat, a: nat, start: nat)
    requires Partition(free, live, size) && a > 0 && bytes > 0
    requires start in free && !TooSmall(free, base, bytes, a, start)
    requires forall o :: o in free && o < start ==> TooSmall(free, base, bytes, a, o)
    ensures var p := start + Gap(base + start, a);
            FitsAt(live, size, base, bytes, a, p) &&
            forall q: nat :: q < p ==> !FitsAt(live, size, base, bytes, a, q)
  {
    var p := start + Gap(base + start, a);
    GapIsLeast(base + start, a, 0);
    forall q: nat | FitsAt(live, size, base, bytes, a, q) ensures q >= p {
      var o := FitComesFromBlock(free, live, size, base, bytes, a, q);
    }
  }

  /** When every block is too small, no span fits anywhere. */
  lemma NoBlockNoFit(free: Blocks, live: Blocks, size: nat, base: nat, bytes: nat, a: nat)
    requires Partition(free, live, size) && a > 0 && bytes > 0
    requires forall o :: o in free ==> TooSmall(free, base, bytes, a, o)
    ensures forall p: nat :: !FitsAt(live, size, base, bytes, a, p)
  {
    forall p: nat | FitsAt(live, size, base, bytes, a, p) ensures false {
      var o := FitComesFromBlock(free, live, size, base, bytes, a, p);
    }
  }
}
