/** The page-fault backends of the three platforms, over one model of the operating system. */
module FaultBackends {
  import opened Bytes
  import HeapArenas
  import opened PageStates
  import opened Paging
  import opened Wrappers

  /** What a pass over the tracked pages does to each of them. */
  datatype Change = Fill(to: PageState) | Clean | Drop

  function Next(c: Change, s: PageState): (t: PageState) {
    match c
    case Fill(t) => t
    case Clean => if s.Dirty? then Resident else s
    case Drop => Absent
  }

  function Changed(state: map<nat, PageState>, span: set<nat>, c: Change): (r: map<nat, PageState>) {
    map p | p in state :: if p in span then Next(c, state[p]) else state[p]
  }

  // ---- Memory ----

  type Memory = map<nat, OsPage>

  function Protected(os: Memory, span: set<nat>, prot: Prot): (r: Memory) {
    map p | p in os :: if p in span then OsPage(prot, os[p].bytes) else os[p]
  }

  function Emptied(os: Memory, span: set<nat>): (r: Memory) {
    map p | p in os :: if p in span then OsPage(NoAccess, Zeros(|os[p].bytes|)) else os[p]
  }

  function Present(os: Memory, span: set<nat>): (r: set<nat>) { set p | p in span && p in os && !os[p].prot.NoAccess? }

  /**
   A page after `data` was placed at `addr`. Bytes of the page outside the data
   are zero on Linux, zero on Windows if the page was not committed yet, and
   otherwise whatever they were. Without data the page is zeroed.
   */
  function FilledPage(platform: Platform, page: OsPage, p: nat, addr: nat, data: Option<seq<byte>>): (r: seq<byte>)
    ensures |r| == |page.bytes|
  {
    var at := Start(p, |page.bytes|);
    seq(|page.bytes|, j requires 0 <= j < |page.bytes| =>
      if data.None? then 0
      else if addr <= at + j < addr + |data.value| then data.value[at + j - addr]
      else if platform.MacOS? || (platform.Windows? && !page.prot.NoAccess?) then page.bytes[j]
      else 0)
  }

  function Filled(platform: Platform, os: Memory, span: set<nat>, addr: nat, data: Option<seq<byte>>): (r: Memory) {
    map p | p in os :: if p in span then OsPage(ReadWrite, FilledPage(platform, os[p], p, addr, data)) else os[p]
  }

  /** Pages the kernel was told it may take back: each is as it was, or zero. */
  predicate Reclaimed(os: Memory, os': Memory, span: set<nat>) {
    os'.Keys == os.Keys && forall p :: p in os ==>
      os'[p] == os[p] || (p in span && os'[p] == OsPage(os[p].prot, Zeros(|os[p].bytes|)))
  }

  /** Pages given back: they trap, and are empty, except that macOS may not have emptied them yet. */
  predicate Vacated(platform: Platform, ps: nat, os: Memory, os': Memory, span: set<nat>) {
    && span <= os.Keys && os'.Keys == os.Keys
    && forall p :: p in span ==>
         os'[p] == OsPage(NoAccess, Zeros(ps)) || (platform.MacOS? && os'[p] == OsPage(NoAccess, os[p].bytes))
  }

  lemma Vacates(platform: Platform, ps: nat, os: Memory, mid: Memory, span: set<nat>)
    requires Sized(os, ps) && span <= os.Keys && (if platform.MacOS? then Reclaimed(os, mid, span) else mid == os)
    ensures var os' := if platform.MacOS? then Protected(mid, span, NoAccess) else Emptied(mid, span);
            Vacated(platform, ps, os, os', span)
  {
  }

  // ---- The invariant, page by page ----

  /** Absent pages trap, resident ones are readable, and only dirty ones can be stored to. */
  predicate Guarded(s: PageState, prot: Prot) {
    (s.Absent? <==> prot.NoAccess?) && (prot.ReadWrite? ==> s.Dirty?)
  }

  ghost predicate Guarding(state: map<nat, PageState>, os: Memory, lost: set<nat>) {
    state.Keys == os.Keys && lost <= os.Keys && forall p :: p in state && p !in lost ==> Guarded(state[p], os[p].prot)
  }

  ghost predicate Sized(os: Memory, ps: nat) { forall p :: p in os ==> |os[p].bytes| == ps }

  /** Every page stored to since it was filled or cleared is marked dirty. */
  ghost predicate Noticed(state: map<nat, PageState>, written: set<nat>, lost: set<nat>) {
    forall p :: p in written ==> p in state && (p in lost || state[p].Dirty?)
  }

  ghost predicate Native(platform: Platform, state: map<nat, PageState>, os: Memory, lost: set<nat>) {
    && (platform.Windows? ==> lost == {})
    && (platform.Linux? ==> forall p :: p in state ==> p in os && !state[p].Resident? && !os[p].prot.ReadOnly?)
  }

  ghost predicate Sound(platform: Platform, ps: nat, state: map<nat, PageState>, os: Memory, written: set<nat>,
                        lost: set<nat>) {
    Guarding(state, os, lost) && Sized(os, ps) && Noticed(state, written, lost) && Native(platform, state, os, lost)
  }

  datatype Verdict = Crash | Resume | Ask(isWrite: bool) | Blocked

  class FaultBackend {
    const platform: Platform
    const pageSize: nat
    /** A lenient operating system refuses no protection, fill or eviction that makes sense. */
    const lenient: bool
    var regions: map<nat, Region>
    var residentPages: nat
    /** The pages as the operating system has them. */
    var os: Memory
    ghost var state: map<nat, PageState>
    /** Pages stored to since they were last filled or cleared. */
    ghost var written: set<nat>
    /** Pages whose protection and recorded state no longer agree. */
    ghost var lost: set<nat>
    /** Fills the operating system refused, and evictions and promotions it refused. */
    ghost var misfills: nat
    ghost var denials: nat

    ghost predicate Tracked()
      reads this
    {
      && pageSize > 0 && Separate(regions, pageSize) && Tied(regions, pageSize, state)
      && residentPages == |Occupied(state)|
    }

    ghost predicate Valid()
      reads this
    {
      Tracked() && Sound(platform, pageSize, state, os, written, lost)
    }

    constructor (platform: Platform, pageSize: nat, lenient: bool)
      requires pageSize > 0
      ensures Valid() && this.platform == platform && this.pageSize == pageSize && this.lenient == lenient
      ensures regions == map[] && state == map[] && os == map[] && lost == {} && residentPages == 0
    {
      this.platform, this.pageSize, this.lenient := platform, pageSize, lenient;
      regions, residentPages, os, state, written, lost := map[], 0, map[], map[], {}, {};
      misfills, denials := 0, 0;
    }

    /** Each tracked page is a whole page of memory. */
    lemma Shape()
      requires Valid()
      ensures os.Keys == state.Keys && forall p :: p in os ==> |os[p].bytes| == pageSize
    {
    }

    /** On Linux a present page can always be stored to. */
    lemma NativePage(p: nat)
      requires Valid() && p in os
      ensures platform.Linux? ==> !os[p].prot.ReadOnly?
    {
    }

    lemma PositivePage()
      requires Valid()
      ensures pageSize > 0
    {
    }

    /** Only tracked pages can have lost their tracking. */
    lemma LostIsTracked()
      requires Valid()
      ensures lost <= state.Keys
    {
    }

    /** A page that is tracked traps exactly if it is absent, and takes stores only if it is dirty. */
    lemma GuardedPage(p: nat)
      requires Valid() && p in state && p !in lost
      ensures p in os && Guarded(state[p], os[p].prot)
    {
    }

    lemma GuardedSpan(span: set<nat>)
      requires Valid() && forall p :: p in span ==> p in state && p !in lost
      ensures forall p :: p in span ==> p in os && Guarded(state[p], os[p].prot)
    {
    }

    /** The region of an address, and the index of its page there: the only region that contains it. */
    method RegionFor(addr: nat) returns (r: Option<(nat, nat)>)
      requires Tracked()
      ensures r.Some? <==> PageNo(addr, pageSize) in state
      ensures r.Some? ==>
                && r.value.0 in regions && r.value.0 <= addr < r.value.0 + regions[r.value.0].size
                && r.value.1 < |regions[r.value.0].states|
                && PageNo(r.value.0, pageSize) + r.value.1 == PageNo(addr, pageSize)
                && forall b :: b in regions && b <= addr < b + regions[b].size ==> b == r.value.0
      ensures r.None? ==> forall b :: b in regions ==> !(b <= addr < b + regions[b].size)
    {
      hide PageNo, Start, InPage;
      var it := HeapArenas.LastBelow(regions, addr + 1);
      forall b | b in regions
        ensures b <= addr < b + regions[b].size <==> Covers(regions, pageSize, b, PageNo(addr, pageSize))
      {
        AddressCovered(regions, pageSize, b, addr);
      }
      if it.None? || addr >= it.value + regions[it.value].size { return None; }
      AddressCovered(regions, pageSize, it.value, addr);
      r := Some((it.value, (addr - it.value) / pageSize));
    }

    /** Applies a change to every tracked page of a run and keeps the count of resident pages. */
    method ForEachPage(first: nat, count: nat, c: Change)
      requires Tracked()
      modifies `regions, `residentPages, `state
      ensures Tracked() && state == Changed(old(state), Span(first, count), c)
    {
      hide PageNo, Start, InPage, Separate, Tied, Occupied;
      ChangedNothing(state, first, c);
      for k := 0 to count
        invariant Tracked() && state == Changed(old(state), Span(first, k), c)
      {
        Located(first + k, 0, pageSize);
        var r := RegionFor(Start(first + k, pageSize));
        ChangedOne(old(state), first, k, c);
        if r.Some? {
          var (b, i) := r.value;
          TiedAt(regions, pageSize, state, b, i);
          var was := regions[b].states[i];
          var now := Next(c, was);
          WithStateTied(regions, pageSize, state, b, i, now);
          CountOne(state, first + k, now);
          regions := WithState(regions, b, i, now);
          if was.Absent? && !now.Absent? { residentPages := residentPages + 1; }
          if !was.Absent? && now.Absent? { residentPages := residentPages - 1; }
          state := state[first + k := now];
        }
      }
    }

    // ---- Regions ----

    /** The system offers a page-aligned address with that many bytes free from there on. */
    predicate Grantable(bytes: nat, offer: nat)
      requires pageSize > 0
      reads this
    {
      bytes > 0 && offer > 0 && InPage(offer, pageSize) == 0 &&
      Unused(regions, offer, Start(PagesTouched(0, bytes, pageSize), pageSize))
    }

    /** Address space without contents, or the null address. */
    method ReserveRegion(bytes: nat, offer: nat) returns (addr: nat, size: nat)
      requires Valid()
      modifies this
      ensures misfills == old(misfills) && denials == old(denials)
      ensures Valid() && written == old(written) && lost == old(lost) && residentPages == old(residentPages)
      ensures addr == (if old(Grantable(bytes, offer)) then offer else 0)
      ensures addr > 0 <==> old(Grantable(bytes, offer))
      ensures addr == 0 ==> size == 0 && state == old(state) && os == old(os) && regions == old(regions)
      ensures addr > 0 ==> InPage(addr, pageSize) == 0 && size == Start(PagesTouched(0, bytes, pageSize), pageSize)
      ensures addr > 0 ==> bytes > 0 && addr !in old(regions)
      ensures addr > 0 ==>
                regions == old(regions)[addr := Region(size, seq(PagesTouched(0, bytes, pageSize), _ => Absent))]
      ensures addr > 0 ==>
                Grown(old(state), old(os), state, os, PageNo(addr, pageSize), PagesTouched(0, bytes, pageSize))
    {
      hide PageNo, Start, Separate, Tied, Occupied, PagesTouched, Sound, Grown;
      if bytes == 0 { return 0, 0; }
      var n := PagesTouched(0, bytes, pageSize);
      var base := offer;
      SomePages(bytes, pageSize);
      if base == 0 || InPage(base, pageSize) != 0 || n == 0 || !Unused(regions, base, Start(n, pageSize)) {
        return 0, 0;
      }
      Reserved(regions, pageSize, state, base, n);
      AddPages(platform, state, os, written, lost, pageSize, PageNo(base, pageSize), n);
      regions := regions[base := Region(Start(n, pageSize), seq(n, _ => Absent))];
      state := state + Blank(PageNo(base, pageSize), n);
      os := os + BlankMemory(PageNo(base, pageSize), n, pageSize);
      return base, Start(n, pageSize);
    }

    /** Gives a region back; an address that is not a region's base is ignored. */
    method ReleaseRegion(addr: nat)
      requires Valid()
      modifies this
      ensures misfills == old(misfills) && denials == old(denials)
      ensures Valid()
      ensures addr !in old(regions) ==> regions == old(regions) && state == old(state) && os == old(os)
      ensures addr in old(regions) ==>
                && regions == old(regions) - {addr}
                && state == old(state) - PagesOf(old(regions), pageSize, addr)
                && os == old(os) - PagesOf(old(regions), pageSize, addr)
    {
      hide PageNo, Start, Separate, Tied, Occupied, Sound;
      if addr !in regions { return; }
      var states := regions[addr].states;
      var resident := 0;
      for i := 0 to |states|
        invariant resident == CountResident(states[..i])
      {
        assert states[..i + 1][..i] == states[..i];
        if !states[i].Absent? { resident := resident + 1; }
      }
      assert states[..|states|] == states;
      Released(regions, pageSize, state, addr);
      RegionStates(regions, pageSize, state, addr);
      CountDropped(state, PageNo(addr, pageSize), states);
      ghost var pages := PagesOf(regions, pageSize, addr);
      DropPages(platform, state, os, written, lost, pageSize, pages);
      residentPages := residentPages - resident;
      os := os - PagesOf(regions, pageSize, addr);
      state, written, lost := state - pages, written - pages, lost - pages;
      regions := regions - {addr};
    }

    // ---- Filling, clearing, evicting ----

    /**
     Fills pages on behalf of a fault. A load fault leaves them read-only; if that
     fails, or the fault was a store, they are dirty from the start. On Linux the
     kernel refuses to fill a page that is already present, and the backend then
     forgets that the pages are there.
     */
    method ResolveFault(addr: nat, data: Option<seq<byte>>, len: nat, inWriteFault: bool) returns (resolved: bool)
      requires Valid() && (data.Some? ==> |data.value| == len)
      modifies this
      ensures misfills == old(misfills) + (if resolved then 0 else 1) && denials == old(denials)
      ensures Valid()
      ensures resolved ==>
                var span := FillSpan(addr, len, pageSize);
                && FilledBy(platform, span, addr, data, old(state), old(os), state, os, inWriteFault || platform.Linux?)
                && written == old(written) - span && lost == old(lost) - span
      ensures !resolved ==> os == old(os) && written == old(written)
      ensures !resolved && !platform.Linux? ==> state == old(state) && lost == old(lost)
      ensures !resolved && platform.Linux? && addr > 0 ==>
                state == Changed(old(state), FillSpan(addr, len, pageSize), Drop) &&
                    lost == old(lost) + Present(os, FillSpan(addr, len, pageSize))
      ensures resolved ==> addr > 0 && FillSpan(addr, len, pageSize) <= old(os).Keys
      ensures lenient && addr > 0 && FillSpan(addr, len, pageSize) <= old(os).Keys ==>
                (platform.Linux? ==> Present(old(os), FillSpan(addr, len, pageSize)) == {}) ==> resolved
      ensures lenient && resolved && !inWriteFault && !platform.Linux? ==>
                && FillSpan(addr, len, pageSize) <= state.Keys == old(state).Keys
                && forall p :: p in state ==>
                     state[p] == if p in FillSpan(addr, len, pageSize) then Resident else old(state)[p]
      ensures addr == 0 ==> !resolved && state == old(state) && lost == old(lost)
      ensures platform.Linux? && Present(old(os), FillSpan(addr, len, pageSize)) != {} ==> !resolved
    {
      hide PageNo, Start, InPage, PagesTouched, Sound, Separate, Tied, Occupied, FilledBy;
      SizedPages(platform, pageSize, state, os, written, lost);
      if addr == 0 {
        misfills := misfills + 1;
        return false;
      }
      var first := PageNo(addr, pageSize);
      var count := if InPage(addr, pageSize) + len == 0 then 1 else PagesTouched(addr, len, pageSize);
      if platform.Linux? {
        resolved := CopyIn(first, count, addr, data);
      } else {
        resolved := MapIn(first, count, addr, data, inWriteFault);
      }
    }

    /** Linux: the pages are recorded first, and unrecorded if the copy does not happen. */
    method CopyIn(first: nat, count: nat, addr: nat, data: Option<seq<byte>>) returns (resolved: bool)
      requires Valid() && platform.Linux?
      modifies this
      ensures misfills == old(misfills) + (if resolved then 0 else 1) && denials == old(denials)
      ensures Valid()
      ensures resolved ==>
                && FilledBy(platform, Span(first, count), addr, data, old(state), old(os), state, os, true)
                && written == old(written) - Span(first, count) && lost == old(lost) - Span(first, count)
      ensures !resolved ==> os == old(os) && written == old(written)
      ensures !resolved ==>
                && state == Changed(old(state), Span(first, count), Drop)
                && lost == old(lost) + Present(os, Span(first, count))
      ensures resolved ==> Span(first, count) <= old(os).Keys && Present(old(os), Span(first, count)) == {}
      ensures lenient && Span(first, count) <= old(os).Keys && Present(old(os), Span(first, count)) == {} ==> resolved
    {
      hide Separate, Tied, Occupied, Sound, Span, Changed, Filled, Present, FilledBy;
      var span := Span(first, count);
      ForEachPage(first, count, Fill(Dirty));
      ChangedTwice(old(state), span, Fill(Dirty));
      var granted: bool := *;
      if !(granted || lenient) || !(span <= os.Keys) || Present(os, span) != {} {
        ForEachPage(first, count, Drop);
        RollbackKeeps(platform, pageSize, old(state), os, written, lost, span);
        lost, misfills := lost + Present(os, span), misfills + 1;
        return false;
      }
      FillKeeps(platform, pageSize, old(state), os, written, lost, span, addr, data, Dirty);
      os := Filled(platform, os, span, addr, data);
      written, lost := written - span, lost - span;
      resolved := true;
    }

    /** Windows and macOS: make the pages writable, fill them, then take the write permission away again. */
    method MapIn(first: nat, count: nat, addr: nat, data: Option<seq<byte>>, inWriteFault: bool)
      returns (resolved: bool)
      requires Valid() && !platform.Linux?
      modifies this
      ensures misfills == old(misfills) + (if resolved then 0 else 1) && denials == old(denials)
      ensures Valid()
      ensures resolved ==>
                && FilledBy(platform, Span(first, count), addr, data, old(state), old(os), state, os, inWriteFault)
                && written == old(written) - Span(first, count) && lost == old(lost) - Span(first, count)
      ensures !resolved ==> os == old(os) && written == old(written) && state == old(state) && lost == old(lost)
      ensures resolved ==> Span(first, count) <= old(os).Keys
      ensures lenient && Span(first, count) <= old(os).Keys ==> resolved
      ensures lenient && resolved && !inWriteFault ==> state == Changed(old(state), Span(first, count), Fill(Resident))
    {
      hide Separate, Tied, Occupied, Sound, Span, Changed, Filled, Protected, FilledBy;
      var span := Span(first, count);
      var granted: bool := *;
      if !(granted || lenient) || !(span <= os.Keys) {
        misfills := misfills + 1;
        return false;
      }
      FillKeeps(platform, pageSize, state, os, written, lost, span, addr, data, Dirty);
      FillKeeps(platform, pageSize, state, os, written, lost, span, addr, data, Resident);
      os := Filled(platform, os, span, addr, data);
      var locked: bool := *;
      if inWriteFault || !(locked || lenient) {
        ForEachPage(first, count, Fill(Dirty));
      } else {
        os := Protected(os, span, ReadOnly);
        ForEachPage(first, count, Fill(Resident));
      }
      written, lost := written - span, lost - span;
      resolved := true;
    }

    /** Whether some page of a range is dirty. A store is never missed. */
    method IsDirty(addr: nat, len: nat) returns (dirty: bool)
      requires Valid()
      ensures dirty <==>
                exists p :: p in Span(PageNo(addr, pageSize), PagesTouched(addr, len, pageSize)) &&
                            p in state && state[p].Dirty?
      ensures (exists p :: p in Span(PageNo(addr, pageSize), PagesTouched(addr, len, pageSize)) &&
                           p in written && p !in lost) ==> dirty
    {
      hide PageNo, Start, InPage, PagesTouched, Separate, Tied, Occupied, Guarding, Native, Sized;
      var first, count := PageNo(addr, pageSize), PagesTouched(addr, len, pageSize);
      for k := 0 to count
        invariant forall p :: InSpan(p, first, k) && p in state ==> !state[p].Dirty?
      {
        Located(first + k, 0, pageSize);
        var r := RegionFor(Start(first + k, pageSize));
        if r.Some? {
          TiedAt(regions, pageSize, state, r.value.0, r.value.1);
          if regions[r.value.0].states[r.value.1].Dirty? {
            assert InSpan(first + k, first, count);
            return true;
          }
        }
      }
      dirty := false;
    }

    /**
     Arms write detection again after a flush. If the protection call fails the
     pages stay dirty. On macOS it also succeeds on absent pages, which can then
     be read without a fault.
     */
    method ClearDirty(addr: nat, len: nat) returns (ghost cleared: bool)
      requires Valid()
      modifies this
      ensures misfills == old(misfills) && denials == old(denials)
      ensures Valid()
      ensures !cleared ==> state == old(state) && os == old(os) && written == old(written) && lost == old(lost)
      ensures cleared ==>
                var span := Span(PageNo(addr, pageSize), PagesTouched(addr, len, pageSize));
                && written == old(written) - span
                && (platform.Linux? ==> state == old(state) && os == old(os) && lost == old(lost))
                && (!platform.Linux? ==>
                      span <= os.Keys && state == Changed(old(state), span, Clean) &&
                      os == Protected(old(os), span, ReadOnly))
                && lost == if platform.MacOS? then old(lost) + Vacant(old(state), span) else old(lost)
      ensures cleared && !platform.Linux? ==>
                var span := Span(PageNo(addr, pageSize), PagesTouched(addr, len, pageSize));
                && state.Keys == old(state).Keys
                && (forall p :: p in span ==>
                      p in state && state[p] == if old(state)[p].Dirty? then Resident else old(state)[p])
                && (forall p :: p in state && p !in span ==> state[p] == old(state)[p])
      ensures lenient ==>
                var span := Span(PageNo(addr, pageSize), PagesTouched(addr, len, pageSize));
                span <= old(os).Keys && (platform.Windows? ==> Present(old(os), span) == span) ==> cleared
    {
      hide PageNo, Start, InPage, PagesTouched, Separate, Tied, Occupied, Sound;
      SizedPages(platform, pageSize, state, os, written, lost);
      var first, count := PageNo(addr, pageSize), PagesTouched(addr, len, pageSize);
      var span := Span(first, count);
      if platform.Linux? {
        FewerWritten(platform, pageSize, state, os, written, lost, span);
        written := written - span;
        return true;
      }
      var granted: bool := *;
      if !(granted || lenient) || !(span <= os.Keys) || (platform.Windows? && Present(os, span) != span) {
        return false;
      }
      if platform.Windows? { NoneVacant(platform, pageSize, state, os, written, lost, span); }
      ClearKeeps(platform, pageSize, state, os, written, lost, span);
      os := Protected(os, span, ReadOnly);
      ForEachPage(first, count, Clean);
      written := written - span;
      lost := lost + Vacant(old(state), span);
      cleared := true;
    }

    /**
     Gives pages back to the operating system. On macOS the contents may be gone
     even if the call fails.
     */
    method EvictPages(addr: nat, len: nat) returns (ok: bool)
      requires Valid()
      modifies this
      ensures denials == old(denials) + (if ok then 0 else 1) && misfills == old(misfills)
      ensures Valid() && os.Keys == old(os).Keys
      ensures !ok ==>
                && state == old(state) && written == old(written) && lost == old(lost)
                && (if platform.MacOS? then
                    Reclaimed(old(os), os, Span(PageNo(addr, pageSize), PagesTouched(addr, len, pageSize)))
                    else os == old(os))
      ensures ok ==>
                var span := Span(PageNo(addr, pageSize), PagesTouched(addr, len, pageSize));
                && state == Changed(old(state), span, Drop) && written == old(written) - span
                && lost == old(lost) - span
                && (forall p :: p in os && p !in span ==> os[p] == old(os)[p])
      ensures ok ==>
                var span := Span(PageNo(addr, pageSize), PagesTouched(addr, len, pageSize));
                && state.Keys == old(state).Keys && Vacated(platform, pageSize, old(os), os, span)
                && (forall p :: p in state ==> state[p] == if p in span then Absent else old(state)[p])
      ensures lenient && Span(PageNo(addr, pageSize), PagesTouched(addr, len, pageSize)) <= old(os).Keys ==> ok
    {
      hide PageNo, Start, InPage, PagesTouched, Separate, Tied, Occupied, Sound, Guarding, Noticed, Native, Sized,
           Reclaimed, Changed, Vacated;
      DropsAll(state, Span(PageNo(addr, pageSize), PagesTouched(addr, len, pageSize)));
      var first, count := PageNo(addr, pageSize), PagesTouched(addr, len, pageSize);
      var span := Span(first, count);
      SizedPages(platform, pageSize, state, os, written, lost);
      NothingReclaimed(os, span);
      if count == 0 {
        NothingEvicted(platform, pageSize, state, os, written, lost, first);
        return true;
      }
      if platform.MacOS? {
        var freed: Memory := *;
        if Reclaimed(os, freed, span) {
          ReclaimKeeps(platform, pageSize, state, os, freed, written, lost, span);
          ReclaimedOutside(os, freed, span);
          os := freed;
        }
      }
      var granted: bool := *;
      if !(granted || lenient) || !(span <= os.Keys) {
        denials := denials + 1;
        return false;
      }
      SizedPages(platform, pageSize, state, os, written, lost);
      ghost var mid := os;
      os := if platform.MacOS? then Protected(os, span, NoAccess) else Emptied(os, span);
      SetKeeps(platform, pageSize, state, mid, os, written, lost, span, Absent, NoAccess);
      Vacates(platform, pageSize, old(os), mid, span);
      ForEachPage(first, count, Drop);
      written, lost := written - span, lost - span;
      ok := true;
    }

    // ---- Faults ----

    /**
     The handler's decision when an access traps. The callback is asked only for a
     page that is absent; a store to a resident page is let through and recorded.
     */
    method Trap(addr: nat, isWrite: bool, hasHandler: bool) returns (v: Verdict)
      requires Valid()
      requires platform.Linux? && PageNo(addr, pageSize) in os ==> os[PageNo(addr, pageSize)].prot.NoAccess?
      modifies this
      ensures misfills == old(misfills) && old(denials) <= denials <= old(denials) + (if v.Crash? then 1 else 0)
      ensures v.Crash? && denials == old(denials) && hasHandler ==>
                var p := PageNo(addr, pageSize);
                p !in old(state) || (platform.Windows? && !isWrite && !old(state)[p].Absent?)
      ensures Valid() && written == old(written) && lost == old(lost)
      ensures PageNo(addr, pageSize) !in old(state) ==> v.Crash?
      ensures v.Ask? ==>
                && PageNo(addr, pageSize) in state && (hasHandler || platform.Linux?)
                && v.isWrite == (isWrite && !platform.MacOS?)
      ensures v.Ask? && PageNo(addr, pageSize) !in lost ==> state[PageNo(addr, pageSize)].Absent?
      ensures v.Resume? ==>
                var p := PageNo(addr, pageSize);
                && p in old(state) && !old(state)[p].Absent? && (isWrite || platform.MacOS?)
                && state == Changed(old(state), {p}, Fill(Dirty)) && os == Protected(old(os), {p}, ReadWrite)
      ensures !v.Resume? ==> state == old(state) && os == old(os)
      ensures !v.Blocked? && (lenient ==> denials == old(denials))
      ensures v.Resume? ==> state[PageNo(addr, pageSize)].Dirty? && Permits(addr, true)
      ensures PageNo(addr, pageSize) in old(state) && hasHandler ==>
                platform.Linux? || old(state)[PageNo(addr, pageSize)].Absent? ==> v.Ask?
    {
      hide PageNo, Start, InPage, PagesTouched, Separate, Tied, Occupied, Noticed, Native, Sized;
      var p := PageNo(addr, pageSize);
      var r := RegionFor(addr);
      if r.None? { return Crash; }
      TiedAt(regions, pageSize, state, r.value.0, r.value.1);
      if platform.Linux? { return Ask(isWrite); }
      if !regions[r.value.0].states[r.value.1].Absent? {
        var granted: bool := *;
        if platform.Windows? && !isWrite { return Crash; }
        if !granted && !lenient {
          denials := denials + 1;
          return Crash;
        }
        PromoteKeeps(platform, pageSize, state, os, written, lost, p);
        OnePage(p);
        os := Protected(os, {p}, ReadWrite);
        ForEachPage(p, 1, Fill(Dirty));
        return Resume;
      }
      v := if hasHandler then Ask(isWrite && platform.Windows?) else Crash;
    }

    /** After the callback: an unresolved fault is fatal, except on Linux, which maps a zero page. */
    method Settle(addr: nat, resolved: bool) returns (v: Verdict)
      requires Valid() && PageNo(addr, pageSize) in os
      modifies this
      ensures misfills == old(misfills) && denials == old(denials)
      ensures Valid() && os.Keys == old(os).Keys
      ensures resolved ==> v == Resume
      ensures !resolved && !platform.Linux? ==> v == Crash
      ensures !resolved && platform.Linux? && lenient && old(os)[PageNo(addr, pageSize)].prot.NoAccess? ==> v == Resume
      ensures resolved || !platform.Linux? ==>
                state == old(state) && os == old(os) && written == old(written) && lost == old(lost)
      ensures !resolved && platform.Linux? ==>
                var p := PageNo(addr, pageSize);
                if v.Resume? then
                  && old(os)[p].prot.NoAccess? && state == Changed(old(state), {p}, Fill(Dirty))
                  && written == old(written) - {p} && lost == old(lost) - {p}
                  && os == old(os)[p := OsPage(ReadWrite, Zeros(pageSize))]
                else
                  && v.Blocked? && state == Changed(old(state), {p}, Drop) && os == old(os) && written == old(written)
                  && lost == old(lost) + Present(os, {p})
    {
      hide PageNo, Start, InPage, PagesTouched, Separate, Tied, Occupied, Sound, Guarding, Noticed, Native, Sized;
      if resolved { return Resume; }
      if !platform.Linux? { return Crash; }
      var p := PageNo(addr, pageSize);
      OnePage(p);
      SizedPages(platform, pageSize, state, os, written, lost);
      ForEachPage(p, 1, Fill(Dirty));
      var granted: bool := *;
      if !(granted || lenient) || !os[p].prot.NoAccess? {
        ForEachPage(p, 1, Drop);
        assert state == Changed(old(state), {p}, Drop);
        RollbackKeeps(platform, pageSize, old(state), os, written, lost, {p});
        lost := lost + Present(os, {p});
        return Blocked;
      }
      os := os[p := OsPage(ReadWrite, Zeros(pageSize))];
      SetKeeps(platform, pageSize, old(state), old(os), os, written, lost, {p}, Dirty, ReadWrite);
      written, lost := written - {p}, lost - {p};
      v := Resume;
    }

    // ---- The processor ----

    predicate Permits(addr: nat, isWrite: bool)
      requires pageSize > 0
      reads this
    {
      var p := PageNo(addr, pageSize);
      p in os && !os[p].prot.NoAccess? && (isWrite ==> os[p].prot.ReadWrite?)
    }

    method StoreByte(addr: nat, b: byte)
      requires Valid() && Permits(addr, true)
      modifies this
      ensures misfills == old(misfills) && denials == old(denials)
      ensures Valid() && state == old(state) && lost == old(lost) && written == old(written) + {PageNo(addr, pageSize)}
      ensures var p := PageNo(addr, pageSize);
              && |old(os)[p].bytes| == pageSize
              && os == old(os)[p := OsPage(ReadWrite, old(os)[p].bytes[InPage(addr, pageSize) := b])]
    {
      hide PageNo, Separate, Tied, Occupied, Sound;
      var p := PageNo(addr, pageSize);
      SizedPages(platform, pageSize, state, os, written, lost);
      StoreKeeps(platform, pageSize, state, os, written, lost, p, InPage(addr, pageSize), b);
      os := os[p := OsPage(ReadWrite, os[p].bytes[InPage(addr, pageSize) := b])];
      written := written + {p};
    }
  }

  /**
   Clearing makes the range clean, and the next store to it makes it dirty again. On
   Linux, where any resident page may have been stored to, clearing changes nothing.
   */
  method ClearThenStore(b: FaultBackend, addr: nat, len: nat, at: nat, v: byte)
    returns (ghost cleared: bool, clean: bool, stored: bool, dirty: bool)
    requires b.Valid() && len > 0 && addr <= at < addr + len
    requires forall p :: p in Span(PageNo(addr, b.pageSize), PagesTouched(addr, len, b.pageSize)) ==>
               p in b.state && !b.state[p].Absent? && p !in b.lost
    modifies b
    ensures b.Valid() && (stored ==> dirty)
    ensures cleared && !b.platform.Linux? ==> clean
    ensures b.lenient ==> cleared && stored
    ensures b.platform.Linux? ==> !clean
  {
    hide PageNo, InPage, PagesTouched, Separate, Tied, Occupied, Sound, Changed, Protected;
    ghost var span := Span(PageNo(addr, b.pageSize), PagesTouched(addr, len, b.pageSize));
    b.PositivePage();
    TouchesFirst(addr, len, b.pageSize);
    TouchesAll(addr, len, b.pageSize, at);
    b.GuardedSpan(span);
    cleared := b.ClearDirty(addr, len);
    var d := b.IsDirty(addr, len);
    clean := !d;
    b.GuardedSpan(span);
    stored := b.Permits(at, true);
    if !stored {
      b.NativePage(PageNo(at, b.pageSize));
      var w := b.Trap(at, true, true);
      stored := w.Resume?;
    }
    if stored {
      b.StoreByte(at, v);
    }
    dirty := b.IsDirty(addr, len);
  }

  // ---- Where the contract ends ----

  /** Linux: a page that has been stored to and is filled again is reported clean, and the store is lost. */
  method RefillForgets(b: FaultBackend, addr: nat, data: seq<byte>) returns (resolved: bool, dirty: bool)
    requires b.Valid() && b.platform.Linux? && addr > 0 && data != []
    requires PageNo(addr, b.pageSize) in b.written && PageNo(addr, b.pageSize) !in b.lost
    modifies b
    ensures !resolved && !dirty && PageNo(addr, b.pageSize) in b.written * b.lost && b.os == old(b.os)
    ensures PageNo(addr, b.pageSize) in b.state && b.state[PageNo(addr, b.pageSize)].Absent?
  {
    hide PageNo, InPage, Separate, Tied, Occupied, Native, FilledBy;
    ghost var p := PageNo(addr, b.pageSize);
    b.GuardedPage(p);
    TouchesFirst(addr, |data|, b.pageSize);
    assert p in Present(b.os, FillSpan(addr, |data|, b.pageSize));
    resolved := b.ResolveFault(addr, Some(data), |data|, true);
    dirty := b.IsDirty(addr, |data|);
  }

  /** macOS: clearing a page that is absent, if the system allows it, makes it readable without a fault. */
  method ClearExposes(b: FaultBackend, addr: nat) returns (ghost cleared: bool)
    requires b.Valid() && b.platform.MacOS? && PageNo(addr, b.pageSize) in b.state
    requires b.state[PageNo(addr, b.pageSize)].Absent?
    modifies b
    ensures cleared ==>
              b.Permits(addr, false) && PageNo(addr, b.pageSize) in b.state && b.state[PageNo(addr, b.pageSize)].Absent?
    ensures b.lenient ==> cleared
  {
    hide PageNo, InPage, Separate, Tied, Occupied, Native, PagesTouched;
    b.PositivePage();
    TouchesFirst(addr, 1, b.pageSize);
    TouchesOne(addr, b.pageSize);
    cleared := b.ClearDirty(addr, 1);
  }

  lemma SomePages(bytes: nat, ps: nat)
    requires ps > 0 && bytes > 0
    ensures PagesTouched(0, bytes, ps) > 0
  {
    Position(0, ps);
    TouchesFirst(0, bytes, ps);
  }

  lemma TouchesOne(addr: nat, ps: nat)
    requires ps > 0
    ensures Span(PageNo(addr, ps), PagesTouched(addr, 1, ps)) == {PageNo(addr, ps)}
  {
    hide Start, PageNo, InPage, Span;
    Position(addr, ps);
    DivIsPageNo(InPage(addr, ps) + 1 + ps - 1, ps);
    StartsAdd(0, 1, ps);
    StartsAdd(0, 0, ps);
    Located(1, InPage(addr, ps), ps);
    OnePage(PageNo(addr, ps));
  }

  /** Every byte of a range is on one of the pages the range touches. */
  lemma TouchesAll(addr: nat, len: nat, ps: nat, at: nat)
    requires ps > 0 && addr <= at < addr + len
    ensures PageNo(at, ps) in Span(PageNo(addr, ps), PagesTouched(addr, len, ps))
  {
    hide Start, PageNo, InPage;
    var n := PagesTouched(addr, len, ps);
    Position(addr, ps);
    Position(at, ps);
    DivIsPageNo(InPage(addr, ps) + len + ps - 1, ps);
    Position(InPage(addr, ps) + len + ps - 1, ps);
    StartsAdd(PageNo(addr, ps), n, ps);
    StartsOrder(PageNo(at, ps), PageNo(addr, ps) + n, ps);
    StartsOrder(PageNo(at, ps), PageNo(addr, ps), ps);
  }

  lemma TouchesFirst(addr: nat, len: nat, ps: nat)
    requires ps > 0 && len > 0
    ensures PageNo(addr, ps) in Span(PageNo(addr, ps), PagesTouched(addr, len, ps))
    ensures FillSpan(addr, len, ps) == Span(PageNo(addr, ps), PagesTouched(addr, len, ps))
  {
    var t := InPage(addr, ps) + len + ps - 1;
    Position(t, ps);
    StartsAdd(0, 0, ps);
    assert PageNo(t, ps) >= 1;
  }

  /** The pages a fill covers: always at least one. */
  function FillSpan(addr: nat, len: nat, ps: nat): (s: set<nat>)
    requires ps > 0
  {
    Span(PageNo(addr, ps), if InPage(addr, ps) + len == 0 then 1 else PagesTouched(addr, len, ps))
  }

  lemma SizedPages(platform: Platform, ps: nat, state: map<nat, PageState>, os: Memory, written: set<nat>,
                   lost: set<nat>)
    requires Sound(platform, ps, state, os, written, lost)
    ensures os.Keys == state.Keys && forall p :: p in os ==> |os[p].bytes| == ps
  {
  }

  lemma NoneVacant(platform: Platform, ps: nat, state: map<nat, PageState>, os: Memory, written: set<nat>,
                   lost: set<nat>, span: set<nat>)
    requires Sound(platform, ps, state, os, written, lost) && platform.Windows? && Present(os, span) == span
    ensures Vacant(state, span) == {} && forall p :: p in span ==> p in os && !os[p].prot.NoAccess?
  {
    assert forall p :: p in span ==> p in Present(os, span);
  }

  lemma NothingReclaimed(os: Memory, span: set<nat>)
    ensures Reclaimed(os, os, span)
  {
  }

  lemma ReclaimedOutside(os: Memory, os': Memory, span: set<nat>)
    requires Reclaimed(os, os', span)
    ensures os'.Keys == os.Keys && forall p :: p in os && p !in span ==> os'[p] == os[p]
  {
  }

  lemma NothingEvicted(platform: Platform, ps: nat, state: map<nat, PageState>, os: Memory, written: set<nat>,
                       lost: set<nat>, first: nat)
    ensures Vacated(platform, ps, os, os, Span(first, 0))
    ensures state == Changed(state, Span(first, 0), Drop) && written == written - Span(first, 0)
    ensures lost == lost - Span(first, 0)
  {
  }

  lemma OnePage(p: nat)
    ensures Span(p, 1) == {p}
  {
  }

  // ---- The operating system's answers keep the invariant ----

  /** A span filled, or emptied, as a whole. */
  lemma SetKeeps(platform: Platform, ps: nat, state: map<nat, PageState>, os: Memory, os': Memory, written: set<nat>,
                 lost: set<nat>, span: set<nat>, to: PageState, prot: Prot)
    requires Sound(platform, ps, state, os, written, lost) && os'.Keys == os.Keys && Guarded(to, prot)
    requires forall p :: p in os ==> if p in span then os'[p].prot == prot && |os'[p].bytes| == ps else os'[p] == os[p]
    requires platform.Linux? ==> !to.Resident? && !prot.ReadOnly?
    ensures Sound(platform, ps, Changed(state, span, Fill(to)), os', written - span, lost - span)
  {
  }

  /** The memory after a fill, and what is recorded about it. */
  ghost predicate FilledBy(platform: Platform, span: set<nat>, addr: nat, data: Option<seq<byte>>,
                           state: map<nat, PageState>, os: Memory, state': map<nat, PageState>, os': Memory,
                           dirty: bool) {
    && span <= os.Keys && os'.Keys == os.Keys
    && (forall p :: p in os ==>
          if p in span then os'[p].bytes == FilledPage(platform, os[p], p, addr, data) else os'[p] == os[p])
    && (state' == Changed(state, span, Fill(Dirty)) || (!dirty && state' == Changed(state, span, Fill(Resident))))
  }

  lemma FillKeeps(platform: Platform, ps: nat, state: map<nat, PageState>, os: Memory, written: set<nat>,
                  lost: set<nat>, span: set<nat>, addr: nat, data: Option<seq<byte>>, to: PageState)
    requires Sound(platform, ps, state, os, written, lost) && span <= os.Keys && !to.Absent?
    requires to.Resident? ==> !platform.Linux?
    ensures var os' := Filled(platform, os, span, addr, data);
            var os'' := if to.Dirty? then os' else Protected(os', span, ReadOnly);
            && Sound(platform, ps, Changed(state, span, Fill(to)), os'', written - span, lost - span)
            && FilledBy(platform, span, addr, data, state, os, Changed(state, span, Fill(to)), os'', to.Dirty?)
            && FilledBy(platform, span, addr, data, state, os, Changed(state, span, Fill(to)), os'', false)
  {
    hide Sound, Changed, FilledPage, Present;
    SizedPages(platform, ps, state, os, written, lost);
    var os' := Filled(platform, os, span, addr, data);
    if to.Dirty? {
      SetKeeps(platform, ps, state, os, os', written, lost, span, Dirty, ReadWrite);
    } else {
      SetKeeps(platform, ps, state, os, Protected(os', span, ReadOnly), written, lost, span, Resident, ReadOnly);
    }
  }

  lemma DropsAll(state: map<nat, PageState>, span: set<nat>)
    ensures Changed(state, span, Drop).Keys == state.Keys
    ensures forall p :: p in state ==> Changed(state, span, Drop)[p] == if p in span then Absent else state[p]
    ensures Changed(state, span, Fill(Absent)) == Changed(state, span, Drop)
  {
  }

  lemma ChangedTwice(state: map<nat, PageState>, span: set<nat>, c: Change)
    ensures Changed(Changed(state, span, c), span, Drop) == Changed(state, span, Drop)
  {
  }

  /** Pages recorded absent although they are present are no longer guarded. */
  lemma RollbackKeeps(platform: Platform, ps: nat, state: map<nat, PageState>, os: Memory, written: set<nat>,
                      lost: set<nat>, span: set<nat>)
    requires Sound(platform, ps, state, os, written, lost) && platform.Linux?
    ensures Sound(platform, ps, Changed(state, span, Drop), os, written, lost + Present(os, span))
  {
  }

  lemma ClearKeeps(platform: Platform, ps: nat, state: map<nat, PageState>, os: Memory, written: set<nat>,
                   lost: set<nat>, span: set<nat>)
    requires Sound(platform, ps, state, os, written, lost) && !platform.Linux? && span <= os.Keys
    requires platform.Windows? ==> forall p :: p in span ==> !os[p].prot.NoAccess?
    ensures Sound(platform, ps, Changed(state, span, Clean), Protected(os, span, ReadOnly), written - span,
                  lost + Vacant(state, span))
  {
  }

  function Vacant(state: map<nat, PageState>, span: set<nat>): (r: set<nat>) {
    set p | p in span && p in state && state[p].Absent?
  }

  lemma FewerWritten(platform: Platform, ps: nat, state: map<nat, PageState>, os: Memory, written: set<nat>,
                     lost: set<nat>, span: set<nat>)
    requires Sound(platform, ps, state, os, written, lost)
    ensures Sound(platform, ps, state, os, written - span, lost)
  {
  }

  lemma ReclaimKeeps(platform: Platform, ps: nat, state: map<nat, PageState>, os: Memory, os': Memory,
                     written: set<nat>, lost: set<nat>, span: set<nat>)
    requires Sound(platform, ps, state, os, written, lost) && Reclaimed(os, os', span)
    ensures Sound(platform, ps, state, os', written, lost)
  {
  }

  lemma PromoteKeeps(platform: Platform, ps: nat, state: map<nat, PageState>, os: Memory, written: set<nat>,
                     lost: set<nat>, p: nat)
    requires Sound(platform, ps, state, os, written, lost) && p in os
    ensures Sound(platform, ps, Changed(state, {p}, Fill(Dirty)), Protected(os, {p}, ReadWrite), written, lost)
  {
  }

  lemma StoreKeeps(platform: Platform, ps: nat, state: map<nat, PageState>, os: Memory, written: set<nat>,
                   lost: set<nat>, p: nat, j: nat, v: byte)
    requires Sound(platform, ps, state, os, written, lost) && p in os && os[p].prot.ReadWrite? && j < |os[p].bytes|
    ensures Sound(platform, ps, state, os[p := OsPage(ReadWrite, os[p].bytes[j := v])], written + {p}, lost)
  {
  }

  lemma ChangedNothing(state: map<nat, PageState>, first: nat, c: Change)
    ensures Changed(state, Span(first, 0), c) == state
  {
  }

  lemma ChangedOne(state: map<nat, PageState>, first: nat, k: nat, c: Change)
    ensures Changed(state, Span(first, k + 1), c) ==
              var s := Changed(state, Span(first, k), c);
              if first + k in state then s[first + k := Next(c, state[first + k])] else s
    ensures first + k in state ==> Changed(state, Span(first, k), c)[first + k] == state[first + k]
  {
    assert Span(first, k + 1) == Span(first, k) + {first + k};
    assert !InSpan(first + k, first, k);
  }

  lemma TiedAt(regions: map<nat, Region>, ps: nat, state: map<nat, PageState>, b: nat, i: nat)
    requires ps > 0 && Tied(regions, ps, state) && b in regions && i < |regions[b].states|
    ensures PageNo(b, ps) + i in state && state[PageNo(b, ps) + i] == regions[b].states[i]
  {
    assert Covers(regions, ps, b, PageNo(b, ps) + i);
  }

  lemma RegionStates(regions: map<nat, Region>, ps: nat, state: map<nat, PageState>, b: nat)
    requires ps > 0 && Tied(regions, ps, state) && b in regions
    ensures forall p :: InSpan(p, PageNo(b, ps), |regions[b].states|) ==>
              p in state && state[p] == regions[b].states[p - PageNo(b, ps)]
  {
    forall p | InSpan(p, PageNo(b, ps), |regions[b].states|)
      ensures p in state && state[p] == regions[b].states[p - PageNo(b, ps)]
    {
      assert Covers(regions, ps, b, p);
    }
  }

  function BlankMemory(first: nat, n: nat, ps: nat): (m: Memory) {
    map p | p in Span(first, n) :: OsPage(NoAccess, Zeros(ps))
  }

  /** `n` fresh absent pages from `first` on; everything else is as it was. */
  ghost predicate Grown(state: map<nat, PageState>, os: Memory, state': map<nat, PageState>, os': Memory, first: nat,
                        n: nat) {
    && n > 0 && state.Keys !! Span(first, n) && state' == state + Blank(first, n)
    && os'.Keys == os.Keys + Span(first, n) && forall p :: p in os ==> os'[p] == os[p]
  }

  lemma AddPages(platform: Platform, state: map<nat, PageState>, os: Memory, written: set<nat>, lost: set<nat>, ps: nat,
                 first: nat, n: nat)
    requires Sound(platform, ps, state, os, written, lost)
    requires n > 0 && state.Keys !! Blank(first, n).Keys
    ensures var s, o := state + Blank(first, n), os + BlankMemory(first, n, ps);
            Sound(platform, ps, s, o, written, lost) && Grown(state, os, s, o, first, n)
  {
  }

  lemma DropPages(platform: Platform, state: map<nat, PageState>, os: Memory, written: set<nat>, lost: set<nat>,
                  ps: nat, pages: set<nat>)
    requires Sound(platform, ps, state, os, written, lost)
    ensures Sound(platform, ps, state - pages, os - pages, written - pages, lost - pages)
  {
  }
}
