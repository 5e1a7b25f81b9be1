/** Regions of pages as the fault backends track them, and the page numbers they cover. */
module PageStates {
  import opened Bytes
  import opened Paging

  datatype Platform = Windows | Linux | MacOS

  /** Linux knows only absent and dirty: whatever is resident may have been written. */
  datatype PageState = Absent | Resident | Dirty

  datatype Region = Region(size: nat, states: seq<PageState>)

  datatype Prot = NoAccess | ReadOnly | ReadWrite

  /** A page as the operating system sees it. */
  datatype OsPage = OsPage(prot: Prot, bytes: seq<byte>)

  // ---- Addresses and page numbers ----

  /** How many pages `len` bytes from `addr` on touch. */
  function PagesTouched(addr: nat, len: nat, ps: nat): (n: nat)
    requires ps > 0
  {
    (InPage(addr, ps) + len + ps - 1) / ps
  }

  predicate InSpan(p: int, first: nat, n: nat) { first <= p < first + n }

  function Span(first: nat, n: nat): (r: set<nat>)
    ensures forall p :: p in r <==> InSpan(p, first, n)
  {
    set p | first <= p < first + n && InSpan(p, first, n)
  }

  // ---- Regions ----

  /** Each region is whole pages, and they do not overlap. */
  ghost predicate Separate(regions: map<nat, Region>, ps: nat)
    requires ps > 0
  {
    && (forall b :: b in regions ==>
          InPage(b, ps) == 0 && regions[b].states != [] && regions[b].size == Start(|regions[b].states|, ps))
    && (forall b, c :: b in regions && c in regions && b < c ==> b + regions[b].size <= c)
  }

  predicate Covers(regions: map<nat, Region>, ps: nat, b: nat, p: nat)
    requires ps > 0 && b in regions
  {
    PageNo(b, ps) <= p < PageNo(b, ps) + |regions[b].states|
  }

  /** `state` is what the regions say, page number by page number. */
  ghost predicate Tied(regions: map<nat, Region>, ps: nat, state: map<nat, PageState>)
    requires ps > 0
  {
    && (forall b, p: nat :: b in regions && Covers(regions, ps, b, p) ==>
          p in state && state[p] == regions[b].states[p - PageNo(b, ps)])
    && (forall p :: p in state ==> exists b :: b in regions && Covers(regions, ps, b, p))
  }

  /** An address is in a region exactly if its page number is. */
  lemma AddressCovered(regions: map<nat, Region>, ps: nat, b: nat, a: nat)
    requires ps > 0 && Separate(regions, ps) && b in regions
    ensures b <= a < b + regions[b].size <==> Covers(regions, ps, b, PageNo(a, ps))
    ensures Covers(regions, ps, b, PageNo(a, ps)) ==> (a - b) / ps == PageNo(a, ps) - PageNo(b, ps)
  {
    hide PageNo, InPage, Start;
    var f, n, p := PageNo(b, ps), |regions[b].states|, PageNo(a, ps);
    Position(b, ps);
    Position(a, ps);
    StartsAdd(f, n, ps);
    StartsOrder(p, f, ps);
    StartsOrder(p, f + n, ps);
    if p >= f {
      StartsAdd(f, p - f, ps);
      Located(p - f, InPage(a, ps), ps);
      DivIsNumber(a - b, ps);
    }
  }

  lemma DivIsNumber(a: nat, ps: nat)
    requires ps > 0
    ensures a / ps == PageNo(a, ps)
  {
  }

  lemma OneCover(regions: map<nat, Region>, ps: nat, b: nat, c: nat, p: nat)
    requires ps > 0 && Separate(regions, ps) && b in regions && c in regions
    requires Covers(regions, ps, b, p) && Covers(regions, ps, c, p)
    ensures b == c
  {
    hide PageNo, InPage, Start;
    Located(p, 0, ps);
    AddressCovered(regions, ps, b, Start(p, ps));
    AddressCovered(regions, ps, c, Start(p, ps));
  }

  /** Changing the state of one page. */
  function WithState(regions: map<nat, Region>, b: nat, i: nat, s: PageState): (r: map<nat, Region>)
    requires b in regions && i < |regions[b].states|
  {
    regions[b := Region(regions[b].size, regions[b].states[i := s])]
  }

  lemma WithStateTied(regions: map<nat, Region>, ps: nat, state: map<nat, PageState>, b: nat, i: nat, s: PageState)
    requires ps > 0 && Separate(regions, ps) && Tied(regions, ps, state) && b in regions && i < |regions[b].states|
    ensures Separate(WithState(regions, b, i, s), ps) && PageNo(b, ps) + i in state
    ensures Tied(WithState(regions, b, i, s), ps, state[PageNo(b, ps) + i := s])
  {
    hide PageNo, InPage, Start, Separate;
    var regions' := WithState(regions, b, i, s);
    var p := PageNo(b, ps) + i;
    var state' := state[p := s];
    WithStateSeparate(regions, ps, b, i, s);
    assert Covers(regions, ps, b, p);
    forall c, q: nat | c in regions' && Covers(regions', ps, c, q)
      ensures q in state' && state'[q] == regions'[c].states[q - PageNo(c, ps)]
    {
      assert Covers(regions, ps, c, q);
      if q == p { OneCover(regions, ps, b, c, p); }
    }
    forall q | q in state' ensures exists c :: c in regions' && Covers(regions', ps, c, q) {
      var c :| c in regions && Covers(regions, ps, c, q);
      assert Covers(regions', ps, c, q);
    }
  }

  lemma WithStateSeparate(regions: map<nat, Region>, ps: nat, b: nat, i: nat, s: PageState)
    requires ps > 0 && Separate(regions, ps) && b in regions && i < |regions[b].states|
    ensures Separate(WithState(regions, b, i, s), ps)
  {
    hide InPage, Start;
  }

  // ---- Counting ----

  function Occupied(state: map<nat, PageState>): (r: set<nat>) { set p | p in state && !state[p].Absent? }

  function Weight(s: PageState): (n: nat) { if s.Absent? then 0 else 1 }

  /** Changing one page changes the count by that page alone. */
  lemma CountOne(state: map<nat, PageState>, p: nat, s: PageState)
    requires p in state
    ensures |Occupied(state[p := s])| == |Occupied(state)| - Weight(state[p]) + Weight(s)
  {
    var rest := Occupied(state) - {p};
    assert Occupied(state) == if state[p].Absent? then rest else rest + {p};
    assert Occupied(state[p := s]) == if s.Absent? then rest else rest + {p};
  }

  // ---- Adding and removing regions ----

  function Blank(first: nat, n: nat): (m: map<nat, PageState>) { map p | p in Span(first, n) :: Absent }

  /** The range from `base` on is free. */
  predicate Unused(regions: map<nat, Region>, base: nat, size: nat) {
    forall b :: b in regions ==> b + regions[b].size <= base || base + size <= b
  }

  lemma Reserved(regions: map<nat, Region>, ps: nat, state: map<nat, PageState>, base: nat, n: nat)
    requires ps > 0 && n > 0 && Separate(regions, ps) && Tied(regions, ps, state)
    requires InPage(base, ps) == 0 && Unused(regions, base, Start(n, ps))
    ensures var r := regions[base := Region(Start(n, ps), seq(n, _ => Absent))];
            var s := state + Blank(PageNo(base, ps), n);
            Separate(r, ps) && Tied(r, ps, s) && Occupied(s) == Occupied(state)
    ensures state.Keys !! Blank(PageNo(base, ps), n).Keys && base !in regions
  {
    hide PageNo, InPage, Start;
    var r := regions[base := Region(Start(n, ps), seq(n, _ => Absent))];
    var f, blank := PageNo(base, ps), Blank(PageNo(base, ps), n);
    StartsOrder(0, n, ps);
    StartsAdd(0, 0, ps);
    forall b | b in regions ensures b != base {
      StartsOrder(0, |regions[b].states|, ps);
    }
    assert Separate(r, ps);
    forall p | p in state ensures p !in blank {
      var b :| b in regions && Covers(regions, ps, b, p);
      assert Covers(r, ps, b, p);
      if p in blank {
        assert Covers(r, ps, base, p);
        OneCover(r, ps, b, base, p);
      }
    }
    ReservedTied(regions, ps, state, base, n);
  }

  lemma ReservedTied(regions: map<nat, Region>, ps: nat, state: map<nat, PageState>, base: nat, n: nat)
    requires ps > 0 && Tied(regions, ps, state) && base !in regions
    requires state.Keys !! Blank(PageNo(base, ps), n).Keys
    ensures Tied(regions[base := Region(Start(n, ps), seq(n, _ => Absent))], ps, state + Blank(PageNo(base, ps), n))
  {
    hide PageNo, InPage, Start;
    var r := regions[base := Region(Start(n, ps), seq(n, _ => Absent))];
    var s := state + Blank(PageNo(base, ps), n);
    forall b, p: nat | b in r && Covers(r, ps, b, p) ensures p in s && s[p] == r[b].states[p - PageNo(b, ps)] {
      if b != base { assert Covers(regions, ps, b, p) && p in state; }
    }
    forall p | p in s ensures exists b :: b in r && Covers(r, ps, b, p) {
      if p in state {
        var b :| b in regions && Covers(regions, ps, b, p);
        assert Covers(r, ps, b, p);
      } else {
        assert Covers(r, ps, base, p);
      }
    }
  }

  /** The pages of one region. */
  function PagesOf(regions: map<nat, Region>, ps: nat, b: nat): (r: set<nat>)
    requires ps > 0 && b in regions
  {
    Span(PageNo(b, ps), |regions[b].states|)
  }

  lemma Released(regions: map<nat, Region>, ps: nat, state: map<nat, PageState>, b: nat)
    requires ps > 0 && Separate(regions, ps) && Tied(regions, ps, state) && b in regions
    ensures Separate(regions - {b}, ps) && Tied(regions - {b}, ps, state - PagesOf(regions, ps, b))
  {
    hide PageNo, InPage, Start, Separate;
    var r, s := regions - {b}, state - PagesOf(regions, ps, b);
    DropSeparate(regions, ps, b);
    forall c, p: nat | c in r && Covers(r, ps, c, p) ensures p in s && s[p] == r[c].states[p - PageNo(c, ps)] {
      assert Covers(regions, ps, c, p);
      if p in PagesOf(regions, ps, b) { OneCover(regions, ps, b, c, p); }
    }
    forall p | p in s ensures exists c :: c in r && Covers(r, ps, c, p) {
      var c :| c in regions && Covers(regions, ps, c, p);
      assert Covers(r, ps, c, p);
    }
  }

  lemma DropSeparate(regions: map<nat, Region>, ps: nat, b: nat)
    requires ps > 0 && Separate(regions, ps)
    ensures Separate(regions - {b}, ps)
  {
    hide InPage, Start;
  }

  function CountResident(states: seq<PageState>): (n: nat) {
    if states == [] then 0 else CountResident(states[..|states| - 1]) + Weight(states[|states| - 1])
  }

  /** Dropping consecutive pages lowers the count by the resident ones among them. */
  lemma {:induction false} CountDropped(state: map<nat, PageState>, first: nat, states: seq<PageState>)
    requires forall p :: InSpan(p, first, |states|) ==> p in state && state[p] == states[p - first]
    ensures |Occupied(state - Span(first, |states|))| == |Occupied(state)| - CountResident(states)
  {
    var n := |states|;
    if n == 0 {
      assert state - Span(first, n) == state;
    } else {
      forall p | InSpan(p, first, n - 1)
        ensures p in state && state[p] == states[..n - 1][p - first]
      {
        assert InSpan(p, first, n);
      }
      CountDropped(state, first, states[..n - 1]);
      var q := first + n - 1;
      assert InSpan(q, first, n) && !InSpan(q, first, n - 1);
      DropOne(state, Span(first, n - 1), q);
      assert Span(first, n) == Span(first, n - 1) + {q};
    }
  }

  lemma DropOne(state: map<nat, PageState>, s: set<nat>, q: nat)
    requires q in state && q !in s
    ensures |Occupied(state - (s + {q}))| == |Occupied(state - s)| - Weight(state[q])
  {
    var rest := Occupied(state - (s + {q}));
    assert Occupied(state - s) == if state[q].Absent? then rest else rest + {q};
  }
}
