/** Ranges of remote blocks: striped transfers have the effect of one flat access. */
module RemoteIo {
  import opened Bytes
  import opened Framing
  import opened Peers
  import opened RemoteBlocks
  import opened ServerSpec
  import opened Stripes
  import opened Transports
  import opened Wrappers

  // ---- Writing ----

  /**
   One pass over the stripes writes the whole range, or stops at the first call that
   throws. `Sized` says that the pieces still held are the ones that were placed.
   */
  method WritePass(net: Transport, ps: seq<Stripe>, size: nat, offset: nat, data: seq<byte>)
    returns (ok: bool, done: nat)
    requires net.Valid() && Tile(ps, 0, size) && OnDifferentPeers(ps) && OnPeers(ps, |net.peers|)
    requires offset + |data| <= size
    modifies net
    ensures net.Valid() && Onward(old(net.Tally()), net.Tally()) && (Sized(old(net.peers), ps) ==> Sized(net.peers, ps))
    ensures net.setbacks == old(net.setbacks) ==> Counts(old(net.peers), net.peers)
    ensures Quiet(old(net.peers), net.peers, Refs(ps)) && NoStrays(old(net.peers), net.peers, {})
    ensures net.drops == old(net.drops) ==> Intact(old(net.peers), net.peers, Refs(ps))
    ensures ok ==> done == |data|
    ensures Torn(Cells(old(net.peers), ps), offset, data, Cells(net.peers, ps))
    ensures ok && Sized(old(net.peers), ps) ==>
              Decayed(Overlay(Cells(old(net.peers), ps), offset, data), Cells(net.peers, ps))
    ensures ok && net.drops == old(net.drops) && Sized(old(net.peers), ps) ==>
              Cells(net.peers, ps) == Overlay(Cells(old(net.peers), ps), offset, data)
    ensures !ok ==> net.silent > old(net.silent)
    ensures Undisturbed(old(net.Tally()), net.Tally()) ==> Alike(old(net.peers), net.peers)
  {
    hide Quiet, NoStrays, Intact, Lookup, Transport.Valid, Sized, Cells, OnDifferentPeers, Refs, Tile, Counts,
         Decayed, Overlay, Torn, MayWrite, DidWrite, FullWrite, Reaches, Alike;
    AlikeSelf(net.peers);
    ghost var start := net.peers;
    ghost var c0, sized := Cells(start, ps), Sized(start, ps);
    done := 0;
    QuietRefl(start);
    QuietMore(start, start, Refs(ps));
    OverlayNothing(c0, offset, data);
    NoChangeIsTorn(c0, offset, data);
    CellsLength(start, ps, 0, size);
    FirstOffset(ps, size, offset, data);
    for k := 0 to |ps|
      invariant net.Valid() && Onward(old(net.Tally()), net.Tally()) && |start| <= |net.peers|
      invariant net.setbacks == old(net.setbacks) ==> Counts(start, net.peers)
      invariant Quiet(start, net.peers, Refs(ps)) && NoStrays(start, net.peers, {})
      invariant net.drops == old(net.drops) ==> Intact(start, net.peers, Refs(ps))
      invariant 0 <= done <= |data| && (done == |data| || (k < |ps| && ps[k].offset <= offset + done))
      invariant Torn(c0, offset, data, Cells(net.peers, ps))
      invariant sized ==> Sized(net.peers, ps) && Decayed(Overlay(c0, offset, data[..done]), Cells(net.peers, ps))
      invariant sized && net.drops == old(net.drops) ==> Cells(net.peers, ps) == Overlay(c0, offset, data[..done])
      invariant Undisturbed(old(net.Tally()), net.Tally()) ==> Alike(start, net.peers)
    {
      if done >= |data| { break; }
      NextPiece(net.peers, ps, size, k);
      var pos, s := offset + done, ps[k];
      if pos < s.offset || pos >= s.offset + s.length { continue; }
      var at := pos - s.offset;
      var n := if |data| - done < s.length - at then |data| - done else s.length - at;
      ghost var before, c1, run := net.peers, Cells(net.peers, ps), data[done..done + n];
      if sized { PieceReaches(before, ps, k, at, run); }
      ok := net.WriteOn(s.ref, at, data[done..done + n]);
      CellsWrite(before, net.peers, ps, 0, size, k, at, run);
      if sized { SizedAfterWrite(before, net.peers, ps, k, at, run); }
      InRefs(ps, k);
      QuietLength(before, net.peers, {s.ref});
      QuietTrans(start, before, net.peers, Refs(ps), {s.ref});
      assert Refs(ps) + {s.ref} == Refs(ps);
      StraysAfter(start, before, net.peers, {});
      CountsTrans(start, before, net.peers);
      TornTwice(c0, offset, data, done, done + n, c1, Cells(net.peers, ps));
      if Undisturbed(old(net.Tally()), net.Tally()) { AlikeTrans(start, before, net.peers); }
      if !ok { return; }
      if sized { OverlayTwice(c0, offset, data[..done], c1, run, Cells(net.peers, ps)); }
      assert data[..done] + run == data[..done + n];
      done := done + n;
    }
    ok := true;
    assert data[..done] == data;
  }

  lemma OverlayNothing(c: seq<Cell>, off: nat, data: seq<byte>)
    ensures Overlay(c, off, data[..0]) == c && Decayed(c, c)
  {
  }

  lemma FirstOffset(ps: seq<Stripe>, size: nat, offset: nat, data: seq<byte>)
    requires Tile(ps, 0, size) && offset + |data| <= size
    ensures data == [] || (ps != [] && ps[0].offset == 0)
  {
  }

  lemma PieceReaches(net: Net, ps: seq<Stripe>, k: nat, at: nat, data: seq<byte>)
    requires Sized(net, ps) && k < |ps| && at + |data| <= ps[k].length
    ensures Reaches(Lookup(net, ps[k].ref), at, data)
  {
  }

  lemma InRefs(ps: seq<Stripe>, k: nat)
    requires k < |ps|
    ensures ps[k].ref in Refs(ps)
  {
  }

  /** `write_remote`. The outer loop of the striped case never needs a second round. */
  method WriteRemote(net: Transport, a: RemoteAllocation, offset: nat, data: seq<byte>) returns (ok: bool)
    requires net.Valid() && Formed(a, |net.peers|) && offset + |data| <= a.size
    modifies net
    ensures net.Valid() && Onward(old(net.Tally()), net.Tally()) && |old(net.peers)| <= |net.peers|
    ensures Sized(old(net.peers), Pieces(a)) ==> Sized(net.peers, Pieces(a))
    ensures net.setbacks == old(net.setbacks) ==> Counts(old(net.peers), net.peers)
    ensures Quiet(old(net.peers), net.peers, Refs(Pieces(a))) && NoStrays(old(net.peers), net.peers, {})
    ensures net.drops == old(net.drops) ==> Intact(old(net.peers), net.peers, Refs(Pieces(a)))
    ensures Torn(Cells(old(net.peers), Pieces(a)), offset, data, Cells(net.peers, Pieces(a)))
    ensures ok && Sized(old(net.peers), Pieces(a)) ==>
              Decayed(Overlay(Cells(old(net.peers), Pieces(a)), offset, data), Cells(net.peers, Pieces(a)))
    ensures ok && net.drops == old(net.drops) && Sized(old(net.peers), Pieces(a)) ==>
              Cells(net.peers, Pieces(a)) == Overlay(Cells(old(net.peers), Pieces(a)), offset, data)
    ensures !ok && net.silent == old(net.silent) ==> net.peers == old(net.peers)
    ensures net.silent == old(net.silent) && (a.Striped? || a.size > 0) ==>
              NothingLost(Cells(old(net.peers), Pieces(a))) ==> ok
    ensures net.silent == old(net.silent) ==> (ok <==> a.Striped? || old(net.peers)[a.ref.peer].connected)
    ensures Undisturbed(old(net.Tally()), net.Tally()) ==> Alike(old(net.peers), net.peers)
  {
    hide Quiet, NoStrays, Intact, Lookup, NetOk, Sized, Cells, OnDifferentPeers, Refs, Tile, Counts,
         Decayed, Overlay, Torn, MayWrite, DidWrite, FullWrite, Reaches, NothingLost, Alike;
    ghost var start := net.peers;
    AlikeSelf(start);
    ghost var ps, sized := Pieces(a), Sized(net.peers, Pieces(a));
    QuietRefl(start);
    QuietMore(start, start, Refs(ps));
    OverlayNothing(Cells(start, ps), offset, data);
    NoChangeIsTorn(Cells(start, ps), offset, data);
    if a.Striped? {
      var done := 0;
      ok := true;
      while done < |data|
        invariant done == 0 || done == |data|
        invariant ok && net.Valid() && Onward(old(net.Tally()), net.Tally())
        invariant done == 0 ==> net.peers == start && net.Tally() == old(net.Tally())
        invariant sized ==> Sized(net.peers, ps)
        invariant Undisturbed(old(net.Tally()), net.Tally()) ==> Alike(start, net.peers)
        invariant net.setbacks == old(net.setbacks) ==> Counts(start, net.peers)
        invariant Quiet(start, net.peers, Refs(ps)) && NoStrays(start, net.peers, {})
        invariant net.drops == old(net.drops) ==> Intact(start, net.peers, Refs(ps))
        invariant Torn(Cells(start, ps), offset, data, Cells(net.peers, ps))
        invariant done > 0 && sized ==> Decayed(Overlay(Cells(start, ps), offset, data), Cells(net.peers, ps))
        invariant done > 0 && sized && net.drops == old(net.drops) ==>
                    Cells(net.peers, ps) == Overlay(Cells(start, ps), offset, data)
        decreases |data| - done
      {
        ok, done := WritePass(net, a.stripes, a.size, offset, data);
        QuietLength(start, net.peers, Refs(ps));
        if !ok { return; }
      }
      QuietLength(start, net.peers, Refs(ps));
      if data == [] { assert data[..0] == data; }
    } else {
      if !net.peers[a.ref.peer].connected {
        NotConnected(start, a.ref);
        if a.size > 0 { OneLost(start, a.size, a.ref, ps); }
        return false;
      }
      if a.size > 0 && sized { PieceReaches(start, ps, 0, offset, data); }
      ok := net.WriteOn(a.ref, offset, data);
      QuietLength(start, net.peers, {a.ref});
      if a.size == 0 {
        NeverHeld(start, net.peers, a.ref);
        NoPieces(start, net.peers, offset, data);
      } else {
        CellsWrite(start, net.peers, ps, 0, a.size, 0, offset, data);
        if sized { SizedAfterWrite(start, net.peers, ps, 0, offset, data); }
        OneRef(ps);
      }
    }
  }

  lemma AlikeSelf(net: Net)
    ensures Alike(net, net)
  {
  }

  lemma NoPieces(a: Net, b: Net, off: nat, data: seq<byte>)
    ensures Cells(a, []) == [] && Cells(b, []) == [] && Refs([]) == {} && Sized(b, [])
    ensures Overlay([], off, data) == [] && Decayed([], []) && Torn([], off, data, [])
  {
  }

  lemma OneRef(ps: seq<Stripe>)
    requires |ps| == 1
    ensures Refs(ps) == {ps[0].ref}
  {
  }

  lemma NoChangeIsTorn(c: seq<Cell>, off: nat, data: seq<byte>)
    ensures Torn(c, off, data, c)
  {
  }

  // ---- Reading ----

  /** A call that at worst takes a piece away leaves everything as it was or gone. */
  lemma QuietShrink(a: Net, b: Net, r: Ref)
    requires Quiet(a, b, {r}) && (Lookup(b, r).None? || Lookup(b, r) == Lookup(a, r))
    ensures Quiet(a, b, {})
  {
  }

  /** The cells from `off` on are known to be `out`. */
  predicate Shows(c: seq<Cell>, off: nat, out: seq<byte>) {
    off + |out| <= |c| && forall j :: 0 <= j < |out| ==> c[off + j] == Known(out[j])
  }

  lemma ShowsNothing(c: seq<Cell>, off: nat)
    requires off <= |c|
    ensures Shows(c, off, [])
  {
  }

  lemma ShowsMore(c: seq<Cell>, off: nat, a: seq<byte>, b: seq<byte>)
    requires Shows(c, off, a) && Shows(c, off + |a|, b)
    ensures Shows(c, off, a + b)
  {
    forall j | 0 <= j < |a + b| ensures c[off + j] == Known((a + b)[j]) {
      if j >= |a| { assert c[off + |a| + (j - |a|)] == Known(b[j - |a|]); }
    }
  }

  /** Bytes read off a piece are the bytes of the flat block. */
  lemma ReadOfPiece(start: Net, net: Net, ps: seq<Stripe>, size: nat, k: nat, at: nat, n: nat, run: seq<byte>)
    requires Tile(ps, 0, size) && k < |ps| && Quiet(start, net, {})
    requires Lookup(net, ps[k].ref).Some? && at + n <= |Lookup(net, ps[k].ref).value| && at + n <= ps[k].length
    requires run == Lookup(net, ps[k].ref).value[at..at + n]
    ensures Shows(Cells(start, ps), ps[k].offset + at, run)
  {
    hide Lookup;
    CellsOfPiece(start, ps, 0, size, k);
    assert Lookup(net, ps[k].ref) == Lookup(start, ps[k].ref);
    var piece := PieceCells(start, ps[k]);
    var c := Cells(start, ps);
    forall j | 0 <= j < n ensures c[ps[k].offset + at + j] == Known(run[j]) {
      assert c[ps[k].offset..ps[k].offset + ps[k].length][at + j] == piece[at + j];
    }
  }

  /** No cell from `off` on, `n` of them, is lost. */
  predicate RangeKnown(c: seq<Cell>, off: nat, n: nat) {
    off + n <= |c| && forall i :: off <= i < off + n ==> c[i].Known?
  }

  /** How much of a range lies in one piece, if positive. */
  function RunIn(s: Stripe, off: nat, n: nat): (m: int) {
    var from, to := if off < s.offset then s.offset else off, s.offset + s.length;
    (if off + n < to then off + n else to) - from
  }

  /** The parts of a range that lie in one piece each fit one reply. */
  predicate RunsFit(ps: seq<Stripe>, off: nat, n: nat) {
    forall k :: 0 <= k < |ps| ==> RunIn(ps[k], off, n) <= MAX_MESSAGE_SIZE
  }

  lemma RunIs(s: Stripe, off: nat, n: nat, done: nat)
    requires done < n && s.offset <= off + done < s.offset + s.length && (done == 0 || s.offset == off + done)
    ensures var at := off + done - s.offset;
            RunIn(s, off, n) == if n - done < s.length - at then n - done else s.length - at
  {
  }

  /** The first piece that is too long for one reply. */
  function Sticking(ps: seq<Stripe>): (k: nat)
    ensures k <= |ps| && forall i :: 0 <= i < k ==> ps[i].length <= MAX_MESSAGE_SIZE
    ensures k < |ps| ==> ps[k].length > MAX_MESSAGE_SIZE
  {
    if ps == [] || ps[0].length > MAX_MESSAGE_SIZE then 0 else 1 + Sticking(ps[1..])
  }

  lemma {:induction false} TileOrder(ps: seq<Stripe>, from: nat, size: nat, i: nat, j: nat)
    requires Tile(ps, from, size) && i <= j < |ps|
    ensures from <= ps[i].offset <= ps[j].offset
    decreases |ps|
  {
    if i > 0 {
      TileOrder(ps[1..], from + ps[0].length, size, i - 1, j - 1);
    } else if j > 0 {
      TileOrder(ps[1..], from + ps[0].length, size, 0, j - 1);
    }
  }

  lemma BeyondRuns(ps: seq<Stripe>, size: nat, k: nat, off: nat, n: nat)
    requires Tile(ps, 0, size) && k <= |ps| && (n == 0 || k == |ps| || off + n <= ps[k].offset)
    requires forall i :: 0 <= i < k ==> RunIn(ps[i], off, n) <= MAX_MESSAGE_SIZE
    ensures RunsFit(ps, off, n)
  {
    forall i | k <= i < |ps| ensures RunIn(ps[i], off, n) <= 0 {
      if n > 0 { TileOrder(ps, 0, size, k, i); }
    }
  }

  predicate NothingLost(c: seq<Cell>) { forall i :: 0 <= i < |c| ==> c[i].Known? }

  /** None of these is held any more. */
  ghost predicate Gone(net: Net, t: set<Ref>) { forall r :: r in t ==> Lookup(net, r).None? }

  lemma GoneAfter(a: Net, b: Net, t: set<Ref>, r: Ref)
    requires NoStrays(a, b, {})
    ensures Gone(a, t) ==> Gone(b, t) && (Lookup(b, r).None? ==> Gone(b, t + {r}))
  {
    hide Lookup;
  }

  function Taken(ref: Ref, taken: bool): (t: set<Ref>) { if taken then {ref} else {} }

  /** Reads a range of one piece and, with `release`, frees the piece right after. */
  method TakeRun(net: Transport, ref: Ref, at: nat, n: nat, release: bool) returns (run: Option<seq<byte>>)
    requires net.Valid() && ref.peer < |net.peers|
    modifies net
    ensures net.Valid() && Onward(old(net.Tally()), net.Tally())
    ensures net.setbacks == old(net.setbacks) ==> Counts(old(net.peers), net.peers)
    ensures Quiet(old(net.peers), net.peers, {}) && NoStrays(old(net.peers), net.peers, {})
    ensures net.drops == old(net.drops) ==>
              Intact(old(net.peers), net.peers, Taken(ref, release && (run.Some? || net.silent > old(net.silent))))
    ensures run.Some? ==> 0 < n <= MAX_MESSAGE_SIZE && var held := Lookup(old(net.peers), ref);
                          held.Some? && at + n <= |held.value| && run.value == held.value[at..at + n]
    ensures run.Some? && release && net.silent == old(net.silent) ==> Lookup(net.peers, ref).None?
    ensures net.drops == old(net.drops) && net.silent == old(net.silent) && 0 < n <= MAX_MESSAGE_SIZE ==>
              Lookup(old(net.peers), ref).Some? && at + n <= |Lookup(old(net.peers), ref).value| ==> run.Some?
  {
    hide Quiet, NoStrays, Intact, Lookup, Transport.Valid, Counts;
    ghost var start := net.peers;
    run := net.ReadOn(ref, at, n);
    ghost var mid := net.peers;
    IntactWider(start, mid, {}, {ref});
    if run.None? || !release { return; }
    QuietLength(start, mid, {});
    var freed := net.FreeOn(ref);
    QuietShrink(mid, net.peers, ref);
    After(start, mid, net.peers, {});
    StraysAfter(start, mid, net.peers, {});
    CountsTrans(start, mid, net.peers);
    IntactAfter(start, mid, net.peers, {}, {ref});
    assert {} + {ref} == {ref};
    if !freed { run := None; }
  }

  // ---- One pass over the stripes ----

  /** What a stretch of reads has done: references in `touched` may have been released, and nothing else. */
  ghost predicate Drained(start: Net, net: Net, touched: set<Ref>, x: Counters, y: Counters) {
    && Onward(x, y) && Quiet(start, net, {}) && NoStrays(start, net, {})
    && (y.setbacks == x.setbacks ==> Counts(start, net)) && (y.drops == x.drops ==> Intact(start, net, touched))
    && (y.silent == x.silent ==> Gone(net, touched))
  }

  lemma DrainedNothing(net: Net, x: Counters)
    ensures Drained(net, net, {}, x, x)
  {
    QuietRefl(net);
  }

  lemma DrainedMore(a: Net, b: Net, c: Net, touched: set<Ref>, ref: Ref, taken: bool, x: Counters, y: Counters,
                    z: Counters)
    requires Drained(a, b, touched, x, y) && Onward(y, z) && Quiet(b, c, {}) && NoStrays(b, c, {})
    requires (z.setbacks == y.setbacks ==> Counts(b, c)) && (z.drops == y.drops ==> Intact(b, c, Taken(ref, taken)))
    requires taken && z.silent == y.silent ==> Lookup(c, ref).None?
    ensures Drained(a, c, touched + Taken(ref, taken), x, z)
  {
    hide Quiet, NoStrays, Intact, Lookup, Gone, Counts;
    After(a, b, c, {});
    StraysAfter(a, b, c, {});
    CountsTrans(a, b, c);
    GoneAfter(b, c, touched, ref);
    IntactAfter(a, b, c, touched, Taken(ref, taken));
    if !taken { assert touched + {} == touched; }
  }

  /** Where a pass stands that has covered `done` bytes of the range and is about to look at piece `k`. */
  ghost predicate Reached(ps: seq<Stripe>, k: nat, off: nat, n: nat, done: nat) {
    && k <= |ps| && done <= n
    && (done < n ==> k < |ps| && ps[k].offset <= off + done && (0 < done ==> ps[k].offset == off + done))
    && (n == 0 || done < n || k == |ps| || off + n <= ps[k].offset)
    && (forall i :: 0 <= i < k ==> RunIn(ps[i], off, n) <= MAX_MESSAGE_SIZE)
  }

  lemma ReachedStart(ps: seq<Stripe>, size: nat, off: nat, n: nat)
    requires Tile(ps, 0, size) && off + n <= size
    ensures Reached(ps, 0, off, n, 0)
  {
  }

  lemma ReachedNext(net: Net, ps: seq<Stripe>, size: nat, k: nat, off: nat, n: nat, done: nat)
    requires Reached(ps, k, off, n, done) && Tile(ps, 0, size) && off + n <= size && done < n
    ensures ps[k].length > 0 && ps[k].offset <= off + done && ps[k].offset + ps[k].length <= size
    ensures off + done >= ps[k].offset + ps[k].length ==> done == 0 && Reached(ps, k + 1, off, n, done)
    ensures off + done < ps[k].offset + ps[k].length ==>
              var at, m := off + done - ps[k].offset, RunIn(ps[k], off, n);
              && m == (if n - done < ps[k].length - at then n - done else ps[k].length - at)
              && (m <= MAX_MESSAGE_SIZE ==> Reached(ps, k + 1, off, n, done + m))
  {
    NextPiece(net, ps, size, k);
    if off + done < ps[k].offset + ps[k].length { RunIs(ps[k], off, n, done); } else { NoRun(ps[k], off, n); }
  }

  lemma ReachedEnd(ps: seq<Stripe>, size: nat, k: nat, off: nat, n: nat, done: nat)
    requires Reached(ps, k, off, n, done) && Tile(ps, 0, size) && (k == |ps| || done == n)
    ensures done == n && RunsFit(ps, off, n)
  {
    BeyondRuns(ps, size, k, off, n);
  }

  /** A pass over the whole block meets every piece at its start and takes all of it. */
  lemma ReachedWhole(net: Net, ps: seq<Stripe>, size: nat, k: nat, done: nat)
    requires Reached(ps, k, 0, size, done) && Tile(ps, 0, size)
    ensures k < |ps| ==> done < size && ps[k].offset == done
    ensures k < |ps| && RunIn(ps[k], 0, size) > MAX_MESSAGE_SIZE ==> Sticking(ps) == k
    ensures k == |ps| ==> Sticking(ps) == k && ps[..k] == ps
  {
    hide Cells, Tile;
    forall i | 0 <= i < |ps| ensures RunIn(ps[i], 0, size) == ps[i].length { NextPiece(net, ps, size, i); }
    if k < |ps| { NextPiece(net, ps, size, k); }
  }

  /**
   One pass over the stripes reads the whole range, exactly if no part of it is too
   long for one reply. With `release`, each piece is freed right after it has been
   read, so a failure later on has already lost it: `touched` are these.
   */
  method ReadPass(net: Transport, ps: seq<Stripe>, size: nat, offset: nat, n: nat, release: bool)
    returns (ok: bool, out: seq<byte>, ghost touched: set<Ref>)
    requires net.Valid() && Tile(ps, 0, size) && OnDifferentPeers(ps) && OnPeers(ps, |net.peers|) && offset + n <= size
    requires release ==> offset == 0 && n == size
    modifies net
    ensures net.Valid() && Drained(old(net.peers), net.peers, touched, old(net.Tally()), net.Tally())
    ensures ok ==> |out| == n && Shows(Cells(old(net.peers), ps), offset, out) && RunsFit(ps, offset, n)
    ensures net.drops == old(net.drops) && net.silent == old(net.silent) ==>
              RangeKnown(Cells(old(net.peers), ps), offset, n) && RunsFit(ps, offset, n) ==> ok
    ensures touched <= Refs(ps) && (!release ==> touched == {}) && (ok && release ==> touched == Refs(ps))
    ensures net.drops == old(net.drops) && net.silent == old(net.silent) && release ==>
              RangeKnown(Cells(old(net.peers), ps), 0, size) ==> touched == Refs(ps[..Sticking(ps)])
  {
    hide Drained, Reached, Quiet, NoStrays, Intact, Lookup, Transport.Valid, Cells, OnDifferentPeers, Tile, Refs,
         RunIn, RangeKnown, RunsFit, Shows, Gone, Counts, Sticking;
    ghost var start, x := net.peers, net.Tally();
    touched, out := {}, [];
    DrainedNothing(start, x);
    CellsLength(start, ps, 0, size);
    ShowsNothing(Cells(start, ps), offset);
    ReachedStart(ps, size, offset, n);
    NoRefs();
    assert ps[..0] == [];
    var k := 0;
    while k < |ps| && |out| < n
      invariant 0 <= k <= |ps| && net.Valid() && |out| <= n && Reached(ps, k, offset, n, |out|)
      invariant touched == if release then Refs(ps[..k]) else {}
      invariant Drained(start, net.peers, touched, x, net.Tally())
      invariant Shows(Cells(start, ps), offset, out)
    {
      var pos, s := offset + |out|, ps[k];
      ReachedNext(start, ps, size, k, offset, n, |out|);
      if release { ReachedWhole(start, ps, size, k, |out|); }
      if pos < s.offset || pos >= s.offset + s.length {
        k := k + 1;
        continue;
      }
      var at := pos - s.offset;
      var m := if n - |out| < s.length - at then n - |out| else s.length - at;
      ghost var before, y := net.peers, net.Tally();
      HeldSoFar(start, before, ps, size, k, touched, at, m, x, y);
      var run := TakeRun(net, s.ref, at, m, release);
      ghost var taken := release && (run.Some? || net.silent > y.silent);
      DrainedMore(start, before, net.peers, touched, s.ref, taken, x, y, net.Tally());
      assert ps[..k + 1] == ps[..k] + [s];
      RefsAppend(ps[..k], s);
      RefsPrefix(ps, k + 1);
      touched := touched + Taken(s.ref, taken);
      if run.None? {
        KnownPart(Cells(start, ps), offset, n, pos, m);
        TooLong(ps, k, offset, n);
        return false, out, touched;
      }
      ReadOfPiece(start, before, ps, size, k, at, m, run.value);
      ShowsMore(Cells(start, ps), offset, out, run.value);
      out := out + run.value;
      k := k + 1;
    }
    ok := true;
    if release { ReachedWhole(start, ps, size, k, |out|); }
    ReachedEnd(ps, size, k, offset, n, |out|);
  }

  lemma KnownPart(c: seq<Cell>, off: nat, n: nat, pos: nat, m: nat)
    requires off <= pos && pos + m <= off + n
    ensures RangeKnown(c, off, n) ==> RangeKnown(c, pos, m)
  {
  }

  lemma TooLong(ps: seq<Stripe>, k: nat, off: nat, n: nat)
    requires k < |ps|
    ensures RunIn(ps[k], off, n) > MAX_MESSAGE_SIZE ==> !RunsFit(ps, off, n)
  {
  }

  /** The pieces before the first that is too long are gone, and nothing else has changed. */
  ghost predicate Stuck(start: Net, net: Net, ps: seq<Stripe>) {
    Intact(start, net, Refs(ps[..Sticking(ps)])) && Gone(net, Refs(ps[..Sticking(ps)]))
  }

  /** A reload gives pieces up without getting the block: one too long for a reply follows some that are not. */
  predicate Sheds(ps: seq<Stripe>) { 0 < Sticking(ps) < |ps| }

  function LostBefore(c: seq<Cell>, m: int): (d: seq<Cell>)
    ensures |d| == |c| && forall i :: 0 <= i < |c| ==> d[i] == if i < m then Lost else c[i]
  {
    seq(|c|, i requires 0 <= i < |c| => if i < m then Lost else c[i])
  }

  lemma {:induction false} PartlyGone(start: Net, net: Net, ps: seq<Stripe>, from: nat, size: nat, k: nat)
    requires Tile(ps, from, size) && k <= |ps|
    requires forall i :: 0 <= i < |ps| ==>
               Lookup(net, ps[i].ref) == if i < k then None else Lookup(start, ps[i].ref)
    ensures Cells(net, ps) == LostBefore(Cells(start, ps), (if k < |ps| then ps[k].offset else size) - from)
    decreases |ps|
  {
    hide Lookup;
    if ps != [] {
      var rest := ps[1..];
      assert forall i :: 0 <= i < |rest| ==> rest[i] == ps[i + 1];
      PartlyGone(start, net, rest, from + ps[0].length, size, if k == 0 then 0 else k - 1);
      CellsLength(start, rest, from + ps[0].length, size);
      StartsAt(rest, from + ps[0].length, size);
      if k > 0 {
        var m := (if k < |ps| then ps[k].offset else size) - from;
        TileFrom(ps, from, size, k);
        JoinLost(PieceCells(start, ps[0]), Cells(start, rest), m, PieceCells(net, ps[0]), Cells(net, rest));
      } else {
        JoinSame(PieceCells(start, ps[0]), Cells(start, rest));
      }
    }
  }

  lemma StartsAt(ps: seq<Stripe>, from: nat, size: nat)
    requires Tile(ps, from, size)
    ensures if ps == [] then size == from else ps[0].offset == from
  {
  }

  lemma TileFrom(ps: seq<Stripe>, from: nat, size: nat, k: nat)
    requires Tile(ps, from, size) && 0 < k <= |ps|
    ensures from + ps[0].length <= if k < |ps| then ps[k].offset else size
  {
    CellsLength([], ps[1..], from + ps[0].length, size);
    if k < |ps| { TileOrder(ps[1..], from + ps[0].length, size, k - 1, k - 1); }
  }

  lemma JoinLost(a: seq<Cell>, b: seq<Cell>, m: int, a': seq<Cell>, b': seq<Cell>)
    requires |a| <= m && |a'| == |a| && (forall i :: 0 <= i < |a| ==> a'[i].Lost?) && b' == LostBefore(b, m - |a|)
    ensures a' + b' == LostBefore(a + b, m)
  {
  }

  lemma JoinSame(a: seq<Cell>, b: seq<Cell>)
    ensures LostBefore(b, 0) == b && LostBefore(a + b, 0) == a + b
  {
  }

  /** What a block reads as after a reload with every call answered. */
  function AfterReload(c: seq<Cell>, ps: seq<Stripe>): (d: seq<Cell>)
    ensures |d| == |c|
  {
    if Sheds(ps) then LostBefore(c, ps[Sticking(ps)].offset) else c
  }

  /** A reload loses bytes exactly if a piece too long for one reply follows some that are not. */
  lemma ShedLoses(ps: seq<Stripe>, size: nat, c: seq<Cell>)
    requires Tile(ps, 0, size) && |c| == size && NothingLost(c)
    ensures AfterReload(c, ps) == c <==> !Sheds(ps)
  {
    if Sheds(ps) {
      var k := Sticking(ps);
      TileFrom(ps, 0, size, k);
      CellsOfPiece([], ps, 0, size, k);
      assert ps[0].length > 0 && AfterReload(c, ps)[0].Lost? && c[0].Known?;
    }
  }

  lemma StuckCells(start: Net, net: Net, ps: seq<Stripe>, size: nat)
    requires Tile(ps, 0, size) && OnDifferentPeers(ps) && Stuck(start, net, ps) && (Sticking(ps) < |ps| || size == 0)
    ensures Cells(net, ps) == AfterReload(Cells(start, ps), ps)
  {
    hide Lookup, Cells, Tile, Sticking;
    var k := Sticking(ps);
    forall i | 0 <= i < |ps| ensures Lookup(net, ps[i].ref) == if i < k then None else Lookup(start, ps[i].ref) {
      if i < k {
        assert ps[..k][i].ref in Refs(ps[..k]);
      } else {
        NotAmongFirst(ps, k, i);
      }
    }
    CellsLength(start, ps, 0, size);
    if k == |ps| { NothingToRelease(ps); }
    PartlyGone(start, net, ps, 0, size, k);
    StartsAt(ps, 0, size);
    JoinSame([], Cells(start, ps));
  }

  lemma NotAmongFirst(ps: seq<Stripe>, k: nat, i: nat)
    requires OnDifferentPeers(ps) && k <= i < |ps|
    ensures ps[i].ref !in Refs(ps[..k])
  {
    forall j | 0 <= j < k ensures ps[..k][j].ref != ps[i].ref { DifferentRefs(ps, j, i); }
  }

  /** A block that fits one reply has no piece that does not. */
  lemma ShortNeverSheds(net: Net, ps: seq<Stripe>, size: nat)
    requires Tile(ps, 0, size) && size <= MAX_MESSAGE_SIZE
    ensures Sticking(ps) == |ps| && !Sheds(ps)
  {
    if Sticking(ps) < |ps| { CellsOfPiece(net, ps, 0, size, Sticking(ps)); }
  }

  /** The whole block can be read exactly if no piece is too long. */
  lemma WholeRuns(net: Net, ps: seq<Stripe>, size: nat)
    requires Tile(ps, 0, size)
    ensures RunsFit(ps, 0, size) <==> Sticking(ps) == |ps|
  {
    hide Tile, Sticking;
    forall i | 0 <= i < |ps| ensures RunIn(ps[i], 0, size) == ps[i].length { CellsOfPiece(net, ps, 0, size, i); }
  }

  lemma NoRun(s: Stripe, off: nat, n: nat)
    requires off >= s.offset + s.length
    ensures RunIn(s, off, n) <= 0
  {
  }

  lemma {:induction false} TilePositive(ps: seq<Stripe>, from: nat, size: nat, k: nat)
    requires Tile(ps, from, size) && k < |ps|
    ensures ps[k].length > 0
    decreases |ps|
  {
    if k > 0 { TilePositive(ps[1..], from + ps[0].length, size, k - 1); }
  }

  /** Pieces are not empty and follow one another up to the end. */
  lemma NextPiece(net: Net, ps: seq<Stripe>, size: nat, k: nat)
    requires Tile(ps, 0, size) && k < |ps|
    ensures ps[k].length > 0 && ps[k].offset + ps[k].length <= size
    ensures if k + 1 < |ps| then ps[k + 1].offset == ps[k].offset + ps[k].length
            else size == ps[k].offset + ps[k].length
  {
    CellsOfPiece(net, ps, 0, size, k);
    TilePositive(ps, 0, size, k);
  }

  lemma RefsPrefix(ps: seq<Stripe>, k: nat)
    requires k <= |ps|
    ensures Refs(ps[..k]) <= Refs(ps)
  {
    forall r | r in Refs(ps[..k]) ensures r in Refs(ps) {
      var i :| 0 <= i < k && ps[..k][i].ref == r;
      assert ps[i].ref == r;
    }
  }

  lemma IntactWider(a: Net, b: Net, s: set<Ref>, t: set<Ref>)
    requires s <= t
    ensures Intact(a, b, s) ==> Intact(a, b, t)
  {
  }

  lemma IntactAfter(a: Net, b: Net, c: Net, s: set<Ref>, t: set<Ref>)
    requires Quiet(a, b, {})
    ensures Intact(a, b, s) && Intact(b, c, t) ==> Intact(a, c, s + t) && Intact(a, c, if t == {} then s else s + t)
  {
    hide Lookup;
    if t == {} { assert s + t == s; }
  }

  /** As long as no session was lost, what was known of a piece not yet released is still held. */
  lemma HeldSoFar(start: Net, net: Net, ps: seq<Stripe>, size: nat, k: nat, touched: set<Ref>, at: nat, m: nat,
                  x: Counters, y: Counters)
    requires Tile(ps, 0, size) && OnDifferentPeers(ps) && k < |ps| && 0 < m && at + m <= ps[k].length
    requires Drained(start, net, touched, x, y) && touched <= Refs(ps[..k])
    ensures Onward(x, y) && |start| <= |net| && Quiet(start, net, {})
    ensures y.drops == x.drops && RangeKnown(Cells(start, ps), ps[k].offset + at, m) ==>
              Lookup(net, ps[k].ref).Some? && |Lookup(net, ps[k].ref).value| >= at + m
  {
    hide Lookup, Cells;
    CellsOfPiece(start, ps, 0, size, k);
    var c := Cells(start, ps);
    if c[ps[k].offset + at + m - 1].Known? {
      assert c[ps[k].offset..ps[k].offset + ps[k].length][at + m - 1] == PieceCells(start, ps[k])[at + m - 1];
    }
    NotAmongFirst(ps, k, k);
  }

  /**
   `read_remote`. A reply to an empty read carries no data field, which the
   single-peer path takes for a failure; the striped path sends no request at all.
   */
  method ReadRemote(net: Transport, a: RemoteAllocation, offset: nat, n: nat, release: bool)
    returns (r: Option<seq<byte>>)
    requires net.Valid() && Formed(a, |net.peers|) && offset + n <= a.size
    requires release ==> offset == 0 && n == a.size
    modifies net
    ensures net.Valid() && Onward(old(net.Tally()), net.Tally())
    ensures net.setbacks == old(net.setbacks) ==> Counts(old(net.peers), net.peers)
    ensures Quiet(old(net.peers), net.peers, {}) && NoStrays(old(net.peers), net.peers, {})
    ensures net.drops == old(net.drops) ==> Intact(old(net.peers), net.peers, if release then Refs(Pieces(a)) else {})
    ensures r.Some? ==> |r.value| == n && Shows(Cells(old(net.peers), Pieces(a)), offset, r.value)
    ensures r.Some? && release && net.silent == old(net.silent) ==> Gone(net.peers, Refs(Pieces(a)))
    ensures a.Single? && n == 0 ==> r.None?
    ensures r.Some? ==> RunsFit(Pieces(a), offset, n)
    ensures net.drops == old(net.drops) && net.silent == old(net.silent) && (a.Striped? || n > 0) ==>
              RangeKnown(Cells(old(net.peers), Pieces(a)), offset, n) && RunsFit(Pieces(a), offset, n) ==> r.Some?
    ensures net.drops == old(net.drops) && net.silent == old(net.silent) && release ==>
              NothingLost(Cells(old(net.peers), Pieces(a))) ==> Stuck(old(net.peers), net.peers, Pieces(a))
  {
    hide Quiet, NoStrays, Intact, Lookup, NetOk, Cells, OnDifferentPeers, Tile, Refs, NothingLost, Shows, Counts,
         RunsFit, RangeKnown, Sticking, Stuck;
    ghost var start := net.peers;
    ghost var ps := Pieces(a);
    QuietRefl(start);
    IntactWider(start, start, {}, Refs(ps));
    CellsLength(start, ps, 0, a.size);
    AllIsRange(Cells(start, ps));
    if a.Striped? {
      var out: seq<byte> := [];
      ShowsNothing(Cells(start, ps), offset);
      while |out| < n
        invariant |out| == 0 || |out| == n
        invariant net.Valid() && Onward(old(net.Tally()), net.Tally())
        invariant |out| == 0 ==> net.peers == start && net.Tally() == old(net.Tally())
        invariant net.setbacks == old(net.setbacks) ==> Counts(start, net.peers)
        invariant Quiet(start, net.peers, {}) && NoStrays(start, net.peers, {})
        invariant net.drops == old(net.drops) ==> Intact(start, net.peers, if release then Refs(ps) else {})
        invariant Shows(Cells(start, ps), offset, out)
        invariant |out| > 0 && release && net.silent == old(net.silent) ==> Gone(net.peers, Refs(ps))
        invariant |out| > 0 ==> RunsFit(ps, offset, n)
        invariant net.drops == old(net.drops) && net.silent == old(net.silent) && release && |out| > 0 ==>
                    NothingLost(Cells(start, ps)) ==> Stuck(start, net.peers, ps)
        decreases n - |out|
      {
        var ok;
        ghost var touched;
        ok, out, touched := ReadPass(net, a.stripes, a.size, offset, n, release);
        DrainedShows(start, net.peers, touched, ps, release, old(net.Tally()), net.Tally());
        if !ok { return None; }
      }
      NoLengthFits(ps, offset);
      if n == 0 && release { NothingToRelease(ps); NoneIsStuck(start, net.peers); }
      r := Some(out);
    } else {
      if a.size > 0 { OneRef(ps); OnePiece(start, a.size, a.ref, ps, offset, n); }
      NothingRuns(offset, n);
      NoneIsStuck(start, start);
      if !net.peers[a.ref.peer].connected {
        NotConnected(start, a.ref);
        return None;
      }
      r := TakeRun(net, a.ref, offset, n, release);
      IntactWider(start, net.peers, Taken(a.ref, release && (r.Some? || net.silent > old(net.silent))), {a.ref});
      if a.size == 0 { NeverHeld(start, net.peers, a.ref); NoPieces(start, start, 0, []); }
      if release && net.drops == old(net.drops) && net.silent == old(net.silent) {
        if a.size == 0 {
          NoneIsStuck(start, net.peers);
        } else if NothingLost(Cells(start, ps)) {
          OneIsStuck(start, net.peers, ps, r.Some?);
        }
      }
      if r.Some? { ReadOfPiece(start, start, ps, a.size, 0, offset, n, r.value); }
    }
  }

  lemma DrainedShows(start: Net, net: Net, touched: set<Ref>, ps: seq<Stripe>, release: bool, x: Counters, y: Counters)
    requires Drained(start, net, touched, x, y) && touched <= Refs(ps) && (!release ==> touched == {})
    ensures Onward(x, y) && Quiet(start, net, {}) && NoStrays(start, net, {})
    ensures (y.setbacks == x.setbacks ==> Counts(start, net)) && (y.silent == x.silent ==> Gone(net, touched))
    ensures y.drops == x.drops ==> Intact(start, net, if release then Refs(ps) else {})
    ensures y.drops == x.drops && y.silent == x.silent && touched == Refs(ps[..Sticking(ps)]) ==> Stuck(start, net, ps)
  {
    hide Quiet, NoStrays, Intact, Lookup, Gone, Counts, Sticking;
    IntactWider(start, net, touched, Refs(ps));
  }

  lemma NothingToRelease(ps: seq<Stripe>)
    requires Tile(ps, 0, 0)
    ensures Refs(ps) == {} && ps == []
  {
    if ps != [] { CellsLength([], ps[1..], ps[0].length, 0); }
  }

  lemma OnePiece(net: Net, size: nat, ref: Ref, ps: seq<Stripe>, off: nat, n: nat)
    requires ps == [Stripe(ref, 0, size)] && size > 0 && off + n <= size
    ensures RunsFit(ps, off, n) <==> n <= MAX_MESSAGE_SIZE
    ensures RangeKnown(Cells(net, ps), off, n) && n > 0 ==>
              Lookup(net, ref).Some? && |Lookup(net, ref).value| >= off + n
  {
    hide Lookup;
    assert ps[1..] == [] && Cells(net, ps) == PieceCells(net, ps[0]) + [];
    assert RunIn(ps[0], off, n) == n;
    assert RangeKnown(Cells(net, ps), off, n) && n > 0 ==> Cells(net, ps)[off + n - 1].Known?;
  }

  lemma OneLost(net: Net, size: nat, ref: Ref, ps: seq<Stripe>)
    requires ps == [Stripe(ref, 0, size)] && size > 0 && Lookup(net, ref).None?
    ensures !NothingLost(Cells(net, ps))
  {
    hide Lookup;
    assert ps[1..] == [] && Cells(net, ps) == PieceCells(net, ps[0]) + [];
    assert Cells(net, ps)[0].Lost?;
  }

  lemma NothingRuns(off: nat, n: nat)
    ensures RunsFit([], off, n)
  {
  }

  lemma AllIsRange(c: seq<Cell>)
    ensures NothingLost(c) <==> RangeKnown(c, 0, |c|)
  {
  }

  lemma NoLengthFits(ps: seq<Stripe>, off: nat)
    ensures RunsFit(ps, off, 0)
  {
  }

  lemma OneIsStuck(start: Net, net: Net, ps: seq<Stripe>, taken: bool)
    requires |ps| == 1 && taken == (ps[0].length <= MAX_MESSAGE_SIZE)
    requires Intact(start, net, Taken(ps[0].ref, taken)) && (taken ==> Lookup(net, ps[0].ref).None?)
    ensures Stuck(start, net, ps)
  {
    hide Lookup, Intact;
    assert ps[..Sticking(ps)] == if taken then ps else [];
    assert Refs(ps) == {ps[0].ref} && Refs([]) == {};
  }

  lemma NoneIsStuck(start: Net, net: Net)
    requires Intact(start, net, {})
    ensures Stuck(start, net, [])
  {
    hide Lookup, Intact;
    assert Refs([][..Sticking([])]) == {};
  }
}
