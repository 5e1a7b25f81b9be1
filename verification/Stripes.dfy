/**
 Remote blocks: one piece on one peer, or stripes over several, read as one flat
 array of cells. A cell is lost once the session that held it has ended.
 */
module Stripes {
  import opened Bytes
  import opened Peers
  import opened ServerSpec
  import opened Wrappers

  datatype Cell = Lost | Known(value: byte)

  datatype Stripe = Stripe(ref: Ref, offset: nat, length: nat)

  datatype RemoteAllocation =
    | Single(size: nat, ref: Ref)
    | Striped(size: nat, stripes: seq<Stripe>)

  /** The pieces that hold an allocation's bytes; an empty block has none. */
  function Pieces(a: RemoteAllocation): (ps: seq<Stripe>) {
    match a
    case Single(size, ref) => if size == 0 then [] else [Stripe(ref, 0, size)]
    case Striped(_, stripes) => stripes
  }

  /** The pieces cover [from, size) in order, without gap or overlap, each at least a byte long. */
  predicate Tile(ps: seq<Stripe>, from: nat, size: nat)
    decreases |ps|
  {
    if ps == [] then from == size
    else ps[0].offset == from && ps[0].length > 0 && Tile(ps[1..], from + ps[0].length, size)
  }

  function Refs(ps: seq<Stripe>): (r: set<Ref>) { set i | 0 <= i < |ps| :: ps[i].ref }

  /** No two pieces share a peer, so no two share a reference. */
  predicate OnDifferentPeers(ps: seq<Stripe>) {
    forall i, j :: 0 <= i < j < |ps| ==> ps[i].ref.peer != ps[j].ref.peer
  }

  /** A piece that is still held has the length its stripe says. */
  predicate Sized(net: Net, ps: seq<Stripe>) {
    forall i :: 0 <= i < |ps| ==>
      Lookup(net, ps[i].ref).Some? ==> |Lookup(net, ps[i].ref).value| == ps[i].length
  }

  /** The pieces are on the first `n` peers. */
  predicate OnPeers(ps: seq<Stripe>, n: nat) { forall i :: 0 <= i < |ps| ==> ps[i].ref.peer < n }

  /** An allocation as the client keeps it, over `n` peers. */
  predicate Formed(a: RemoteAllocation, n: nat) {
    && Tile(Pieces(a), 0, a.size) && OnDifferentPeers(Pieces(a)) && OnPeers(Pieces(a), n)
    && (a.Single? ==> a.ref.peer < n && (a.size == 0 ==> a.ref.handle == 0))
  }

  function PieceCells(net: Net, s: Stripe): (c: seq<Cell>)
    ensures |c| == s.length
  {
    var b := Lookup(net, s.ref);
    seq(s.length, i requires 0 <= i < s.length => if b.Some? && i < |b.value| then Known(b.value[i]) else Lost)
  }

  function Cells(net: Net, ps: seq<Stripe>): (c: seq<Cell>) {
    if ps == [] then [] else PieceCells(net, ps[0]) + Cells(net, ps[1..])
  }

  function AllKnown(data: seq<byte>): (c: seq<Cell>)
    ensures |c| == |data| && forall i :: 0 <= i < |c| ==> c[i] == Known(data[i])
  {
    seq(|data|, i requires 0 <= i < |data| => Known(data[i]))
  }

  // ---- How cells change ----

  /** Cells may only get lost. */
  predicate Decayed(c: seq<Cell>, d: seq<Cell>) {
    |c| == |d| && forall i :: 0 <= i < |c| ==> d[i] == c[i] || d[i].Lost?
  }

  /** `data` laid over the cells at `off`; what is lost stays lost. */
  function Overlay(c: seq<Cell>, off: int, data: seq<byte>): (d: seq<Cell>)
    ensures |d| == |c|
    ensures forall i :: 0 <= i < |c| ==>
              d[i] == if off <= i < off + |data| && c[i].Known? then Known(data[i - off]) else c[i]
  {
    seq(|c|, i requires 0 <= i < |c| => if off <= i < off + |data| && c[i].Known? then Known(data[i - off]) else c[i])
  }

  /** Every cell is as it was, lost, or already carries its byte of `data`. */
  predicate Torn(c: seq<Cell>, off: int, data: seq<byte>, d: seq<Cell>) {
    |c| == |d| && forall i :: 0 <= i < |c| ==>
      d[i] == c[i] || d[i].Lost? || (off <= i < off + |data| && c[i].Known? && d[i] == Known(data[i - off]))
  }

  lemma DecayTrans(a: seq<Cell>, b: seq<Cell>, c: seq<Cell>)
    requires Decayed(a, b) && Decayed(b, c)
    ensures Decayed(a, c)
  {
  }

  lemma OverlayTwice(c0: seq<Cell>, off: nat, d: seq<byte>, c1: seq<Cell>, e: seq<byte>, c2: seq<Cell>)
    requires Decayed(Overlay(c0, off, d), c1) && Decayed(Overlay(c1, off + |d|, e), c2)
    ensures Decayed(Overlay(c0, off, d + e), c2)
    ensures c1 == Overlay(c0, off, d) && c2 == Overlay(c1, off + |d|, e) ==> c2 == Overlay(c0, off, d + e)
  {
    var g := Overlay(c0, off, d + e);
    forall i | 0 <= i < |c0| ensures c2[i] == g[i] || c2[i].Lost? {
      assert c2[i] == Overlay(c1, off + |d|, e)[i] || c2[i].Lost?;
      assert c1[i] == Overlay(c0, off, d)[i] || c1[i].Lost?;
    }
  }

  lemma TornTwice(c0: seq<Cell>, off: nat, data: seq<byte>, n: nat, m: nat, c1: seq<Cell>, c2: seq<Cell>)
    requires n <= m <= |data|
    requires Torn(c0, off, data, c1) && Torn(c1, off + n, data[n..m], c2)
    ensures Torn(c0, off, data, c2)
  {
  }

  // ---- Cells of pieces ----

  lemma {:induction false} CellsLength(net: Net, ps: seq<Stripe>, from: nat, size: nat)
    requires Tile(ps, from, size)
    ensures |Cells(net, ps)| == size - from
    decreases |ps|
  {
    if ps != [] { CellsLength(net, ps[1..], from + ps[0].length, size); }
  }

  lemma RestOfPieces(net: Net, ps: seq<Stripe>)
    requires ps != []
    ensures Refs(ps) == {ps[0].ref} + Refs(ps[1..])
    ensures OnDifferentPeers(ps) ==> OnDifferentPeers(ps[1..]) && ps[0].ref !in Refs(ps[1..])
    ensures Sized(net, ps) ==> Sized(net, ps[1..])
  {
    forall r | r in Refs(ps) ensures r in {ps[0].ref} + Refs(ps[1..]) {
      var i :| 0 <= i < |ps| && ps[i].ref == r;
      assert i > 0 ==> ps[1..][i - 1].ref == r;
    }
    forall r | r in Refs(ps[1..]) ensures r in Refs(ps) {
      var i :| 0 <= i < |ps[1..]| && ps[1..][i].ref == r;
      assert ps[i + 1].ref == r;
    }
  }

  /** Requests that touch none of the pieces can only lose cells; without a lost session, not even that. */
  lemma {:induction false} CellsDecay(net: Net, net': Net, ps: seq<Stripe>, touched: set<Ref>)
    requires Quiet(net, net', touched) && Refs(ps) !! touched
    ensures Decayed(Cells(net, ps), Cells(net', ps)) && (Sized(net, ps) ==> Sized(net', ps))
    ensures Intact(net, net', touched) ==> Cells(net', ps) == Cells(net, ps)
    decreases |ps|
  {
    if Sized(net, ps) { SizedApart(net, net', ps, touched); }
    hide Lookup, Quiet, Intact, Sized, PieceCells, Decayed, Refs;
    if ps != [] {
      RestOfPieces(net, ps);
      CellsDecay(net, net', ps[1..], touched);
      PieceDecay(net, net', ps[0], touched);
      JoinDecay(PieceCells(net, ps[0]), Cells(net, ps[1..]), PieceCells(net', ps[0]), Cells(net', ps[1..]));
    } else {
      NothingDecays();
    }
  }

  lemma NothingDecays()
    ensures Decayed([], [])
  {
  }

  lemma JoinDecay(a: seq<Cell>, b: seq<Cell>, a': seq<Cell>, b': seq<Cell>)
    requires Decayed(a, a') && Decayed(b, b')
    ensures Decayed(a + b, a' + b')
  {
  }

  lemma SizedApart(net: Net, net': Net, ps: seq<Stripe>, touched: set<Ref>)
    requires Quiet(net, net', touched) && Sized(net, ps) && Refs(ps) !! touched
    ensures Sized(net', ps)
  {
    hide Lookup, Quiet;
    forall i | 0 <= i < |ps| ensures ps[i].ref !in touched {
      assert ps[i].ref in Refs(ps);
    }
    SizedStays(net, net', ps, touched);
  }

  lemma SizedStays(net: Net, net': Net, ps: seq<Stripe>, touched: set<Ref>)
    requires Quiet(net, net', touched) && Sized(net, ps)
    requires forall i :: 0 <= i < |ps| && ps[i].ref in touched ==>
               (Lookup(net', ps[i].ref).Some? ==> |Lookup(net', ps[i].ref).value| == ps[i].length)
    ensures Sized(net', ps)
  {
    hide Lookup;
  }

  lemma PieceDecay(net: Net, net': Net, s: Stripe, touched: set<Ref>)
    requires Quiet(net, net', touched) && s.ref !in touched
    ensures Decayed(PieceCells(net, s), PieceCells(net', s))
    ensures Intact(net, net', touched) ==> PieceCells(net', s) == PieceCells(net, s)
  {
    hide Lookup;
  }

  // ---- Writing a piece ----

  /** The range lies within the piece, if the piece is there. */
  predicate Reaches(b: Option<seq<byte>>, at: nat, data: seq<byte>) { b.Some? ==> at + |data| <= |b.value| }

  /** The piece was written, left alone, or lost. */
  predicate MayWrite(b: Option<seq<byte>>, b': Option<seq<byte>>, at: nat, data: seq<byte>) {
    b'.None? || b' == b || (b.Some? && at + |data| <= |b.value| && b' == Some(Patch(b.value, at, data)))
  }

  /** The piece was written, or lost. */
  predicate DidWrite(b: Option<seq<byte>>, b': Option<seq<byte>>, at: nat, data: seq<byte>) {
    b'.None? || (b.Some? && at + |data| <= |b.value| && b' == Some(Patch(b.value, at, data)))
  }

  /** The piece was written if it was there. */
  predicate FullWrite(b: Option<seq<byte>>, b': Option<seq<byte>>, at: nat, data: seq<byte>) {
    if b.None? then b'.None? else at + |data| <= |b.value| && b' == Some(Patch(b.value, at, data))
  }

  lemma FirstCells(net: Net, ps: seq<Stripe>, from: nat, size: nat)
    requires Tile(ps, from, size) && ps != []
    ensures Cells(net, ps) == PieceCells(net, ps[0]) + Cells(net, ps[1..])
    ensures ps[0].offset == from && ps[0].length > 0 && Tile(ps[1..], from + ps[0].length, size)
  {
  }

  /** A write to piece `k` at `at` is a write to the flat block at that piece's offset plus `at`. */
  lemma {:induction false} CellsWrite(net: Net, net': Net, ps: seq<Stripe>, from: nat, size: nat, k: nat, at: nat,
                                      data: seq<byte>)
    requires Tile(ps, from, size) && OnDifferentPeers(ps) && k < |ps|
    requires Quiet(net, net', {ps[k].ref}) && at + |data| <= ps[k].length
    requires MayWrite(Lookup(net, ps[k].ref), Lookup(net', ps[k].ref), at, data)
    ensures ps[k].offset >= from
    ensures Torn(Cells(net, ps), ps[k].offset - from + at, data, Cells(net', ps))
    ensures DidWrite(Lookup(net, ps[k].ref), Lookup(net', ps[k].ref), at, data) ==>
              Decayed(Overlay(Cells(net, ps), ps[k].offset - from + at, data), Cells(net', ps))
    ensures FullWrite(Lookup(net, ps[k].ref), Lookup(net', ps[k].ref), at, data) && Intact(net, net', {ps[k].ref}) ==>
              Cells(net', ps) == Overlay(Cells(net, ps), ps[k].offset - from + at, data)
    decreases |ps|
  {
    hide Lookup, Quiet, Intact, Sized, PieceCells, Decayed, Refs, Torn, Overlay, MayWrite, DidWrite, FullWrite,
         OnDifferentPeers, Cells, Tile;
    RestOfPieces(net, ps);
    FirstCells(net, ps, from, size);
    FirstCells(net', ps, from, size);
    if k == 0 {
      CellsDecay(net, net', ps[1..], {ps[0].ref});
      PieceWrite(net, net', ps[0], at, data);
      JoinHead(PieceCells(net, ps[0]), Cells(net, ps[1..]), at, data, PieceCells(net', ps[0]), Cells(net', ps[1..]));
    } else {
      assert ps[1..][k - 1] == ps[k];
      CellsWrite(net, net', ps[1..], from + ps[0].length, size, k - 1, at, data);
      DifferentRefs(ps, 0, k);
      PieceDecay(net, net', ps[0], {ps[k].ref});
      JoinTail(PieceCells(net, ps[0]), Cells(net, ps[1..]), ps[k].offset - (from + ps[0].length) + at, data,
               PieceCells(net', ps[0]), Cells(net', ps[1..]));
    }
  }

  lemma DifferentRefs(ps: seq<Stripe>, i: nat, k: nat)
    requires OnDifferentPeers(ps) && i < k < |ps|
    ensures ps[i].ref != ps[k].ref
  {
  }

  lemma SizedAfterWrite(net: Net, net': Net, ps: seq<Stripe>, k: nat, at: nat, data: seq<byte>)
    requires OnDifferentPeers(ps) && Sized(net, ps) && k < |ps| && Quiet(net, net', {ps[k].ref})
    requires at + |data| <= ps[k].length
    requires MayWrite(Lookup(net, ps[k].ref), Lookup(net', ps[k].ref), at, data)
    ensures Sized(net', ps)
  {
    hide Lookup, Quiet;
    SizedStays(net, net', ps, {ps[k].ref});
  }

  lemma PieceWrite(net: Net, net': Net, s: Stripe, at: nat, data: seq<byte>)
    requires MayWrite(Lookup(net, s.ref), Lookup(net', s.ref), at, data) && at + |data| <= s.length
    ensures Torn(PieceCells(net, s), at, data, PieceCells(net', s))
    ensures DidWrite(Lookup(net, s.ref), Lookup(net', s.ref), at, data) ==>
              Decayed(Overlay(PieceCells(net, s), at, data), PieceCells(net', s))
    ensures FullWrite(Lookup(net, s.ref), Lookup(net', s.ref), at, data) ==>
              PieceCells(net', s) == Overlay(PieceCells(net, s), at, data)
  {
    hide Lookup;
  }

  lemma JoinHead(a: seq<Cell>, b: seq<Cell>, at: nat, data: seq<byte>, a': seq<Cell>, b': seq<Cell>)
    requires at + |data| <= |a| && Torn(a, at, data, a') && Decayed(b, b')
    ensures Torn(a + b, at, data, a' + b')
    ensures Decayed(Overlay(a, at, data), a') ==> Decayed(Overlay(a + b, at, data), a' + b')
    ensures a' == Overlay(a, at, data) && b' == b ==> a' + b' == Overlay(a + b, at, data)
  {
  }

  lemma JoinTail(a: seq<Cell>, b: seq<Cell>, at: nat, data: seq<byte>, a': seq<Cell>, b': seq<Cell>)
    requires Decayed(a, a') && Torn(b, at, data, b')
    ensures Torn(a + b, |a| + at, data, a' + b')
    ensures Decayed(Overlay(b, at, data), b') ==> Decayed(Overlay(a + b, |a| + at, data), a' + b')
    ensures a' == a && b' == Overlay(b, at, data) ==> a' + b' == Overlay(a + b, |a| + at, data)
  {
  }

  /** The cells of piece `k`, in place. */
  lemma SliceOfTail(a: seq<Cell>, b: seq<Cell>, s: nat, n: nat)
    requires |a| <= s && s + n <= |a + b|
    ensures (a + b)[s..s + n] == b[s - |a|..s - |a| + n]
  {
  }

  lemma {:induction false} CellsOfPiece(net: Net, ps: seq<Stripe>, from: nat, size: nat, k: nat)
    requires Tile(ps, from, size) && k < |ps|
    ensures from <= ps[k].offset && ps[k].offset + ps[k].length <= size && |Cells(net, ps)| == size - from
    ensures Cells(net, ps)[ps[k].offset - from..ps[k].offset - from + ps[k].length] == PieceCells(net, ps[k])
    ensures k + 1 < |ps| ==> ps[k + 1].offset == ps[k].offset + ps[k].length
    ensures k + 1 == |ps| ==> size == ps[k].offset + ps[k].length
    decreases |ps|
  {
    hide PieceCells;
    CellsLength(net, ps, from, size);
    if k > 0 {
      assert ps[1..][k - 1] == ps[k];
      CellsOfPiece(net, ps[1..], from + ps[0].length, size, k - 1);
      SliceOfTail(PieceCells(net, ps[0]), Cells(net, ps[1..]), ps[k].offset - from, ps[k].length);
    } else {
      if |ps| > 1 { assert ps[1..][0] == ps[1]; }
    }
  }
}
