/** Whole runs of the client, against a plain map from handle to bytes. */
module ClientRun {
  import opened Bytes
  import opened Client
  import opened ClientModel
  import opened ClientRoom
  import opened Framing
  import opened Lru
  import opened Peers
  import opened RemoteBlocks
  import opened RemoteIo
  import opened Stripes
  import opened Transports
  import opened Wrappers

  datatype ClientOp =
    | Allocate(size: nat)
    | Free(handle: nat)
    | Read(handle: nat, offset: nat, length: nat)
    | Write(handle: nat, offset: nat, data: seq<byte>)
    | Pressure
    | Elapse

  datatype Outcome =
    | Allocated(handle: Option<nat>)
    | ReadReturned(read: ReadResult)
    | WriteReturned(write: WriteResult)
    | NoOutcome

  datatype Event = Event(op: ClientOp, outcome: Outcome)

  // ---- The plain map ----

  type Plain = map<nat, seq<byte>>

  function PlainStep(m: Plain, e: Event): (r: Plain) {
    match e
    case Event(Allocate(size), Allocated(Some(h))) => m[h := Zeros(size)]
    case Event(Free(h), _) => m - {h}
    case Event(Write(h, off, data), WriteReturned(Written)) =>
      if h in m && off + |data| <= |m[h]| then m[h := Patch(m[h], off, data)] else m
    case _ => m
  }

  function PlainMap(trace: seq<Event>): (m: Plain) {
    if trace == [] then map[] else PlainStep(PlainMap(trace[..|trace| - 1]), trace[|trace| - 1])
  }

  /** What an operation is answered with on a plain map whose next handle is `next`. */
  function Expected(m: Plain, next: nat, op: ClientOp): (o: Outcome) {
    match op
    case Allocate(_) => Allocated(Some(next))
    case Read(h, off, n) =>
      ReadReturned(if h !in m then ReadThrew(InvalidHandle)
                   else if off + n > |m[h]| then ReadThrew(OutOfRange)
                   else Data(m[h][off..off + n]))
    case Write(h, off, data) =>
      WriteReturned(if h !in m then WriteThrew(InvalidHandle)
                    else if off + |data| > |m[h]| then WriteThrew(OutOfRange)
                    else Written)
    case _ => NoOutcome
  }

  function Allocations(ops: seq<ClientOp>): (n: nat) {
    if ops == [] then 0 else Allocations(ops[..|ops| - 1]) + if ops[|ops| - 1].Allocate? then 1 else 0
  }

  /** The run of a plain map that hands out handles from `first` on. It depends on the operations alone. */
  function Foretold(ops: seq<ClientOp>, first: nat): (trace: seq<Event>)
    ensures |trace| == |ops|
  {
    if ops == [] then []
    else
      var before, op := ops[..|ops| - 1], ops[|ops| - 1];
      var trace := Foretold(before, first);
      trace + [Event(op, Expected(PlainMap(trace), first + Allocations(before), op))]
  }

  /** The plain map before the `k`-th operation. */
  function MapBefore(ops: seq<ClientOp>, first: nat, k: nat): (m: Plain)
    requires k <= |ops|
  {
    PlainMap(Foretold(ops[..k], first))
  }

  /**
   The block an operation uses can be used in either tier: one that fits the cache is
   not empty and fits one reply, and of one that does not, a read asks for some bytes
   that do.
   */
  predicate Manageable(op: ClientOp, m: Plain, max: nat) {
    && (op.Read? && op.handle in m ==>
          Handy(|m[op.handle]|, max) && (|m[op.handle]| > max ==> 0 < op.length <= MAX_MESSAGE_SIZE))
    && (op.Write? && op.handle in m ==> Handy(|m[op.handle]|, max))
  }

  predicate Handy(size: nat, max: nat) { size > max || 0 < size <= MAX_MESSAGE_SIZE }

  // ---- The values each byte may have ----

  /** A write that threw part-way leaves either value, so each byte has a set of them. */
  type Possible = map<nat, seq<set<byte>>>

  function Exactly(data: seq<byte>): (p: seq<set<byte>>)
    ensures |p| == |data| && forall i :: 0 <= i < |p| ==> p[i] == {data[i]}
  {
    seq(|data|, i requires 0 <= i < |data| => {data[i]})
  }

  function Overwritten(p: seq<set<byte>>, off: nat, data: seq<byte>, sure: bool): (r: seq<set<byte>>)
    ensures |r| == |p|
    ensures forall i :: 0 <= i < |p| ==>
      r[i] == if off <= i < off + |data| then (if sure then {data[i - off]} else p[i] + {data[i - off]}) else p[i]
  {
    seq(|p|, i requires 0 <= i < |p| =>
      if off <= i < off + |data| then (if sure then {data[i - off]} else p[i] + {data[i - off]}) else p[i])
  }

  function PossibleStep(m: Possible, e: Event): (r: Possible) {
    match e
    case Event(Allocate(size), Allocated(Some(h))) => m[h := Exactly(Zeros(size))]
    case Event(Free(h), _) => m - {h}
    case Event(Write(h, off, data), WriteReturned(Written)) =>
      if h in m then m[h := Overwritten(m[h], off, data, true)] else m
    case Event(Write(h, off, data), WriteReturned(WriteThrew(RemoteFailure))) =>
      if h in m then m[h := Overwritten(m[h], off, data, false)] else m
    case _ => m
  }

  function PossibleMap(trace: seq<Event>): (m: Possible) {
    if trace == [] then map[] else PossibleStep(PossibleMap(trace[..|trace| - 1]), trace[|trace| - 1])
  }

  /** What a step may answer when the map allows `m`. */
  predicate Answers(m: Possible, e: Event) {
    match e
    case Event(Allocate(_), Allocated(Some(h))) => h !in m
    case Event(Allocate(_), Allocated(None)) => true
    case Event(Read(h, off, n), ReadReturned(Data(bytes))) =>
      h in m && |bytes| == n && off + n <= |m[h]| && forall j :: 0 <= j < n ==> bytes[j] in m[h][off + j]
    case Event(Read(h, off, n), ReadReturned(ReadThrew(InvalidHandle))) => h !in m
    case Event(Read(h, off, n), ReadReturned(ReadThrew(OutOfRange))) => h in m && off + n > |m[h]|
    case Event(Read(h, off, n), ReadReturned(ReadThrew(RemoteFailure))) => h in m
    case Event(Write(h, off, data), WriteReturned(Written)) => h in m && off + |data| <= |m[h]|
    case Event(Write(h, off, data), WriteReturned(WriteThrew(InvalidHandle))) => h !in m
    case Event(Write(h, off, data), WriteReturned(WriteThrew(OutOfRange))) => h in m && off + |data| > |m[h]|
    case Event(Write(h, off, data), WriteReturned(WriteThrew(RemoteFailure))) => h in m
    case Event(Free(_), NoOutcome) => true
    case Event(Pressure, NoOutcome) => true
    case Event(Elapse, NoOutcome) => true
    case _ => false
  }

  predicate Consistent(trace: seq<Event>) {
    trace == [] || (Consistent(trace[..|trace| - 1]) && Answers(PossibleMap(trace[..|trace| - 1]), trace[|trace| - 1]))
  }

  /** Every cell not lost holds a possible value. */
  predicate Within(c: seq<Cell>, p: seq<set<byte>>) {
    |c| == |p| && forall i :: 0 <= i < |c| ==> c[i].Lost? || c[i].value in p[i]
  }

  ghost predicate Agrees(v: CellMap, m: Possible) {
    v.Keys == m.Keys && forall h :: h in v ==> Within(v[h], m[h])
  }

  /** Nothing lost, and one value each. */
  ghost predicate Equals(v: CellMap, m: Plain) {
    v.Keys == m.Keys && forall h :: h in v ==> v[h] == AllKnown(m[h])
  }

  // ---- One step ----

  lemma DecayAgrees(v: CellMap, w: CellMap, m: Possible)
    requires Agrees(v, m) && DecayedView(v, w)
    ensures Agrees(w, m)
  {
    forall h | h in w ensures Within(w[h], m[h]) { DecayWithin(v[h], w[h], m[h]); }
  }

  lemma DecayWithin(c: seq<Cell>, d: seq<Cell>, p: seq<set<byte>>)
    requires Within(c, p) && Decayed(c, d)
    ensures Within(d, p)
  {
  }

  lemma AgreesUpdate(v: CellMap, m: Possible, h: nat, c: seq<Cell>, p: seq<set<byte>>)
    requires Agrees(v, m) && Within(c, p)
    ensures Agrees(v[h := c], m[h := p])
  {
    hide Within;
  }

  lemma KnownWithin(data: seq<byte>)
    ensures Within(AllKnown(data), Exactly(data))
  {
  }

  lemma OverlayWithin(c: seq<Cell>, p: seq<set<byte>>, off: nat, data: seq<byte>)
    requires Within(c, p)
    ensures Within(Overlay(c, off, data), Overwritten(p, off, data, true))
  {
  }

  lemma TornAgrees(v: CellMap, w: CellMap, m: Possible, h: nat, off: nat, data: seq<byte>)
    requires Agrees(v, m) && TornView(v, h, off, data, w)
    ensures h in m ==> Agrees(w, m[h := Overwritten(m[h], off, data, false)])
    ensures h !in m ==> Agrees(w, m)
  {
    hide Within, Torn, Decayed;
    forall k | k in w && k != h ensures Within(w[k], m[k]) { DecayWithin(v[k], w[k], m[k]); }
    if h in m { TornWithin(v[h], w[h], m[h], off, data); }
  }

  lemma TornWithin(c: seq<Cell>, d: seq<Cell>, p: seq<set<byte>>, off: nat, data: seq<byte>)
    requires Within(c, p) && Torn(c, off, data, d)
    ensures Within(d, Overwritten(p, off, data, false))
  {
  }

  lemma ShownIsPossible(v: CellMap, m: Possible, h: nat, off: nat, bytes: seq<byte>)
    requires Agrees(v, m) && h in v && Shows(v[h], off, bytes)
    ensures h in m && off + |bytes| <= |m[h]| && forall j :: 0 <= j < |bytes| ==> bytes[j] in m[h][off + j]
  {
    assert Within(v[h], m[h]);
    forall j | 0 <= j < |bytes| ensures bytes[j] in m[h][off + j] { assert v[h][off + j] == Known(bytes[j]); }
  }

  lemma AgreeKeys(v: CellMap, m: Possible, h: nat)
    requires Agrees(v, m)
    ensures (h in v <==> h in m) && (h in v ==> |v[h]| == |m[h]|)
  {
  }

  lemma AgreesDrop(v: CellMap, m: Possible, h: nat)
    requires Agrees(v, m)
    ensures Agrees(v - {h}, m - {h})
  {
    hide Within;
  }

  /**
   Carries out one operation. Unless it ends in a clash of references, the answer is
   one the map allows, and the map stays right. If nothing stands in the way, it is the
   answer of the plain map.
   */
  method Step(c: MemoryClient, op: ClientOp, ghost m: Possible, ghost plain: Plain) returns (e: Event)
    requires c.Valid() && (!c.clashed ==> Agrees(c.View(), m))
    modifies c, c.cache, c.net
    ensures c.Valid() && Onward(old(c.net.Tally()), c.net.Tally()) && (old(c.clashed) ==> c.clashed) && e.op == op
    ensures !c.clashed ==> Answers(m, e) && Agrees(c.View(), PossibleStep(m, e))
    ensures !c.clashed && c.net.drops == old(c.net.drops) && c.net.silent == old(c.net.silent) ==>
              c.shed == old(c.shed) ==> StepsExactly(old(c.View()), e, c.View())
    ensures c.shed >= old(c.shed)
    ensures AllFit(old(c.Sizes()), c.cache.maxBytes) && Fits(e.op, c.cache.maxBytes) ==>
              AllFit(c.Sizes(), c.cache.maxBytes) && c.shed == old(c.shed)
    ensures c.nextHandle == old(c.nextHandle) + if op.Allocate? then 1 else 0
    ensures old(Prepared(c, plain, op)) ==>
              e.outcome == Expected(plain, old(c.nextHandle), op) && c.shed == old(c.shed)
  {
    hide Agrees, MemoryClient.Valid, MemoryClient.View, DecayedView, TornView, Within, Overlay, Overwritten, Exactly,
         AllKnown, Zeros, NothingLost, Shows, SameOthers, Reloading, ComesBack, Sheds, MemoryClient.Sizes, AllFit,
         Equals, Manageable, Ample, Placeable, MaybePlaceable, Kept;
    ghost var v := c.View();
    ShortStays(c);
    match op {
      case Allocate(size) =>
        ghost var sizes := c.Sizes();
        var h := c.Allocate(size);
        if AllFit(sizes, c.cache.maxBytes) && h.Some? { FitMore(sizes, c.cache.maxBytes, h.value, size); }
        e := Event(op, Allocated(h));
        if !c.clashed {
          if h.None? {
            DecayAgrees(v, c.View(), m);
          } else {
            AgreeKeys(v, m, h.value);
            KnownWithin(Zeros(size));
            AgreesUpdate(v, m, h.value, AllKnown(Zeros(size)), Exactly(Zeros(size)));
            DecayAgrees(v[h.value := AllKnown(Zeros(size))], c.View(), m[h.value := Exactly(Zeros(size))]);
          }
        }
      case Free(h) =>
        if AllFit(c.Sizes(), c.cache.maxBytes) { FitMore(c.Sizes(), c.cache.maxBytes, h, 0); }
        c.Free(h);
        e := Event(op, NoOutcome);
        if !c.clashed {
          AgreesDrop(v, m, h);
          DecayAgrees(v - {h}, c.View(), m - {h});
        }
      case Read(h, off, n) =>
        e := ReadStep(c, h, off, n, m, plain);
      case Write(h, off, data) =>
        e := WriteStep(c, h, off, data, m, plain);
      case Pressure =>
        var ok := c.OnPressure();
        e := Event(op, NoOutcome);
        if !c.clashed { DecayAgrees(v, c.View(), m); }
      case Elapse =>
        c.Elapse();
        e := Event(op, NoOutcome);
        if !c.clashed { DecayAgrees(v, c.View(), m); }
    }
  }

  method ReadStep(c: MemoryClient, h: nat, off: nat, n: nat, ghost m: Possible, ghost plain: Plain) returns (e: Event)
    requires c.Valid() && (!c.clashed ==> Agrees(c.View(), m))
    modifies c`remote, c`clashed, c`shed, c.cache, c.net
    ensures c.Valid() && Onward(old(c.net.Tally()), c.net.Tally()) && (old(c.clashed) ==> c.clashed)
    ensures e.op == Read(h, off, n)
    ensures !c.clashed ==> Answers(m, e) && Agrees(c.View(), PossibleStep(m, e))
    ensures !c.clashed && c.net.drops == old(c.net.drops) && c.net.silent == old(c.net.silent) ==>
              c.shed == old(c.shed) ==> StepsExactly(old(c.View()), e, c.View())
    ensures c.shed >= old(c.shed)
    ensures AllFit(old(c.Sizes()), c.cache.maxBytes) ==>
              AllFit(c.Sizes(), c.cache.maxBytes) && c.shed == old(c.shed)
    ensures old(Prepared(c, plain, Read(h, off, n))) ==>
              e.outcome == Expected(plain, 0, Read(h, off, n)) && c.shed == old(c.shed)
  {
    hide Agrees, MemoryClient.Valid, MemoryClient.View, DecayedView, Within, AllKnown, NothingLost, Shows, SameOthers,
         Reloading, Sheds, MemoryClient.Sizes, AllFit, Equals, Ample, Placeable, Fetchable, Gettable, Kept, Expected;
    ghost var v, ready := c.View(), Prepared(c, plain, Read(h, off, n));
    ShortStays(c);
    NotReloaded(v, h, c.remote);
    if ready && h in c.remote { Obtainable(c, plain, h, off, n); }
    Tiers(c, h);
    var r := c.Read(h, off, n);
    e := Event(Read(h, off, n), ReadReturned(r));
    Unclashed(c);
    if !c.clashed {
      AgreeKeys(v, m, h);
      if r.Data? { ShownIsPossible(v, m, h, off, r.bytes); }
      DecayAgrees(v, c.View(), m);
    }
    if ready { ReadIs(v, plain, h, off, n, r); }
  }

  method WriteStep(c: MemoryClient, h: nat, off: nat, data: seq<byte>, ghost m: Possible, ghost plain: Plain)
    returns (e: Event)
    requires c.Valid() && (!c.clashed ==> Agrees(c.View(), m))
    modifies c`remote, c`clashed, c`shed, c.cache, c.net
    ensures c.Valid() && Onward(old(c.net.Tally()), c.net.Tally()) && (old(c.clashed) ==> c.clashed)
    ensures e.op == Write(h, off, data)
    ensures old(Prepared(c, plain, Write(h, off, data))) ==>
              e.outcome == Expected(plain, 0, Write(h, off, data)) && c.shed == old(c.shed)
    ensures !c.clashed ==> Answers(m, e) && Agrees(c.View(), PossibleStep(m, e))
    ensures !c.clashed && c.net.drops == old(c.net.drops) && c.net.silent == old(c.net.silent) ==>
              c.shed == old(c.shed) ==> StepsExactly(old(c.View()), e, c.View())
    ensures c.shed >= old(c.shed)
    ensures AllFit(old(c.Sizes()), c.cache.maxBytes) && Fits(e.op, c.cache.maxBytes) ==>
              AllFit(c.Sizes(), c.cache.maxBytes) && c.shed == old(c.shed)
  {
    hide Agrees, MemoryClient.Valid, MemoryClient.View, DecayedView, TornView, Within, Overlay, Overwritten,
         NothingLost, SameOthers, Reloading, Sheds, MemoryClient.Sizes, AllFit, Equals, Ample, Placeable, Fetchable,
         Gettable, Kept, Expected;
    ghost var v, ready := c.View(), Prepared(c, plain, Write(h, off, data));
    ShortStays(c);
    NotReloaded(v, h, c.remote);
    if ready && h in c.remote { Obtainable(c, plain, h, off, 0); }
    Tiers(c, h);
    var r := c.Write(h, off, data);
    e := Event(Write(h, off, data), WriteReturned(r));
    Unclashed(c);
    if ready { WriteIs(v, plain, h, off, data, r); }
    if !c.clashed {
      AgreeKeys(v, m, h);
      if r.Written? {
        AgreesWithin(v, m, h);
        OverlayWithin(v[h], m[h], off, data);
        AgreesUpdate(v, m, h, Overlay(v[h], off, data), Overwritten(m[h], off, data, true));
        DecayAgrees(v[h := Overlay(v[h], off, data)], c.View(), m[h := Overwritten(m[h], off, data, true)]);
      } else if r.error.RemoteFailure? {
        TornAgrees(v, c.View(), m, h, off, data);
      } else {
        DecayAgrees(v, c.View(), m);
      }
    }
  }

  lemma AgreesWithin(v: CellMap, m: Possible, h: nat)
    requires Agrees(v, m) && h in v
    ensures h in m && Within(v[h], m[h])
  {
  }

  /** What a step does when no session ends, every call is answered and no reload sheds pieces. */
  ghost predicate StepsExactly(v: CellMap, e: Event, w: CellMap) {
    match e
    case Event(Allocate(size), Allocated(Some(h))) => w == v[h := AllKnown(Zeros(size))]
    case Event(Free(h), _) => w == v - {h}
    case Event(Write(h, off, data), WriteReturned(Written)) =>
      h in v && off + |data| <= |v[h]| && w == v[h := Overlay(v[h], off, data)]
    case Event(Write(h, _, _), _) => (h in v ==> NothingLost(v[h])) ==> w == v
    case Event(Read(h, off, n), ReadReturned(Data(bytes))) =>
      w == v && h in v && |bytes| == n && Shows(v[h], off, bytes)
    case Event(Read(h, _, _), _) => (h in v ==> NothingLost(v[h])) ==> w == v
    case _ => w == v
  }

  // ---- Answers that can be foretold ----

  /** Nothing stands in the way: nothing changes by itself, nothing was lost, and there is room on the peers. */
  ghost predicate Prepared(c: MemoryClient, m: Plain, op: ClientOp)
    reads c, c.cache, c.net
  {
    && c.net.calm && Equals(c.View(), m) && Manageable(op, m, c.cache.maxBytes) && Ample(c.net.peers, c.cache.list)
    && (op.Allocate? && op.size > c.cache.maxBytes ==> Placeable(c.net.peers, op.size))
  }

  /** A block of a handy size can be had from the peers. */
  lemma Obtainable(c: MemoryClient, m: Plain, h: nat, off: nat, n: nat)
    requires c.Valid() && Equals(c.View(), m) && h in c.remote
    ensures h in m && h in c.View() && |m[h]| == c.remote[h].size && NothingLost(c.View()[h])
    ensures 0 < |m[h]| <= MAX_MESSAGE_SIZE ==> Fetchable(c.remote[h]) && !Sheds(Pieces(c.remote[h]))
    ensures off + n <= |m[h]| && 0 < n <= MAX_MESSAGE_SIZE ==> Gettable(c.remote[h], c.View()[h], off, n)
  {
    hide Equals, Cells, Pieces, MemoryClient.Valid, MemoryClient.View, Sticking, Formed;
    c.SizeOfEntry(h);
    c.FormedEntry(h);
    KnownAt(c.View(), m, h);
    if 0 < |m[h]| <= MAX_MESSAGE_SIZE { ShortFetch(c.remote[h], |c.net.peers|); }
  }

  lemma KnownAt(v: CellMap, m: Plain, h: nat)
    requires Equals(v, m) && h in v
    ensures h in m && v[h] == AllKnown(m[h]) && |v[h]| == |m[h]| && NothingLost(v[h])
  {
  }

  lemma ShortFetch(a: RemoteAllocation, peers: nat)
    requires Formed(a, peers) && 0 < a.size <= MAX_MESSAGE_SIZE
    ensures Fetchable(a) && !Sheds(Pieces(a))
  {
    hide Tile, Pieces;
    var ps, k := Pieces(a), Sticking(Pieces(a));
    if k < |ps| { PieceWithin(ps, 0, a.size, k); }
  }

  /** The one answer a read can have given. */
  lemma ReadIs(v: CellMap, m: Plain, h: nat, off: nat, n: nat, r: ReadResult)
    requires Equals(v, m) && (r == ReadThrew(InvalidHandle) <==> h !in v) && (r.Data? ==> h in v && |r.bytes| == n)
    requires r.Data? ==> Shows(v[h], off, r.bytes)
    requires r == ReadThrew(OutOfRange) ==> h in v && off + n > |v[h]|
    requires h in v ==> r != ReadThrew(RemoteFailure)
    ensures ReadReturned(r) == Expected(m, 0, Read(h, off, n))
  {
    if h in v {
      assert v[h] == AllKnown(m[h]);
      assert r.Data? || r.error.OutOfRange?;
      if r.Data? {
        forall j | 0 <= j < n ensures r.bytes[j] == m[h][off..off + n][j] {
          assert v[h][off + j] == Known(r.bytes[j]);
        }
      }
    }
  }

  lemma WriteIs(v: CellMap, m: Plain, h: nat, off: nat, data: seq<byte>, w: WriteResult)
    requires Equals(v, m) && (w == WriteThrew(InvalidHandle) <==> h !in v)
    requires w.Written? ==> h in v && off + |data| <= |v[h]|
    requires w == WriteThrew(OutOfRange) ==> h in v && off + |data| > |v[h]|
    requires h in v ==> w != WriteThrew(RemoteFailure)
    ensures WriteReturned(w) == Expected(m, 0, Write(h, off, data))
  {
    if h in v {
      assert v[h] == AllKnown(m[h]);
      assert w.Written? || w.error.OutOfRange?;
    } else {
      assert w.error.InvalidHandle?;
    }
  }

  /** A handle is in one of the tiers, if it is known. */
  lemma Tiers(c: MemoryClient, h: nat)
    requires c.Valid()
    ensures h in c.View() <==> h in c.cache.index || h in c.remote
    ensures h in c.remote ==> |c.View()[h]| == c.remote[h].size
  {
    hide MemoryClient.Valid, MemoryClient.View;
    c.SizesShow();
    if h in c.remote { c.SizeOfEntry(h); }
  }

  lemma Unclashed(c: MemoryClient)
    requires c.Valid()
    ensures c.net.calm ==> !c.clashed
  {
  }

  // ---- Whole runs ----

  /** A block of this size never sheds pieces: it fits one reply, or it is used where it is. */
  predicate SizeFits(size: nat, max: nat) { size <= MAX_MESSAGE_SIZE || size > max }

  predicate Fits(op: ClientOp, max: nat) { op.Allocate? ==> SizeFits(op.size, max) }

  ghost predicate AllFit(sizes: map<nat, nat>, max: nat) { forall h :: h in sizes ==> SizeFits(sizes[h], max) }

  lemma FitMore(sizes: map<nat, nat>, max: nat, h: nat, n: nat)
    requires AllFit(sizes, max)
    ensures SizeFits(n, max) ==> AllFit(sizes[h := n], max)
    ensures AllFit(sizes - {h}, max)
  {
  }

  /** While all sizes fit, no reload sheds pieces. */
  lemma ShortStays(c: MemoryClient)
    requires c.Valid()
    ensures AllFit(c.Sizes(), c.cache.maxBytes) ==>
              forall h :: ComesBack(c.remote, c.cache.maxBytes, h) ==> !Sheds(Pieces(c.remote[h]))
  {
    hide Sheds, Sticking, Pieces, Cells;
    forall h | ComesBack(c.remote, c.cache.maxBytes, h) && AllFit(c.Sizes(), c.cache.maxBytes)
      ensures !Sheds(Pieces(c.remote[h]))
    {
      c.SizeOfEntry(h);
      c.SizesShow();
      ListedAt(c.cache.index.Keys, c.remote, c.nextHandle, |c.net.peers|, h);
      ShortNeverSheds(c.net.peers, Pieces(c.remote[h]), c.remote[h].size);
    }
  }

  /** Reads return what the plain map holds. */
  predicate ReadsExactly(m: Plain, e: Event) {
    e.op.Read? && e.outcome.ReadReturned? && e.outcome.read.Data? ==>
      e.op.handle in m && e.op.offset + e.op.length <= |m[e.op.handle]| &&
      e.outcome.read.bytes == m[e.op.handle][e.op.offset..e.op.offset + e.op.length]
  }

  predicate Exact(trace: seq<Event>) {
    trace == [] || (Exact(trace[..|trace| - 1]) && ReadsExactly(PlainMap(trace[..|trace| - 1]), trace[|trace| - 1]))
  }

  /**
   Any run from an empty client, with any peers, daemons restarting, sessions ending,
   calls left unanswered, refused allocations and memory pressure in between. The
   first `sure` steps came before any clash of references; without one they are all,
   and there is none while no daemon's counter of handles goes back. If moreover no
   session ended, every call was answered and no reload shed pieces, the client holds
   exactly the plain map. No reload does if every block fits one reply or is too large
   for the cache, and in a calm world the rest holds by itself. If there one peer has
   room for all blocks of the program at any time, and its blocks can be used in either
   tier, the run is the one foretold: whatever is evicted and reloaded meanwhile, every
   operation is answered as a plain map answers it.
   */
  method Run(c: MemoryClient, ops: seq<ClientOp>) returns (trace: seq<Event>, ghost sure: nat)
    requires c.Valid() && c.View() == map[] && !c.clashed
    modifies c, c.cache, c.net
    ensures c.Valid() && |trace| == |ops| && forall i :: 0 <= i < |ops| ==> trace[i].op == ops[i]
    ensures sure <= |trace| && Consistent(trace[..sure]) && (!c.clashed ==> sure == |trace|)
    ensures c.net.setbacks == old(c.net.setbacks) ==> !c.clashed
    ensures !c.clashed ==> Consistent(trace) && Agrees(c.View(), PossibleMap(trace))
    ensures !c.clashed && c.net.drops == old(c.net.drops) && c.net.silent == old(c.net.silent) ==>
              c.shed == old(c.shed) ==> Equals(c.View(), PlainMap(trace)) && Exact(trace)
    ensures (forall i :: 0 <= i < |ops| ==> Fits(ops[i], c.cache.maxBytes)) ==> c.shed == old(c.shed)
    ensures c.net.calm && (forall i :: 0 <= i < |ops| ==> Fits(ops[i], c.cache.maxBytes)) ==>
              !c.clashed && Equals(c.View(), PlainMap(trace)) && Exact(trace)
    ensures c.net.calm && Roomy(c.net.outlook, ops, old(c.nextHandle)) ==>
              AllManageable(ops, old(c.nextHandle), c.cache.maxBytes) ==>
              trace == Foretold(ops, old(c.nextHandle)) && Equals(c.View(), PlainMap(trace))
  {
    hide MemoryClient.Valid, MemoryClient.View, MemoryClient.Sizes, Agrees, Equals, Answers, PossibleStep, PlainStep,
         StepsExactly, ReadsExactly, AllFit, Fits, Prepared, Expected, Roomy, AllManageable, Allocations, Told,
         PlainMap, PossibleMap, Consistent, Exact;
    ghost var first := c.nextHandle;
    ghost var good := c.net.calm && Roomy(c.net.outlook, ops, first) && AllManageable(ops, first, c.cache.maxBytes);
    assert ops[..0] == [];
    trace, sure := [], 0;
    EmptyRun();
    ToldStart(ops, first);
    NothingRemote(c);
    c.Settle();
    ghost var start := c.net.Tally();
    for k := 0 to |ops|
      invariant c.Valid() && Onward(start, c.net.Tally())
      invariant |trace| == k && forall i :: 0 <= i < k ==> trace[i].op == ops[i]
      invariant sure <= k && Consistent(trace[..sure]) && (!c.clashed ==> sure == k)
      invariant !c.clashed ==> Agrees(c.View(), PossibleMap(trace))
      invariant !c.clashed && c.net.drops == old(c.net.drops) && c.net.silent == old(c.net.silent) ==>
                  c.shed == old(c.shed) ==> Equals(c.View(), PlainMap(trace)) && Exact(trace)
      invariant c.shed >= old(c.shed)
      invariant (forall i :: 0 <= i < |ops| ==> Fits(ops[i], c.cache.maxBytes)) ==>
                  c.shed == old(c.shed) && AllFit(c.Sizes(), c.cache.maxBytes)
      invariant c.nextHandle == first + Allocations(ops[..k])
      invariant good ==> c.shed == old(c.shed) && Told(c.View(), trace, ops, first, k)
    {
      if good { Prepares(c, trace, ops, first, k); }
      MoreAllocations(ops, k);
      assert !c.clashed ==> trace[..sure] == trace;
      ghost var v, m := c.View(), PossibleMap(trace);
      var e := Step(c, ops[k], m, PlainMap(trace));
      TraceGrows(trace, e);
      Unclashed(c);
      assert (trace + [e])[..sure] == trace[..sure];
      if good { ToldNext(v, trace, ops, first, k, e, c.View()); }
      if !c.clashed {
        if c.net.drops == old(c.net.drops) && c.net.silent == old(c.net.silent) && c.shed == old(c.shed) {
          StepEquals(v, PlainMap(trace), e, c.View());
        }
        sure := k + 1;
        assert (trace + [e])[..sure] == trace + [e];
      }
      trace := trace + [e];
    }
    assert trace[..|trace|] == trace;
    SteadyIsUnclashed(c);
    if good { ToldAll(c.View(), trace, ops, first); }
  }

  lemma TraceGrows(trace: seq<Event>, e: Event)
    ensures PlainMap(trace + [e]) == PlainStep(PlainMap(trace), e)
    ensures PossibleMap(trace + [e]) == PossibleStep(PossibleMap(trace), e)
    ensures Consistent(trace + [e]) <==> Consistent(trace) && Answers(PossibleMap(trace), e)
    ensures Exact(trace + [e]) <==> Exact(trace) && ReadsExactly(PlainMap(trace), e)
  {
    assert (trace + [e])[..|trace|] == trace && (trace + [e])[|trace|] == e;
  }

  /** The run so far is the one foretold, and the client holds its map. */
  ghost predicate Told(v: CellMap, trace: seq<Event>, ops: seq<ClientOp>, first: nat, k: nat) {
    k <= |ops| && trace == Foretold(ops[..k], first) && Equals(v, PlainMap(trace))
  }

  lemma ToldStart(ops: seq<ClientOp>, first: nat)
    ensures Told(map[], [], ops, first, 0) && Allocations([]) == 0
  {
  }

  lemma ToldNext(v: CellMap, trace: seq<Event>, ops: seq<ClientOp>, first: nat, k: nat, e: Event, w: CellMap)
    requires k < |ops| && Told(v, trace, ops, first, k) && StepsExactly(v, e, w)
    requires e == Event(ops[k], Expected(PlainMap(trace), first + Allocations(ops[..k]), ops[k]))
    ensures Told(w, trace + [e], ops, first, k + 1)
  {
    hide StepsExactly, Equals, Expected, PlainStep, Foretold;
    StepEquals(v, PlainMap(trace), e, w);
    TraceGrows(trace, e);
    ForetoldNext(ops, first, k);
  }

  lemma ToldAll(v: CellMap, trace: seq<Event>, ops: seq<ClientOp>, first: nat)
    requires Told(v, trace, ops, first, |ops|)
    ensures trace == Foretold(ops, first) && Equals(v, PlainMap(trace))
  {
    assert ops[..|ops|] == ops;
  }

  lemma MoreAllocations(ops: seq<ClientOp>, k: nat)
    requires k < |ops|
    ensures Allocations(ops[..k + 1]) == Allocations(ops[..k]) + if ops[k].Allocate? then 1 else 0
  {
    assert ops[..k + 1][..k] == ops[..k] && ops[..k + 1][k] == ops[k];
  }

  function SizesIn(m: Plain): (s: map<nat, nat>) { map h | h in m :: |m[h]| }

  /** One peer has room for the blocks of the program, all at once, at any time. */
  ghost predicate Roomy(outlook: seq<Standing>, ops: seq<ClientOp>, first: nat) {
    exists p :: 0 <= p < |outlook| && RoomFor(outlook[p], ops, first)
  }

  ghost predicate RoomFor(s: Standing, ops: seq<ClientOp>, first: nat) {
    forall k :: 0 <= k <= |ops| ==> Spacious(s, SizesIn(MapBefore(ops, first, k)))
  }

  predicate AllManageable(ops: seq<ClientOp>, first: nat, max: nat) {
    forall k :: 0 <= k < |ops| ==> Manageable(ops[k], MapBefore(ops, first, k), max)
  }

  lemma ForetoldNext(ops: seq<ClientOp>, first: nat, k: nat)
    requires k < |ops|
    ensures var m, next := MapBefore(ops, first, k), first + Allocations(ops[..k]);
            Foretold(ops[..k + 1], first) == Foretold(ops[..k], first) + [Event(ops[k], Expected(m, next, ops[k]))]
    ensures k + 1 <= |ops| && MapBefore(ops, first, k + 1) ==
            PlainStep(MapBefore(ops, first, k),
                      Event(ops[k], Expected(MapBefore(ops, first, k), first + Allocations(ops[..k]), ops[k])))
  {
    hide Expected, PlainStep;
    assert ops[..k + 1][..k] == ops[..k] && ops[..k + 1][k] == ops[k];
    var t, e := Foretold(ops[..k], first), Foretold(ops[..k + 1], first)[k];
    assert Foretold(ops[..k + 1], first)[..k] == t;
  }

  /** With room for the program's blocks, nothing stands in the way of its next operation. */
  lemma Prepares(c: MemoryClient, trace: seq<Event>, ops: seq<ClientOp>, first: nat, k: nat)
    requires c.Valid() && c.net.calm && k < |ops| && c.nextHandle == first + Allocations(ops[..k])
    requires Roomy(c.net.outlook, ops, first) && AllManageable(ops, first, c.cache.maxBytes)
    requires Told(c.View(), trace, ops, first, k)
    ensures Prepared(c, PlainMap(trace), ops[k])
  {
    hide MemoryClient.Valid, MemoryClient.View, MemoryClient.Sizes, Foretold, PlainMap, Spacious, Ample, Placeable,
         Manageable, Equals;
    var p :| 0 <= p < |c.net.outlook| && RoomFor(c.net.outlook[p], ops, first);
    var m := MapBefore(ops, first, k);
    SizesMatch(c, m);
    RoomForAll(c, p);
    if ops[k].Allocate? {
      ForetoldNext(ops, first, k);
      NextIsNew(c);
      assert SizesIn(MapBefore(ops, first, k + 1)) == c.Sizes()[c.nextHandle := ops[k].size];
      RoomForOne(c, p, c.nextHandle, ops[k].size);
    }
  }

  lemma SizesMatch(c: MemoryClient, m: Plain)
    requires c.Valid() && Equals(c.View(), m)
    ensures c.Sizes() == SizesIn(m)
  {
    hide MemoryClient.Valid, MemoryClient.View, MemoryClient.Sizes;
    c.SizesShow();
    forall h | h in c.Sizes() ensures h in m && c.Sizes()[h] == |m[h]| { KnownAt(c.View(), m, h); }
  }

  lemma NextIsNew(c: MemoryClient)
    requires c.Valid()
    ensures c.nextHandle !in c.Sizes()
  {
    hide LruCache.Valid, Coherent, Formed;
  }

  lemma SteadyIsUnclashed(c: MemoryClient)
    requires c.Valid()
    ensures c.net.Tally().Steady() || c.net.calm ==> !c.clashed
  {
  }

  lemma NothingRemote(c: MemoryClient)
    requires c.Valid() && c.View() == map[]
    ensures Under(c.net.peers, AllRefs(c.remote)) && AllFit(c.Sizes(), c.cache.maxBytes)
  {
    assert c.View().Keys == c.cache.index.Keys + c.remote.Keys;
  }

  lemma EmptyRun()
    ensures Agrees(map[], map[]) && Equals(map[], map[])
    ensures PlainMap([]) == map[] && PossibleMap([]) == map[] && Consistent([]) && Exact([])
  {
  }

  lemma StepEquals(v: CellMap, m: Plain, e: Event, w: CellMap)
    requires Equals(v, m) && StepsExactly(v, e, w)
    ensures Equals(w, PlainStep(m, e)) && ReadsExactly(m, e)
  {
    if e.op.Read? && e.outcome.ReadReturned? && e.outcome.read.Data? {
      var bytes, off := e.outcome.read.bytes, e.op.offset;
      forall j | 0 <= j < |bytes|
        ensures bytes[j] == m[e.op.handle][off + j]
      {
        assert v[e.op.handle][off + j] == Known(bytes[j]);
      }
    }
  }

  /** Without a write that threw part-way, every byte has one possible value: the plain map's. */
  lemma {:induction false} SureMap(trace: seq<Event>)
    requires Consistent(trace) && forall i :: 0 <= i < |trace| ==> !TornWrite(trace[i])
    ensures var m := PlainMap(trace);
            var p := PossibleMap(trace);
            p.Keys == m.Keys && forall h :: h in m ==> p[h] == Exactly(m[h])
  {
    if trace != [] {
      var rest, e := trace[..|trace| - 1], trace[|trace| - 1];
      SureMap(rest);
      SureStep(PossibleMap(rest), PlainMap(rest), e);
    }
  }

  predicate TornWrite(e: Event) { e.outcome == WriteReturned(WriteThrew(RemoteFailure)) }

  lemma SureStep(p: Possible, m: Plain, e: Event)
    requires p.Keys == m.Keys && (forall h :: h in m ==> p[h] == Exactly(m[h])) && Answers(p, e) && !TornWrite(e)
    ensures PossibleStep(p, e).Keys == PlainStep(m, e).Keys
    ensures forall h :: h in PlainStep(m, e) ==> PossibleStep(p, e)[h] == Exactly(PlainStep(m, e)[h])
  {
    if e.op.Write? && e.outcome == WriteReturned(Written) {
      var h := e.op.handle;
      assert Overwritten(p[h], e.op.offset, e.op.data, true) == Exactly(Patch(m[h], e.op.offset, e.op.data));
    }
  }

  lemma OneValueEach(block: seq<byte>, off: nat, bytes: seq<byte>)
    requires off + |bytes| <= |block| && forall j :: 0 <= j < |bytes| ==> bytes[j] in Exactly(block)[off + j]
    ensures bytes == block[off..off + |bytes|]
  {
  }

  /** Whatever else happens to the peers, the bytes a read returns before any clash are those last written. */
  lemma {:induction false} SureReads(trace: seq<Event>)
    requires Consistent(trace) && forall i :: 0 <= i < |trace| ==> !TornWrite(trace[i])
    ensures Exact(trace)
  {
    if trace != [] {
      var rest, e := trace[..|trace| - 1], trace[|trace| - 1];
      SureReads(rest);
      SureMap(rest);
      if e.op.Read? && e.outcome.ReadReturned? && e.outcome.read.Data? {
        OneValueEach(PlainMap(rest)[e.op.handle], e.op.offset, e.outcome.read.bytes);
      }
    }
  }
}
