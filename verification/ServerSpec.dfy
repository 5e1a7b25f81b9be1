/**
 What the daemon promises, page tables aside: every handle is one flat byte
 array that belongs to a session. `Serve` answers one decoded request.
 */
module ServerSpec {
  import opened Bytes
  import opened Crc32c
  import opened Framing
  import opened Sums
  import opened Wrappers

  /** 2^64. */
  const WORD_SIZE: nat := 0x1_0000_0000_0000_0000
  const PROTOCOL_VERSION: nat := 1

  datatype Op =
    | Alloc(size: nat)
    | Free(handle: nat)
    | Write(handle: nat, offset: nat, data: Option<seq<byte>>, checksum: Word)
    | Read(handle: nat, offset: nat, size: nat)
    | Ping
    | Unknown

  datatype Request = Request(version: nat, op: Op)

  datatype Status =
    | OK
    | ERROR_GENERIC
    | CHECKSUM_MISMATCH
    | INVALID_HANDLE
    | OUT_OF_MEMORY
    | VERSION_MISMATCH
    | PERMISSION_DENIED

  /** An absent handle field reads as 0; an empty read carries no data field. */
  datatype Response = Response(status: Status, handle: nat, data: Option<seq<byte>>, checksum: Word)

  datatype Block = Block(owner: nat, bytes: seq<byte>)

  datatype Store = Store(blocks: map<nat, Block>, next: nat, free: nat)

  function PagesFor(size: nat, pageSize: nat): (n: nat)
    requires pageSize > 0
  {
    (size + pageSize - 1) / pageSize
  }

  /** Just enough pages: one fewer would not hold the block. */
  lemma PagesForIsLeast(size: nat, ps: nat)
    requires ps > 0
    ensures size <= PagesFor(size, ps) * ps && (size == 0 ==> PagesFor(size, ps) == 0)
    ensures size > 0 ==> PagesFor(size, ps) > 0 && (PagesFor(size, ps) - 1) * ps < size
  {
    var n, r := PagesFor(size, ps), (size + ps - 1) % ps;
    assert size + ps - 1 == n * ps + r && 0 <= r < ps;
    assert (n - 1) * ps == n * ps - ps;
    if n == 0 { assert n * ps == 0; }
  }

  lemma MoreTimes(a: nat, b: nat, n: nat)
    requires a <= b
    ensures a * n <= b * n
  {
    assert b * n == a * n + (b - a) * n;
  }

  /** A larger block takes no fewer pages. */
  lemma PagesForGrows(a: nat, b: nat, ps: nat)
    requires ps > 0 && a <= b
    ensures PagesFor(a, ps) <= PagesFor(b, ps)
  {
    hide PagesFor;
    PagesForIsLeast(a, ps);
    PagesForIsLeast(b, ps);
    var m, n := PagesFor(a, ps), PagesFor(b, ps);
    if n < m { MoreTimes(n, m - 1, ps); }
  }

  function Say(s: Status): (r: Response) { Response(s, 0, None, Falses(32)) }

  /** Unknown handle, someone else's handle, or access granted. */
  function Access(store: Store, handle: nat, session: nat): (s: Status) {
    if handle !in store.blocks then INVALID_HANDLE
    else if store.blocks[handle].owner != 0 && store.blocks[handle].owner != session then PERMISSION_DENIED
    else OK
  }

  function ServeAlloc(ps: nat, store: Store, session: nat, size: nat): (r: (Store, Response))
    requires ps > 0
  {
    if size == 0 then (store, Say(OK))
    else if size > WORD_SIZE - 1 - (ps - 1) || PagesFor(size, ps) > store.free then (store, Say(OUT_OF_MEMORY))
    else (Store(store.blocks[store.next := Block(session, Zeros(size))], store.next + 1,
                store.free - PagesFor(size, ps)),
          Say(OK).(handle := store.next))
  }

  function ServeFree(ps: nat, store: Store, session: nat, handle: nat): (r: (Store, Response))
    requires ps > 0
  {
    if Access(store, handle, session) != OK then (store, Say(Access(store, handle, session)))
    else (store.(blocks := store.blocks - {handle}, free := store.free + PagesFor(|store.blocks[handle].bytes|, ps)),
          Say(OK))
  }

  function ServeWrite(store: Store, session: nat, handle: nat, offset: nat, data: seq<byte>): (r: (Store, Response)) {
    if data == [] then (store, Say(OK))
    else if Access(store, handle, session) != OK then (store, Say(Access(store, handle, session)))
    else
      var b := store.blocks[handle];
      if offset > |b.bytes| || |data| > |b.bytes| - offset then (store, Say(ERROR_GENERIC))
      else (store.(blocks := store.blocks[handle := b.(bytes := Patch(b.bytes, offset, data))]), Say(OK))
  }

  function ServeRead(store: Store, session: nat, handle: nat, offset: nat, size: nat): (r: Response) {
    if size > MAX_MESSAGE_SIZE then Say(ERROR_GENERIC)
    else if size == 0 then Say(OK)
    else if Access(store, handle, session) != OK then Say(Access(store, handle, session))
    else
      var bytes := store.blocks[handle].bytes;
      if offset > |bytes| || size > |bytes| - offset then Say(ERROR_GENERIC)
      else
        var data := bytes[offset..offset + size];
        Say(OK).(data := Some(data), checksum := Checksum(data, Falses(32)))
  }

  /** One request from one session. */
  function Serve(ps: nat, store: Store, session: nat, req: Request): (r: (Store, Response))
    requires ps > 0
  {
    if req.version != PROTOCOL_VERSION then (store, Say(VERSION_MISMATCH))
    else
      match req.op
      case Alloc(size) => ServeAlloc(ps, store, session, size)
      case Free(handle) => ServeFree(ps, store, session, handle)
      case Write(handle, offset, data, checksum) =>
        if data.None? then (store, Say(ERROR_GENERIC))
        else if Checksum(data.value, Falses(32)) != checksum then (store, Say(CHECKSUM_MISMATCH))
        else ServeWrite(store, session, handle, offset, data.value)
      case Read(handle, offset, size) => (store, ServeRead(store, session, handle, offset, size))
      case Ping => (store, Say(OK))
      case Unknown => (store, Say(ERROR_GENERIC))
  }

  function OwnedBy(blocks: map<nat, Block>, session: nat): (r: map<nat, Block>) {
    map h | h in blocks && blocks[h].owner == session :: blocks[h]
  }

  function NotOwnedBy(blocks: map<nat, Block>, session: nat): (r: map<nat, Block>) {
    map h | h in blocks && blocks[h].owner != session :: blocks[h]
  }

  /** Pages each block occupies. */
  ghost function PageCounts(blocks: map<nat, Block>, ps: nat): (r: map<nat, nat>)
    requires ps > 0
  {
    map h | h in blocks :: PagesFor(|blocks[h].bytes|, ps)
  }

  ghost function Held(blocks: map<nat, Block>, ps: nat): (n: nat)
    requires ps > 0
  {
    MapSum(PageCounts(blocks, ps))
  }

  /** A session ends: its blocks are swept, unless it is the unowned sentinel 0. */
  ghost function Disconnect(ps: nat, store: Store, session: nat): (r: Store)
    requires ps > 0
  {
    if session == 0 then store
    else store.(blocks := NotOwnedBy(store.blocks, session),
                free := store.free + Held(OwnedBy(store.blocks, session), ps))
  }

  // ---- Runs ----

  datatype Event = Asked(session: nat, req: Request) | Left(session: nat)

  ghost function Apply(ps: nat, store: Store, e: Event): (r: Store)
    requires ps > 0
  {
    match e
    case Asked(session, req) => Serve(ps, store, session, req).0
    case Left(session) => Disconnect(ps, store, session)
  }

  ghost function Run(ps: nat, store: Store, events: seq<Event>): (r: Store)
    requires ps > 0
    decreases |events|
  {
    if events == [] then store else Run(ps, Apply(ps, store, events[0]), events[1..])
  }

  /** What each event of a run is answered with, if it asks for anything. */
  ghost function Replies(ps: nat, store: Store, events: seq<Event>): (r: seq<Option<Response>>)
    requires ps > 0
    ensures |r| == |events|
    decreases |events|
  {
    if events == [] then []
    else
      var e := events[0];
      [if e.Asked? then Some(Serve(ps, store, e.session, e.req).1) else None] +
          Replies(ps, Apply(ps, store, e), events[1..])
  }

  /** The answer at any place of a run is the store's at that moment. */
  lemma {:induction false} ReplyAt(ps: nat, store: Store, events: seq<Event>, i: nat)
    requires ps > 0 && i < |events|
    ensures Replies(ps, store, events)[i] ==
            if events[i].Asked? then
              Some(Serve(ps, Run(ps, store, events[..i]), events[i].session, events[i].req).1)
            else None
    decreases |events|
  {
    hide Serve, Apply;
    if i > 0 {
      assert events[..i][1..] == events[1..][..i - 1];
      ReplyAt(ps, Apply(ps, store, events[0]), events[1..], i - 1);
    }
  }

  /** Pages are conserved, and handles are fresh and never 0. */
  ghost predicate Sound(ps: nat, total: nat, store: Store)
    requires ps > 0
  {
    store.free + Held(store.blocks, ps) == total && Fresh(store)
  }

  predicate Fresh(store: Store) {
    store.next >= 1 && forall h :: h in store.blocks ==> 1 <= h < store.next && |store.blocks[h].bytes| > 0
  }

  lemma HeldInsert(blocks: map<nat, Block>, h: nat, b: Block, ps: nat)
    requires ps > 0 && h !in blocks
    ensures Held(blocks[h := b], ps) == Held(blocks, ps) + PagesFor(|b.bytes|, ps)
  {
    assert PageCounts(blocks[h := b], ps) == PageCounts(blocks, ps)[h := PagesFor(|b.bytes|, ps)];
    MapSumInsert(PageCounts(blocks, ps), h, PagesFor(|b.bytes|, ps));
  }

  lemma HeldRemove(blocks: map<nat, Block>, h: nat, ps: nat)
    requires ps > 0 && h in blocks
    ensures Held(blocks, ps) == Held(blocks - {h}, ps) + PagesFor(|blocks[h].bytes|, ps)
  {
    assert PageCounts(blocks - {h}, ps) == PageCounts(blocks, ps) - {h};
    MapSumRemove(PageCounts(blocks, ps), h);
  }

  lemma HeldEmpty(ps: nat)
    requires ps > 0
    ensures Held(map[], ps) == 0
  {
    assert PageCounts(map[], ps) == map[];
  }

  /** A session's pages and everyone else's make up the whole. */
  lemma {:induction false} HeldSplits(blocks: map<nat, Block>, session: nat, ps: nat)
    requires ps > 0
    ensures Held(blocks, ps) == Held(OwnedBy(blocks, session), ps) + Held(NotOwnedBy(blocks, session), ps)
    decreases |blocks|
  {
    hide PagesFor, Held, MapSum, PageCounts;
    if blocks == map[] {
      assert OwnedBy(blocks, session) == map[] && NotOwnedBy(blocks, session) == map[];
      HeldEmpty(ps);
    } else {
      var h :| h in blocks;
      var rest := blocks - {h};
      assert |rest| < |blocks| by { assert rest.Keys == blocks.Keys - {h}; }
      HeldSplits(rest, session, ps);
      HeldRemove(blocks, h, ps);
      if blocks[h].owner == session {
        assert OwnedBy(blocks, session) - {h} == OwnedBy(rest, session) &&
               NotOwnedBy(blocks, session) == NotOwnedBy(rest, session);
        HeldRemove(OwnedBy(blocks, session), h, ps);
      } else {
        assert NotOwnedBy(blocks, session) - {h} == NotOwnedBy(rest, session) &&
               OwnedBy(blocks, session) == OwnedBy(rest, session);
        HeldRemove(NotOwnedBy(blocks, session), h, ps);
      }
    }
  }

  lemma HeldSameSizes(a: map<nat, Block>, b: map<nat, Block>, ps: nat)
    requires ps > 0 && a.Keys == b.Keys && forall h :: h in a ==> |a[h].bytes| == |b[h].bytes|
    ensures Held(a, ps) == Held(b, ps)
  {
    assert PageCounts(a, ps) == PageCounts(b, ps);
  }

  lemma ApplyKeepsSound(ps: nat, total: nat, store: Store, e: Event)
    requires ps > 0 && Sound(ps, total, store)
    ensures Sound(ps, total, Apply(ps, store, e))
  {
    hide PagesFor, Held, Patch, MapSum, PageCounts;
    match e
    case Asked(session, req) =>
      if req.version == PROTOCOL_VERSION {
        match req.op
        case Alloc(size) => HeldInsert(store.blocks, store.next, Block(session, Zeros(size)), ps);
        case Free(h) => if h in store.blocks { HeldRemove(store.blocks, h, ps); }
        case Write(h, offset, data, checksum) => HeldSameSizes(store.blocks, Apply(ps, store, e).blocks, ps);
        case _ =>
      }
    case Left(session) => HeldSplits(store.blocks, session, ps);
  }

  /** Every block has a real owner, as it does once ALLOC has been answered. */
  predicate Claimed(store: Store) { forall h :: h in store.blocks ==> store.blocks[h].owner != 0 }

  lemma {:induction false} RunKeepsClaimed(ps: nat, store: Store, events: seq<Event>)
    requires ps > 0 && Claimed(store) && forall i :: 0 <= i < |events| ==> events[i].session != 0
    ensures Claimed(Run(ps, store, events))
    decreases |events|
  {
    hide PagesFor, Held, Patch;
    if events != [] { RunKeepsClaimed(ps, Apply(ps, store, events[0]), events[1..]); }
  }

  lemma ServeKeepsFresh(ps: nat, store: Store, session: nat, req: Request)
    requires ps > 0 && Fresh(store)
    ensures Fresh(Serve(ps, store, session, req).0) && store.next <= Serve(ps, store, session, req).0.next
  {
    hide PagesFor;
  }

  /** Over every run, free pages plus pages held by live handles equal the total. */
  lemma {:induction false} RunKeepsSound(ps: nat, total: nat, store: Store, events: seq<Event>)
    requires ps > 0 && Sound(ps, total, store)
    ensures Sound(ps, total, Run(ps, store, events))
    decreases |events|
  {
    hide Sound, Apply;
    if events != [] {
      ApplyKeepsSound(ps, total, store, events[0]);
      RunKeepsSound(ps, total, Apply(ps, store, events[0]), events[1..]);
    }
  }

  // ---- Isolation ----

  predicate From(e: Event, session: nat) { e.session == session }

  /** Nobody else's request or departure touches a session's handles, nor adds to them. */
  lemma OthersDoNotTouch(ps: nat, store: Store, e: Event, session: nat)
    requires ps > 0 && Fresh(store) && session != 0 && !From(e, session)
    ensures OwnedBy(Apply(ps, store, e).blocks, session) == OwnedBy(store.blocks, session)
    ensures store.next <= Apply(ps, store, e).next
    ensures forall h :: h in Apply(ps, store, e).blocks ==> h in store.blocks || store.next <= h
  {
    hide PagesFor, Held, MapSum, PageCounts;
  }

  lemma {:induction false} RunIsolates(ps: nat, total: nat, store: Store, events: seq<Event>, session: nat)
    requires ps > 0 && Sound(ps, total, store) && session != 0
    requires forall i :: 0 <= i < |events| ==> !From(events[i], session)
    ensures OwnedBy(Run(ps, store, events).blocks, session) == OwnedBy(store.blocks, session)
    ensures store.next <= Run(ps, store, events).next
    ensures forall h :: h in Run(ps, store, events).blocks ==> h in store.blocks || store.next <= h
    decreases |events|
  {
    hide Held, Apply, OwnedBy, PagesFor;
    if events != [] {
      OthersDoNotTouch(ps, store, events[0], session);
      ApplyKeepsSound(ps, total, store, events[0]);
      RunIsolates(ps, total, Apply(ps, store, events[0]), events[1..], session);
    }
  }

  /** Bytes written and acknowledged read back, whatever other sessions did in between. */
  lemma ReadBackAfterOthers(ps: nat, total: nat, store: Store, session: nat, h: nat, off: nat, data: seq<byte>,
                            others: seq<Event>)
    requires ps > 0 && Sound(ps, total, store) && session != 0
    requires h in store.blocks && store.blocks[h].owner == session
    requires 0 < |data| <= MAX_MESSAGE_SIZE && off + |data| <= |store.blocks[h].bytes|
    requires forall i :: 0 <= i < |others| ==> !From(others[i], session)
    ensures var write := Request(PROTOCOL_VERSION, Write(h, off, Some(data), Checksum(data, Falses(32))));
            var read := Request(PROTOCOL_VERSION, Read(h, off, |data|));
            var after := Run(ps, Serve(ps, store, session, write).0, others);
            Serve(ps, after, session, read).1.status == OK && Serve(ps, after, session, read).1.data == Some(data)
  {
    hide Held, PagesFor, Checksum, Run, MapSum, PageCounts;
    var write := Request(PROTOCOL_VERSION, Write(h, off, Some(data), Checksum(data, Falses(32))));
    var mid := Serve(ps, store, session, write).0;
    ApplyKeepsSound(ps, total, store, Asked(session, write));
    RunIsolates(ps, total, mid, others, session);
    var after := Run(ps, mid, others);
    assert h in OwnedBy(mid.blocks, session);
    assert after.blocks[h] == OwnedBy(after.blocks, session)[h] == mid.blocks[h];
    assert mid.blocks[h].bytes[off..off + |data|] == data;
  }

  /** A disconnect returns exactly the session's pages and leaves every other block as it was. */
  lemma DisconnectIsExact(ps: nat, total: nat, store: Store, session: nat)
    requires ps > 0 && Sound(ps, total, store) && session != 0
    ensures var after := Disconnect(ps, store, session);
            && after.free == store.free + Held(OwnedBy(store.blocks, session), ps)
            && OwnedBy(after.blocks, session) == map[]
            && (forall other :: other != session ==> OwnedBy(after.blocks, other) == OwnedBy(store.blocks, other))
            && after.free + Held(after.blocks, ps) == total
  {
    hide Held, PagesFor, MapSum, PageCounts;
    HeldSplits(store.blocks, session, ps);
    var after := Disconnect(ps, store, session);
    forall other | other != session ensures OwnedBy(after.blocks, other) == OwnedBy(store.blocks, other) {
    }
  }

  /** A write damaged within four consecutive bytes is refused and changes nothing. */
  lemma DamagedWriteRefused(ps: nat, store: Store, session: nat, h: nat, off: nat, sent: seq<byte>, got: seq<byte>,
                            k: nat)
    requires ps > 0 && |sent| == |got| && sent != got && k <= |sent|
    requires forall i :: 0 <= i < |sent| && !(k <= i < k + 4) ==> sent[i] == got[i]
    ensures Serve(ps, store, session, Request(PROTOCOL_VERSION, Write(h, off, Some(got), Checksum(sent, Falses(32)))))
            == (store, Say(CHECKSUM_MISMATCH))
  {
    hide Checksum;
    FourByteErrorDetected(sent, got, Falses(32), k);
  }
}
