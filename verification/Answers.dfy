/**
 What each answer of the daemon means, in terms of the store and the request alone:
 when it is given, and what the store is afterwards.
 */
module Answers {
  import opened Bytes
  import opened Crc32c
  import opened Framing
  import opened ServerSpec
  import opened Wrappers

  /** The session may use the handle: it is live, and the session's own or nobody's. */
  predicate Usable(store: Store, h: nat, session: nat) {
    h in store.blocks && (store.blocks[h].owner == 0 || store.blocks[h].owner == session)
  }

  /** A write that arrived with its data as it was sent. */
  predicate CameThrough(op: Op) { op.Write? && op.data.Some? && Checksum(op.data.value, Falses(32)) == op.checksum }

  /** The handle an operation really needs. A write or read of no bytes needs none. */
  function Needs(op: Op): (h: Option<nat>) {
    if op.Free? then Some(op.handle)
    else if CameThrough(op) && op.data.value != [] then Some(op.handle)
    else if op.Read? && 0 < op.size <= MAX_MESSAGE_SIZE then Some(op.handle)
    else None
  }

  /** How far into its block an operation reaches. */
  function Reach(op: Op): (n: nat) {
    if CameThrough(op) then op.offset + |op.data.value| else if op.Read? then op.offset + op.size else 0
  }

  /** An operation that cannot be carried out whatever the store. */
  predicate Senseless(op: Op) {
    op.Unknown? || (op.Write? && op.data.None?) || (op.Read? && op.size > MAX_MESSAGE_SIZE)
  }

  /** There are not that many bytes free, in whole pages, or not that many addresses. */
  predicate TooLarge(ps: nat, store: Store, size: nat) { size + ps > WORD_SIZE || size > store.free * ps }

  lemma FitsFree(size: nat, ps: nat, free: nat)
    requires ps > 0
    ensures PagesFor(size, ps) <= free <==> size <= free * ps
  {
    hide PagesFor;
    PagesForIsLeast(size, ps);
    var n := PagesFor(size, ps);
    if n <= free { MoreTimes(n, free, ps); } else { MoreTimes(free, n - 1, ps); }
  }

  /** Every status is given exactly in its case. */
  lemma StatusMeans(ps: nat, store: Store, session: nat, req: Request)
    requires ps > 0
    ensures var status, needs := Serve(ps, store, session, req).1.status, Needs(req.op);
            && (status == VERSION_MISMATCH <==> req.version != PROTOCOL_VERSION)
            && (status == CHECKSUM_MISMATCH <==>
                  req.version == PROTOCOL_VERSION && req.op.Write? && req.op.data.Some? && !CameThrough(req.op))
            && (status == INVALID_HANDLE <==>
                  req.version == PROTOCOL_VERSION && needs.Some? && needs.value !in store.blocks)
            && (status == PERMISSION_DENIED <==>
                  && req.version == PROTOCOL_VERSION && needs.Some? && needs.value in store.blocks
                  && !Usable(store, needs.value, session))
            && (status == OUT_OF_MEMORY <==>
                  && req.version == PROTOCOL_VERSION && req.op.Alloc? && req.op.size > 0
                  && TooLarge(ps, store, req.op.size))
            && (status == ERROR_GENERIC <==>
                  && req.version == PROTOCOL_VERSION
                  && (Senseless(req.op) ||
                      (&& needs.Some? && Usable(store, needs.value, session)
                       && Reach(req.op) > |store.blocks[needs.value].bytes|)))
  {
    hide PagesFor, Checksum, Patch;
    if req.op.Alloc? { FitsFree(req.op.size, ps, store.free); }
  }

  /** So a request is answered OK exactly if it makes sense, can be carried out and is allowed. */
  lemma OkMeans(ps: nat, store: Store, session: nat, req: Request)
    requires ps > 0
    ensures Serve(ps, store, session, req).1.status == OK <==>
            && req.version == PROTOCOL_VERSION && !Senseless(req.op) && (req.op.Write? ==> CameThrough(req.op))
            && (req.op.Alloc? ==> req.op.size == 0 || !TooLarge(ps, store, req.op.size))
            && (Needs(req.op).Some? ==>
                  && Usable(store, Needs(req.op).value, session)
                  && Reach(req.op) <= |store.blocks[Needs(req.op).value].bytes|)
  {
    hide PagesFor, Checksum, Patch;
    if req.op.Alloc? { FitsFree(req.op.size, ps, store.free); }
  }

  /**
   The store changes only by an allocation, a free or a write that is answered OK. Only
   such an allocation hands out a handle, and only such a read carries data.
   */
  lemma OnlyOkChanges(ps: nat, store: Store, session: nat, req: Request)
    requires ps > 0
    ensures var (after, resp) := Serve(ps, store, session, req);
            && (resp.status != OK || req.op.Read? || req.op.Ping? ==> after == store)
            && (resp.status != OK || !req.op.Alloc? ==> resp.handle == 0)
            && (resp.status != OK || !req.op.Read? ==> resp.data.None?)
  {
    hide PagesFor, Checksum, Patch;
  }

  /** Nothing else of the store changes when one block does. */
  predicate OnlyBlock(a: Store, b: Store, h: nat) { b.next == a.next && b.blocks - {h} == a.blocks - {h} }

  /** A write that is answered OK lays its bytes over the block, and touches nothing else. */
  lemma WriteLands(ps: nat, store: Store, session: nat, req: Request)
    requires ps > 0 && req.op.Write? && Serve(ps, store, session, req).1.status == OK
    ensures req.op.data.Some?
    ensures var after, h, data := Serve(ps, store, session, req).0, req.op.handle, req.op.data.value;
            && (data == [] ==> after == store)
            && OnlyBlock(store, after, h) && after.free == store.free
            && (data != [] ==>
                  && h in store.blocks && h in after.blocks && after.blocks[h].owner == store.blocks[h].owner
                  && |after.blocks[h].bytes| == |store.blocks[h].bytes|
                  && forall i :: 0 <= i < |store.blocks[h].bytes| ==>
                       after.blocks[h].bytes[i] ==
                       if req.op.offset <= i < req.op.offset + |data|
                       then data[i - req.op.offset] else store.blocks[h].bytes[i])
  {
    hide PagesFor, Checksum;
  }

  /** A read returns the block's bytes and the checksum of what it returns, and changes nothing. */
  lemma ReadShows(ps: nat, store: Store, session: nat, req: Request)
    requires ps > 0 && req.op.Read? && Serve(ps, store, session, req).1.status == OK
    ensures Serve(ps, store, session, req).0 == store
    ensures var resp, op := Serve(ps, store, session, req).1, req.op;
            && (op.size == 0 ==> resp.data.None?)
            && (op.size > 0 ==>
                  && resp.data.Some? && |resp.data.value| == op.size && op.handle in store.blocks
                  && op.offset + op.size <= |store.blocks[op.handle].bytes|
                  && (forall i :: 0 <= i < op.size ==>
                        resp.data.value[i] == store.blocks[op.handle].bytes[op.offset + i])
                  && resp.checksum == Checksum(resp.data.value, Falses(32)))
  {
    hide PagesFor, Checksum;
  }

  /** Whoever reads the range of a write that was just answered OK gets the bytes that were written. */
  lemma WriteThenRead(ps: nat, store: Store, session: nat, req: Request)
    requires ps > 0 && req.op.Write? && Serve(ps, store, session, req).1.status == OK
    requires req.op.data.Some? ==> 0 < |req.op.data.value| <= MAX_MESSAGE_SIZE
    ensures var read := Request(PROTOCOL_VERSION, Read(req.op.handle, req.op.offset, |req.op.data.value|));
            var resp := Serve(ps, Serve(ps, store, session, req).0, session, read).1;
            resp.status == OK && resp.data == req.op.data && resp.checksum == req.op.checksum
  {
    hide PagesFor, Checksum, Serve, Reach, Usable;
    WriteLands(ps, store, session, req);
    OkMeans(ps, store, session, req);
    var after := Serve(ps, store, session, req).0;
    var read := Request(PROTOCOL_VERSION, Read(req.op.handle, req.op.offset, |req.op.data.value|));
    StillUsable(store, after, req.op.handle, session);
    ReachesAsFar(req.op, read.op);
    OkMeans(ps, after, session, read);
    ReadShows(ps, after, session, read);
    assert Serve(ps, after, session, read).1.data.value == req.op.data.value;
  }

  lemma StillUsable(a: Store, b: Store, h: nat, session: nat)
    requires h in a.blocks && h in b.blocks && b.blocks[h].owner == a.blocks[h].owner
    ensures Usable(b, h, session) <==> Usable(a, h, session)
  {
  }

  lemma ReachesAsFar(w: Op, r: Op)
    requires CameThrough(w) && r == Read(w.handle, w.offset, |w.data.value|)
    ensures Reach(r) == Reach(w)
  {
  }

  /** A free that is answered OK takes the handle away, for everyone, and gives its pages back. */
  lemma FreeForgets(ps: nat, store: Store, session: nat, req: Request)
    requires ps > 0 && req.op.Free? && Serve(ps, store, session, req).1.status == OK
    ensures var after, h := Serve(ps, store, session, req).0, req.op.handle;
            && Usable(store, h, session) && h !in after.blocks && OnlyBlock(store, after, h)
            && LeastPages(ps, |store.blocks[h].bytes|, after.free - store.free)
            && forall other :: Serve(ps, after, other, req).1.status == INVALID_HANDLE
  {
    hide PagesFor, LeastPages;
    LeastIs(ps, |store.blocks[req.op.handle].bytes|);
  }

  /** Just enough pages for so many bytes. */
  predicate LeastPages(ps: nat, size: nat, n: int) { size <= n * ps && (n - 1) * ps < size && n >= 0 }

  lemma LeastIs(ps: nat, size: nat)
    requires ps > 0
    ensures LeastPages(ps, size, PagesFor(size, ps))
  {
    hide PagesFor;
    PagesForIsLeast(size, ps);
  }

  /**
   An allocation that is answered OK hands out a handle nobody had, for a zeroed block
   of that size which only this session can use, and takes just enough pages for it.
   One of no bytes hands out the handle 0 and allocates nothing.
   */
  lemma AllocGrants(ps: nat, store: Store, session: nat, req: Request)
    requires ps > 0 && Fresh(store) && req.op.Alloc? && Serve(ps, store, session, req).1.status == OK
    ensures var (after, resp) := Serve(ps, store, session, req);
            && resp.handle !in store.blocks && resp.data.None?
            && (req.op.size == 0 ==> after == store && resp.handle == 0)
            && (req.op.size > 0 ==>
                  && resp.handle > 0 && resp.handle in after.blocks && after.blocks - {resp.handle} == store.blocks
                  && after.blocks[resp.handle].owner == session
                  && |after.blocks[resp.handle].bytes| == req.op.size
                  && (forall i :: 0 <= i < req.op.size ==> after.blocks[resp.handle].bytes[i] == 0)
                  && (forall other :: session != 0 && other != session ==> !Usable(after, resp.handle, other))
                  && after.next > resp.handle && Fresh(after)
                  && LeastPages(ps, req.op.size, store.free - after.free))
  {
    hide PagesFor, LeastPages;
    LeastIs(ps, req.op.size);
    var (after, resp) := Serve(ps, store, session, req);
    if req.op.size > 0 { assert after.blocks - {resp.handle} == store.blocks; }
  }
}
