/** Whole runs of the daemon: any sessions, any requests, any disconnects. */
module Daemon {
  import opened ServerSpec
  import opened Slab
  import opened Tracker
  import opened Wrappers

  /** Session ids start at 1, and sizes are 64-bit. */
  predicate Admissible(e: Event) {
    e.session != 0 && (e.Asked? && e.req.op.Alloc? ==> e.req.op.size < WORD_SIZE)
  }

  /** A fresh pool is sound. */
  lemma FreshIsSound(ps: nat, total: nat)
    requires ps > 0
    ensures Sound(ps, total, Store(map[], 1, total))
  {
    HeldEmpty(ps);
  }

  /**
   Whatever the events, the paged daemon gives the answers and ends in the state the
   flat store specifies, with free pages plus held pages equal to the total.
   */
  method ServeAll(tracker: PageTracker, events: seq<Event>) returns (answers: seq<Option<Response>>)
    requires tracker.Valid() && Sound(tracker.slab.pageSize, tracker.slab.totalPages, tracker.View())
    requires forall i :: 0 <= i < |events| ==> Admissible(events[i])
    modifies tracker, tracker.slab, tracker.slab.buffer, tracker.slab.pageStates
    ensures tracker.Valid()
    ensures tracker.View() == Run(tracker.slab.pageSize, old(tracker.View()), events)
    ensures answers == Replies(tracker.slab.pageSize, old(tracker.View()), events)
    ensures Sound(tracker.slab.pageSize, tracker.slab.totalPages, tracker.View())
  {
    hide Sound, Serve, Disconnect, SlabAllocator.Image, PageTracker.View;
    ghost var ps, total := tracker.slab.pageSize, tracker.slab.totalPages;
    ghost var start := tracker.View();
    answers := [];
    assert events[0..] == events;
    for i := 0 to |events|
      invariant |answers| == i && tracker.Valid() && Sound(ps, total, tracker.View())
      invariant Run(ps, tracker.View(), events[i..]) == Run(ps, start, events)
      invariant answers + Replies(ps, tracker.View(), events[i..]) == Replies(ps, start, events)
    {
      ghost var before, said := tracker.View(), answers;
      assert events[i..][1..] == events[i + 1..] && events[i..][0] == events[i];
      ApplyKeepsSound(ps, total, tracker.View(), events[i]);
      match events[i] {
        case Asked(session, req) =>
          var resp := ProcessRequest(tracker, session, req);
          answers := answers + [Some(resp)];
        case Left(session) =>
          tracker.FreeAllForOwner(session);
          answers := answers + [None];
      }
      ghost var rest := Replies(ps, tracker.View(), events[i + 1..]);
      assert Replies(ps, before, events[i..]) == [answers[i]] + rest;
      assert said + ([answers[i]] + rest) == answers + rest;
    }
  }

  /** A daemon from its start: an empty pool, handles from 1, then any events. */
  method ServeFresh(totalPages: nat, pageSize: nat, events: seq<Event>)
    returns (tracker: PageTracker, answers: seq<Option<Response>>)
    requires pageSize > 0
    requires forall i :: 0 <= i < |events| ==> Admissible(events[i])
    ensures fresh(tracker) && tracker.Valid()
    ensures tracker.View() == Run(pageSize, Store(map[], 1, totalPages), events)
    ensures answers == Replies(pageSize, Store(map[], 1, totalPages), events)
    ensures Sound(pageSize, totalPages, tracker.View())
  {
    hide Sound, SlabAllocator.Image, PageTracker.View;
    var slab := new SlabAllocator(totalPages, pageSize);
    tracker := new PageTracker(slab);
    FreshIsSound(pageSize, totalPages);
    answers := ServeAll(tracker, events);
  }
}
