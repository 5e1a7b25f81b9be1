/** The client's local tier: a byte-bounded cache in recency order. */
module Lru {
  import opened Bytes
  import opened Wrappers

  datatype CacheBlock = CacheBlock(handle: nat, data: seq<byte>, dirty: bool)

  function TotalBytes(list: seq<CacheBlock>): (n: nat) {
    if list == [] then 0 else |list[0].data| + TotalBytes(list[1..])
  }

  /** The list with the block of `handle`, if any, taken out. */
  function Without(list: seq<CacheBlock>, handle: nat): (r: seq<CacheBlock>) {
    if list == [] then []
    else if list[0].handle == handle then list[1..]
    else [list[0]] + Without(list[1..], handle)
  }

  /** The longest prefix that fits in `room` bytes. */
  function Fitting(list: seq<CacheBlock>, room: int): (r: seq<CacheBlock>) {
    if list == [] || |list[0].data| > room then [] else [list[0]] + Fitting(list[1..], room - |list[0].data|)
  }

  /** Everything is kept when it all fits. */
  lemma {:induction false} FittingAll(list: seq<CacheBlock>, room: int)
    requires TotalBytes(list) <= room
    ensures Fitting(list, room) == list
  {
    if list != [] { FittingAll(list[1..], room - |list[0].data|); }
  }

  /** Dropping the last block of a list that does not fit loses nothing that would be kept. */
  lemma {:induction false} FittingDropLast(list: seq<CacheBlock>, room: int)
    requires list != [] && TotalBytes(list) > room
    ensures Fitting(list[..|list| - 1], room) == Fitting(list, room)
  {
    if |list| > 1 && |list[0].data| <= room {
      FittingDropLast(list[1..], room - |list[0].data|);
      assert list[..|list| - 1][1..] == list[1..][..|list| - 2];
    }
  }

  /** What `Fitting` promises: it fits, and one block more would not. */
  lemma {:induction false} FittingIsLongest(list: seq<CacheBlock>, room: nat)
    ensures var k := |Fitting(list, room)|;
            && k <= |list| && Fitting(list, room) == list[..k]
            && TotalBytes(list[..k]) <= room
            && (k < |list| ==> TotalBytes(list[..k + 1]) > room)
  {
    if list != [] && |list[0].data| <= room {
      FittingIsLongest(list[1..], room - |list[0].data|);
      var k := |Fitting(list[1..], room - |list[0].data|)|;
      assert list[..k + 1][1..] == list[1..][..k];
      if k + 1 < |list| { assert list[..k + 2][1..] == list[1..][..k + 1]; }
    } else if list != [] {
      assert list[..1][1..] == [];
    }
  }

  // ---- List, index and recency ----

  /** The list runs from the most to the least recently touched block, all touched before `bound`. */
  ghost predicate Descending(list: seq<CacheBlock>, touched: map<nat, nat>, bound: nat) {
    list == [] ||
    (list[0].handle in touched && touched[list[0].handle] < bound &&
     Descending(list[1..], touched, touched[list[0].handle]))
  }

  ghost function IndexOf(list: seq<CacheBlock>): (m: map<nat, CacheBlock>) {
    if list == [] then map[] else IndexOf(list[1..])[list[0].handle := list[0]]
  }

  /** List and index hold the same blocks, each once, in recency order. */
  ghost predicate Agree(list: seq<CacheBlock>, index: map<nat, CacheBlock>, touched: map<nat, nat>, clock: nat) {
    index == IndexOf(list) && Descending(list, touched, clock)
  }

  lemma {:induction false} Indexed(list: seq<CacheBlock>, touched: map<nat, nat>, bound: nat, h: nat)
    requires Descending(list, touched, bound) && h in IndexOf(list)
    ensures IndexOf(list)[h].handle == h && h in touched && touched[h] < bound
    ensures |IndexOf(list)[h].data| <= TotalBytes(list)
    decreases |list|
  {
    if h != list[0].handle { Indexed(list[1..], touched, touched[list[0].handle], h); }
  }

  lemma {:induction false} WithoutKeeps(list: seq<CacheBlock>, touched: map<nat, nat>, bound: nat, h: nat)
    requires Descending(list, touched, bound)
    ensures Descending(Without(list, h), touched, bound)
    ensures IndexOf(Without(list, h)) == IndexOf(list) - {h}
    ensures h in IndexOf(list) ==> TotalBytes(Without(list, h)) == TotalBytes(list) - |IndexOf(list)[h].data|
    ensures h !in IndexOf(list) ==> Without(list, h) == list
    decreases |list|
  {
    if list != [] {
      var t := touched[list[0].handle];
      if list[0].handle == h {
        if h in IndexOf(list[1..]) { Indexed(list[1..], touched, t, h); }
        LowerBoundOk(list[1..], touched, t, bound);
      } else {
        WithoutKeeps(list[1..], touched, t, h);
        var r := Without(list, h);
        assert r[1..] == Without(list[1..], h);
      }
    }
  }

  lemma LowerBoundOk(list: seq<CacheBlock>, touched: map<nat, nat>, t: nat, bound: nat)
    requires Descending(list, touched, t) && t <= bound
    ensures Descending(list, touched, bound)
  {
  }

  /** Touching a block that is not in the list does not disturb it. */
  lemma {:induction false} TouchOther(list: seq<CacheBlock>, touched: map<nat, nat>, bound: nat, h: nat, t: nat)
    requires Descending(list, touched, bound) && h !in IndexOf(list)
    ensures Descending(list, touched[h := t], bound)
    decreases |list|
  {
    if list != [] { TouchOther(list[1..], touched, touched[list[0].handle], h, t); }
  }

  /** The last block is the one touched longest ago. */
  lemma {:induction false} LastIsOldest(list: seq<CacheBlock>, touched: map<nat, nat>, bound: nat)
    requires Descending(list, touched, bound) && list != []
    ensures var last := list[|list| - 1];
            && last.handle in IndexOf(list) && IndexOf(list)[last.handle] == last && last.handle in touched
            && Without(list, last.handle) == list[..|list| - 1]
            && (forall k :: k in IndexOf(list) && k != last.handle ==>
                  k in touched && touched[last.handle] < touched[k])
    decreases |list|
  {
    var t := touched[list[0].handle];
    if |list| > 1 {
      var last := list[|list| - 1];
      LastIsOldest(list[1..], touched, t);
      Indexed(list[1..], touched, t, last.handle);
      assert list[..|list| - 1] == [list[0]] + list[1..][..|list| - 2];
    }
  }

  lemma RemoveKeeps(list: seq<CacheBlock>, index: map<nat, CacheBlock>, touched: map<nat, nat>, clock: nat, h: nat)
    requires Agree(list, index, touched, clock)
    ensures Agree(Without(list, h), index - {h}, touched, clock)
    ensures h in index ==> index[h].handle == h && TotalBytes(Without(list, h)) == TotalBytes(list) - |index[h].data|
    ensures h !in index ==> Without(list, h) == list && index - {h} == index
  {
    WithoutKeeps(list, touched, clock, h);
    if h in index { Indexed(list, touched, clock, h); }
  }

  lemma PushFrontKeeps(list: seq<CacheBlock>, index: map<nat, CacheBlock>, touched: map<nat, nat>, clock: nat,
                       b: CacheBlock)
    requires Agree(list, index, touched, clock) && b.handle !in index
    ensures Agree([b] + list, index[b.handle := b], touched[b.handle := clock], clock + 1)
    ensures TotalBytes([b] + list) == |b.data| + TotalBytes(list)
  {
    assert ([b] + list)[1..] == list;
    TouchOther(list, touched, clock, b.handle, clock);
  }

  class LruCache {
    const maxBytes: nat
    var currentBytes: nat
    var list: seq<CacheBlock>
    var index: map<nat, CacheBlock>
    /** When each cached block was last put or fetched. */
    ghost var clock: nat
    ghost var touched: map<nat, nat>

    ghost predicate Valid()
      reads this
    {
      Agree(list, index, touched, clock) && currentBytes == TotalBytes(list) <= maxBytes
    }

    constructor (maxBytes: nat)
      ensures Valid() && this.maxBytes == maxBytes && list == [] && index == map[]
    {
      this.maxBytes := maxBytes;
      currentBytes, list, index, clock, touched := 0, [], map[], 0, map[];
    }

    /** Bytes cached besides the block of `handle`. */
    ghost function BytesWithout(handle: nat): (n: int)
      reads this
    {
      currentBytes - (if handle in index then |index[handle].data| else 0)
    }

    /**
     Refuses a block larger than the cache. Otherwise the new block goes in front
     and the longest most recent run of the others that fits beside it stays.
     */
    method Put(handle: nat, data: seq<byte>, dirty: bool) returns (ok: bool)
      requires Valid()
      modifies this
      ensures Valid() && ok == (|data| <= maxBytes)
      ensures !ok ==> list == old(list) && index == old(index) && touched == old(touched) && clock == old(clock)
      ensures ok ==> list == [CacheBlock(handle, data, dirty)] + Fitting(Without(old(list), handle), maxBytes - |data|)
      ensures ok ==> touched == old(touched)[handle := old(clock)] && clock == old(clock) + 1
      ensures ok && handle !in old(index) && old(currentBytes) + |data| <= maxBytes ==>
                list == [CacheBlock(handle, data, dirty)] + old(list) && currentBytes == old(currentBytes) + |data|
      ensures ok && old(BytesWithout(handle)) + |data| <= maxBytes ==>
                list == [CacheBlock(handle, data, dirty)] + Without(old(list), handle) &&
                index == old(index)[handle := CacheBlock(handle, data, dirty)]
    {
      hide Agree, Without, Fitting;
      if |data| > maxBytes { return false; }
      var gone := Remove(handle);
      ghost var others, room := list, maxBytes - |data|;
      ghost var kept := index;
      if TotalBytes(others) <= room { FittingAll(others, room); }
      while currentBytes + |data| > maxBytes && list != []
        invariant Valid() && handle !in index
        invariant Fitting(list, room) == Fitting(others, room)
        invariant TotalBytes(others) <= room ==> list == others && index == kept && currentBytes == TotalBytes(others)
        invariant touched == old(touched) && clock == old(clock)
        decreases |list|
      {
        FittingDropLast(list, room);
        DropLast();
      }
      FittingAll(list, room);
      ghost var b := CacheBlock(handle, data, dirty);
      PushFrontKeeps(list, index, touched, clock, b);
      currentBytes := currentBytes + |data|;
      list := [CacheBlock(handle, data, dirty)] + list;
      index := index[handle := CacheBlock(handle, data, dirty)];
      touched, clock := touched[handle := clock], clock + 1;
      ok := true;
    }

    method DropLast()
      requires Valid() && list != []
      modifies this
      ensures Valid() && list == old(list)[..old(|list|) - 1]
      ensures index == old(index) - {old(list)[old(|list|) - 1].handle}
      ensures touched == old(touched) && clock == old(clock)
      ensures currentBytes == old(currentBytes) - |old(list)[old(|list|) - 1].data|
      ensures old(list)[old(|list|) - 1].handle in old(index)
      ensures old(index)[old(list)[old(|list|) - 1].handle] == old(list)[old(|list|) - 1]
    {
      hide Descending, IndexOf, TotalBytes, Without;
      var last := list[|list| - 1];
      LastIsOldest(list, touched, clock);
      RemoveKeeps(list, index, touched, clock, last.handle);
      currentBytes := currentBytes - |last.data|;
      index := index - {last.handle};
      list := list[..|list| - 1];
    }

    /** A hit moves the block to the front; its contents stay as they are. */
    method Get(handle: nat) returns (r: Option<seq<byte>>)
      requires Valid()
      modifies this
      ensures Valid() && index == old(index) && currentBytes == old(currentBytes)
      ensures r == if handle in index then Some(index[handle].data) else None
      ensures r.Some? ==> |r.value| <= currentBytes
      ensures handle in index ==>
                list == [index[handle]] + Without(old(list), handle) && touched == old(touched)[handle := old(clock)]
      ensures handle !in index ==> list == old(list) && touched == old(touched)
    {
      hide Agree, Without;
      if handle !in index { return None; }
      var b := index[handle];
      RemoveKeeps(list, index, touched, clock, handle);
      PushFrontKeeps(Without(list, handle), index - {handle}, touched, clock, b);
      assert (index - {handle})[handle := b] == index;
      list := [b] + Without(list, handle);
      touched, clock := touched[handle := clock], clock + 1;
      r := Some(b.data);
    }

    method Remove(handle: nat) returns (found: bool)
      requires Valid()
      modifies this
      ensures Valid() && found == (handle in old(index)) && index == old(index) - {handle}
      ensures list == Without(old(list), handle) && touched == old(touched) && clock == old(clock)
      ensures !found ==> list == old(list)
      ensures currentBytes == old(BytesWithout(handle))
    {
      hide Agree, TotalBytes, Without;
      RemoveKeeps(list, index, touched, clock, handle);
      if handle !in index { return false; }
      currentBytes := currentBytes - |index[handle].data|;
      list := Without(list, handle);
      index := index - {handle};
      found := true;
    }

    /** Takes out the block that was touched longest ago. */
    method EvictOne() returns (r: Option<CacheBlock>)
      requires Valid()
      modifies this
      ensures Valid() && (r.None? <==> old(list) == [])
      ensures r.None? ==> list == old(list) && index == old(index) && currentBytes == old(currentBytes)
      ensures r.Some? ==>
                var h := r.value.handle;
                && r.value == old(list)[old(|list|) - 1] && h in old(index) && old(index)[h] == r.value
                && index == old(index) - {h}
                && list == old(list)[..old(|list|) - 1] && currentBytes == old(currentBytes) - |r.value.data|
                && h in touched && (forall k :: k in index ==> k in touched && touched[h] < touched[k])
    {
      hide Descending, IndexOf, TotalBytes;
      if list == [] { return None; }
      var last := list[|list| - 1];
      LastIsOldest(list, touched, clock);
      DropLast();
      r := Some(last);
    }

    predicate NeedsEviction(additional: nat)
      reads this
    {
      currentBytes + additional > maxBytes
    }
  }
}
