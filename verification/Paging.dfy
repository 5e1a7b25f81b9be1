/** Page numbers and byte positions. */
module Paging {
  import ArenaModel

  /** Where page `p` starts. */
  function Start(p: nat, pageSize: nat): (n: nat) { p * pageSize }

  /** The page of byte `i`, and the position of `i` inside that page. */
  function PageNo(i: nat, pageSize: nat): (n: nat)
    requires pageSize > 0
  {
    i / pageSize
  }

  function InPage(i: nat, pageSize: nat): (n: nat)
    requires pageSize > 0
    ensures n < pageSize
  {
    i % pageSize
  }

  lemma MulMono(a: nat, b: nat, n: nat)
    requires a < b
    ensures a * n + n <= b * n
  {
    assert (b - a - 1) * n >= 0;
    assert (b - a - 1) * n == b * n - a * n - n;
  }

  /** Pages follow one another without overlap. */
  lemma PagesInOrder(p: nat, q: nat, pageSize: nat)
    requires p < q
    ensures Start(p, pageSize) + pageSize <= Start(q, pageSize)
  {
    MulMono(p, q, pageSize);
  }

  lemma Located(p: nat, j: nat, pageSize: nat)
    requires j < pageSize
    ensures PageNo(Start(p, pageSize) + j, pageSize) == p && InPage(Start(p, pageSize) + j, pageSize) == j
  {
    ArenaModel.ModOf(p, pageSize, j);
  }

  lemma Position(i: nat, pageSize: nat)
    requires pageSize > 0
    ensures i == Start(PageNo(i, pageSize), pageSize) + InPage(i, pageSize)
  {
  }

  lemma DivIsPageNo(a: nat, ps: nat)
    requires ps > 0
    ensures a / ps == PageNo(a, ps)
  {
  }

  lemma StartsOrder(p: nat, q: nat, pageSize: nat)
    requires pageSize > 0
    ensures p < q <==> Start(p, pageSize) < Start(q, pageSize)
    ensures p < q ==> Start(p, pageSize) + pageSize <= Start(q, pageSize)
  {
    if p < q { MulMono(p, q, pageSize); }
    if q < p { MulMono(q, p, pageSize); }
  }

  lemma StartsAdd(p: nat, q: nat, pageSize: nat)
    ensures Start(p + q, pageSize) == Start(p, pageSize) + Start(q, pageSize)
    ensures Start(0, pageSize) == 0
  {
  }
}
