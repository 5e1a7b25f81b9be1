/** Bytes and their bits. */
module Bytes {
  type byte = b: nat | b < 256

  function Zeros(n: nat): (r: seq<byte>)
    ensures |r| == n && forall i :: 0 <= i < n ==> r[i] == 0
  {
    seq(n, _ => 0)
  }

  /** `s` with `data` laid over it at `off`. */
  function Patch(s: seq<byte>, off: nat, data: seq<byte>): (r: seq<byte>)
    requires off + |data| <= |s|
    ensures |r| == |s|
    ensures forall i :: 0 <= i < |s| ==> r[i] == if off <= i < off + |data| then data[i - off] else s[i]
  {
    s[..off] + data + s[off + |data|..]
  }

  function Power(k: nat): (p: nat) { if k == 0 then 1 else 2 * Power(k - 1) }

  function Falses(k: nat): (r: seq<bool>)
    ensures |r| == k && forall i :: 0 <= i < k ==> !r[i]
  {
    seq(k, _ => false)
  }

  /** The low `k` bits of `n`, least significant first. */
  function NatBits(n: nat, k: nat): (r: seq<bool>)
    ensures |r| == k
  {
    if k == 0 then [] else [n % 2 == 1] + NatBits(n / 2, k - 1)
  }

  /** The number whose bits, least significant first, are `s`. */
  function BitsValue(s: seq<bool>): (n: nat)
    ensures n < Power(|s|)
  {
    if s == [] then 0 else (if s[0] then 1 else 0) + 2 * BitsValue(s[1..])
  }

  lemma {:induction false} BitsOfValue(s: seq<bool>)
    ensures NatBits(BitsValue(s), |s|) == s
  {
    if s != [] { BitsOfValue(s[1..]); }
  }

  lemma {:induction false} ValueOfBits(n: nat, k: nat)
    requires n < Power(k)
    ensures BitsValue(NatBits(n, k)) == n
  {
    if k > 0 {
      ValueOfBits(n / 2, k - 1);
      assert NatBits(n, k)[1..] == NatBits(n / 2, k - 1);
    }
  }

  /** Beyond the bits a number needs there are only zeros. */
  lemma {:induction false} HighBitsZero(n: nat, k: nat, j: nat)
    requires n < Power(k) && k <= j
    ensures NatBits(n, j) == NatBits(n, k) + Falses(j - k)
  {
    if k > 0 {
      HighBitsZero(n / 2, k - 1, j - 1);
    } else if j > 0 {
      HighBitsZero(0, 0, j - 1);
    }
  }

  /** Four bits at a time. */
  lemma Nibble(n: nat, k: nat)
    requires k >= 4
    ensures NatBits(n, k) == [n % 2 == 1, n / 2 % 2 == 1, n / 4 % 2 == 1, n / 8 % 2 == 1] + NatBits(n / 16, k - 4)
  {
    assert NatBits(n, k) == [n % 2 == 1, n / 2 % 2 == 1] + NatBits(n / 4, k - 2);
    assert NatBits(n / 4, k - 2) == [n / 4 % 2 == 1, n / 8 % 2 == 1] + NatBits(n / 16, k - 4);
  }
}
