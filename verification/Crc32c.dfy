/**
 CRC32C: the table-driven checksum, the bit-at-a-time register it speeds up, and
 the polynomial division of section 12.1 of RFC 3720 that both compute.
 */
module Crc32c {
  import opened Bytes

  /** A 32-bit unsigned word, least significant bit first. */
  type Word = w: seq<bool> | |w| == 32 witness Falses(32)

  /** The reflected polynomial the code uses: bit i is the coefficient of x^(31-i). */
  const POLYNOMIAL: Word := NatBits(0x82F63B78, 32)

  function Xor(a: Word, b: Word): (r: Word) { seq(32, i requires 0 <= i < 32 => a[i] != b[i]) }
  function Not(a: Word): (r: Word) { seq(32, i requires 0 <= i < 32 => !a[i]) }
  function ShiftRight(a: Word, n: nat): (r: Word)
    requires n <= 32
  {
    a[n..] + Falses(n)
  }
  /** A byte widened to a word. */
  function Widen(b: nat): (r: Word) { NatBits(b, 32) }

  // ---- The register, one bit at a time ----

  /** The body of the table generator's inner loop. */
  function Step(c: Word): (r: Word) {
    if c[0] then Xor(ShiftRight(c, 1), POLYNOMIAL) else ShiftRight(c, 1)
  }

  function StepN(c: Word, n: nat): (r: Word)
    decreases n
  {
    if n == 0 then c else StepN(Step(c), n - 1)
  }

  function Feed(c: Word, bit: bool): (r: Word) { Step(c[0 := c[0] != bit]) }

  /** Feeds message bits, first bit first, into the register. */
  function FeedBits(c: Word, bits: seq<bool>): (r: Word)
    decreases bits
  {
    if bits == [] then c else FeedBits(Feed(c, bits[0]), bits[1..])
  }

  /** The bits of a payload in transmission order: each byte least significant bit first. */
  function Bits(data: seq<byte>): (r: seq<bool>)
    ensures |r| == 8 * |data|
  {
    if data == [] then [] else NatBits(data[0], 8) + Bits(data[1..])
  }

  /** Complement, feed every bit, complement. */
  function Checksum(data: seq<byte>, initial: Word): (r: Word) {
    Not(FeedBits(Not(initial), Bits(data)))
  }

  // ---- A byte at once ----

  lemma StepLinear(x: Word, y: Word)
    ensures Step(Xor(x, y)) == Xor(Step(x), Step(y))
  {
    hide NatBits;
    assert ShiftRight(Xor(x, y), 1) == Xor(ShiftRight(x, 1), ShiftRight(y, 1));
  }

  lemma {:induction false} StepNLinear(x: Word, y: Word, n: nat)
    ensures StepN(Xor(x, y), n) == Xor(StepN(x, n), StepN(y, n))
    decreases n
  {
    hide Step, Xor;
    if n > 0 {
      StepLinear(x, y);
      StepNLinear(Step(x), Step(y), n - 1);
    }
  }

  /** Low zero bits just fall off. */
  lemma {:induction false} ZerosFallOff(h: Word, n: nat)
    requires n <= 32 && forall i :: 0 <= i < n ==> !h[i]
    ensures StepN(h, n) == ShiftRight(h, n)
    decreases n
  {
    if n > 0 {
      ZerosFallOff(ShiftRight(h, 1), n - 1);
      assert ShiftRight(ShiftRight(h, 1), n - 1) == ShiftRight(h, n);
    } else {
      assert ShiftRight(h, 0) == h;
    }
  }

  /** `c & 0xFF`. */
  function LowByte(c: Word): (r: Word) { c[..8] + Falses(24) }

  /** Eight steps touch the low byte only through the table; the rest just moves down. */
  lemma TableStep(c: Word)
    ensures StepN(c, 8) == Xor(StepN(LowByte(c), 8), ShiftRight(c, 8))
  {
    var high: Word := Falses(8) + c[8..];
    assert c == Xor(LowByte(c), high);
    StepNLinear(LowByte(c), high, 8);
    ZerosFallOff(high, 8);
    assert ShiftRight(high, 8) == ShiftRight(c, 8);
  }

  /** The bits `w`, at the low end of a word. */
  function Pad(w: seq<bool>): (r: Word)
    requires |w| <= 32
  {
    w + Falses(32 - |w|)
  }

  lemma BitThenRest(c: Word, w: seq<bool>)
    requires 0 < |w| <= 32
    ensures Step(Xor(c, Pad(w))) == Xor(Feed(c, w[0]), Pad(w[1..]))
  {
    var one: Word := [w[0]] + Falses(31);
    var even: Word := [false] + w[1..] + Falses(32 - |w|);
    assert Xor(c, Pad(w)) == Xor(c[0 := c[0] != w[0]], even);
    StepLinear(c[0 := c[0] != w[0]], even);
    assert Step(even) == Pad(w[1..]);
  }

  /** Xoring n bits in at once and taking n steps equals feeding them one at a time. */
  lemma {:induction false} FeedAtOnce(c: Word, w: seq<bool>)
    requires |w| <= 32
    ensures FeedBits(c, w) == StepN(Xor(c, Pad(w)), |w|)
    decreases |w|
  {
    if w == [] {
      assert Xor(c, Pad(w)) == c;
    } else {
      hide Step, Xor, Pad, Feed;
      BitThenRest(c, w);
      FeedAtOnce(Feed(c, w[0]), w[1..]);
    }
  }

  lemma {:induction false} FeedAppend(c: Word, a: seq<bool>, b: seq<bool>)
    ensures FeedBits(c, a + b) == FeedBits(FeedBits(c, a), b)
    decreases |a|
  {
    hide Feed;
    if a == [] {
      assert a + b == b;
    } else {
      assert (a + b)[1..] == a[1..] + b;
      FeedAppend(Feed(c, a[0]), a[1..], b);
    }
  }

  lemma ByteIsPadded(b: byte)
    ensures Widen(b) == Pad(NatBits(b, 8))
  {
    assert Power(8) == 256;
    HighBitsZero(b, 8, 32);
  }

  lemma HighUntouched(c: Word, w: seq<bool>)
    requires |w| == 8
    ensures ShiftRight(Xor(c, Pad(w)), 8) == ShiftRight(c, 8)
  {
  }

  /** One byte: the table entry of the mixed low byte, against the register moved down. */
  lemma ByteStep(c: Word, b: byte)
    ensures FeedBits(c, NatBits(b, 8)) == Xor(StepN(LowByte(Xor(c, Widen(b))), 8), ShiftRight(c, 8))
  {
    hide StepN, Xor, ShiftRight, Widen, LowByte, Pad, FeedBits, NatBits;
    FeedAtOnce(c, NatBits(b, 8));
    ByteIsPadded(b);
    TableStep(Xor(c, Widen(b)));
    HighUntouched(c, NatBits(b, 8));
  }

  // ---- The table-driven code ----

  /** The lookup table holds, for every byte, eight steps of the register. */
  method GenerateTable() returns (table: array<Word>)
    ensures fresh(table) && table.Length == 256
    ensures forall i :: 0 <= i < 256 ==> table[i] == StepN(Widen(i), 8)
  {
    hide Xor, ShiftRight, NatBits, Falses, Widen;
    table := new Word[256](_ => Falses(32));
    for i := 0 to 256
      invariant forall k :: 0 <= k < i ==> table[k] == StepN(Widen(k), 8)
    {
      var crc := Widen(i);
      for j := 0 to 8
        invariant StepN(crc, 8 - j) == StepN(Widen(i), 8)
        invariant forall k :: 0 <= k < i ==> table[k] == StepN(Widen(k), 8)
      {
        if crc[0] {
          crc := Xor(ShiftRight(crc, 1), POLYNOMIAL);
        } else {
          crc := ShiftRight(crc, 1);
        }
      }
      table[i] := crc;
    }
  }

  /** The software path: one table lookup per byte computes the checksum. */
  method Compute(data: seq<byte>, initial: Word) returns (r: Word)
    ensures r == Checksum(data, initial)
  {
    hide StepN, Xor, Not, ShiftRight, Widen, LowByte;
    var table := GenerateTable();
    var crc := Not(initial);
    assert data[0..] == data;
    for i := 0 to |data|
      invariant FeedBits(crc, Bits(data[i..])) == FeedBits(Not(initial), Bits(data))
      invariant forall k :: 0 <= k < 256 ==> table[k] == StepN(Widen(k), 8)
    {
      assert data[i..][1..] == data[i + 1..] && data[i..][0] == data[i];
      assert Bits(data[i..]) == NatBits(data[i], 8) + Bits(data[i + 1..]);
      FeedAppend(crc, NatBits(data[i], 8), Bits(data[i + 1..]));
      ByteStep(crc, data[i]);
      var low := Xor(crc, Widen(data[i]));
      IndexInTable(low);
      assert table[BitsValue(low[..8])] == StepN(LowByte(low), 8);
      crc := Xor(table[BitsValue(low[..8])], ShiftRight(crc, 8));
    }
    r := Not(crc);
  }

  lemma IndexInTable(w: Word)
    ensures BitsValue(w[..8]) < 256 && Widen(BitsValue(w[..8])) == LowByte(w)
  {
    assert Power(8) == 256;
    BitsOfValue(w[..8]);
    ByteIsPadded(BitsValue(w[..8]));
  }

  // ---- Polynomial division ----

  /** Exponents of the CRC32C generator below its leading x^32. */
  const EXPONENTS: set<nat> := {28, 27, 26, 25, 23, 22, 20, 19, 18, 14, 13, 11, 10, 9, 8, 6, 0}

  /** The generator's coefficients from x^31 down to x^0. */
  function Generator(): (g: Word) { seq(32, i requires 0 <= i < 32 => (31 - i) in EXPONENTS) }

  /** One step of long division: bring down a coefficient, subtract the divisor if it goes in. */
  function BringDown(r: Word, bit: bool): (s: Word) {
    var shifted: Word := r[1..] + [bit];
    if r[0] then Xor(shifted, Generator()) else shifted
  }

  function Divide(r: Word, bits: seq<bool>): (s: Word)
    decreases bits
  {
    if bits == [] then r else Divide(BringDown(r, bits[0]), bits[1..])
  }

  /** The remainder of a dividend with coefficients `a`, highest first, by the generator. */
  function Remainder(a: seq<bool>): (s: Word)
    requires |a| >= 32
  {
    Divide(a[..32], a[32..])
  }

  /** The sum of two polynomials of as many coefficients, which is also their difference. */
  function Add(a: seq<bool>, b: seq<bool>): (r: seq<bool>)
    requires |a| == |b|
    ensures |r| == |a|
  {
    seq(|a|, i requires 0 <= i < |a| => a[i] != b[i])
  }

  function Scaled(bit: bool): (w: Word) { if bit then Generator() else Falses(32) }

  /** The product of a polynomial and the generator, its leading x^32 included. */
  function Product(q: seq<bool>): (r: seq<bool>)
    ensures |r| == |q| + 32
  {
    if q == [] then Falses(32)
    else [q[0]] + Add(Scaled(q[0]) + Falses(|q| - 1), Product(q[1..]))
  }

  /** `a` less the multiple of the generator that takes its leading coefficient away. */
  function Reduce(a: seq<bool>): (r: seq<bool>)
    requires |a| > 32
    ensures |r| == |a| - 1
  {
    Add(a[1..], Scaled(a[0]) + Falses(|a| - 33))
  }

  function Quotient(a: seq<bool>): (q: seq<bool>)
    requires |a| >= 32
    ensures |q| == |a| - 32
    decreases |a|
  {
    if |a| == 32 then [] else [a[0]] + Quotient(Reduce(a))
  }

  lemma RemainderStep(a: seq<bool>)
    requires |a| > 32
    ensures Remainder(a) == Remainder(Reduce(a))
  {
    hide Generator;
    var r := Reduce(a);
    assert r[..32] == BringDown(a[..32], a[32]) && r[32..] == a[33..] == a[32..][1..];
  }

  lemma AddMoves(a: seq<bool>, t: seq<bool>, p: seq<bool>, z: seq<bool>)
    requires |a| == |t| == |p| == |z|
    ensures a == Add(Add(t, p), z) <==> Add(a, t) == Add(p, z)
  {
    var x := Add(Add(t, p), z);
    if a != x {
      var i :| 0 <= i < |a| && a[i] != x[i];
      assert Add(a, t)[i] != Add(p, z)[i];
    }
  }

  lemma AddHead(b: bool, x: seq<bool>, y: seq<bool>)
    requires |x| == |y|
    ensures Add([b] + x, [false] + y) == [b] + Add(x, y)
  {
  }

  lemma ProductStep(a: seq<bool>, q: seq<bool>, r: Word)
    requires |a| == |q| + 32 && q != []
    ensures a == Add(Product(q), Falses(|q|) + r) <==>
            a[0] == q[0] && Reduce(a) == Add(Product(q[1..]), Falses(|q| - 1) + r)
  {
    hide Generator, Scaled, Add;
    var p, t, z := Product(q[1..]), Scaled(q[0]) + Falses(|q| - 1), Falses(|q| - 1) + r;
    assert Falses(|q|) + r == [false] + z;
    AddHead(q[0], Add(t, p), z);
    AddMoves(a[1..], t, p, z);
    assert a == [a[0]] + a[1..];
    assert ([q[0]] + Add(Add(t, p), z))[1..] == Add(Add(t, p), z);
  }

  /** Division with remainder: the only quotient and the only remainder are these. */
  lemma {:induction false} DivisionLaw(a: seq<bool>, q: seq<bool>, r: Word)
    requires |a| == |q| + 32
    ensures a == Add(Product(q), Falses(|q|) + r) <==> q == Quotient(a) && r == Remainder(a)
    decreases |q|
  {
    hide Generator, Reduce;
    if q == [] {
      assert Add(Product(q), Falses(|q|) + r) == r && Remainder(a) == a;
    } else {
      ProductStep(a, q, r);
      RemainderStep(a);
      DivisionLaw(Reduce(a), q[1..], r);
      assert q == [q[0]] + q[1..] && Quotient(a)[1..] == Quotient(Reduce(a));
    }
  }

  /** The remainder is what differs from the dividend by a multiple of the generator. */
  lemma RemainderIsCongruent(a: seq<bool>, r: Word)
    requires |a| >= 32
    ensures r == Remainder(a) <==>
            exists q: seq<bool> :: |q| + 32 == |a| && a == Add(Product(q), Falses(|q|) + r)
  {
    hide Product, Remainder, Quotient, Add;
    DivisionLaw(a, Quotient(a), r);
    forall q: seq<bool> | |q| + 32 == |a| && a == Add(Product(q), Falses(|q|) + r) ensures r == Remainder(a) {
      DivisionLaw(a, q, r);
    }
  }

  /** `a` with its first 32 coefficients flipped where `w` says so. */
  function FlipFirst(a: seq<bool>, w: Word): (r: seq<bool>)
    requires |a| >= 32
    ensures |r| == |a|
  {
    Xor(a[..32], w) + a[32..]
  }

  lemma LowHalf()
    ensures NatBits(0x82F63B78, 32) ==
            [false, false, false, true, true, true, true, false, true, true, false, true, true, true, false, false] +
            NatBits(0x82F6, 16)
  {
    hide NatBits;
    Nibble(0x82F63B78, 32);
    Nibble(0x82F63B7, 28);
    Nibble(0x82F63B, 24);
    Nibble(0x82F63, 20);
  }

  lemma HighHalf()
    ensures NatBits(0x82F6, 16) ==
            [false, true, true, false, true, true, true, true, false, true, false, false, false, false, false, true]
  {
    hide NatBits;
    Nibble(0x82F6, 16);
    Nibble(0x82F, 12);
    Nibble(0x82, 8);
    Nibble(0x8, 4);
  }

  /** The constant in the code is the generator polynomial, bit-reversed. */
  lemma PolynomialIsGenerator()
    ensures POLYNOMIAL == Generator()
  {
    hide NatBits;
    LowHalf();
    HighHalf();
  }

  /** Mixing the message in at the top is dividing the message followed by 32 zeros. */
  lemma {:induction false} FeedIsDivision(c: Word, m: seq<bool>)
    ensures FeedBits(c, m) == Remainder(FlipFirst(m + Falses(32), c))
    decreases m
  {
    var a := m + Falses(32);
    var x := FlipFirst(a, c);
    if m == [] {
      assert x == c;
    } else {
      var m' := m[1..];
      var a' := m' + Falses(32);
      var c' := Feed(c, m[0]);
      assert a' == a[1..];
      FeedIsDivision(c', m');
      DivisionStep(c, a);
      assert a'[..32] == a[1..33];
      assert x[..32] == Xor(a[..32], c) && x[32] == a[32];
      assert FlipFirst(a', c')[..32] == Xor(a[1..33], c');
      assert x[32..][1..] == FlipFirst(a', c')[32..];
    }
  }

  lemma DivisionStep(c: Word, a: seq<bool>)
    requires |a| >= 33
    ensures BringDown(Xor(a[..32], c), a[32]) == Xor(a[1..33], Feed(c, a[0]))
  {
    hide NatBits, Generator;
    PolynomialIsGenerator();
    assert a[..32][0] == a[0];
  }

  /**
   The checksum is the one RFC 3720 defines: complement the first 32 bits of the
   message (here: flip them by the complement of the initial value), multiply by
   x^32, take the remainder by the generator, and complement it.
   */
  lemma ChecksumIsRemainder(data: seq<byte>, initial: Word)
    ensures Checksum(data, initial) == Not(Remainder(FlipFirst(Bits(data) + Falses(32), Not(initial))))
  {
    FeedIsDivision(Not(initial), Bits(data));
  }

  // ---- Continuation ----

  lemma {:induction false} BitsAppend(a: seq<byte>, b: seq<byte>)
    ensures Bits(a + b) == Bits(a) + Bits(b)
  {
    if a == [] {
      assert a + b == b;
    } else {
      assert (a + b)[1..] == a[1..] + b;
      BitsAppend(a[1..], b);
    }
  }

  /** Checksumming a concatenation is continuing from the first part's checksum. */
  lemma ChecksumContinues(a: seq<byte>, b: seq<byte>, initial: Word)
    ensures Checksum(a + b, initial) == Checksum(b, Checksum(a, initial))
  {
    BitsAppend(a, b);
    var mid := FeedBits(Not(initial), Bits(a));
    assert Not(Not(mid)) == mid;
    FeedAppend(Not(initial), Bits(a), Bits(b));
  }

  // ---- Error detection ----

  lemma TopCoefficient()
    ensures POLYNOMIAL[31]
  {
    hide NatBits;
    PolynomialIsGenerator();
  }

  lemma FeedStepInjective(x: Word, y: Word, bit: bool)
    requires Feed(x, bit) == Feed(y, bit)
    ensures x == y
  {
    hide NatBits;
    TopCoefficient();
    var u, v := Feed(x, bit), Feed(y, bit);
    assert u[31] == (x[0] != bit) && v[31] == (y[0] != bit);
    forall i | 1 <= i < 32 ensures x[i] == y[i] {
      assert u[i - 1] == v[i - 1];
    }
  }

  /** Different registers stay different, whatever follows. */
  lemma {:induction false} FeedInjective(x: Word, y: Word, m: seq<bool>)
    requires x != y
    ensures FeedBits(x, m) != FeedBits(y, m)
    decreases m
  {
    hide Feed;
    if m != [] {
      if Feed(x, m[0]) == Feed(y, m[0]) { FeedStepInjective(x, y, m[0]); }
      FeedInjective(Feed(x, m[0]), Feed(y, m[0]), m[1..]);
    }
  }

  lemma BringDownInjective(x: Word, y: Word, bit: bool)
    requires BringDown(x, bit) == BringDown(y, bit)
    ensures x == y
  {
    var u, v := BringDown(x, bit), BringDown(y, bit);
    assert u[31] == (bit != x[0]) && v[31] == (bit != y[0]);
    forall i | 1 <= i < 32 ensures x[i] == y[i] {
      assert u[i - 1] == v[i - 1];
    }
  }

  lemma {:induction false} DivideInjective(x: Word, y: Word, bits: seq<bool>)
    requires x != y
    ensures Divide(x, bits) != Divide(y, bits)
    decreases bits
  {
    hide BringDown;
    if bits != [] {
      if BringDown(x, bits[0]) == BringDown(y, bits[0]) { BringDownInjective(x, y, bits[0]); }
      DivideInjective(BringDown(x, bits[0]), BringDown(y, bits[0]), bits[1..]);
    }
  }

  /** From one register, two different runs of at most 32 bits never meet. */
  lemma WindowsDiffer(c: Word, u: seq<bool>, v: seq<bool>)
    requires |u| == |v| <= 32 && u != v
    ensures FeedBits(c, u) != FeedBits(c, v)
  {
    var a, b := u + Falses(32), v + Falses(32);
    FeedIsDivision(c, u);
    FeedIsDivision(c, v);
    var i :| 0 <= i < |u| && u[i] != v[i];
    var x, y := FlipFirst(a, c), FlipFirst(b, c);
    assert x[..32][i] != y[..32][i];
    assert x[32..] == y[32..];
    DivideInjective(x[..32], y[..32], x[32..]);
  }

  lemma {:induction false} BitsAt(data: seq<byte>, k: nat)
    requires k < |data|
    ensures Bits(data)[8 * k..8 * k + 8] == NatBits(data[k], 8)
  {
    if k > 0 {
      BitsAt(data[1..], k - 1);
      assert Bits(data)[8..] == Bits(data[1..]);
      assert Bits(data)[8 * k..8 * k + 8] == Bits(data)[8..][8 * (k - 1)..8 * (k - 1) + 8];
    }
  }

  lemma BitOf(data: seq<byte>, i: nat)
    requires i < 8 * |data|
    ensures Bits(data)[i] == NatBits(data[i / 8], 8)[i % 8]
  {
    hide Bits, NatBits;
    var q, r := i / 8, i % 8;
    assert i == 8 * q + r;
    BitsAt(data, q);
    assert Bits(data)[8 * q + r] == Bits(data)[8 * q..8 * q + 8][r];
  }

  lemma BitsInjective(a: seq<byte>, b: seq<byte>)
    requires |a| == |b| && Bits(a) == Bits(b)
    ensures a == b
  {
    assert Power(8) == 256;
    forall k | 0 <= k < |a| ensures a[k] == b[k] {
      BitsAt(a, k);
      BitsAt(b, k);
      ValueOfBits(a[k], 8);
      ValueOfBits(b[k], 8);
    }
  }

  lemma NotInjective(x: Word, y: Word)
    requires Not(x) == Not(y)
    ensures x == y
  {
    forall i | 0 <= i < 32 ensures x[i] == y[i] {
      assert !Not(x)[i] == x[i] && !Not(y)[i] == y[i];
    }
  }

  /** Two messages that differ only in a window of at most 32 bits leave different registers. */
  lemma BurstChangesRegister(c: Word, prefix: seq<bool>, u: seq<bool>, v: seq<bool>, rest: seq<bool>)
    requires |u| == |v| <= 32 && u != v
    ensures FeedBits(c, prefix + (u + rest)) != FeedBits(c, prefix + (v + rest))
  {
    hide FeedBits;
    var mid := FeedBits(c, prefix);
    FeedAppend(c, prefix, u + rest);
    FeedAppend(c, prefix, v + rest);
    FeedAppend(mid, u, rest);
    FeedAppend(mid, v, rest);
    WindowsDiffer(mid, u, v);
    FeedInjective(FeedBits(mid, u), FeedBits(mid, v), rest);
  }

  lemma SplitAround(A: seq<bool>, B: seq<bool>, pos: nat, n: nat)
    requires |A| == |B| && pos + n <= |A|
    requires forall i :: 0 <= i < |A| && !(pos <= i < pos + n) ==> A[i] == B[i]
    ensures A == A[..pos] + (A[pos..pos + n] + A[pos + n..])
    ensures B == A[..pos] + (B[pos..pos + n] + A[pos + n..])
  {
  }

  /** Every error burst of at most 32 bits changes the checksum. */
  lemma BurstDetected(a: seq<byte>, b: seq<byte>, initial: Word, pos: nat, n: nat)
    requires |a| == |b| && a != b
    requires n <= 32 && pos + n <= 8 * |a|
    requires forall i :: 0 <= i < 8 * |a| && !(pos <= i < pos + n) ==> Bits(a)[i] == Bits(b)[i]
    ensures Checksum(a, initial) != Checksum(b, initial)
  {
    hide Bits, FeedBits, Not;
    var A, B, c := Bits(a), Bits(b), Not(initial);
    var prefix, u, v, rest := A[..pos], A[pos..pos + n], B[pos..pos + n], A[pos + n..];
    SplitAround(A, B, pos, n);
    if u == v { BitsInjective(a, b); }
    BurstChangesRegister(c, prefix, u, v, rest);
    if Checksum(a, initial) == Checksum(b, initial) { NotInjective(FeedBits(c, A), FeedBits(c, B)); }
  }

  /** In particular, payloads that differ only within four consecutive bytes never share a checksum. */
  lemma FourByteErrorDetected(a: seq<byte>, b: seq<byte>, initial: Word, k: nat)
    requires |a| == |b| && a != b && k <= |a|
    requires forall i :: 0 <= i < |a| && !(k <= i < k + 4) ==> a[i] == b[i]
    ensures Checksum(a, initial) != Checksum(b, initial)
  {
    hide Bits, NatBits, Checksum;
    var n := if 4 <= |a| - k then 32 else 8 * (|a| - k);
    forall i | 0 <= i < 8 * |a| && !(8 * k <= i < 8 * k + n) ensures Bits(a)[i] == Bits(b)[i] {
      BitOf(a, i);
      BitOf(b, i);
    }
    BurstDetected(a, b, initial, 8 * k, n);
  }
}
