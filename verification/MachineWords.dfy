/** Bytes, 32-bit words and the bit operations the C sources apply to them. */
module MachineWords {

  type byte = b: int | 0 <= b < 0x100

  type uint16 = x: int | 0 <= x < 0x1_0000

  type uint32 = x: int | 0 <= x < 0x1_0000_0000

  /** C addition on uint32_t: wraps around. */
  function Add32(a: uint32, b: uint32): uint32 {
    if a + b < 0x1_0000_0000 then a + b else a + b - 0x1_0000_0000
  }

  /** C subtraction on uint32_t: wraps around. */
  function Sub32(a: uint32, b: uint32): uint32 {
    if a >= b then a - b else a - b + 0x1_0000_0000
  }

  function Min(a: int, b: int): int {
    if a < b then a else b
  }

  /** Bitwise conjunction of two naturals. */
  function And(a: nat, b: nat): nat
    decreases a
  {
    if a == 0 || b == 0 then 0 else (if a % 2 == 1 && b % 2 == 1 then 1 else 0) + 2 * And(a / 2, b / 2)
  }

  lemma {:induction false} AndAtMost(a: nat, b: nat)
    ensures And(a, b) <= b
    decreases a
  {
    if a != 0 && b != 0 {
      AndAtMost(a / 2, b / 2);
    }
  }

  function Pow2(k: nat): (p: nat)
    ensures p >= 1
  {
    if k == 0 then 1 else 2 * Pow2(k - 1)
  }

  ghost predicate IsPow2(n: nat) {
    exists k: nat :: n == Pow2(k)
  }

  // ---------- division and remainder by a variable ----------

  /** A quotient and remainder are determined by their defining equation. */
  lemma DivModUnique(x: int, m: int, q: int, r: int)
    requires 0 <= r < m
    requires x == m * q + r
    ensures x / m == q && x % m == r
  {
    var q' := x / m;
    assert x == m * q' + x % m;
    assert m * q - m * q' == m * (q - q');
    MulGap(m, q - q');
  }

  lemma MulGap(m: int, d: int)
    requires m > 0
    ensures d >= 1 ==> m * d >= m
    ensures d <= -1 ==> m * d <= -m
  {
  }

  /** Adding a multiple of the modulus does not change the remainder. */
  lemma ModShift(x: int, m: int, k: int)
    requires m > 0
    ensures (x + m * k) % m == x % m
  {
    assert x + m * k == m * (x / m + k) + x % m;
    DivModUnique(x + m * k, m, x / m + k, x % m);
  }

  /** Remainders of numbers less than one modulus apart. */
  lemma ModNear(base: int, j: int, m: int)
    requires m > 0 && 0 <= j < m
    ensures (base + j) % m == if base % m + j < m then base % m + j else base % m + j - m
  {
    var q, r := base / m, base % m;
    if r + j < m {
      DivModUnique(base + j, m, q, r + j);
    } else {
      assert base + j == m * (q + 1) + (r + j - m);
      DivModUnique(base + j, m, q + 1, r + j - m);
    }
  }

  // ---------- masks and powers of two ----------

  lemma {:induction false} Pow2Sum(i: nat, j: nat)
    ensures Pow2(i + j) == Pow2(i) * Pow2(j)
  {
    if i > 0 {
      Pow2Sum(i - 1, j);
    }
  }

  lemma Pow2At32()
    ensures Pow2(32) == 0x1_0000_0000
  {
    assert Pow2(8) == 256;
    Pow2Sum(8, 8);
    Pow2Sum(16, 16);
  }

  lemma ModDouble(x: nat, p: nat)
    requires p >= 1
    ensures x % (2 * p) == 2 * (x / 2 % p) + x % 2
  {
    var q, r := x / 2 / p, x / 2 % p;
    assert x / 2 == p * q + r;
    assert (2 * p) * q == 2 * (p * q);
    DivModUnique(x, 2 * p, q, 2 * r + x % 2);
  }

  /** One step of And, on the last bits. */
  lemma AndBits(x: nat, i: nat, y: nat, j: nat)
    requires i <= 1 && j <= 1
    ensures And(2 * x + i, 2 * y + j) == (if i == 1 && j == 1 then 1 else 0) + 2 * And(x, y)
  {
    var a, b := 2 * x + i, 2 * y + j;
    assert a / 2 == x && a % 2 == i && b / 2 == y && b % 2 == j;
  }

  /** One step of And below an all-ones mask. */
  lemma AndOdd(x: nat, m: nat)
    ensures And(x, 2 * m + 1) == x % 2 + 2 * And(x / 2, m)
  {
  }

  /** Masking with 2^k - 1 is reduction modulo 2^k. */
  lemma {:induction false} MaskIsMod(x: nat, k: nat)
    ensures And(x, Pow2(k) - 1) == x % Pow2(k)
  {
    if k > 0 {
      var p, h := Pow2(k - 1), x / 2;
      MaskIsMod(h, k - 1);
      assert And(h, p - 1) == h % p;
      AndOdd(x, p - 1);
      ModDouble(x, p);
      assert Pow2(k) - 1 == 2 * (p - 1) + 1;
    }
  }

  lemma {:induction false} AndSelf(h: nat)
    ensures And(h, h) == h
  {
    if h > 0 {
      AndSelf(h / 2);
    }
  }

  /** Below an even number the test halves; an odd one keeps all bits but its last. */
  lemma AndPred(h: nat)
    ensures h >= 1 ==> And(2 * h, 2 * h - 1) == 2 * And(h, h - 1)
    ensures And(2 * h + 1, 2 * h) == 2 * h
  {
    if h >= 1 {
      AndBits(h, 0, h - 1, 1);
    }
    AndBits(h, 1, h, 0);
    AndSelf(h);
  }

  lemma Pow2Half(h: nat)
    requires h >= 1
    ensures IsPow2(2 * h) <==> IsPow2(h)
    ensures !IsPow2(2 * h + 1)
  {
    if IsPow2(h) {
      var k: nat :| h == Pow2(k);
      assert 2 * h == Pow2(k + 1);
    }
    if IsPow2(2 * h) {
      var k: nat :| 2 * h == Pow2(k);
      assert h == Pow2(k - 1);
    }
  }

  /** The classical test size & (size - 1) recognises exactly the powers of two. */
  lemma {:induction false} Pow2Test(n: nat)
    requires n >= 1
    ensures And(n, n - 1) == 0 <==> IsPow2(n)
  {
    var h := n / 2;
    if n == 1 {
      assert n == Pow2(0);
    } else {
      AndPred(h);
      Pow2Half(h);
      if n % 2 == 0 {
        Pow2Test(h);
        assert n == 2 * h;
      } else {
        assert n == 2 * h + 1;
      }
    }
  }

  lemma AndEven(x: nat, h: nat)
    ensures And(x, 2 * h) == 2 * And(x / 2, h)
  {
    if x != 0 && h != 0 {
      assert (2 * h) / 2 == h;
    }
  }

  function Halved(x: nat, k: nat): nat {
    if k == 0 then x else Halved(x / 2, k - 1)
  }

  function Doubled(m: nat, k: nat): nat {
    if k == 0 then m else 2 * Doubled(m, k - 1)
  }

  /** Masking with a shifted mask is shifting, masking and shifting back. */
  lemma {:induction false} AndDoubled(x: nat, m: nat, k: nat)
    ensures And(x, Doubled(m, k)) == Doubled(And(Halved(x, k), m), k)
  {
    if k > 0 {
      AndEven(x, Doubled(m, k - 1));
      AndDoubled(x / 2, m, k - 1);
    }
  }

  lemma {:induction false} DoubledIs(m: nat, k: nat)
    ensures Doubled(m, k) == Pow2(k) * m
  {
    if k > 0 {
      DoubledIs(m, k - 1);
      assert 2 * (Pow2(k - 1) * m) == (2 * Pow2(k - 1)) * m;
    }
  }

  lemma {:induction false} HalvedIs(x: nat, k: nat)
    ensures Halved(x, k) == x / Pow2(k)
  {
    if k > 0 {
      HalvedIs(x / 2, k - 1);
      DivDiv(x, Pow2(k - 1));
    }
  }

  lemma DivDiv(x: nat, p: nat)
    requires p >= 1
    ensures x / 2 / p == x / (2 * p)
  {
    var q, r := x / 2 / p, x / 2 % p;
    assert x / 2 == p * q + r;
    assert (2 * p) * q == 2 * (p * q);
    DivModUnique(x, 2 * p, q, 2 * r + x % 2);
  }

  lemma ModModDivisor(x: int, cap: nat, c: nat)
    requires cap >= 1 && c >= 1
    ensures x % (cap * c) % cap == x % cap
  {
    var n := cap * c;
    assert x == x % n + n * (x / n);
    assert n * (x / n) == cap * (c * (x / n));
    ModShift(x % n, cap, c * (x / n));
  }

  /** A power of two that fits in 32 bits divides 2^32, so a free-running 32-bit
      index keeps its slot when it wraps around. */
  lemma SlotSurvivesWrap(x: int, cap: nat)
    requires IsPow2(cap) && cap <= 0x1_0000_0000
    ensures x % 0x1_0000_0000 % cap == x % cap
  {
    var k: nat :| cap == Pow2(k);
    Pow2At32();
    if k > 32 {
      Pow2Sum(32, k - 32);
      MulGap(0x1_0000_0000, Pow2(k - 32) - 1);
      assert false;
    } else {
      Pow2Sum(k, 32 - k);
      ModModDivisor(x, cap, Pow2(32 - k));
    }
  }

  /** A position folded back into a ring of cap slots, for positions less than two turns out. */
  function Fold(i: nat, cap: nat): nat {
    if i < cap then i else i - cap
  }

  /** Moving a wrapping 32-bit index moves its slot around the ring. */
  lemma SlotAdvance(x: uint32, k: uint32, cap: nat)
    requires IsPow2(cap) && 0 < cap <= 0x1_0000_0000 && k <= cap
    ensures x % cap < cap
    ensures Add32(x, k) % cap == Fold(x % cap + k, cap)
  {
    SlotSurvivesWrap(x + k, cap);
    assert (x + k) % 0x1_0000_0000 == Add32(x, k);
    if k == cap {
      ModShift(x, cap, 1);
    } else {
      ModNear(x, k, cap);
    }
  }

  /** The slot of a wrapping index: the index under the mask cap - 1. */
  function SlotOf(x: nat, cap: nat): (o: nat)
    requires cap >= 1
    ensures o < cap
  {
    AndAtMost(x, cap - 1);
    And(x, cap - 1)
  }

  /** The slot of an index is its position modulo the capacity. */
  lemma SlotIsMod(x: nat, cap: nat)
    requires cap >= 1 && IsPow2(cap)
    ensures SlotOf(x, cap) == x % cap
  {
    var k: nat :| cap == Pow2(k);
    MaskIsMod(x, k);
  }

  /** Moving a wrapping index moves its slot around the ring. */
  lemma SlotMoves(x: uint32, k: uint32, cap: nat)
    requires IsPow2(cap) && 0 < cap < 0x1_0000_0000 && k <= cap
    ensures SlotOf(Add32(x, k), cap) == Fold(SlotOf(x, cap) + k, cap)
  {
    SlotIsMod(x, cap);
    SlotIsMod(Add32(x, k), cap);
    SlotAdvance(x, k, cap);
  }

  /** Memory p with w written at offset a. */
  function Spliced(p: seq<byte>, a: nat, w: seq<byte>): (q: seq<byte>)
    requires a + |w| <= |p|
    ensures |q| == |p|
  {
    p[..a] + w + p[a + |w|..]
  }

  /** Bit 7 of a byte says whether it is at least 0x80. */
  lemma TopBit(x: byte)
    ensures And(x, 0x80) == (if x >= 0x80 then 0x80 else 0)
  {
    var k := 7;
    assert Pow2(k) == 0x80;
    AndDoubled(x, 1, k);
    DoubledIs(And(Halved(x, k), 1), k);
    DoubledIs(1, k);
    HalvedIs(x, k);
    var j := 1;
    MaskIsMod(x / 0x80, j);
    assert Pow2(j) == 2;
  }

  /** Addition and subtraction are modulo 2^32. */
  lemma WrapsAround(a: uint32, b: uint32)
    ensures Add32(a, b) == (a + b) % 0x1_0000_0000 && Sub32(a, b) == (a - b) % 0x1_0000_0000
  {
  }

  // ---------- little-endian words ----------

  /** The 32-bit word a little-endian machine loads from four bytes. */
  function LoadLE(b: seq<byte>): uint32
    requires |b| == 4
  {
    var b0: int, b1: int, b2: int, b3: int := b[0], b[1], b[2], b[3];
    b0 + 0x100 * b1 + 0x1_0000 * b2 + 0x100_0000 * b3
  }

  /** The four bytes a little-endian machine stores for a word. */
  function StoreLE(w: uint32): (b: seq<byte>)
    ensures |b| == 4
  {
    [w % 0x100, w / 0x100 % 0x100, w / 0x1_0000 % 0x100, w / 0x100_0000 % 0x100]
  }

  /** The lowest byte comes first. */
  lemma LowByteFirst(w: uint32)
    ensures StoreLE(w)[0] == w % 0x100 && StoreLE(w)[3] == w / 0x100_0000
    ensures LoadLE([1, 2, 3, 4]) == 0x0403_0201
  {
  }

  lemma StoreLoad(b: seq<byte>)
    requires |b| == 4
    ensures StoreLE(LoadLE(b)) == b
  {
    var w: int := LoadLE(b);
    var b1: int, b2: int, b3: int := b[1], b[2], b[3];
    assert w / 0x100 == b1 + 0x100 * b2 + 0x1_0000 * b3;
    assert w / 0x1_0000 == b2 + 0x100 * b3;
    assert w / 0x100_0000 == b3;
  }

  lemma LoadStore(w: uint32)
    ensures LoadLE(StoreLE(w)) == w
  {
    assert w == w % 0x100 + 0x100 * (w / 0x100);
    assert w / 0x100 == w / 0x100 % 0x100 + 0x100 * (w / 0x1_0000);
    assert w / 0x1_0000 == w / 0x1_0000 % 0x100 + 0x100 * (w / 0x100_0000);
  }
}
