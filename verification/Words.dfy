/** Machine words: bitwise AND on naturals, powers of two, and remainders.

    The sources mask positions and lengths with `&`.  Bitwise AND is defined here bit by bit, so
    that a model can write the very mask the code writes; the lemmas below say what each kind of
    mask computes. */
module Words {

  type byte = x: int | 0 <= x < 256

  type Word32 = x: nat | x < 0x1_0000_0000
  type Word64 = x: nat | x < 0x1_0000_0000_0000_0000

  /** Truncation to 32 and to 64 bits. */
  function U32(x: int): Word32 { x % 0x1_0000_0000 }

  function U64(x: int): Word64 { x % 0x1_0000_0000_0000_0000 }

  function Pow2(k: nat): (p: nat)
    ensures p > 0
  {
    if k == 0 then 1 else 2 * Pow2(k - 1)
  }

  function BitAnd(a: nat, b: nat): nat {
    if a == 0 || b == 0 then 0
    else 2 * BitAnd(a / 2, b / 2) + (if a % 2 == 1 && b % 2 == 1 then 1 else 0)
  }

  predicate Bit(x: nat, k: nat) { if k == 0 then x % 2 == 1 else Bit(x / 2, k - 1) }

  lemma {:induction false} ZeroBits(k: nat)
    ensures !Bit(0, k)
  {
    if k > 0 {
      ZeroBits(k - 1);
    }
  }

  /** Each bit of the result is set exactly if it is set in both operands. */
  lemma {:induction false} BitAndBits(a: nat, b: nat, k: nat)
    ensures Bit(BitAnd(a, b), k) <==> Bit(a, k) && Bit(b, k)
  {
    ZeroBits(k);
    if a > 0 && b > 0 && k > 0 {
      BitAndBits(a / 2, b / 2, k - 1);
      assert BitAnd(a, b) / 2 == BitAnd(a / 2, b / 2);
    }
  }

  // ---- quotient and remainder ----

  lemma MulDistributes(a: int, b: int, d: int)
    ensures (a + b) * d == a * d + b * d
    ensures (a - b) * d == a * d - b * d
  {
  }

  lemma MulAtLeast(a: int, d: int)
    requires a >= 1 && d >= 0
    ensures a * d >= d
  {
    MulDistributes(a, 1, d);
    MulNonNegative(a - 1, d);
  }

  lemma MulNonNegative(a: int, d: int)
    requires a >= 0 && d >= 0
    ensures a * d >= 0
  {
  }

  lemma DivModUnique(x: int, d: int, q: int, r: int)
    requires 0 <= r < d
    requires x == q * d + r
    ensures x / d == q && x % d == r
  {
    var q', r' := x / d, x % d;
    assert x == q' * d + r';
    MulDistributes(q, q', d);
    MulDistributes(q', q, d);
    if q > q' {
      MulAtLeast(q - q', d);
    } else if q < q' {
      MulAtLeast(q' - q, d);
    }
  }

  /** A remainder survives a coarser remainder taken first. */
  lemma ModOfMultiple(x: nat, n: nat, c: nat)
    requires n > 0 && c > 0
    ensures c * n > 0 && (x % (c * n)) % n == x % n
  {
    assert c * n > 0;
    var q, r := x / (c * n), x % (c * n);
    var q2, r2 := r / n, r % n;
    assert x == q * (c * n) + r;
    assert q * (c * n) == (q * c) * n;
    assert (q * c) * n + q2 * n == (q * c + q2) * n;
    DivModUnique(x, n, q * c + q2, r2);
  }

  lemma ModAdd(p: nat, j: nat, n: nat)
    requires n > 0
    ensures (p % n + j) % n == (p + j) % n
  {
    var q, r := p / n, p % n;
    var q2, r2 := (r + j) / n, (r + j) % n;
    assert p + j == q * n + (r + j);
    assert q * n + q2 * n == (q + q2) * n;
    DivModUnique(p + j, n, q + q2, r2);
  }

  /** Different positions less than a lap apart have different remainders. */
  lemma ModDistinct(p: nat, q: nat, n: nat)
    requires n > 0
    requires p < q < p + n
    ensures p % n != q % n
  {
    var a, b := p / n, q / n;
    assert p == a * n + p % n && q == b * n + q % n;
    MulDistributes(b, a, n);
    if b > a {
      MulAtLeast(b - a, n);
    } else {
      MulDistributes(a, b, n);
      MulNonNegative(a - b, n);
    }
  }

  // ---- truncated arithmetic ----

  lemma U32Add(x: nat, d: nat)
    ensures U32(U32(x) + d) == U32(x + d)
  {
    ModAdd(x, d, 0x1_0000_0000);
  }

  lemma U64Add(x: nat, d: nat)
    ensures U64(U64(x) + d) == U64(x + d)
  {
    ModAdd(x, d, 0x1_0000_0000_0000_0000);
  }

  lemma U32OfU64(x: nat)
    ensures U32(U64(x)) == U32(x)
  {
    ModOfMultiple(x, 0x1_0000_0000, 0x1_0000_0000);
  }

  lemma U32Sub(x: nat, c: nat)
    requires c <= x < c + 0x1_0000_0000
    ensures U32(U32(x) - U32(c)) == x - c
  {
    var qx, qc := x / 0x1_0000_0000, c / 0x1_0000_0000;
    assert qx == qc || qx == qc + 1;
    assert U32(x) - U32(c) == x - c - 0x1_0000_0000 * (qx - qc);
    DivModUnique(U32(x) - U32(c), 0x1_0000_0000, qc - qx, x - c);
  }

  lemma U64Sub(x: nat, c: nat)
    requires c <= x < c + 0x1_0000_0000_0000_0000
    ensures U64(U64(x) - U64(c)) == x - c
  {
    var qx, qc := x / 0x1_0000_0000_0000_0000, c / 0x1_0000_0000_0000_0000;
    assert qx == qc || qx == qc + 1;
    DivModUnique(U64(x) - U64(c), 0x1_0000_0000_0000_0000, qc - qx, x - c);
  }

  // ---- powers of two ----

  lemma {:induction false} Pow2Add(a: nat, b: nat)
    ensures Pow2(a + b) == Pow2(a) * Pow2(b)
  {
    if a > 0 {
      Pow2Add(a - 1, b);
      MulDouble(Pow2(b), Pow2(a - 1));
    }
  }

  lemma Pow2Values()
    ensures Pow2(3) == 8 && Pow2(12) == 4096 && Pow2(28) == 0x1000_0000
    ensures Pow2(29) == 0x2000_0000 && Pow2(30) == 0x4000_0000 && Pow2(31) == 0x8000_0000
    ensures Pow2(32) == 0x1_0000_0000 && Pow2(64) == 0x1_0000_0000_0000_0000
  {
    assert Pow2(4) == 16;
    assert Pow2(8) == 256;
    assert Pow2(12) == 4096;
    Pow2Add(12, 12);
    Pow2Add(24, 4);
    assert Pow2(32) == 0x1_0000_0000;
    Pow2Add(32, 32);
  }

  lemma {:induction false} Pow2Monotone(a: nat, b: nat)
    requires a <= b
    ensures Pow2(a) <= Pow2(b)
  {
    if a < b {
      Pow2Monotone(a, b - 1);
    }
  }

  // ---- masks ----

  function Shl(m: nat, k: nat): nat {
    if k == 0 then m else 2 * Shl(m, k - 1)
  }

  function Shr(x: nat, k: nat): nat {
    if k == 0 then x else Shr(x / 2, k - 1)
  }

  /** The k low bits of x. */
  function LowBits(x: nat, k: nat): (r: nat)
    ensures r < Pow2(k)
  {
    if k == 0 then 0 else 2 * LowBits(x / 2, k - 1) + x % 2
  }

  lemma {:induction false} ShrLowBits(x: nat, k: nat)
    ensures x == Shr(x, k) * Pow2(k) + LowBits(x, k)
    ensures Shr(x, k) == x / Pow2(k) && LowBits(x, k) == x % Pow2(k)
  {
    if k > 0 {
      ShrLowBits(x / 2, k - 1);
      MulDouble(Shr(x, k), Pow2(k - 1));
    }
    DivModUnique(x, Pow2(k), Shr(x, k), LowBits(x, k));
  }

  lemma MulDouble(m: int, p: int)
    ensures m * (2 * p) == 2 * (m * p)
  {
  }

  lemma BitAndEven(a: nat, b: nat)
    ensures BitAnd(a, 2 * b) == 2 * BitAnd(a / 2, b)
  {
    assert 2 * b / 2 == b && 2 * b % 2 == 0;
  }

  lemma BitAndOdd(a: nat, b: nat)
    ensures BitAnd(a, 2 * b + 1) == 2 * BitAnd(a / 2, b) + a % 2
  {
    assert (2 * b + 1) / 2 == b && (2 * b + 1) % 2 == 1;
  }

  lemma BitAndZero(x: nat)
    ensures BitAnd(x, 0) == 0
  {
  }

  lemma {:induction false} BitAndLowBits(x: nat, k: nat)
    ensures BitAnd(x, Pow2(k) - 1) == LowBits(x, k)
  {
    hide BitAnd;
    if k == 0 {
      BitAndZero(x);
    } else {
      BitAndLowBits(x / 2, k - 1);
      BitAndOdd(x, Pow2(k - 1) - 1);
    }
  }

  /** Masking with 2^k - 1 takes the remainder modulo 2^k. */
  lemma BitAndLowMask(x: nat, k: nat)
    ensures BitAnd(x, Pow2(k) - 1) == x % Pow2(k)
  {
    BitAndLowBits(x, k);
    ShrLowBits(x, k);
  }

  /** A mask whose k low bits are clear sees only the bits above them. */
  lemma {:induction false} BitAndHighMask(x: nat, m: nat, k: nat)
    ensures BitAnd(x, Shl(m, k)) == Shl(BitAnd(Shr(x, k), m), k)
  {
    if k > 0 {
      BitAndHighMask(x / 2, m, k - 1);
      BitAndEven(x, Shl(m, k - 1));
    }
  }

  lemma {:induction false} ShlIsProduct(m: nat, k: nat)
    ensures Shl(m, k) == m * Pow2(k)
  {
    if k > 0 {
      ShlIsProduct(m, k - 1);
      MulDouble(m, Pow2(k - 1));
    }
  }

  /** A single-bit mask tests that bit. */
  lemma BitAndOneBit(x: nat, k: nat)
    ensures BitAnd(x, Pow2(k)) == 0 <==> (x / Pow2(k)) % 2 == 0
  {
    ShlIsProduct(1, k);
    BitAndHighMask(x, 1, k);
    ShlIsProduct(BitAnd(Shr(x, k), 1), k);
    ShrLowBits(x, k);
    BitAndOdd(Shr(x, k), 0);
  }

  // ---- the masks the sources use ----

  lemma BitAndBit(x: nat, k: nat, p: nat)
    requires p == Pow2(k)
    ensures BitAnd(x, p) == 0 <==> (x / p) % 2 == 0
  {
    BitAndOneBit(x, k);
  }

  lemma BitAndMask(x: nat, k: nat, p: nat)
    requires p == Pow2(k)
    ensures BitAnd(x, p - 1) == x % p
  {
    BitAndLowMask(x, k);
  }

  lemma Bit30And31(x: nat)
    ensures BitAnd(x, 0x8000_0000) == 0 <==> x / 0x8000_0000 % 2 == 0
    ensures BitAnd(x, 0x4000_0000) == 0 <==> x / 0x4000_0000 % 2 == 0
    ensures BitAnd(x, 0x3FFF_FFFF) == x % 0x4000_0000
  {
    hide BitAnd, Pow2;
    Pow2Values();
    BitAndBit(x, 31, 0x8000_0000);
    BitAndBit(x, 30, 0x4000_0000);
    BitAndMask(x, 30, 0x4000_0000);
  }

  lemma BitAndLow32(x: nat)
    ensures BitAnd(x, 0xFFFF_FFFF) == U32(x)
  {
    hide BitAnd, Pow2;
    Pow2Values();
    BitAndMask(x, 32, 0x1_0000_0000);
  }

  lemma BitAndTimes8(x: nat, b: nat)
    ensures BitAnd(x, 8 * b) == 8 * BitAnd(x / 8, b)
  {
    hide BitAnd;
    BitAndTimes4(x / 2, b);
    BitAndEven(x, 4 * b);
    assert x / 2 / 4 == x / 8;
  }

  lemma BitAndTimes4(x: nat, b: nat)
    ensures BitAnd(x, 4 * b) == 4 * BitAnd(x / 4, b)
  {
    BitAndEven(x, 2 * b);
    BitAndEven(x / 2, b);
    assert x / 2 / 2 == x / 4;
  }

  /** The low nibble. */
  lemma BitAndLow4(x: nat)
    ensures BitAnd(x, 0xF) == x % 16
  {
    hide BitAnd;
    BitAndMask(x, 4, 16);
  }

  lemma BitAndLow29(x: nat)
    ensures BitAnd(x, 0x1FFF_FFFF) == x % 0x2000_0000
  {
    hide BitAnd, Pow2;
    Pow2Values();
    BitAndMask(x, 29, 0x2000_0000);
  }

  /** Masking a 32-bit value with ~7 rounds down to a multiple of 8. */
  lemma BitAndNot7(x: nat)
    requires x < 0x1_0000_0000
    ensures BitAnd(x, 0xFFFF_FFF8) == x / 8 * 8
  {
    hide BitAnd;
    BitAndTimes8(x, 0x1FFF_FFFF);
    BitAndLow29(x / 8);
    assert x / 8 < 0x2000_0000;
  }
}
