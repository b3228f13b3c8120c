// Machine words and C bit operations on non-negative integers.
//
// Every C word of the modelled code (uint8_t, uint16_t, uint32_t, uint64_t)
// is an `int` in its range; wrap-around is written out with `%`, and the
// bitwise operators `&`, `|`, `^` are the recursive functions below, defined
// bit by bit on naturals.  A logical right shift by k is division by 2^k, an
// arithmetic right shift of a negative value is Dafny's (floor) division by
// 2^k.

module Bits {

  type u8 = x: int | 0 <= x < 0x100
  type u16 = x: int | 0 <= x < 0x1_0000

  const W16: int := 0x1_0000
  const W32: int := 0x1_0000_0000
  const W64: int := 0x1_0000_0000_0000_0000

  function Pow2(k: nat): (r: nat)
    ensures r >= 1
  {
    if k == 0 then 1 else 2 * Pow2(k - 1)
  }

  /** C `a & b` on non-negative operands. */
  function And(a: nat, b: nat): (r: nat)
    decreases a
  {
    if a == 0 || b == 0 then 0
    else 2 * And(a / 2, b / 2) + (if a % 2 == 1 && b % 2 == 1 then 1 else 0)
  }

  /** C `a | b` on non-negative operands. */
  function Or(a: nat, b: nat): (r: nat)
    decreases a
  {
    if a == 0 then b
    else if b == 0 then a
    else 2 * Or(a / 2, b / 2) + (if a % 2 == 1 || b % 2 == 1 then 1 else 0)
  }

  /** C `a ^ b` on non-negative operands. */
  function Xor(a: nat, b: nat): (r: nat)
    decreases a
  {
    if a == 0 then b
    else if b == 0 then a
    else 2 * Xor(a / 2, b / 2) + (if a % 2 != b % 2 then 1 else 0)
  }

  /** Two's-complement negation of a uint16 word (C `-t` stored back in 16 bits). */
  function Neg16(t: int): (r: u16)
    requires 0 <= t < W16
    ensures r + t == 0 || r + t == W16
  {
    if t == 0 then 0 else W16 - t
  }

  /** Two's-complement negation of a uint32 word (C `~t + 1`). */
  function Neg32(t: int): (r: int)
    requires 0 <= t < W32
    ensures 0 <= r < W32
    ensures r + t == 0 || r + t == W32
  {
    if t == 0 then 0 else W32 - t
  }

  /** Two's-complement negation of a uint64 word (C `-t`). */
  function Neg64(t: int): (r: int)
    requires 0 <= t < W64
    ensures 0 <= r < W64
    ensures r + t == 0 || r + t == W64
  {
    if t == 0 then 0 else W64 - t
  }

  /** Arithmetic right shift `x >> k` of a signed value. */
  function Sar(x: int, k: nat): (r: int)
    ensures Pow2(k) * r <= x < Pow2(k) * (r + 1)
  {
    x / Pow2(k)
  }

  // ---------------------------------------------------------------------
  // Characterisations of the bit operations.

  lemma {:induction false} OrZero(a: nat, b: nat)
    ensures Or(a, b) == 0 <==> a == 0 && b == 0
    decreases a
  {
    if a != 0 && b != 0 {
      OrZero(a / 2, b / 2);
    }
  }

  lemma {:induction false} OrBound(a: nat, b: nat, k: nat)
    requires a < Pow2(k) && b < Pow2(k)
    ensures Or(a, b) < Pow2(k)
    decreases a
  {
    if a != 0 && b != 0 {
      assert k > 0;
      OrBound(a / 2, b / 2, k - 1);
    }
  }

  lemma {:induction false} XorZero(a: nat, b: nat)
    ensures Xor(a, b) == 0 <==> a == b
    decreases a
  {
    if a != 0 && b != 0 {
      XorZero(a / 2, b / 2);
    }
  }

  lemma {:induction false} AndBound(a: nat, b: nat)
    ensures And(a, b) <= b
    decreases a
  {
    if a != 0 && b != 0 {
      AndBound(a / 2, b / 2);
    }
  }

  /** Masking with 2^k - 1 keeps the low k bits: `x & (2^k - 1) == x % 2^k`. */
  lemma {:induction false} AndLowMask(x: nat, k: nat)
    ensures And(x, Pow2(k) - 1) == x % Pow2(k)
    decreases k
  {
    if k == 0 {
    } else if x == 0 {
    } else {
      AndLowMask(x / 2, k - 1);
      var p := Pow2(k - 1);
      assert Pow2(k) - 1 == 2 * (p - 1) + 1;
      assert (Pow2(k) - 1) / 2 == p - 1;
      assert (Pow2(k) - 1) % 2 == 1;
      DivModTwice(x, p);
    }
  }

  /** MODQ: for a power of two q = 2^k, `x & (q - 1)` is `x mod q`. */
  lemma ModMask(x: nat, q: nat, k: nat)
    requires q == Pow2(k)
    ensures And(x, q - 1) == x % q
  {
    AndLowMask(x, k);
  }

  lemma DivModTwice(x: nat, p: nat)
    requires p >= 1
    ensures x % (2 * p) == 2 * ((x / 2) % p) + x % 2
  {
    var q := (x / 2) / p;
    var r := (x / 2) % p;
    assert x / 2 == q * p + r;
    assert x == 2 * (q * p + r) + x % 2;
    assert x == (2 * p) * q + (2 * r + x % 2);
    assert 0 <= 2 * r + x % 2 < 2 * p;
    DivModUnique(x, 2 * p, q, 2 * r + x % 2);
  }

  lemma DivModUnique(x: int, d: int, q: int, r: int)
    requires d > 0 && 0 <= r < d && x == d * q + r
    ensures x % d == r && x / d == q
  {
    var q' := x / d;
    var r' := x % d;
    assert x == d * q' + r';
    if q > q' {
      MulAtLeast(d, q - q');
    } else if q < q' {
      MulAtLeast(d, q' - q);
    }
  }

  lemma MulAtLeast(d: int, k: int)
    requires d > 0 && k >= 1
    ensures d * k >= d
  {
    assert d * k == d + d * (k - 1);
  }

  /** The product of two uint16 words fits in a uint32 word (vmull_u16). */
  lemma MulU16(a: int, b: int)
    requires 0 <= a < W16 && 0 <= b < W16
    ensures 0 <= a * b < W32
  {
    MulMono(a, b, 0xFFFF);
    MulMono(b, 0xFFFF, 0xFFFF);
  }

  lemma MulMono(a: int, b: int, c: int)
    requires 0 <= a && 0 <= b <= c
    ensures 0 <= a * b <= a * c
  {
    assert a * c == a * b + a * (c - b);
  }

  /** Masking with an even value shifts: `x & 2y == 2 * ((x >> 1) & y)`. */
  lemma AndDouble(x: nat, y: nat)
    ensures And(x, 2 * y) == 2 * And(x / 2, y)
  {
    if y != 0 && x != 0 {
      assert (2 * y) / 2 == y;
      assert (2 * y) % 2 == 0;
    }
  }

  /** The powers of two used by the modelled code. */
  lemma Pow2Values()
    ensures Pow2(1) == 2 && Pow2(2) == 4 && Pow2(3) == 8 && Pow2(4) == 16
    ensures Pow2(8) == 0x100 && Pow2(9) == 0x200 && Pow2(10) == 0x400
    ensures Pow2(11) == 0x800 && Pow2(12) == 0x1000 && Pow2(13) == 0x2000
    ensures Pow2(15) == 0x8000 && Pow2(16) == W16
    ensures Pow2(31) == 0x8000_0000 && Pow2(32) == W32
    ensures Pow2(63) == 0x8000_0000_0000_0000 && Pow2(64) == W64
  {
    assert Pow2(1) == 2;
    assert Pow2(2) == 4;
    assert Pow2(3) == 8;
    assert Pow2(4) == 16;
    assert Pow2(5) == 32;
    assert Pow2(6) == 64;
    assert Pow2(7) == 128;
    assert Pow2(8) == 0x100;
    assert Pow2(9) == 0x200;
    assert Pow2(10) == 0x400;
    assert Pow2(11) == 0x800;
    assert Pow2(12) == 0x1000;
    assert Pow2(13) == 0x2000;
    assert Pow2(14) == 0x4000;
    assert Pow2(15) == 0x8000;
    assert Pow2(16) == W16;
    PowAdd(15, 16);
    PowAdd(16, 16);
    PowAdd(31, 32);
    PowAdd(32, 32);
  }

  /** `a | b` on two 16-bit words is a 16-bit word, zero exactly when both are. */
  lemma OrWords(a: nat, b: nat)
    requires a < W16 && b < W16
    ensures Or(a, b) < W16 && (Or(a, b) == 0 <==> a == 0 && b == 0)
  {
    Pow2Values();
    OrBound(a, b, 16);
    OrZero(a, b);
  }

  /** `a ^ b` on two 16-bit words is a 16-bit word, zero exactly when they are equal. */
  lemma XorWords(a: nat, b: nat)
    requires a < W16 && b < W16
    ensures Xor(a, b) < W16 && (Xor(a, b) == 0 <==> a == b)
  {
    Pow2Values();
    XorBound(a, b, 16);
    XorZero(a, b);
  }

  /** Logical right shift by 31 of the negation of a small 32-bit word is its "non-zero" flag. */
  lemma NonZeroFlag32(t: int)
    requires 0 <= t < 0x8000_0000
    ensures (Neg32(t) / 0x8000_0000) % 2 == (if t == 0 then 0 else 1)
  {
  }

  /** The same flag computed on a 64-bit word with a shift by 63. */
  lemma NonZeroFlag64(t: int)
    requires 0 <= t < 0x8000_0000_0000_0000
    ensures Neg64(t) / 0x8000_0000_0000_0000 == (if t == 0 then 0 else 1)
  {
  }

  lemma {:induction false} PowAdd(a: nat, b: nat)
    ensures Pow2(a + b) == Pow2(a) * Pow2(b)
    decreases a
  {
    if a > 0 {
      PowAdd(a - 1, b);
    }
  }

  /** 2^j divides 2^i for j <= i. */
  lemma PowDvd(j: nat, i: nat)
    requires j <= i
    ensures Pow2(j) <= Pow2(i) && Pow2(i) % Pow2(j) == 0
  {
    PowAdd(j, i - j);
    DivModUnique(Pow2(i), Pow2(j), Pow2(i - j), 0);
    MulAtLeast(Pow2(j), Pow2(i - j));
  }

  lemma {:induction false} XorBound(a: nat, b: nat, k: nat)
    requires a < Pow2(k) && b < Pow2(k)
    ensures Xor(a, b) < Pow2(k)
    decreases a
  {
    if a != 0 && b != 0 {
      assert k > 0;
      XorBound(a / 2, b / 2, k - 1);
    }
  }

  /** Masking with a mask shifted by two: `x & (y << 2) == ((x >> 2) & y) << 2`. */
  lemma AndTimes4(x: nat, y: nat)
    ensures And(x, 4 * y) == 4 * And(x / 4, y)
  {
    var y2 := 2 * y;
    AndDouble(x, y2);
    assert 2 * y2 == 4 * y;
    AndDouble(x / 2, y);
    DivModUnique(x, 4, (x / 2) / 2, 2 * ((x / 2) % 2) + x % 2);
  }

  /** Masking with a mask shifted by four: `x & (y << 4) == ((x >> 4) & y) << 4`. */
  lemma AndTimes16(x: nat, y: nat)
    ensures And(x, 16 * y) == 16 * And(x / 16, y)
  {
    var y4 := 4 * y;
    AndTimes4(x, y4);
    assert 4 * y4 == 16 * y;
    AndTimes4(x / 4, y);
    DivModUnique(x, 16, (x / 4) / 4, 4 * ((x / 4) % 4) + x % 4);
  }

  lemma {:induction false} AndComm(a: nat, b: nat)
    ensures And(a, b) == And(b, a)
    decreases a
  {
    if a != 0 && b != 0 {
      AndComm(a / 2, b / 2);
    }
  }

  /** `|` of two 0/1 failure flags is 1 exactly when one of them is. */
  lemma OrFlags(a: nat, b: nat)
    requires a <= 1 && b <= 1
    ensures Or(a, b) == (if a == 0 && b == 0 then 0 else 1)
  {
  }

  /** On a trinary coefficient, `c & 1` flags a 1 and `c & 2` is 2 for a 2. */
  lemma TrinaryBits(c: int)
    requires 0 <= c <= 2
    ensures And(c, 1) == (if c == 1 then 1 else 0)
    ensures And(c, 2) == (if c == 2 then 2 else 0)
  {
    assert And(1, 1) == 2 * And(0, 0) + 1;
    assert And(2, 1) == 2 * And(1, 0) + 0;
    assert And(1, 2) == 2 * And(0, 1) + 0;
    assert And(2, 2) == 2 * And(1, 1) + 0;
    assert And(1, 1) == 1;
  }
}
