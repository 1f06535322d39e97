/** C's unsigned integer types and bit operators, on natural numbers.

    Words are naturals below a power of two. `&` and `|` are defined bit by bit, and
    the lemmas below give each mask and merge the kernel uses its arithmetic meaning. */
module Bits {

  const TWO_16: nat := 0x1_0000
  const TWO_32: nat := 0x1_0000_0000

  type uint8 = x: nat | x < 0x100
  type uint16 = x: nat | x < 0x1_0000
  type uint32 = x: nat | x < 0x1_0000_0000
  type uint64 = x: nat | x < 0x1_0000_0000_0000_0000
  type sint32 = x: int | -0x8000_0000 <= x < 0x8000_0000

  /** The value an unsigned 32-bit variable holds after an operation whose exact result is x. */
  function Wrap32(x: int): (w: uint32)
    ensures 0 <= x < TWO_32 ==> w == x
  {
    x % TWO_32
  }

  function Pow2(n: nat): (p: nat)
    ensures p >= 1
  {
    if n == 0 then 1 else 2 * Pow2(n - 1)
  }

  /** Bit k of a. */
  predicate Bit(a: nat, k: nat) {
    if k == 0 then a % 2 == 1 else Bit(a / 2, k - 1)
  }

  /** C's `a & b`. */
  function And(a: nat, b: nat): nat {
    if a == 0 || b == 0 then 0
    else 2 * And(a / 2, b / 2) + (if a % 2 == 1 && b % 2 == 1 then 1 else 0)
  }

  /** C's `a | b`. */
  function Or(a: nat, b: nat): nat {
    if a == 0 then b
    else if b == 0 then a
    else 2 * Or(a / 2, b / 2) + (if a % 2 == 1 || b % 2 == 1 then 1 else 0)
  }

  /** a shifted left by n bits, with no width limit. */
  function Shl(a: nat, n: nat): nat {
    if n == 0 then a else 2 * Shl(a, n - 1)
  }

  /** a shifted right by n bits. */
  function Shr(a: nat, n: nat): nat {
    if n == 0 then a else Shr(a / 2, n - 1)
  }

  lemma {:induction false} ZeroHasNoBits(k: nat)
    ensures !Bit(0, k)
  {
    if k > 0 {
      ZeroHasNoBits(k - 1);
    }
  }

  lemma {:induction false} AndIsBitwise(a: nat, b: nat, k: nat)
    ensures Bit(And(a, b), k) == (Bit(a, k) && Bit(b, k))
    decreases k
  {
    if a == 0 || b == 0 {
      ZeroHasNoBits(k);
    } else if k > 0 {
      AndIsBitwise(a / 2, b / 2, k - 1);
    }
  }

  lemma {:induction false} OrIsBitwise(a: nat, b: nat, k: nat)
    ensures Bit(Or(a, b), k) == (Bit(a, k) || Bit(b, k))
    decreases k
  {
    if a == 0 || b == 0 {
      ZeroHasNoBits(k);
    } else if k > 0 {
      OrIsBitwise(a / 2, b / 2, k - 1);
    }
  }

  lemma {:induction false} SameBits(a: nat, b: nat)
    requires forall k: nat :: Bit(a, k) == Bit(b, k)
    ensures a == b
    decreases a + b
  {
    assert Bit(a, 0) == Bit(b, 0);
    if a != 0 || b != 0 {
      forall k: nat ensures Bit(a / 2, k) == Bit(b / 2, k) {
        assert Bit(a, k + 1) == Bit(b, k + 1);
      }
      SameBits(a / 2, b / 2);
    }
  }

  lemma {:induction false} Pow2Bits(n: nat, k: nat)
    ensures Bit(Pow2(n), k) == (n == k)
    decreases n
  {
    if n == 0 {
      if k > 0 { ZeroHasNoBits(k - 1); }
    } else {
      assert Pow2(n) / 2 == Pow2(n - 1);
      if k > 0 { Pow2Bits(n - 1, k - 1); }
    }
  }

  lemma ScaledApart(e: int, d: nat)
    ensures e >= 1 ==> e * d >= d
    ensures e <= -1 ==> e * d + d <= 0
  {
  }

  /** A quotient and remainder that satisfy the defining equation are the ones `/` and `%` give. */
  lemma DivModUnique(x: int, d: int, q: int, r: int)
    requires d > 0 && 0 <= r < d && x == q * d + r
    ensures x / d == q && x % d == r
  {
    var e := x / d - q;
    assert e * d == r - x % d;
    ScaledApart(e, d);
  }

  /** Halving a word splits off its lowest bit from quotient and remainder alike. */
  lemma HalveDivMod(x: nat, n: nat)
    requires n > 0
    ensures x % Pow2(n) == 2 * ((x / 2) % Pow2(n - 1)) + x % 2
    ensures x / Pow2(n) == (x / 2) / Pow2(n - 1)
  {
    var p := Pow2(n - 1);
    var q, r := (x / 2) / p, (x / 2) % p;
    assert x == 2 * (q * p + r) + x % 2 == q * (2 * p) + (2 * r + x % 2);
    DivModUnique(x, 2 * p, q, 2 * r + x % 2);
  }

  /** `x & (2^n - 1)` keeps the low n bits. */
  lemma {:induction false} AndLow(x: nat, n: nat)
    ensures And(x, Pow2(n) - 1) == x % Pow2(n)
    decreases n
  {
    if n > 0 {
      HalveDivMod(x, n);
      AndLow(x / 2, n - 1);
      assert (Pow2(n) - 1) / 2 == Pow2(n - 1) - 1;
    }
  }

  /** Masking with m shifted left by n bits masks the upper part with m. */
  lemma {:induction false} AndShifted(x: nat, m: nat, n: nat)
    ensures And(x, Shl(m, n)) == Shl(And(Shr(x, n), m), n)
    decreases n
  {
    if n > 0 {
      AndShifted(x / 2, m, n - 1);
      AndTwice(x, Shl(m, n - 1));
    }
  }

  lemma AndTwice(x: nat, t: nat)
    ensures And(x, 2 * t) == 2 * And(x / 2, t)
  {
  }

  lemma {:induction false} ShrIsQuotient(a: nat, n: nat)
    ensures Shr(a, n) == a / Pow2(n)
    decreases n
  {
    if n > 0 {
      HalveDivMod(a, n);
      ShrIsQuotient(a / 2, n - 1);
    }
  }

  lemma {:induction false} ShlIsProduct(a: nat, n: nat)
    ensures Shl(a, n) == a * Pow2(n)
    decreases n
  {
    if n > 0 {
      ShlIsProduct(a, n - 1);
      assert 2 * (a * Pow2(n - 1)) == a * (2 * Pow2(n - 1));
    }
  }

  /** `a | b` is a sum when b fits below a's lowest set bit. */
  lemma {:induction false} OrDisjoint(a: nat, b: nat, n: nat)
    requires a % Pow2(n) == 0 && b < Pow2(n)
    ensures Or(a, b) == a + b
    decreases n
  {
    if a != 0 && b != 0 && n > 0 {
      HalveDivMod(a, n);
      OrDisjoint(a / 2, b / 2, n - 1);
    }
  }

  lemma {:induction false} OrCommutes(a: nat, b: nat)
    ensures Or(a, b) == Or(b, a)
    decreases a
  {
    if a != 0 && b != 0 {
      OrCommutes(a / 2, b / 2);
    }
  }

  lemma Pow8() ensures Pow2(8) == 0x100 { assert Pow2(4) == 16; }

  lemma Pow12() ensures Pow2(12) == 0x1000 { Pow8(); assert Pow2(10) == 0x400; }

  lemma Pow20() ensures Pow2(20) == 0x10_0000 {
    Pow12();
    assert Pow2(16) == 0x1_0000;
  }

  /** A mask of n ones above m zeros clears the low m bits of an (m+n)-bit word. */
  lemma HighMask(x: nat, m: nat, n: nat)
    requires Shr(x, m) < Pow2(n)
    ensures And(x, Shl(Pow2(n) - 1, m)) == Shl(Shr(x, m), m)
  {
    AndShifted(x, Pow2(n) - 1, m);
    AndLow(Shr(x, m), n);
    DivModUnique(Shr(x, m), Pow2(n), 0, Shr(x, m));
  }

  /** `addr & 0xFFFFF000` rounds down to a multiple of 4096. */
  lemma PageMask(addr: uint32)
    ensures And(addr, 0xFFFF_F000) == addr / 0x1000 * 0x1000
  {
    Pow12();
    Pow20();
    ShrIsQuotient(addr, 12);
    ShlIsProduct(Pow2(20) - 1, 12);
    ShlIsProduct(Shr(addr, 12), 12);
    HighMask(addr, 12, 20);
  }

  /** A 16-bit byte swap written with shifts and an or exchanges the two bytes. */
  lemma SwapBytes16(v: uint16)
    ensures Or(v / 0x100, v * 0x100 % TWO_16) == v % 0x100 * 0x100 + v / 0x100
  {
    Pow8();
    assert v * 0x100 % TWO_16 == v % 0x100 * 0x100;
    OrBelow(v / 0x100, v % 0x100 * 0x100, 8);
  }

  /** The same merge with the low part written first. */
  lemma OrBelow(low: nat, high: nat, n: nat)
    requires high % Pow2(n) == 0 && low < Pow2(n)
    ensures Or(low, high) == high + low
  {
    OrCommutes(low, high);
    OrDisjoint(high, low, n);
  }
}
