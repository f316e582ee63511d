/**
 Fixed-width integers as natural numbers. Shifts, masks and the bitwise
 operators of C are defined one binary digit at a time; the lemmas turn masks
 into remainders, shifts into quotients and disjoint ors into sums.
 */
module Bits {

  /** 2^n */
  function Pow2(n: nat): (p: nat)
    ensures p > 0
  {
    if n == 0 then 1 else 2 * Pow2(n - 1)
  }

  type uint64 = x: nat | x < Pow2(64)
  type uint128 = x: nat | x < Pow2(128)
  type int128 = x: int | 0 <= x + Pow2(127) && x < Pow2(127)

  /** m * 2^t */
  function Scaled(m: nat, t: nat): nat
    decreases m, t
  {
    if t == 0 then m else 2 * Scaled(m, t - 1)
  }

  /** x shifted right by k bits */
  function Shr(x: nat, k: nat): nat
    decreases x, k
  {
    if k == 0 then x else Shr(x / 2, k - 1)
  }

  /** the low k bits of x */
  function Low(x: nat, k: nat): nat
    decreases x, k
  {
    if k == 0 then 0 else 2 * Low(x / 2, k - 1) + x % 2
  }

  /** x shifted left by k bits in a word of `width` bits: what leaves the word is lost */
  function Shl(x: nat, k: nat, width: nat): nat
  {
    Low(Scaled(x, k), width)
  }

  /** The number of binary digits of x; 0 has none. */
  function BitLength(x: nat): (n: nat)
    ensures n == 0 <==> x == 0
  {
    if x == 0 then 0 else 1 + BitLength(x / 2)
  }

  function And(x: nat, y: nat): nat
  {
    if x == 0 || y == 0 then 0
    else 2 * And(x / 2, y / 2) + (if x % 2 == 1 && y % 2 == 1 then 1 else 0)
  }

  function Or(x: nat, y: nat): nat
  {
    if x == 0 then y
    else 2 * Or(x / 2, y / 2) + (if x % 2 == 1 || y % 2 == 1 then 1 else 0)
  }

  function Xor(x: nat, y: nat): nat
  {
    if x == 0 then y
    else 2 * Xor(x / 2, y / 2) + (if x % 2 != y % 2 then 1 else 0)
  }

  /** One's complement in a word of `width` bits. */
  function Not(x: nat, width: nat): nat
    requires x < Pow2(width)
  {
    Pow2(width) - 1 - x
  }

  /** The two's complement word of a signed number. */
  function ToWord(x: int, width: nat): (word: nat)
    requires 0 <= x + Pow2(width) && x < Pow2(width)
    ensures word < Pow2(width)
  {
    if x < 0 then x + Pow2(width) else x
  }

  /** Subtraction modulo 2^width. */
  function SubWord(x: nat, y: nat, width: nat): nat
    requires y < Pow2(width)
  {
    Low(x + Pow2(width) - y, width)
  }

  function Abs(x: int): nat
  {
    if x < 0 then -x else x
  }

  /** The C value of a condition. */
  function Flag(b: bool): nat
  {
    if b then 1 else 0
  }

  // ------------------------------------------------------- scaling and shifts

  lemma {:induction false} ScaledIsProduct(m: nat, t: nat)
    ensures Scaled(m, t) == m * Pow2(t)
  {
    if t != 0 {
      ScaledIsProduct(m, t - 1);
      assert m * (2 * Pow2(t - 1)) == 2 * (m * Pow2(t - 1));
    }
  }

  lemma {:induction false} ScaledOne(t: nat)
    ensures Scaled(1, t) == Pow2(t)
  {
    if t != 0 { ScaledOne(t - 1); }
  }

  lemma {:induction false} ScaledZero(t: nat)
    ensures Scaled(0, t) == 0
  {
    if t != 0 { ScaledZero(t - 1); }
  }

  lemma {:induction false} ScaledAdd(m: nat, n: nat, t: nat)
    ensures Scaled(m + n, t) == Scaled(m, t) + Scaled(n, t)
  {
    if t != 0 { ScaledAdd(m, n, t - 1); }
  }

  lemma ScaledNext(m: nat, t: nat)
    ensures Scaled(m + 1, t) == Scaled(m, t) + Pow2(t)
  {
    ScaledAdd(m, 1, t);
    ScaledOne(t);
  }

  lemma ScaledEven(m: nat, t: nat)
    requires t > 0
    ensures Scaled(m, t) % 2 == 0
  {}

  lemma {:induction false} ScaledScaled(m: nat, s: nat, t: nat)
    ensures Scaled(Scaled(m, s), t) == Scaled(m, s + t)
  {
    if t != 0 { ScaledScaled(m, s, t - 1); }
  }

  lemma ScaledDouble(m: nat, t: nat)
    ensures Scaled(m, t + 1) == Scaled(2 * m, t)
  {
    ScaledAdd(m, m, t);
  }

  lemma ScaledMono(m: nat, n: nat, t: nat)
    requires m <= n
    ensures Scaled(m, t) <= Scaled(n, t)
  {
    ScaledAdd(m, n - m, t);
  }

  lemma ScaledStrict(m: nat, n: nat, t: nat)
    requires m < n
    ensures Scaled(m, t) + Pow2(t) <= Scaled(n, t)
  {
    ScaledNext(m, t);
    ScaledMono(m + 1, n, t);
  }

  lemma Pow2Next(n: nat, next: nat)
    requires next == n + 1
    ensures Pow2(next) == 2 * Pow2(n)
  {}

  lemma Pow2Values()
    ensures Pow2(1) == 2 && Pow2(2) == 4 && Pow2(4) == 16 && Pow2(5) == 32 && Pow2(6) == 64
    ensures Pow2(8) == 256 && Pow2(11) == 2048 && Pow2(15) == 32768
  {}

  lemma Pow2Large()
    ensures Pow2(32) == 0x1_0000_0000 && Pow2(62) == 0x4000_0000_0000_0000
    ensures Pow2(63) == 0x8000_0000_0000_0000 && Pow2(64) == 0x1_0000_0000_0000_0000
  {
    hide Pow2, Scaled;
    Pow2Values();
    Pow2Add(8, 8);
    ScaledIsProduct(Pow2(8), 8);
    Pow2Add(16, 16);
    ScaledIsProduct(Pow2(16), 16);
    Pow2Add(32, 32);
    ScaledIsProduct(Pow2(32), 32);
    Pow2Next(63, 64);
    Pow2Next(62, 63);
  }

  lemma Pow2Add(a: nat, b: nat)
    ensures Pow2(a + b) == Scaled(Pow2(a), b)
  {
    ScaledOne(a);
    ScaledScaled(1, a, b);
    ScaledOne(a + b);
  }

  lemma Pow2Mono(a: nat, b: nat)
    requires a <= b
    ensures Pow2(a) <= Pow2(b)
  {
    Pow2Add(a, b - a);
    ScaledOne(b - a);
    ScaledMono(1, Pow2(a), b - a);
    ScaledAtLeast(Pow2(a), b - a);
  }

  lemma {:induction false} ScaledAtLeast(m: nat, t: nat)
    ensures m <= Scaled(m, t)
  {
    if t != 0 { ScaledAtLeast(m, t - 1); }
  }

  /** A number is its high bits and its low bits. */
  lemma {:induction false} SplitBits(x: nat, k: nat)
    ensures x == Scaled(Shr(x, k), k) + Low(x, k)
    ensures Low(x, k) < Pow2(k)
  {
    if k != 0 { SplitBits(x / 2, k - 1); }
  }

  lemma {:induction false} SplitUnique(x: nat, k: nat, q: nat, r: nat)
    requires x == Scaled(q, k) + r && r < Pow2(k)
    ensures Shr(x, k) == q && Low(x, k) == r
  {
    if k != 0 { SplitUnique(x / 2, k - 1, q, r / 2); }
  }

  lemma ShrScaled(m: nat, k: nat)
    ensures Shr(Scaled(m, k), k) == m && Low(Scaled(m, k), k) == 0
  {
    SplitUnique(Scaled(m, k), k, m, 0);
  }

  lemma LowOfSmall(x: nat, k: nat)
    requires x < Pow2(k)
    ensures Shr(x, k) == 0 && Low(x, k) == x
  {
    ScaledZero(k);
    SplitUnique(x, k, 0, x);
  }

  /** Quotient and remainder, for readers who prefer them. */
  lemma ShiftIsDivision(x: nat, k: nat)
    ensures Shr(x, k) == x / Pow2(k) && Low(x, k) == x % Pow2(k)
  {
    SplitBits(x, k);
    ScaledIsProduct(Shr(x, k), k);
    DivModUnique(x, Pow2(k), Shr(x, k), Low(x, k));
  }

  lemma DivModUnique(x: nat, d: nat, q: nat, r: nat)
    requires x == q * d + r && r < d
    ensures x / d == q && x % d == r
  {
    var q', r' := x / d, x % d;
    assert x == q' * d + r';
    if q < q' {
      MulMono(q + 1, q', d);
    } else if q' < q {
      MulMono(q' + 1, q, d);
    }
  }

  lemma MulMono(a: nat, b: nat, c: nat)
    requires a <= b
    ensures a * c <= b * c
  {}

  /** Bounds on the quotient from bounds on the number. */
  lemma ShrBounds(x: nat, k: nat, lo: nat, hi: nat)
    requires Scaled(lo, k) <= x < Scaled(hi, k)
    ensures lo <= Shr(x, k) < hi
  {
    SplitBits(x, k);
    var q := Shr(x, k);
    if q < lo {
      ScaledStrict(q, lo, k);
    } else if hi <= q {
      ScaledMono(hi, q, k);
    }
  }

  lemma {:induction false} ShrShr(x: nat, a: nat, b: nat)
    ensures Shr(Shr(x, a), b) == Shr(x, a + b)
  {
    if a != 0 { ShrShr(x / 2, a - 1, b); }
  }

  lemma {:induction false} LowSplit(x: nat, a: nat, b: nat)
    ensures Low(x, a + b) == Scaled(Low(Shr(x, a), b), a) + Low(x, a)
  {
    if a != 0 { LowSplit(x / 2, a - 1, b); }
  }

  lemma ShlFits(x: nat, k: nat, width: nat)
    requires Scaled(x, k) < Pow2(width)
    ensures Shl(x, k, width) == Scaled(x, k)
  {
    LowOfSmall(Scaled(x, k), width);
  }

  // --------------------------------------------------------------- bit length

  /** BitLength brackets a positive number between two powers of two. */
  lemma {:induction false} BitLengthBounds(x: nat)
    requires x > 0
    ensures BitLength(x) > 0 && Pow2(BitLength(x) - 1) <= x < Pow2(BitLength(x))
  {
    if x > 1 { BitLengthBounds(x / 2); }
  }

  lemma {:induction false} BitLengthUnique(x: nat, n: nat)
    requires n > 0 && Pow2(n - 1) <= x < Pow2(n)
    ensures BitLength(x) == n
  {
    if n > 1 { BitLengthUnique(x / 2, n - 1); }
  }

  lemma {:induction false} BitLengthBelow(x: nat, n: nat)
    requires x < Pow2(n)
    ensures BitLength(x) <= n
  {
    if x > 0 { BitLengthBelow(x / 2, n - 1); }
  }

  lemma {:induction false} BitLengthOfShr(x: nat, k: nat)
    requires Shr(x, k) > 0
    ensures BitLength(x) == BitLength(Shr(x, k)) + k
  {
    if k > 0 {
      BitLengthOfShr(x / 2, k - 1);
      SplitBits(x, k);
      ScaledAtLeast(Shr(x, k), k);
    }
  }

  // -------------------------------------------------------- bitwise operators

  /** Masking with k ones keeps the low k bits. */
  lemma {:induction false} AndMask(x: nat, k: nat)
    ensures And(x, Pow2(k) - 1) == Low(x, k)
  {
    if k != 0 {
      AndMask(x / 2, k - 1);
      if x == 0 { LowOfSmall(0, k); }
    }
  }

  /** Masking with the single bit 2^k tests that bit. */
  lemma {:induction false} AndBit(x: nat, k: nat)
    ensures And(x, Pow2(k)) == Scaled(Shr(x, k) % 2, k)
  {
    if x == 0 {
      LowOfSmall(0, k);
      ScaledZero(k);
    } else if k != 0 {
      AndBit(x / 2, k - 1);
    }
  }

  lemma AndBitTest(x: nat, k: nat)
    ensures And(x, Pow2(k)) != 0 <==> Shr(x, k) % 2 == 1
  {
    AndBit(x, k);
    ScaledZero(k);
    ScaledOne(k);
  }

  /** Or-ing numbers with no bit in common adds them. */
  lemma {:induction false} OrDisjoint(x: nat, k: nat, y: nat)
    requires y < Pow2(k)
    ensures Or(Scaled(x, k), y) == Scaled(x, k) + y
  {
    if k == 0 {
      OrZero(x);
    } else {
      OrDisjoint(x, k - 1, y / 2);
    }
  }

  lemma AndZero(x: nat)
    ensures And(0, x) == 0 && And(x, 0) == 0
  {}

  lemma {:induction false} OrZero(x: nat)
    ensures Or(x, 0) == x && Or(0, x) == x
  {
    if x != 0 { OrZero(x / 2); }
  }

  lemma {:induction false} OrCommutative(x: nat, y: nat)
    ensures Or(x, y) == Or(y, x)
  {
    if x == 0 || y == 0 {
      OrZero(x);
      OrZero(y);
    } else {
      OrCommutative(x / 2, y / 2);
    }
  }

  lemma {:induction false} OrAssociative(x: nat, y: nat, z: nat)
    ensures Or(Or(x, y), z) == Or(x, Or(y, z))
    decreases x + y
  {
    if x != 0 {
      OrAssociative(x / 2, y / 2, z / 2);
    }
  }

  /** Or-ing a condition into the lowest bit. */
  lemma OrFlag(x: nat, b: bool)
    ensures Or(x, Flag(b)) == if b && x % 2 == 0 then x + 1 else x
  {
    OrZero(x);
    OrZero(x / 2);
  }

  lemma {:induction false} XorZero(x: nat)
    ensures Xor(x, 0) == x
  {
    if x != 0 { XorZero(x / 2); }
  }

  /** Xor with all ones is the one's complement. */
  lemma {:induction false} XorOnes(x: nat, k: nat)
    requires x < Pow2(k)
    ensures Xor(x, Pow2(k) - 1) == Not(x, k)
  {
    if x != 0 { XorOnes(x / 2, k - 1); }
  }
}
