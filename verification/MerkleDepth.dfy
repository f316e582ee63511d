/**
 The depth of a balanced tree by bit tricks: next_power_of_2, clz_power_2 and
 calcluate_max_depth of libraries/chain/include/eosio/chain/incremental_merkle.hpp.
 */
module MerkleDepth {
  import opened Bits

  // ------------------------------------------------------ smearing the top bit

  /** v |= v >> m */
  function Smear(v: nat, m: nat): nat { Or(v, Shr(v, m)) }

  /** A 64-bit decrement. */
  function OneLess(value: uint64): uint64
  {
    if value == 0 then Pow2(64) - 1 else value - 1
  }

  /** next_power_of_2 in 64-bit arithmetic. */
  function NextPowerOf2(value: uint64): (r: nat)
    ensures r == Low(Pow2(BitLength(OneLess(value))), 64)
  {
    SmearedToOnes(OneLess(value));
    var v := OneLess(value);
    var v := Smear(v, 1);
    var v := Smear(v, 2);
    var v := Smear(v, 4);
    var v := Smear(v, 8);
    var v := Smear(v, 16);
    var v := Smear(v, 32);
    Low(v + 1, 64)
  }

  function Least(a: nat, b: nat): nat { if a <= b then a else b }

  /** The m highest digits of v, or all of them, are ones. */
  ghost predicate TopOnes(v: nat, m: nat) {
    var n := BitLength(v);
    Shr(v, n - Least(m, n)) == Pow2(Least(m, n)) - 1
  }

  lemma {:induction false} OrBounds(x: nat, y: nat, k: nat)
    requires x < Pow2(k) && y < Pow2(k)
    ensures x <= Or(x, y) < Pow2(k)
  {
    if x != 0 { OrBounds(x / 2, y / 2, k - 1); }
  }

  lemma {:induction false} ShrOr(x: nat, y: nat, k: nat)
    ensures Shr(Or(x, y), k) == Or(Shr(x, k), Shr(y, k))
  {
    if k != 0 {
      ShrOr(x / 2, y / 2, k - 1);
      HalfOfOr(x, y);
    }
  }

  lemma HalfOfOr(x: nat, y: nat)
    ensures Or(x, y) / 2 == Or(x / 2, y / 2)
  {}

  /** Or-ing k ones into the low bits. */
  lemma {:induction false} OrLowOnes(x: nat, k: nat)
    ensures Or(x, Pow2(k) - 1) == Scaled(Shr(x, k), k) + (Pow2(k) - 1)
  {
    hide Pow2;
    if k == 0 {
      OrZero(x);
      Pow2Next(0, 1);
      Pow2Values();
    } else if x == 0 {
      hide Shr, Scaled;
      Pow2Mono(0, k);
      LowOfSmall(0, k);
      ScaledZero(k);
    } else {
      OrLowOnes(x / 2, k - 1);
      Pow2Next(k - 1, k);
      OddHalf(Pow2(k - 1));
    }
  }

  lemma OddHalf(p: nat)
    requires p > 0
    ensures (2 * p - 1) / 2 == p - 1 && (2 * p - 1) % 2 == 1
  {}

  lemma {:induction false} ShrAtMost(x: nat, k: nat)
    ensures Shr(x, k) <= x
  {
    if k != 0 { ShrAtMost(x / 2, k - 1); }
  }

  lemma OnesShifted(a: nat, b: nat)
    ensures Shr(Pow2(a + b) - 1, b) == Pow2(a) - 1
  {
    hide Shr, Low;
    Pow2Add(a, b);
    ScaledNext(Pow2(a) - 1, b);
    SplitUnique(Pow2(a + b) - 1, b, Pow2(a) - 1, Pow2(b) - 1);
  }

  lemma SameLength(v: nat, y: nat)
    requires y <= v
    ensures BitLength(Or(v, y)) == BitLength(v)
  {
    hide Or, Pow2, BitLength;
    if v == 0 {
      OrZero(0);
    } else {
      BitLengthBounds(v);
      OrBounds(v, y, BitLength(v));
      BitLengthUnique(Or(v, y), BitLength(v));
    }
  }

  /** One step doubles the run of ones at the top. */
  lemma SmearStep(v: nat, m: nat)
    requires m > 0 && TopOnes(v, m)
    ensures BitLength(Smear(v, m)) == BitLength(v) && TopOnes(Smear(v, m), 2 * m)
  {
    hide Or, Shr, Pow2, BitLength, Scaled;
    var n := BitLength(v);
    ShrAtMost(v, m);
    SameLength(v, Shr(v, m));
    if n <= m {
      AllOnes(v, m);
    } else {
      var a := Least(2 * m, n);
      var k := a - m;
      ShrOr(v, Shr(v, m), n - a);
      ShrShr(v, m, n - a);
      var top := Shr(v, n - a);
      ShrShr(v, n - a, m);
      ShrShr(v, n - a, k);
      assert Shr(top, k) == Pow2(m) - 1;
      assert Shr(top, m) == Pow2(k) - 1 by {
        ShrShr(top, k, m - k);
        OnesShifted(k, m - k);
      }
      OrLowOnes(top, k);
      Pow2Add(m, k);
      ScaledNext(Pow2(m) - 1, k);
    }
  }

  /** A number of nothing but ones is not changed by smearing. */
  lemma AllOnes(v: nat, m: nat)
    requires TopOnes(v, m) && BitLength(v) <= m
    ensures v == Pow2(BitLength(v)) - 1 && Smear(v, m) == v
  {
    var n := BitLength(v);
    assert Shr(v, 0) == v;
    Pow2Mono(n, m);
    LowOfSmall(v, m);
    OrZero(v);
  }

  lemma TopIsOne(v: nat)
    ensures TopOnes(v, 1)
  {
    if v > 0 {
      BitLengthBounds(v);
      var n := BitLength(v) - 1;
      ScaledOne(n);
      SplitUnique(v, n, 1, v - Pow2(n));
      assert Pow2(1) == 2;
    } else {
      assert Shr(0, 0) == 0;
    }
  }

  /** Six steps fill every digit of a 64-bit number. */
  lemma SmearedToOnes(v: uint64)
    ensures Smear(Smear(Smear(Smear(Smear(Smear(v, 1), 2), 4), 8), 16), 32) == Pow2(BitLength(v)) - 1
  {
    hide Smear, TopOnes, BitLength, Pow2;
    TopIsOne(v);
    SmearStep(v, 1);
    var v1 := Smear(v, 1);
    SmearStep(v1, 2);
    var v2 := Smear(v1, 2);
    SmearStep(v2, 4);
    var v3 := Smear(v2, 4);
    SmearStep(v3, 8);
    var v4 := Smear(v3, 8);
    SmearStep(v4, 16);
    var v5 := Smear(v4, 16);
    SmearStep(v5, 32);
    BitLengthBelow(v, 64);
    AllOnes(Smear(v5, 32), 64);
  }

  // -------------------------------------------------- the position of one bit

  /** m blocks of w zeros and w ones, the ones lowest. */
  function Stripes(w: nat, m: nat): nat
  {
    if m == 0 then 0 else Scaled(Stripes(w, m - 1), 2 * w) + (Pow2(w) - 1)
  }

  /** clz_power_2: for a power of two, the number of zeros below its one; 64 for zero. */
  function ClzPower2(value: nat): int
  {
    64
    - Flag(value != 0)
    - 32 * Flag(And(value, 0x0000_0000_FFFF_FFFF) != 0)
    - 16 * Flag(And(value, 0x0000_FFFF_0000_FFFF) != 0)
    - 8 * Flag(And(value, 0x00FF_00FF_00FF_00FF) != 0)
    - 4 * Flag(And(value, 0x0F0F_0F0F_0F0F_0F0F) != 0)
    - 2 * Flag(And(value, 0x3333_3333_3333_3333) != 0)
    - Flag(And(value, 0x5555_5555_5555_5555) != 0)
  }

  lemma {:induction false} StripesJoin(w: nat, a: nat, b: nat)
    ensures Stripes(w, a + b) == Scaled(Stripes(w, a), 2 * w * b) + Stripes(w, b)
  {
    if b != 0 {
      StripesJoin(w, a, b - 1);
      ScaledAdd(Scaled(Stripes(w, a), 2 * w * (b - 1)), Stripes(w, b - 1), 2 * w);
      ScaledScaled(Stripes(w, a), 2 * w * (b - 1), 2 * w);
      assert 2 * w * (b - 1) + 2 * w == 2 * w * b;
    }
  }

  lemma DoubleStripes(w: nat, a: nat, k: nat, s: nat, p: nat)
    requires Stripes(w, a) == s && k == 2 * w * a && Pow2(k) == p
    ensures Stripes(w, 2 * a) == s * p + s
  {
    hide Stripes, Scaled, Pow2;
    StripesJoin(w, a, a);
    ScaledIsProduct(s, k);
    assert a + a == 2 * a;
  }

  lemma OneStripe(w: nat)
    ensures Stripes(w, 1) == Pow2(w) - 1
  {
    ScaledZero(2 * w);
  }

  lemma PowersOfTwo()
    ensures Pow2(1) == 2 && Pow2(2) == 4 && Pow2(4) == 16 && Pow2(8) == 256
    ensures Pow2(16) == 0x1_0000 && Pow2(32) == 0x1_0000_0000
  {
    hide Pow2, Scaled;
    Pow2Values();
    Pow2Large();
    Pow2Add(8, 8);
    ScaledIsProduct(256, 8);
  }

  /** The six masks are stripes of width 32, 16, 8, 4, 2 and 1. */
  lemma MasksAreStripes()
    ensures Stripes(32, 1) == 0x0000_0000_FFFF_FFFF && Stripes(16, 2) == 0x0000_FFFF_0000_FFFF
    ensures Stripes(8, 4) == 0x00FF_00FF_00FF_00FF && Stripes(4, 8) == 0x0F0F_0F0F_0F0F_0F0F
    ensures Stripes(2, 16) == 0x3333_3333_3333_3333 && Stripes(1, 32) == 0x5555_5555_5555_5555
  {
    hide Stripes, Pow2;
    PowersOfTwo();
    OneStripe(32);
    OneStripe(16);
    DoubleStripes(16, 1, 32, 0xFFFF, 0x1_0000_0000);
    OneStripe(8);
    DoubleStripes(8, 1, 16, 0xFF, 0x1_0000);
    DoubleStripes(8, 2, 32, 0xFF_00FF, 0x1_0000_0000);
    OneStripe(4);
    DoubleStripes(4, 1, 8, 0xF, 256);
    DoubleStripes(4, 2, 16, 0xF0F, 0x1_0000);
    DoubleStripes(4, 4, 32, 0x0F0F_0F0F, 0x1_0000_0000);
    OneStripe(2);
    DoubleStripes(2, 1, 4, 3, 16);
    DoubleStripes(2, 2, 8, 0x33, 256);
    DoubleStripes(2, 4, 16, 0x3333, 0x1_0000);
    DoubleStripes(2, 8, 32, 0x3333_3333, 0x1_0000_0000);
    OneStripe(1);
    DoubleStripes(1, 1, 2, 1, 4);
    DoubleStripes(1, 2, 4, 5, 16);
    DoubleStripes(1, 4, 8, 0x55, 256);
    DoubleStripes(1, 8, 16, 0x5555, 0x1_0000);
    DoubleStripes(1, 16, 32, 0x5555_5555, 0x1_0000_0000);
  }

  /** Bit k is in a stripe of ones exactly when its place in the period is below w. */
  lemma {:induction false} StripeBit(w: nat, m: nat, k: nat, period: nat)
    requires w > 0 && period == 2 * w && k < period * m
    ensures Shr(Stripes(w, m), k) % 2 == 1 <==> k % period < w
  {
    hide Shr, Low, Scaled, Pow2;
    var s := Stripes(w, m - 1);
    Pow2Mono(w, period);
    SplitUnique(Stripes(w, m), period, s, Pow2(w) - 1);
    if k >= period {
      assert period * m - period == period * (m - 1);
      StripeBit(w, m - 1, k - period, period);
      ShrShr(Stripes(w, m), period, k - period);
      ModMinus(k, period);
    } else {
      BitOfLow(Stripes(w, m), period, k);
      DivModUnique(k, period, 0, k);
      BitOfOnes(w, k);
    }
  }

  lemma ModMinus(k: nat, d: nat)
    requires 0 < d <= k
    ensures (k - d) % d == k % d
  {
    var q, r := k / d, k % d;
    assert k - d == (q - 1) * d + r;
    DivModUnique(k - d, d, q - 1, r);
  }

  /** Low bits do not change with what is above them. */
  lemma BitOfLow(x: nat, n: nat, k: nat)
    requires k < n
    ensures Shr(x, k) % 2 == Shr(Low(x, n), k) % 2
  {
    hide Shr, Low, Scaled, Pow2;
    var high := Shr(x, n);
    SplitBits(x, n);
    SplitBits(Low(x, n), k);
    ScaledScaled(high, n - k, k);
    ScaledAdd(Scaled(high, n - k), Shr(Low(x, n), k), k);
    SplitUnique(x, k, Scaled(high, n - k) + Shr(Low(x, n), k), Low(Low(x, n), k));
    ScaledEven(high, n - k);
  }

  lemma BitOfOnes(w: nat, k: nat)
    ensures Shr(Pow2(w) - 1, k) % 2 == 1 <==> k < w
  {
    hide Shr, Low, Scaled, Pow2;
    if k < w {
      OnesShifted(w - k, k);
      Pow2Next(w - k - 1, w - k);
      OddHalf(Pow2(w - k - 1));
    } else {
      Pow2Mono(w, k);
      LowOfSmall(Pow2(w) - 1, k);
    }
  }

  lemma MaskTest(w: nat, m: nat, k: nat, period: nat, mask: nat)
    requires w > 0 && period == 2 * w && k < period * m && mask == Stripes(w, m)
    ensures And(Pow2(k), mask) != 0 <==> k % period < w
  {
    AndCommutative(Pow2(k), mask);
    AndBitTest(mask, k);
    StripeBit(w, m, k, period);
  }

  lemma {:induction false} AndCommutative(x: nat, y: nat)
    ensures And(x, y) == And(y, x)
  {
    if x != 0 && y != 0 { AndCommutative(x / 2, y / 2); }
  }

  lemma ClzOfPower(k: nat)
    requires k < 64
    ensures ClzPower2(Pow2(k)) == k
  {
    hide And, Pow2, Stripes;
    MasksAreStripes();
    MaskTest(32, 1, k, 64, 0x0000_0000_FFFF_FFFF);
    MaskTest(16, 2, k, 32, 0x0000_FFFF_0000_FFFF);
    MaskTest(8, 4, k, 16, 0x00FF_00FF_00FF_00FF);
    MaskTest(4, 8, k, 8, 0x0F0F_0F0F_0F0F_0F0F);
    MaskTest(2, 16, k, 4, 0x3333_3333_3333_3333);
    MaskTest(1, 32, k, 2, 0x5555_5555_5555_5555);
    BinaryPlaces(k);
  }

  /** A number below 64 from the six tests on its remainders. */
  lemma BinaryPlaces(k: nat)
    requires k < 64
    ensures k == 63 - 32 * Flag(k % 64 < 32) - 16 * Flag(k % 32 < 16) - 8 * Flag(k % 16 < 8)
                 - 4 * Flag(k % 8 < 4) - 2 * Flag(k % 4 < 2) - Flag(k % 2 < 1)
  {
    Place32(k);
    Place16(k);
    Place8(k);
    Place4(k);
    Place2And1(k);
    SumOfPlaces(k % 64, k % 32, k % 16, k % 8, k % 4, k % 2, k % 1);
  }

  lemma SumOfPlaces(r64: nat, r32: nat, r16: nat, r8: nat, r4: nat, r2: nat, r1: nat)
    requires r64 == r32 + (if r64 < 32 then 0 else 32) && r32 == r16 + (if r32 < 16 then 0 else 16)
    requires r16 == r8 + (if r16 < 8 then 0 else 8) && r8 == r4 + (if r8 < 4 then 0 else 4)
    requires r4 == r2 + (if r4 < 2 then 0 else 2) && r2 == r1 + (if r2 < 1 then 0 else 1) && r1 == 0
    ensures r64 == 63 - 32 * Flag(r64 < 32) - 16 * Flag(r32 < 16) - 8 * Flag(r16 < 8)
                   - 4 * Flag(r8 < 4) - 2 * Flag(r4 < 2) - Flag(r2 < 1)
  {}

  lemma Place32(k: nat)
    ensures k < 64 ==> k % 64 == k
    ensures k % 64 == k % 32 + (if k % 64 < 32 then 0 else 32)
  {}

  lemma Place16(k: nat)
    ensures k % 32 == k % 16 + (if k % 32 < 16 then 0 else 16)
  {}

  lemma Place8(k: nat)
    ensures k % 16 == k % 8 + (if k % 16 < 8 then 0 else 8)
  {}

  lemma Place4(k: nat)
    ensures k % 8 == k % 4 + (if k % 8 < 4 then 0 else 4)
  {}

  lemma Place2And1(k: nat)
    ensures k % 4 == k % 2 + (if k % 4 < 2 then 0 else 2)
    ensures k % 2 == k % 1 + (if k % 2 < 1 then 0 else 1) && k % 1 == 0
  {}

  // --------------------------------------------------------------- the depth

  /** calcluate_max_depth: one more than the digits of the last index. */
  function MaxDepth(nodeCount: uint64): (depth: int)
    ensures depth == if nodeCount == 0 then 0 else BitLength(nodeCount - 1) + 1
  {
    if nodeCount == 0 then 0
    else
      DepthOfPower(nodeCount);
      ClzPower2(NextPowerOf2(nodeCount)) + 1
  }

  lemma DepthOfPower(nodeCount: uint64)
    requires nodeCount > 0
    ensures ClzPower2(NextPowerOf2(nodeCount)) == BitLength(nodeCount - 1)
  {
    hide And, Pow2, BitLength, Shr, Low, Scaled, Smear;
    var k := BitLength(nodeCount - 1);
    BitLengthBelow(nodeCount - 1, 64);
    if k < 64 {
      Pow2Mono(k + 1, 64);
      Pow2Next(k, k + 1);
      LowOfSmall(Pow2(k), 64);
      ClzOfPower(k);
    } else {
      ScaledOne(64);
      SplitUnique(Pow2(64), 64, 1, 0);
      ClzOfZero();
    }
  }

  lemma ClzOfZero()
    ensures ClzPower2(0) == 64
  {}

  /** The least power of two that is not below the number, as long as that fits 64 bits; otherwise, and for zero, 0. */
  lemma NextPowerIsLeast(value: uint64)
    ensures 0 < value <= Pow2(63) ==>
              && NextPowerOf2(value) == Pow2(BitLength(value - 1)) >= value
              && forall j: nat | Pow2(j) >= value :: Pow2(j) >= NextPowerOf2(value)
    ensures !(0 < value <= Pow2(63)) ==> NextPowerOf2(value) == 0
  {
    hide And, Pow2, BitLength, Shr, Low, Scaled, Smear;
    if 0 < value <= Pow2(63) {
      var k := BitLength(value - 1);
      BitLengthBelow(value - 1, 63);
      Pow2Mono(k, 63);
      Pow2Next(63, 64);
      LowOfSmall(Pow2(k), 64);
      AtLeastPower(value);
      forall j: nat | Pow2(j) >= value ensures Pow2(j) >= Pow2(k) {
        BitLengthBelow(value - 1, j);
        Pow2Mono(k, j);
      }
    } else {
      var v := OneLess(value);
      Pow2Next(63, 64);
      BitLengthUnique(v, 64);
      ScaledOne(64);
      SplitUnique(Pow2(64), 64, 1, 0);
    }
  }

  lemma AtLeastPower(value: nat)
    requires value > 0
    ensures Pow2(BitLength(value - 1)) >= value
  {
    if value > 1 { BitLengthBounds(value - 1); }
  }
}
