/**
 What the two integer-to-double conversions promise: round to nearest, ties to
 even, over every 128-bit input (section 4.3.1 of IEEE 754-2008), and with it
 monotonicity and symmetry.
 */
module CorrectRounding {
  import opened Bits
  import opened Ieee754
  import opened IntToDouble

  /** A number x as a binary64 magnitude, in units of 2^-1074. */
  function Exact(x: nat): nat
  {
    Scaled(x, 1074)
  }

  /** Every 128-bit integer converts to the nearest of all finite binary64 values, and to the even one on a tie. */
  lemma RoundsCorrectly(x: uint128)
    ensures RoundsToNearestEven(BINARY64, NearestDouble(x), Exact(x))
  {
    hide Pow2, Scaled, Shr, Low, Or, And, BitLength;
    FiniteResult(x);
    if x == 0 {
      ScaledZero(1074);
      ZeroUnits(BINARY64);
      ExactIsNearest(BINARY64, 0);
    } else if BitLength(x) <= MANT_DIG {
      ShortIsExact(x);
      ExactIsNearest(BINARY64, NearestDouble(x));
    } else {
      var drop := BitLength(x) - MANT_DIG;
      SignificandRange(x);
      QuotientRange(x, drop, MANT_DIG);
      Pow2Next(52, 53);
      RoundedShiftIsNearest(BINARY64, x, drop, 1074);
    }
  }

  lemma ZeroUnits(f: Format)
    ensures Units(f, 0) == 0
  {
    LowOfSmall(0, f.significandBits);
  }

  /** The largest result is 2^128, far below infinity. */
  lemma FiniteResult(x: uint128)
    ensures NearestDouble(x) < Infinity(BINARY64)
  {
    hide Pow2, Scaled, Shr, Low, Or, And, BitLength;
    BitLengthBelow(x, 128);
    if x > 0 { SignificandRange(x); }
    Pow2Values();
    Pow2Next(52, 53);
    BelowInfinity(BitLength(x) + 1021, 2047, 52);
  }

  lemma BelowInfinity(n: nat, top: nat, s: nat)
    requires n + 2 < top
    ensures Scaled(n, s) + Pow2(s + 1) < Scaled(top, s)
    ensures 0 < Scaled(top, s)
  {
    ScaledNext(n, s);
    ScaledNext(n + 1, s);
    ScaledStrict(n + 2, top, s);
  }

  /** Up to 53 significant bits nothing is lost. */
  lemma ShortIsExact(x: nat)
    requires 0 < BitLength(x) <= MANT_DIG
    ensures Units(BINARY64, NearestDouble(x)) == Exact(x)
  {
    hide Pow2, Scaled, Shr, Low, Or, And, BitLength;
    SignificandRange(x);
    Pow2Next(52, 53);
    PackedUnits(BINARY64, BitLength(x) + 1021, Significand(x));
    ScaledScaled(x, MANT_DIG - BitLength(x), BitLength(x) + 1021);
  }

  /** The value of the pattern of a rounded quotient, and the exact value it stands for. */
  lemma RoundedShiftIsNearest(f: Format, x: nat, drop: nat, scale: nat)
    requires drop > 0 && f.significandBits > 0
    requires Pow2(f.significandBits) <= Shr(x, drop) < 2 * Pow2(f.significandBits)
    requires Scaled(drop + scale, f.significandBits) + RoundedShift(x, drop) < Infinity(f)
    ensures RoundsToNearestEven(f, Scaled(drop + scale, f.significandBits) + RoundedShift(x, drop), Scaled(x, scale))
  {
    hide Scaled, Shr, Low, Pow2, Units;
    var s, t, q, r := f.significandBits, drop + scale, Shr(x, drop), Low(x, drop);
    var below, above := Scaled(t, s) + q, Scaled(t, s) + q + 1;
    ScaledEven(t, s);
    PackedUnits(f, t, q);
    PackedUnits(f, t, q + 1);
    ExactBetween(x, drop, scale);
    if RoundedShift(x, drop) == q {
      UnitsStep(f, below - 1);
      NearestAmongNeighbours(f, below, Scaled(x, scale));
    } else {
      UnitsStep(f, above);
      NearestAmongNeighbours(f, above, Scaled(x, scale));
    }
  }

  /** Where the exact value lies between the scaled quotient and its successor. */
  lemma ExactBetween(x: nat, drop: nat, scale: nat)
    requires drop > 0
    ensures var t, q, r := drop + scale, Shr(x, drop), Low(x, drop);
            && Scaled(q, t) <= Scaled(x, scale) < Scaled(q + 1, t)
            && (2 * r < Pow2(drop) ==> 2 * Scaled(x, scale) < Scaled(q, t) + Scaled(q + 1, t))
            && (2 * r == Pow2(drop) ==> 2 * Scaled(x, scale) == Scaled(q, t) + Scaled(q + 1, t))
            && (2 * r > Pow2(drop) ==> 2 * Scaled(x, scale) > Scaled(q, t) + Scaled(q + 1, t))
  {
    var t, q, r := drop + scale, Shr(x, drop), Low(x, drop);
    SplitBits(x, drop);
    ScaledAdd(Scaled(q, drop), r, scale);
    ScaledScaled(q, drop, scale);
    ScaledNext(q, t);
    Pow2Add(drop, scale);
    ScaledStrict(r, Pow2(drop), scale);
    ScaledAdd(r, r, scale);
    if 2 * r < Pow2(drop) {
      ScaledStrict(2 * r, Pow2(drop), scale);
    } else if 2 * r > Pow2(drop) {
      ScaledStrict(Pow2(drop), 2 * r, scale);
    }
  }

  /** A larger integer never converts to a smaller pattern. */
  lemma ConversionMonotone(x: uint128, y: uint128)
    requires x <= y
    ensures NearestDouble(x) <= NearestDouble(y)
  {
    RoundsCorrectly(x);
    RoundsCorrectly(y);
    ScaledMono(x, y, 1074);
    NearestEvenMonotone(BINARY64, NearestDouble(x), Exact(x), NearestDouble(y), Exact(y));
  }

  /** Nothing but the nearest even pattern could have been returned. */
  lemma ConversionDetermined(x: uint128, bits: nat)
    ensures RoundsToNearestEven(BINARY64, bits, Exact(x)) <==> bits == NearestDouble(x)
  {
    RoundsCorrectly(x);
    if RoundsToNearestEven(BINARY64, bits, Exact(x)) {
      NearestEvenUnique(BINARY64, bits, NearestDouble(x), Exact(x));
    }
  }

  // ------------------------------------------------------------ the signed one

  /** A binary64 pattern as a signed number of units. */
  function SignedUnits(bits: nat): int
  {
    if bits >= Pow2(63) then 0 - Units(BINARY64, bits - Pow2(63)) else Units(BINARY64, bits)
  }

  lemma MagnitudeBelowSign(x: uint128)
    ensures NearestDouble(x) < Pow2(63)
  {
    hide Scaled, Pow2, BitLength, NearestDouble;
    FiniteResult(x);
    InfinityBelowSign(11, 52, 63);
  }

  lemma InfinityBelowSign(e: nat, s: nat, top: nat)
    requires top == e + s
    ensures Scaled(Pow2(e) - 1, s) < Pow2(top)
  {
    ScaledStrict(Pow2(e) - 1, Pow2(e), s);
    Pow2Add(e, s);
  }

  lemma AbsFits(a: int128)
    ensures Abs(a) < Pow2(128)
  {
    Pow2Next(127, 128);
  }

  /**
   The signed conversion is the unsigned one of the magnitude with the sign bit in front: correctly rounded
   and odd.
   */
  lemma SignedRoundsCorrectly(a: int128)
    ensures var bits := SignedNearestDouble(a);
            && bits < Pow2(64) && (bits >= Pow2(63) <==> a < 0)
            && RoundsToNearestEven(BINARY64, Low(bits, 63), Exact(Abs(a)))
    ensures SignedUnits(SignedNearestDouble(0 - a)) == 0 - SignedUnits(SignedNearestDouble(a))
  {
    hide Scaled, Pow2, BitLength, NearestDouble, Units, Infinity, Low;
    AbsFits(a);
    RoundsCorrectly(Abs(a));
    MagnitudeBelowSign(Abs(a));
    Pow2Next(63, 64);
    LowBelowBit(NearestDouble(Abs(a)), 63);
    ZeroUnits(BINARY64);
    ZeroConverts();
  }

  lemma LowBelowBit(x: nat, k: nat)
    requires x < Pow2(k)
    ensures Low(x, k) == x && Low(Pow2(k) + x, k) == x
  {
    LowOfSmall(x, k);
    ScaledOne(k);
    SplitUnique(Pow2(k) + x, k, 1, x);
  }

  lemma ZeroConverts()
    ensures NearestDouble(0) == 0
  {}

  lemma SignedConversionMonotone(a: int128, b: int128)
    requires a <= b
    ensures SignedUnits(SignedNearestDouble(a)) <= SignedUnits(SignedNearestDouble(b))
  {
    hide Scaled, Pow2, BitLength, NearestDouble, Units;
    AbsFits(a);
    AbsFits(b);
    MagnitudeBelowSign(Abs(a));
    MagnitudeBelowSign(Abs(b));
    var x, y := NearestDouble(Abs(a)), NearestDouble(Abs(b));
    if 0 <= a {
      ConversionMonotone(a, b);
      if x < y { UnitsStrictlyMonotone(BINARY64, x, y); }
    } else if b < 0 {
      ConversionMonotone(0 - b, 0 - a);
      if y < x { UnitsStrictlyMonotone(BINARY64, y, x); }
    }
  }
}
