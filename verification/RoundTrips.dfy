/**
 The conversions composed: integer to double and back, and double to integer
 and back.
 */
module RoundTrips {
  import opened Bits
  import opened Ieee754
  import opened IntToDouble
  import opened CorrectRounding
  import opened DoubleToInt

  /** The integer that the pattern of x stands for; at most 2^128. */
  function RoundedValue(x: nat): nat
  {
    var sd := BitLength(x);
    if sd <= MANT_DIG then x else Scaled(Significand(x), sd - MANT_DIG)
  }

  lemma PatternValue(x: uint128)
    ensures Units(BINARY64, NearestDouble(x)) == Exact(RoundedValue(x))
  {
    hide Pow2, Scaled, Shr, Low, BitLength, Significand, Units;
    if x == 0 {
      ScaledZero(1074);
      ZeroUnits(BINARY64);
    } else if BitLength(x) <= MANT_DIG {
      ShortIsExact(x);
    } else {
      SignificandRange(x);
      Pow2Next(52, 53);
      PackedUnits(BINARY64, BitLength(x) + 1021, Significand(x));
      ScaledScaled(Significand(x), BitLength(x) - MANT_DIG, 1074);
    }
  }

  /** Half a unit in the last place, and none when the dropped bits are zero. */
  lemma RoundingError(x: nat)
    requires BitLength(x) > MANT_DIG
    ensures Distance(RoundedValue(x), x) <= Pow2(BitLength(x) - MANT_DIG - 1)
    ensures RoundedValue(x) == x <==> Low(x, BitLength(x) - MANT_DIG) == 0
  {
    hide Scaled, Shr, Low, BitLength;
    var drop := BitLength(x) - MANT_DIG;
    SplitBits(x, drop);
    ScaledNext(Shr(x, drop), drop);
    Pow2Next(drop - 1, drop);
  }

  lemma PositivePattern(d: nat)
    requires d < Pow2(63)
    ensures IsPattern(BINARY64, d) && !IsNegative(BINARY64, d) && Magnitude(BINARY64, d) == d
  {
    hide And, Or, Shr, Low, Scaled, Pow2;
    Pow2Mono(63, 64);
    PartsOf(BINARY64, d);
  }

  /** Converting back clamps the rounded value. */
  lemma BackFromDouble(x: uint128)
    ensures IsPattern(BINARY64, NearestDouble(x))
    ensures FixUnsigned(BINARY64, NearestDouble(x)) == Min(RoundedValue(x), Pow2(128) - 1)
    ensures Truncated(BINARY64, NearestDouble(x)) == RoundedValue(x)
  {
    hide And, Or, Shr, Low, Scaled, Pow2, BitLength, Units, NearestDouble, RoundedValue;
    MagnitudeBelowSign(x);
    PositivePattern(NearestDouble(x));
    UnsignedTruncates(BINARY64, NearestDouble(x));
    PatternValue(x);
    FormatValues();
    ShrScaled(RoundedValue(x), 1074);
  }

  // ---------------------------------------------- integer to double and back

  /** Rounding reaches the next power of two exactly from half a unit below it. */
  lemma RoundsUpToPower(x: nat, n: nat, drop: nat)
    requires n > 0 && drop > 0 && BitLength(x) == n + drop
    ensures RoundedShift(x, drop) == Pow2(n) <==> x + Pow2(drop - 1) >= Pow2(n + drop)
    ensures RoundedShift(x, drop) <= Pow2(n)
  {
    hide Shr, Low, Scaled, BitLength;
    var q, r, top := Shr(x, drop), Low(x, drop), Pow2(n) - 1;
    SplitBits(x, drop);
    QuotientRange(x, drop, n);
    Pow2Add(n, drop);
    ScaledNext(top, drop);
    OddOnes(n);
    if q < top {
      ScaledStrict(q, top, drop);
      Pow2Next(drop - 1, drop);
    }
  }

  /** The conversion back saturates exactly for the integers that round up to 2^128. */
  lemma SaturatesIff(x: uint128)
    ensures RoundedValue(x) >= Pow2(128) <==> x + Pow2(74) >= Pow2(128)
    ensures RoundedValue(x) != Pow2(128) - 1
  {
    hide Shr, Low, Scaled, BitLength, Pow2, RoundedShift;
    var sd := BitLength(x);
    BitLengthBelow(x, 128);
    Pow2Next(127, 128);
    Pow2Mono(75, 127);
    Pow2Next(74, 75);
    if sd <= MANT_DIG {
      SmallBelow(x, sd, 74);
    } else {
      var drop := sd - MANT_DIG;
      RoundsUpToPower(x, MANT_DIG, drop);
      ScaledEven(Significand(x), drop);
      OddOnes(128);
      assert Significand(x) == RoundedShift(x, drop);
      Pow2Add(MANT_DIG, drop);
      if sd < 128 {
        ScaledMono(Significand(x), Pow2(MANT_DIG), drop);
        SmallBelow(x, sd, 127);
        Pow2Mono(sd, 127);
      } else if Significand(x) != Pow2(MANT_DIG) {
        ScaledStrict(Significand(x), Pow2(MANT_DIG), drop);
      }
    }
  }

  lemma SmallBelow(x: nat, sd: nat, n: nat)
    requires sd == BitLength(x) <= n
    ensures x < Pow2(n)
  {
    if x > 0 { BitLengthBounds(x); }
    Pow2Mono(sd, n);
  }

  /**
   There and back: within half a unit in the last place, unchanged exactly when
   no significant bit is dropped (or the clamp hits the one number it equals),
   and all ones exactly from 2^128 - 2^74 up.
   */
  lemma IntegerRoundTrip(x: uint128)
    ensures IsPattern(BINARY64, NearestDouble(x))
    ensures var y, sd := FixUnsigned(BINARY64, NearestDouble(x)), BitLength(x);
            && (sd > MANT_DIG ==> Distance(y, x) <= Pow2(sd - 54))
            && (y == x <==> sd <= MANT_DIG || Low(x, sd - MANT_DIG) == 0 || x == Pow2(128) - 1)
            && (y == Pow2(128) - 1 <==> x + Pow2(74) >= Pow2(128))
  {
    hide Shr, Low, Scaled, BitLength, Pow2, Significand, NearestDouble;
    BackFromDouble(x);
    SaturatesIff(x);
    Pow2Mono(53, 74);
    Pow2Mono(0, 128);
    if BitLength(x) > MANT_DIG {
      RoundingError(x);
    }
  }

  // ---------------------------------------------- double to integer and back

  /** A finite number of at least 2^52 is an integer; a smaller one truncates to at most 53 bits. */
  lemma TruncationIsRepresentable(d: nat)
    ensures var t := Truncated(BINARY64, d);
            t < Pow2(53) || Units(BINARY64, d) == Exact(t)
  {
    hide Shr, Low, Scaled, Pow2, BitLength, Truncated, Bias;
    FormatValues();
    TruncatedByExponent(BINARY64, d);
    var n := Shr(d, 52);
    if n >= 1023 {
      var e := n - 1023;
      TruncatedRange(BINARY64, d, e);
      if e < 52 {
        Pow2Mono(e + 1, 53);
      } else {
        ScaledScaled(Pow2(52) + Low(d, 52), e - 52, 1074);
      }
    }
  }

  /** A double that stands for the integer t is the pattern t converts to. */
  lemma IntegralIsFixed(d: nat, t: uint128)
    requires d < Infinity(BINARY64) && Units(BINARY64, d) == Exact(t)
    ensures NearestDouble(t) == d
  {
    hide Scaled, Units, Pow2, NearestDouble;
    ExactIsNearest(BINARY64, d);
    RoundsCorrectly(t);
    NearestEvenUnique(BINARY64, d, NearestDouble(t), Exact(t));
  }

  /**
   Back and forth: for every non-negative double below 2^128 the result is the
   pattern of its integer part, and the same 64 bits exactly when it was an integer.
   */
  lemma DoubleRoundTrip(d: nat)
    requires d < Pow2(63) && Shr(d, 52) < 1023 + 128
    ensures IsPattern(BINARY64, d)
    ensures var t := FixUnsigned(BINARY64, d);
            && t == Truncated(BINARY64, d) < Pow2(128)
            && Units(BINARY64, NearestDouble(t)) == Exact(t)
            && (NearestDouble(t) == d <==> Low(Units(BINARY64, d), 1074) == 0)
  {
    hide Shr, Low, Scaled, Pow2, BitLength, Units, NearestDouble, FixUnsigned;
    PositivePattern(d);
    UnsignedTruncates(BINARY64, d);
    BelowTwoTo128(d);
    var t := Truncated(BINARY64, d);
    FormatValues();
    SplitBits(Units(BINARY64, d), 1074);
    TruncationIsRepresentable(d);
    if t < Pow2(53) {
      SmallIsExact(t);
    }
    if Units(BINARY64, d) == Exact(t) {
      IntegralIsFixed(d, t);
    }
    ShrScaled(t, 1074);
  }

  lemma BelowTwoTo128(d: nat)
    requires Shr(d, 52) < 1023 + 128
    ensures Truncated(BINARY64, d) < Pow2(128) && d < Infinity(BINARY64)
  {
    hide Shr, Low, Scaled, Pow2, Truncated;
    FormatValues();
    TruncatedByExponent(BINARY64, d);
    var n := Shr(d, 52);
    if n >= 1023 {
      TruncatedRange(BINARY64, d, n - 1023);
      Pow2Mono(n - 1023 + 1, 128);
    }
    SplitBits(d, 52);
    Pow2Values();
    ScaledStrict(n, 2047, 52);
  }

  lemma SmallIsExact(t: nat)
    requires t < Pow2(53)
    ensures Units(BINARY64, NearestDouble(t)) == Exact(t)
  {
    hide Shr, Low, Scaled, Pow2, Units, BitLength;
    if t == 0 {
      ScaledZero(1074);
      ZeroUnits(BINARY64);
    } else {
      BitLengthBelow(t, 53);
      ShortIsExact(t);
    }
  }

  // ------------------------------------------------------- the signed pair

  lemma SignedPattern(a: int128)
    ensures var d := SignedNearestDouble(a);
            && IsPattern(BINARY64, d) && (IsNegative(BINARY64, d) <==> a < 0)
            && Magnitude(BINARY64, d) == NearestDouble(Abs(a))
  {
    hide And, Or, Shr, Low, Scaled, Pow2, NearestDouble;
    Pow2Next(127, 128);
    var x: uint128 := Abs(a);
    MagnitudeBelowSign(x);
    Pow2Next(63, 64);
    PartsOf(BINARY64, SignedNearestDouble(a));
  }

  /** A magnitude of at most 2^127 rounds to at most 2^127, and to it exactly from 2^127 - 2^73 up. */
  lemma RoundsToTop(x: nat)
    requires x <= Pow2(127)
    ensures RoundedValue(x) <= Pow2(127)
    ensures RoundedValue(x) == Pow2(127) <==> x + Pow2(73) >= Pow2(127)
  {
    hide Shr, Low, Scaled, BitLength, Pow2, RoundedShift;
    var sd := BitLength(x);
    Pow2Next(127, 128);
    BitLengthBelow(x, 128);
    Pow2Next(126, 127);
    Pow2Next(73, 74);
    Pow2Mono(74, 126);
    Pow2Mono(0, 126);
    if sd <= MANT_DIG {
      SmallBelow(x, sd, 126);
    } else if sd < 128 {
      var drop := sd - MANT_DIG;
      RoundsUpToPower(x, MANT_DIG, drop);
      Pow2Add(MANT_DIG, drop);
      ScaledMono(Significand(x), Pow2(MANT_DIG), drop);
      if sd < 127 {
        SmallBelow(x, sd, 126);
        Pow2Mono(sd, 126);
      } else if Significand(x) != Pow2(MANT_DIG) {
        ScaledStrict(Significand(x), Pow2(MANT_DIG), drop);
      }
    } else {
      BitLengthBounds(x);
      ScaledOne(127);
      PowerDropsZeros(127, 75);
      RoundingError(x);
    }
  }

  lemma PowerDropsZeros(n: nat, drop: nat)
    requires drop <= n
    ensures Low(Pow2(n), drop) == 0
  {
    Pow2Add(n - drop, drop);
    ShrScaled(Pow2(n - drop), drop);
  }

  /** The unchecked exponent 127 is met exactly by the positive integers that round to 2^127. */
  lemma TopExponent(a: int128)
    ensures var d := SignedNearestDouble(a);
            IsPattern(BINARY64, d) && (PassesUnchecked(BINARY64, d) <==> a + Pow2(73) >= Pow2(127))
    ensures Truncated(BINARY64, Magnitude(BINARY64, SignedNearestDouble(a))) == RoundedValue(Abs(a))
  {
    hide And, Or, Shr, Low, Scaled, Pow2, NearestDouble, BitLength, Truncated, RoundedValue, SignedNearestDouble;
    SignedPattern(a);
    Pow2Next(127, 128);
    var x: uint128 := Abs(a);
    var d, e := SignedNearestDouble(a), Exponent(BINARY64, SignedNearestDouble(a));
    BackFromDouble(x);
    RoundsToTop(x);
    Pow2Mono(73, 127);
    FormatValues();
    PartsOf(BINARY64, d);
    TruncatedByExponent(BINARY64, Magnitude(BINARY64, d));
    if e == 127 {
      WrapsAtTop(BINARY64, d);
    } else if 0 <= e {
      TruncatedRange(BINARY64, Magnitude(BINARY64, d), e);
      if e < 127 { Pow2Mono(e + 1, 127); } else { Pow2Mono(128, e); }
    }
  }

  /**
   Signed there and back: a 128-bit integer keeps its sign and comes back within
   half a unit in the last place if and only if it is below 2^127 - 2^73; from
   there up it comes back as -2^127.
   */
  lemma SignedRoundTrip(a: int128)
    ensures IsPattern(BINARY64, SignedNearestDouble(a))
    ensures var y, sd := FixSigned(BINARY64, SignedNearestDouble(a)), BitLength(Abs(a));
            && (sd <= MANT_DIG ==> y == a)
            && (sd > MANT_DIG ==> (Abs(y - a) <= Pow2(sd - 54) <==> a + Pow2(73) < Pow2(127)))
            && (a + Pow2(73) < Pow2(127) ==> (y == a <==> sd <= MANT_DIG || Low(Abs(a), sd - MANT_DIG) == 0))
            && (a + Pow2(73) < Pow2(127) ==> (y < 0 <==> a < 0) && (y > 0 <==> a > 0))
            && (a + Pow2(73) >= Pow2(127) ==> y == 0 - Pow2(127))
  {
    hide And, Or, Shr, Low, Scaled, Pow2, NearestDouble, BitLength, Truncated, SignedNearestDouble, FixSigned;
    var d, sd, x := SignedNearestDouble(a), BitLength(Abs(a)), Abs(a);
    TopExponent(a);
    SignedPattern(a);
    SignedTruncatesIff(BINARY64, d);
    Pow2Mono(73, 127);
    RoundsToTop(x);
    BitLengthSmall(x);
    if sd > MANT_DIG {
      RoundingError(x);
      BitLengthBounds(x);
      Pow2Next(sd - 54, sd - 53);
      Pow2Mono(sd - 53, sd - 1);
      Pow2Mono(sd - 54, 127);
    }
    if a + Pow2(73) >= Pow2(127) {
      WrapsAtTop(BINARY64, d);
      Pow2Next(127, 128);
    }
  }

  lemma BitLengthSmall(x: nat)
    requires x <= Pow2(127)
    ensures BitLength(x) <= 128
  {
    Pow2Next(127, 128);
    BitLengthBelow(x, 128);
  }
}
