/**
 Floating point to 128-bit integers: the six conversions fix*ti.c and fixuns*ti.c of
 libraries/builtins, which are one algorithm over the macros of fp32.h, fp64.h
 and fp128.h. `Truncated` is what section 5.8 of IEEE 754-2008 asks for: the
 integer part of the magnitude.
 */
module DoubleToInt {
  import opened Bits
  import opened Ieee754

  // ---------------------------------------------------- the parts of a pattern

  function TypeWidth(f: Format): nat
  {
    f.significandBits + f.exponentBits + 1
  }

  predicate IsPattern(f: Format, rep: nat) {
    IsInterchange(f) && rep < Pow2(TypeWidth(f))
  }

  /** aRep & absMask */
  function AbsPart(f: Format, rep: nat): nat
  {
    And(rep, Pow2(f.significandBits + f.exponentBits) - 1)
  }

  predicate IsNegative(f: Format, rep: nat) {
    And(rep, Pow2(f.significandBits + f.exponentBits)) != 0
  }

  function Exponent(f: Format, rep: nat): int
  {
    Shr(AbsPart(f, rep), f.significandBits) - Bias(f)
  }

  /** The fraction with the implicit bit, also for a subnormal. */
  function FullSignificand(f: Format, rep: nat): nat
  {
    Or(And(AbsPart(f, rep), Pow2(f.significandBits) - 1), Pow2(f.significandBits))
  }

  // ---------------------------------------------------------- the conversions

  /** ___fixunssfti, ___fixunsdfti, ___fixunstfti */
  function FixUnsigned(f: Format, rep: nat): nat
    requires IsPattern(f, rep)
  {
    var exponent := Exponent(f, rep);
    if IsNegative(f, rep) || exponent < 0 then 0
    else if exponent >= 128 then Pow2(128) - 1
    else if exponent < f.significandBits then Shr(FullSignificand(f, rep), f.significandBits - exponent)
    else Shl(FullSignificand(f, rep), exponent - f.significandBits, 128)
  }

  /** A 128-bit word read as a signed number. */
  function AsSigned(word: nat): int
  {
    if word >= Pow2(127) then word - Pow2(128) else word
  }

  /** sign * x in 128 bits: the most negative number is its own negation. */
  function Signed(negative: bool, x: int): int
  {
    if !negative then x else if x == 0 - Pow2(127) then x else -x
  }

  /** ___fixsfti, ___fixdfti, ___fixtfti, with signed overflow read as two's complement */
  function FixSigned(f: Format, rep: nat): int
    requires IsPattern(f, rep)
  {
    var exponent, negative := Exponent(f, rep), IsNegative(f, rep);
    if exponent < 0 then 0
    else if exponent >= 128 then if negative then 0 - Pow2(127) else Pow2(127) - 1
    else if exponent < f.significandBits then
      Signed(negative, Shr(FullSignificand(f, rep), f.significandBits - exponent))
    else
      Signed(negative, AsSigned(Shl(FullSignificand(f, rep), exponent - f.significandBits, 128)))
  }

  // ------------------------------------------------------- the specification

  function Magnitude(f: Format, rep: nat): nat
  {
    Low(rep, f.significandBits + f.exponentBits)
  }

  /** The integer part of a magnitude pattern's value. */
  function Truncated(f: Format, pattern: nat): nat
    requires f.significandBits > 0
  {
    Shr(Units(f, pattern), UnitScale(f))
  }

  function Min(x: int, y: int): int { if x <= y then x else y }
  function Max(x: int, y: int): int { if x <= y then y else x }

  // ------------------------------------------------------------------ lemmas

  lemma PartsOf(f: Format, rep: nat)
    requires IsPattern(f, rep)
    ensures AbsPart(f, rep) == Magnitude(f, rep) < Pow2(f.significandBits + f.exponentBits)
    ensures IsNegative(f, rep) <==> rep >= Pow2(f.significandBits + f.exponentBits)
    ensures rep == Magnitude(f, rep) + if IsNegative(f, rep) then Pow2(f.significandBits + f.exponentBits) else 0
    ensures FullSignificand(f, rep) == Pow2(f.significandBits) + Low(Magnitude(f, rep), f.significandBits)
  {
    hide And, Or, Shr, Low, Scaled, Pow2;
    var w := f.significandBits + f.exponentBits;
    AndMask(rep, w);
    AndBitTest(rep, w);
    SignAndRest(rep, w);
    ImplicitBitOred(Magnitude(f, rep), f.significandBits);
  }

  lemma SignAndRest(rep: nat, w: nat)
    requires rep < Pow2(w + 1)
    ensures Shr(rep, w) % 2 == 1 <==> rep >= Pow2(w)
    ensures rep == Low(rep, w) + (if rep >= Pow2(w) then Pow2(w) else 0) && Low(rep, w) < Pow2(w)
  {
    if rep >= Pow2(w) {
      ScaledOne(w);
      SplitUnique(rep, w, 1, rep - Pow2(w));
    } else {
      LowOfSmall(rep, w);
    }
  }

  lemma ImplicitBitOred(m: nat, s: nat)
    ensures Or(And(m, Pow2(s) - 1), Pow2(s)) == Pow2(s) + Low(m, s)
  {
    hide And, Or, Shr, Low, Scaled, Pow2;
    AndMask(m, s);
    SplitBits(m, s);
    OrCommutative(Low(m, s), Pow2(s));
    ScaledOne(s);
    OrDisjoint(1, s, Low(m, s));
  }

  /** Truncation by the unbiased exponent: below one, between, and from 2^128 up. */
  lemma TruncatedByExponent(f: Format, pattern: nat)
    requires f.significandBits > 0 && Bias(f) > 0
    ensures var s := f.significandBits;
            var exponent, full := Shr(pattern, s) - Bias(f), Pow2(s) + Low(pattern, s);
            && (exponent < 0 ==> Truncated(f, pattern) == 0)
            && (0 <= exponent < s ==> Truncated(f, pattern) == Shr(full, s - exponent))
            && (s <= exponent ==> Truncated(f, pattern) == Scaled(full, exponent - s))
  {
    hide Shr, Low, Scaled, Pow2, Bias;
    var s := f.significandBits;
    var n, full, u := Shr(pattern, s), Pow2(s) + Low(pattern, s), UnitScale(f);
    SplitBits(pattern, s);
    if n < Bias(f) {
      BelowOne(f, pattern);
      LowOfSmall(Units(f, pattern), u);
    } else if n - Bias(f) < s {
      ShrScaled(full, n - 1);
      ShrShr(Scaled(full, n - 1), n - 1, s - (n - Bias(f)));
    } else {
      ScaledScaled(full, n - Bias(f) - s, u);
      ShrScaled(Scaled(full, n - Bias(f) - s), u);
    }
  }

  lemma BelowOne(f: Format, pattern: nat)
    requires f.significandBits > 0 && Shr(pattern, f.significandBits) < Bias(f)
    ensures Units(f, pattern) < Pow2(UnitScale(f))
  {
    hide Shr, Low, Scaled, Bias;
    var s, n := f.significandBits, Shr(pattern, f.significandBits);
    SplitBits(pattern, s);
    if n == 0 {
      Pow2Mono(s, UnitScale(f));
    } else {
      ScaledStrict(Pow2(s) + Low(pattern, s), Pow2(s + 1), n - 1);
      Pow2Add(s + 1, n - 1);
      Pow2Mono(s + n, UnitScale(f));
    }
  }

  /** Magnitudes by exponent: [2^e, 2^(e+1)). */
  lemma TruncatedRange(f: Format, pattern: nat, e: nat)
    requires f.significandBits > 0 && Bias(f) > 0 && Shr(pattern, f.significandBits) == Bias(f) + e
    ensures Pow2(e) <= Truncated(f, pattern) < Pow2(e + 1)
  {
    hide Shr, Low, Scaled, Bias, Truncated;
    var s := f.significandBits;
    var full := Pow2(s) + Low(pattern, s);
    TruncatedByExponent(f, pattern);
    SplitBits(pattern, s);
    if e < s {
      Pow2Add(e, s - e);
      Pow2Add(e + 1, s - e);
      ShrBounds(full, s - e, Pow2(e), Pow2(e + 1));
    } else {
      Pow2Add(s, e - s);
      Pow2Add(s + 1, e - s);
      ScaledMono(Pow2(s), full, e - s);
      ScaledStrict(full, Pow2(s + 1), e - s);
    }
  }

  lemma PositiveBias(f: Format)
    requires IsInterchange(f)
    ensures Bias(f) > 0 && f.significandBits > 0 && Bias(f) + 128 < Pow2(f.exponentBits)
  {
    Pow2Values();
  }

  /**
   The unsigned conversions return the integer part of every non-negative value
   below 2^128, all ones from there up (infinities and NaNs included), and zero
   for every pattern with the sign bit set.
   */
  lemma UnsignedTruncates(f: Format, rep: nat)
    requires IsPattern(f, rep)
    ensures FixUnsigned(f, rep)
            == if IsNegative(f, rep) then 0 else Min(Truncated(f, Magnitude(f, rep)), Pow2(128) - 1)
  {
    hide Shr, Low, Scaled, Bias, Truncated, And, Or, Pow2;
    PartsOf(f, rep);
    PositiveBias(f);
    var m, e := Magnitude(f, rep), Exponent(f, rep);
    TruncatedByExponent(f, m);
    if e >= 0 {
      TruncatedRange(f, m, e);
      if e >= 128 {
        Pow2Mono(128, e);
      } else {
        Pow2Mono(e + 1, 128);
        if e >= f.significandBits { ShlFits(FullSignificand(f, rep), e - f.significandBits, 128); }
      }
    }
  }

  /** Truncation toward zero, clamped to the 128-bit signed range. */
  function Clamped(negative: bool, magnitude: nat): int
  {
    if negative then Max(0 - magnitude, 0 - Pow2(127)) else Min(magnitude, Pow2(127) - 1)
  }

  /** The code's own guard: exponent 127 passes the width test although only -2^127 fits. */
  predicate PassesUnchecked(f: Format, rep: nat) {
    Exponent(f, rep) == 127 && !(IsNegative(f, rep) && Low(Magnitude(f, rep), f.significandBits) == 0)
  }

  /**
   The signed conversions truncate toward zero and saturate, except where
   exponent 127 reaches the left shift: there, and only there, they do not.
   */
  lemma SignedTruncatesIff(f: Format, rep: nat)
    requires IsPattern(f, rep)
    ensures FixSigned(f, rep) == Clamped(IsNegative(f, rep), Truncated(f, Magnitude(f, rep)))
            <==> !PassesUnchecked(f, rep)
  {
    hide Shr, Low, Scaled, Bias, Truncated, And, Or, Pow2;
    PartsOf(f, rep);
    PositiveBias(f);
    var m, e := Magnitude(f, rep), Exponent(f, rep);
    TruncatedByExponent(f, m);
    if e >= 0 {
      TruncatedRange(f, m, e);
      if e == 127 {
        WrapsAtTop(f, rep);
      } else if e >= 128 {
        Pow2Mono(128, e);
        Pow2Mono(127, 128);
      } else {
        Pow2Mono(e + 1, 127);
        Pow2Mono(127, 128);
        if e >= f.significandBits { ShlFits(FullSignificand(f, rep), e - f.significandBits, 128); }
      }
    }
  }

  /** The wrapped value: a positive number in [2^127, 2^128) loses 2^128, a negative one gains it. */
  lemma WrapsAtTop(f: Format, rep: nat)
    requires IsPattern(f, rep) && Exponent(f, rep) == 127
    ensures var t := Truncated(f, Magnitude(f, rep));
            && Pow2(127) <= t < Pow2(128)
            && (t == Pow2(127) <==> Low(Magnitude(f, rep), f.significandBits) == 0)
            && FixSigned(f, rep) == if !IsNegative(f, rep) then t - Pow2(128)
                                    else if t == Pow2(127) then 0 - Pow2(127) else Pow2(128) - t
  {
    hide Shr, Low, Scaled, Bias, Truncated, And, Or, Pow2;
    PartsOf(f, rep);
    PositiveBias(f);
    var m, s := Magnitude(f, rep), f.significandBits;
    TruncatedByExponent(f, m);
    TruncatedRange(f, m, 127);
    Pow2Next(127, 128);
    ShlFits(FullSignificand(f, rep), 127 - s, 128);
    Pow2Add(s, 127 - s);
    if Low(m, s) != 0 { ScaledStrict(Pow2(s), Pow2(s) + Low(m, s), 127 - s); }
  }

  /** Where both conversions are in range they agree up to the sign. */
  lemma SignedMatchesUnsigned(f: Format, rep: nat)
    requires IsPattern(f, rep) && Exponent(f, rep) <= 126
    ensures IsPattern(f, Magnitude(f, rep))
    ensures FixSigned(f, rep)
            == if IsNegative(f, rep) then 0 - FixUnsigned(f, Magnitude(f, rep)) else FixUnsigned(f, Magnitude(f, rep))
  {
    hide Shr, Low, Scaled, Bias, Truncated, And, Or, Pow2;
    var m, w := Magnitude(f, rep), f.significandBits + f.exponentBits;
    PartsOf(f, rep);
    Pow2Mono(w, w + 1);
    PartsOf(f, m);
    LowOfSmall(m, w);
    PositiveBias(f);
    SignedTruncatesIff(f, rep);
    UnsignedTruncates(f, m);
    if Exponent(f, rep) >= 0 {
      TruncatedRange(f, m, Exponent(f, rep));
      Pow2Mono(Exponent(f, rep) + 1, 127);
      Pow2Mono(127, 128);
    } else {
      TruncatedByExponent(f, m);
      Pow2Mono(0, 127);
      Pow2Mono(0, 128);
    }
  }

  /** The binary64 number 2^127 converts to -2^127 instead of saturating. */
  lemma PositiveTopWraps()
    ensures IsPattern(BINARY64, Scaled(1150, 52)) && PassesUnchecked(BINARY64, Scaled(1150, 52))
    ensures FixSigned(BINARY64, Scaled(1150, 52)) == 0 - Pow2(127)
    ensures Clamped(false, Truncated(BINARY64, Magnitude(BINARY64, Scaled(1150, 52)))) == Pow2(127) - 1
  {
    hide Shr, Low, Scaled, Bias, Truncated, And, Or, Pow2;
    var rep := Scaled(1150, 52);
    Pow2Values();
    ScaledStrict(1150, Pow2(11), 52);
    Pow2Add(11, 52);
    Pow2Next(63, 64);
    PartsOf(BINARY64, rep);
    LowOfSmall(rep, 63);
    ShrScaled(1150, 52);
    FormatValues();
    WrapsAtTop(BINARY64, rep);
    Pow2Next(127, 128);
  }
}
