/**
 Binary interchange formats of IEEE 754-2008 (section 3.4), as bit patterns.

 The magnitude of a pattern is measured in units of the format's smallest
 subnormal, so that every finite value is a natural number and "nearest"
 (section 4.3.1) is a statement about natural numbers.
 */
module Ieee754 {
  import opened Bits

  datatype Format = Format(significandBits: nat, exponentBits: nat)

  const BINARY32 := Format(23, 8)
  const BINARY64 := Format(52, 11)
  const BINARY128 := Format(112, 15)

  predicate IsInterchange(f: Format) {
    f == BINARY32 || f == BINARY64 || f == BINARY128
  }

  /** maxExponent >> 1 */
  function Bias(f: Format): nat
  {
    (Pow2(f.exponentBits) - 1) / 2
  }

  /** With the sign bit clear, the patterns below this one are the finite numbers. */
  function Infinity(f: Format): nat
  {
    Scaled(Pow2(f.exponentBits) - 1, f.significandBits)
  }

  /** A magnitude pattern in units of the smallest subnormal. */
  function Units(f: Format, pattern: nat): nat
  {
    var exponent, fraction := Shr(pattern, f.significandBits), Low(pattern, f.significandBits);
    if exponent == 0 then fraction
    else Scaled(Pow2(f.significandBits) + fraction, exponent - 1)
  }

  /** 1.0 is 2^UnitScale units. */
  function UnitScale(f: Format): nat
    requires f.significandBits > 0
  {
    Bias(f) + f.significandBits - 1
  }

  function Distance(x: nat, y: nat): nat
  {
    if x <= y then y - x else x - y
  }

  predicate Closer(mine: nat, other: nat, pattern: nat) {
    mine < other || (mine == other && pattern % 2 == 0)
  }

  /**
   Section 4.3.1: the finite pattern closest to an exact magnitude of `exact`
   units; of two equally close patterns, the one with an even significand.
   */
  ghost predicate RoundsToNearestEven(f: Format, pattern: nat, exact: nat) {
    && pattern < Infinity(f)
    && forall c: nat | c < Infinity(f) && c != pattern ::
         Closer(Distance(Units(f, pattern), exact), Distance(Units(f, c), exact), pattern)
  }

  // ------------------------------------------------------------------ lemmas

  lemma FormatValues()
    ensures Bias(BINARY32) == 127 && Bias(BINARY64) == 1023 && Bias(BINARY128) == 16383
    ensures UnitScale(BINARY32) == 149 && UnitScale(BINARY64) == 1074 && UnitScale(BINARY128) == 16494
  {
    assert Pow2(8) == 256 && Pow2(11) == 2048 && Pow2(15) == 32768;
  }

  /** A significand with its leading bit set, or carried to the next power of two, keeps its value when packed. */
  lemma PackedUnits(f: Format, t: nat, m: nat)
    requires Pow2(f.significandBits) <= m <= 2 * Pow2(f.significandBits)
    ensures Units(f, Scaled(t, f.significandBits) + m) == Scaled(m, t)
  {
    var s, one := f.significandBits, Pow2(f.significandBits);
    ScaledNext(t, s);
    if m < 2 * one {
      SplitUnique(Scaled(t, s) + m, s, t + 1, m - one);
    } else {
      ScaledNext(t + 1, s);
      SplitUnique(Scaled(t, s) + m, s, t + 2, 0);
      ScaledDouble(one, t);
    }
  }

  /** A larger pattern is a larger number. */
  lemma UnitsStep(f: Format, b: nat)
    ensures Units(f, b) < Units(f, b + 1)
  {
    hide Shr, Low, Pow2;
    var s, one := f.significandBits, Pow2(f.significandBits);
    var e, m := Shr(b, s), Low(b, s);
    SplitBits(b, s);
    if e == 0 {
      ScaledZero(s);
      if m + 1 < one {
        SplitUnique(b + 1, s, 0, m + 1);
      } else {
        ScaledOne(s);
        SplitUnique(b + 1, s, 1, 0);
      }
    } else {
      ScaledNext(e - 1, s);
      PackedUnits(f, e - 1, one + m);
      PackedUnits(f, e - 1, one + m + 1);
      ScaledStrict(one + m, one + m + 1, e - 1);
    }
  }

  lemma {:induction false} UnitsStrictlyMonotone(f: Format, b: nat, c: nat)
    requires b < c
    ensures Units(f, b) < Units(f, c)
    decreases c - b
  {
    UnitsStep(f, b);
    if b + 1 < c { UnitsStrictlyMonotone(f, b + 1, c); }
  }

  lemma UnitsInjective(f: Format, b: nat, c: nat)
    requires Units(f, b) == Units(f, c)
    ensures b == c
  {
    if b < c {
      UnitsStrictlyMonotone(f, b, c);
    } else if c < b {
      UnitsStrictlyMonotone(f, c, b);
    }
  }

  /** Beating both neighbours is beating every finite pattern. */
  lemma NearestAmongNeighbours(f: Format, b: nat, exact: nat)
    requires 0 < b < Infinity(f)
    requires 2 * exact < Units(f, b) + Units(f, b + 1) || (2 * exact == Units(f, b) + Units(f, b + 1) && b % 2 == 0)
    requires 2 * exact > Units(f, b) + Units(f, b - 1) || (2 * exact == Units(f, b) + Units(f, b - 1) && b % 2 == 0)
    ensures RoundsToNearestEven(f, b, exact)
  {
    forall c: nat | c < Infinity(f) && c != b
      ensures Closer(Distance(Units(f, b), exact), Distance(Units(f, c), exact), b)
    {
      if c > b {
        UnitsStrictlyMonotone(f, b, c);
        if c > b + 1 { UnitsStrictlyMonotone(f, b + 1, c); }
      } else {
        UnitsStrictlyMonotone(f, c, b);
        if c < b - 1 { UnitsStrictlyMonotone(f, c, b - 1); }
      }
    }
  }

  /** An exactly representable magnitude rounds to itself. */
  lemma ExactIsNearest(f: Format, b: nat)
    requires b < Infinity(f)
    ensures RoundsToNearestEven(f, b, Units(f, b))
  {
    forall c: nat | c < Infinity(f) && c != b
      ensures Closer(Distance(Units(f, b), Units(f, b)), Distance(Units(f, c), Units(f, b)), b)
    {
      if Units(f, c) == Units(f, b) { UnitsInjective(f, b, c); }
    }
  }

  /** Rounding to nearest even is monotone, by its definition alone. */
  lemma NearestEvenMonotone(f: Format, b: nat, x: nat, c: nat, y: nat)
    requires x <= y
    requires RoundsToNearestEven(f, b, x) && RoundsToNearestEven(f, c, y)
    ensures b <= c
  {
    if c < b {
      UnitsStrictlyMonotone(f, c, b);
      assert Closer(Distance(Units(f, b), x), Distance(Units(f, c), x), b);
      assert Closer(Distance(Units(f, c), y), Distance(Units(f, b), y), c);
      // x and y are the midpoint, both patterns are even, and the odd one after c is closer.
      UnitsStep(f, c);
      assert c + 1 < b;
      UnitsStrictlyMonotone(f, c + 1, b);
    }
  }

  /** At most one pattern is the nearest even one. */
  lemma NearestEvenUnique(f: Format, b: nat, c: nat, exact: nat)
    requires RoundsToNearestEven(f, b, exact) && RoundsToNearestEven(f, c, exact)
    ensures b == c
  {
    NearestEvenMonotone(f, b, exact, c, exact);
    NearestEvenMonotone(f, c, exact, b, exact);
  }
}
