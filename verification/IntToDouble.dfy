/**
 128-bit integers to binary64: libraries/builtins/floatuntidf.c,
 libraries/builtins/floattidf.c and the leading-zero count of
 libraries/builtins/int_t.h.

 `NearestDouble` is the textbook rounding by quotient and remainder. The methods
 follow the C code (sticky bit, or-P-into-R, carry repair, packing) and are
 proved to compute it; the theorems are stated about it.
 */
module IntToDouble {
  import opened Bits

  const MANT_DIG: nat := 53

  // ------------------------------------------------------- the specification

  /** x / 2^drop rounded to the nearest integer, ties to even. */
  function RoundedShift(x: nat, drop: nat): nat
  {
    var q, r := Shr(x, drop), Low(x, drop);
    if 2 * r > Pow2(drop) || (2 * r == Pow2(drop) && q % 2 == 1) then q + 1 else q
  }

  /** x scaled to MANT_DIG significant bits; rounding may carry it to 2^MANT_DIG. */
  function Significand(x: nat): nat
  {
    var sd := BitLength(x);
    if sd <= MANT_DIG then Scaled(x, MANT_DIG - sd) else RoundedShift(x, sd - MANT_DIG)
  }

  /** The binary64 pattern of x. A significand carried to 2^53 carries on into the exponent field. */
  function NearestDouble(x: nat): nat
  {
    if x == 0 then 0 else Scaled(BitLength(x) + 1021, 52) + Significand(x)
  }

  // --------------------------------------------------- leading zeros, int_t.h

  /** The compiler builtin, undefined at 0. */
  function Clzll(x: uint64): nat
    requires x > 0
  {
    BitLengthBelow(x, 64);
    64 - BitLength(x)
  }

  /** -(high == 0) as a word of w bits. */
  function ZeroMask(high: nat, w: nat): (f: nat)
    ensures f < Pow2(w)
  {
    if high == 0 then Pow2(w) - 1 else 0
  }

  /** The high word of a unless it is zero, else the low word, chosen by masks instead of a branch. */
  function SelectWord(a: nat, w: nat): nat
  {
    var f := ZeroMask(Shr(a, w), w);
    Or(And(Shr(a, w), Not(f, w)), And(Low(a, w), f))
  }

  function Clzti2(a: uint128): (n: nat)
    requires a > 0
    ensures n == 128 - BitLength(a)
  {
    Pow2Add(64, 64);
    SelectedWord(a, 64);
    MaskedWidth(Shr(a, 64), 64, 32, 6);
    Pow2Values();
    Clzll(SelectWord(a, 64)) + And(Low(ZeroMask(Shr(a, 64), 64), 32), 64)
  }

  lemma SelectedWord(a: nat, w: nat)
    requires 0 < a < Scaled(Pow2(w), w)
    ensures 0 < SelectWord(a, w) < Pow2(w)
    ensures BitLength(a) == BitLength(SelectWord(a, w)) + if Shr(a, w) == 0 then 0 else w
  {
    hide Shr, Low, And, Or;
    var high, low := Shr(a, w), Low(a, w);
    SplitBits(a, w);
    ScaledZero(w);
    ShrBounds(a, w, 0, Pow2(w));
    AndZero(high);
    AndZero(low);
    if high == 0 {
      AndMask(low, w);
      LowOfSmall(low, w);
      OrZero(low);
    } else {
      AndMask(high, w);
      LowOfSmall(high, w);
      OrZero(high);
      BitLengthOfShr(a, w);
    }
  }

  /** Truncating the mask to v bits and masking it with 2^u yields 2^u or 0. */
  lemma MaskedWidth(high: nat, w: nat, v: nat, u: nat)
    requires u < v <= w
    ensures And(Low(ZeroMask(high, w), v), Pow2(u)) == if high == 0 then Pow2(u) else 0
  {
    hide Scaled, Shr, Low, Or, And, BitLength;
    LowOfSmall(0, v);
    AndZero(Pow2(u));
    if high == 0 {
      OnesLow(w - v, v);
      AndBit(Pow2(v) - 1, u);
      OnesLow(v - u, u);
      ScaledOne(u);
      OddOnes(v - u);
    }
  }

  lemma OddOnes(n: nat)
    requires n > 0
    ensures (Pow2(n) - 1) % 2 == 1
  {}

  lemma OnesLow(a: nat, b: nat)
    ensures Shr(Pow2(a + b) - 1, b) == Pow2(a) - 1 && Low(Pow2(a + b) - 1, b) == Pow2(b) - 1
  {
    hide Shr, Low, And, Or;
    Pow2Add(a, b);
    ScaledNext(Pow2(a) - 1, b);
    SplitUnique(Pow2(a + b) - 1, b, Pow2(a) - 1, Pow2(b) - 1);
  }

  // ------------------------------------------------------- the rounding steps

  lemma SignificandRange(x: nat)
    requires x > 0
    ensures Pow2(52) <= Significand(x) <= Pow2(53)
    ensures BitLength(x) <= MANT_DIG ==> Significand(x) < Pow2(53)
  {
    hide Scaled, Shr, Low, Or, And, BitLength;
    if BitLength(x) <= MANT_DIG {
      ShortRange(x, MANT_DIG);
    } else {
      QuotientRange(x, BitLength(x) - MANT_DIG, MANT_DIG);
    }
  }

  lemma ShortRange(x: nat, n: nat)
    requires x > 0 && BitLength(x) <= n
    ensures Pow2(n - 1) <= Scaled(x, n - BitLength(x)) < Pow2(n)
  {
    hide Scaled, Shr, Low, Or, And, BitLength;
    var sd, k := BitLength(x), n - BitLength(x);
    BitLengthBounds(x);
    Pow2Add(sd - 1, k);
    Pow2Add(sd, k);
    ScaledMono(Pow2(sd - 1), x, k);
    ScaledStrict(x, Pow2(sd), k);
  }

  lemma QuotientRange(x: nat, drop: nat, n: nat)
    requires BitLength(x) == drop + n && n > 0
    ensures Pow2(n - 1) <= Shr(x, drop) < Pow2(n)
  {
    hide Scaled, Shr, Low, Or, And, BitLength;
    BitLengthBounds(x);
    Pow2Add(n - 1, drop);
    Pow2Add(n, drop);
    ShrBounds(x, drop, Pow2(n - 1), Pow2(n));
  }

  /** a is the quotient of x by 2^drop, followed by a round bit and a sticky bit. */
  ghost predicate Condensed(a: nat, x: nat, drop: nat)
    requires drop > 0
  {
    && Shr(a, 2) == Shr(x, drop)
    && (Shr(a, 1) % 2 == 1 <==> Low(x, drop) >= Pow2(drop - 1))
    && (a % 2 == 1 <==> Low(x, drop - 1) != 0)
  }

  lemma CondensedByDoubling(x: nat, width: nat)
    requires BitLength(x) < width
    ensures Condensed(Shl(x, 1, width), x, 1)
  {
    hide Shr, Low, Scaled, Pow2, BitLength;
    ShiftZeroAndOne(x);
    DoubledFits(x, width);
    ShlFits(x, 1, width);
    ShrTwo(2 * x);
    ShrTwo(x);
    LowTwo(x);
    assert 2 * x / 4 == x / 2;
  }

  lemma DoubledFits(x: nat, width: nat)
    requires BitLength(x) < width
    ensures 2 * x < Pow2(width)
  {
    if x > 0 { BitLengthBounds(x); }
    Pow2Mono(BitLength(x) + 1, width);
  }

  lemma ShiftZeroAndOne(x: nat)
    ensures Scaled(x, 1) == 2 * x && Low(x, 0) == 0 && Pow2(0) == 1
  {}

  lemma CondensedAsIs(x: nat)
    ensures Condensed(x, x, 2)
  {
    ShrTwo(x);
    LowTwo(x);
    assert Pow2(1) == 2;
  }

  lemma CondensedByShift(x: nat, k: nat)
    ensures Condensed(Or(Shr(x, k), Flag(And(x, Pow2(k) - 1) != 0)), x, k + 2)
  {
    AndMask(x, k);
    StickyOr(Shr(x, k), Low(x, k) != 0);
    ShrShr(x, k, 2);
    RoundAndStickyBits(x, k);
  }

  /** Or-ing a sticky bit into y touches only its last bit. */
  lemma StickyOr(y: nat, sticky: bool)
    ensures var a := Or(y, Flag(sticky));
            Shr(a, 2) == Shr(y, 2) && Shr(a, 1) == y / 2 && (a % 2 == 1 <==> y % 2 == 1 || sticky)
  {
    OrFlag(y, sticky);
    ShrTwo(Or(y, Flag(sticky)));
    ShrTwo(y);
  }

  /** The two bits above the low k decide the comparisons that rounding makes. */
  lemma RoundAndStickyBits(x: nat, k: nat)
    ensures Shr(x, k) / 2 % 2 == 1 <==> Low(x, k + 2) >= Pow2(k + 1)
    ensures Shr(x, k) % 2 == 1 || Low(x, k) != 0 <==> Low(x, k + 1) != 0
  {
    var y := Shr(x, k);
    SplitBits(x, k);
    LowSplit(x, k, 1);
    LowSplit(x, k, 2);
    LowTwo(y);
    ModFour(y);
    TopTwoBits(y % 4, y % 2, k, Low(x, k));
  }

  lemma LowTwo(y: nat)
    ensures Low(y, 2) == y % 4 && Low(y, 1) == y % 2
  {
    ModFour(y);
  }

  lemma ModFour(y: nat)
    ensures y % 4 == 2 * (y / 2 % 2) + y % 2
  {}

  lemma TopTwoBits(c: nat, d: nat, k: nat, low: nat)
    requires c < 4 && d == c % 2 && low < Pow2(k)
    ensures c / 2 == 1 <==> Scaled(c, k) + low >= Pow2(k + 1)
    ensures d == 1 || low != 0 <==> Scaled(d, k) + low != 0
  {
    ScaledZero(k);
    ScaledOne(k);
    ScaledDouble(1, k);
    if c == 3 { ScaledMono(2, c, k); }
  }

  /** Brings a number of more than 53 digits to 55, the last of them sticky. */
  method Condense(x: uint128, sd: nat) returns (a: nat)
    requires MANT_DIG < sd == BitLength(x)
    ensures Condensed(a, x, sd - MANT_DIG)
  {
    hide Pow2, Scaled, Shr, Low, Or, And, BitLength;
    a := x;
    BitLengthBelow(x, 128);
    if sd == MANT_DIG + 1 {
      CondensedByDoubling(x, 128);
      a := Shl(a, 1, 128);
    } else if sd == MANT_DIG + 2 {
      CondensedAsIs(x);
    } else {
      var k := sd - (MANT_DIG + 2);
      OnesLow(k, 128 - k);
      CondensedByShift(x, k);
      a := Or(Shr(a, k), Flag(And(a, Shr(Pow2(128) - 1, 128 + (MANT_DIG + 2) - sd)) != 0));
    }
  }

  /** Or P into R, add one, drop two bits: rounds to nearest, ties to even. */
  lemma RoundingTrick(a: nat, x: nat, drop: nat)
    requires drop > 0 && Condensed(a, x, drop)
    ensures Shr(Or(a, Flag(And(a, 4) != 0)) + 1, 2) == RoundedShift(x, drop)
  {
    RoundBits(a);
    TieTest(x, drop);
  }

  lemma RoundBits(a: nat)
    ensures Shr(Or(a, Flag(And(a, 4) != 0)) + 1, 2)
            == Shr(a, 2) + Flag(Shr(a, 1) % 2 == 1 && (a % 2 == 1 || Shr(a, 2) % 2 == 1))
  {
    hide Or, And, Shr, Pow2;
    ShrTwo(a);
    var p := a / 4 % 2 == 1;
    assert And(a, 4) != 0 <==> p by {
      Pow2Values();
      AndBitTest(a, 2);
    }
    OrFlag(a, p);
    ShrTwo(Or(a, Flag(p)) + 1);
    QuarterOfNext(a, p);
  }

  lemma QuarterOfNext(a: nat, p: bool)
    ensures ((if p && a % 2 == 0 then a + 1 else a) + 1) / 4
            == a / 4 + Flag(a / 2 % 2 == 1 && (a % 2 == 1 || p))
  {
    var q := a / 4;
    if a == 4 * q {
    } else if a == 4 * q + 1 {
    } else if a == 4 * q + 2 {
    } else {
      assert a == 4 * q + 3;
    }
  }

  /** Comparing the remainder with half the divisor: its top bit, then the rest. */
  lemma TieTest(x: nat, drop: nat)
    requires drop > 0
    ensures 2 * Low(x, drop) > Pow2(drop) <==> Low(x, drop) >= Pow2(drop - 1) && Low(x, drop - 1) != 0
    ensures 2 * Low(x, drop) == Pow2(drop) <==> Low(x, drop) >= Pow2(drop - 1) && Low(x, drop - 1) == 0
  {
    var k := drop - 1;
    SplitBits(x, k);
    LowSplit(x, k, 1);
    LowTwo(Shr(x, k));
    ScaledZero(k);
    ScaledOne(k);
  }

  lemma ShrTwo(x: nat)
    ensures Shr(x, 1) == x / 2 && Shr(x, 2) == x / 4
  {
    assert Shr(x, 2) == Shr(x / 2, 1) == Shr(x / 2 / 2, 0);
    assert Shr(x, 1) == Shr(x / 2, 0);
  }

  lemma CarryBit(m: nat, k: nat, width: nat)
    requires m <= Pow2(k) && k < width
    ensures And(m, Shl(1, k, width)) != 0 <==> m == Pow2(k)
  {
    hide Shr, Low, And, Or;
    Pow2Mono(k + 1, width);
    ScaledOne(k);
    ShlFits(1, k, width);
    AndBitTest(m, k);
    if m == Pow2(k) {
      SplitUnique(m, k, 1, 0);
    } else {
      LowOfSmall(m, k);
    }
  }

  lemma ShortSignificand(x: nat, width: nat)
    requires 0 < BitLength(x) <= MANT_DIG <= width
    ensures Shl(x, MANT_DIG - BitLength(x), width) == Significand(x)
  {
    SignificandRange(x);
    Pow2Mono(MANT_DIG, width);
    ShlFits(x, MANT_DIG - BitLength(x), width);
  }

  /** A 53-bit significand and an exponent that together make up the pattern of x. */
  ghost predicate Normalised(a: nat, e: nat, x: nat) {
    Pow2(52) <= a < Pow2(53) && e <= 128 && Scaled(e + 1022, 52) + a == NearestDouble(x)
  }

  lemma WithoutCarry(x: uint128)
    requires x > 0 && Significand(x) != Pow2(53)
    ensures Normalised(Significand(x), BitLength(x) - 1, x)
  {
    SignificandRange(x);
    BitLengthBelow(x, 128);
  }

  /** Halving a carried significand and bumping the exponent leaves the packed value alone. */
  lemma WithCarry(x: uint128)
    requires x > 0 && Significand(x) == Pow2(53)
    ensures Normalised(Pow2(52), BitLength(x), x)
  {
    hide Significand;
    BitLengthBelow(x, 128);
    CarryMoves(BitLength(x) + 1021, 52);
  }

  lemma CarryMoves(n: nat, s: nat)
    ensures Scaled(n + 1, s) + Pow2(s) == Scaled(n, s) + Pow2(s + 1)
  {
    ScaledNext(n, s);
  }

  lemma HalvedPower(n: nat)
    requires n > 0
    ensures Shr(Pow2(n), 1) == Pow2(n - 1)
  {
    ShrTwo(Pow2(n));
  }

  /** Rounds a condensed number to 53 bits, or to 2^53. */
  method DropTwoBits(x: nat, drop: nat, condensed: nat) returns (a: nat)
    requires drop > 0 && Condensed(condensed, x, drop)
    ensures a == RoundedShift(x, drop)
  {
    hide Pow2, Scaled, Shr, Low, Or, And, BitLength;
    RoundingTrick(condensed, x, drop);
    a := condensed;
    a := Or(a, Flag(And(a, 4) != 0)); // or P into R
    a := a + 1;                       // may add a significant bit
    a := Shr(a, 2);                   // drop Q and R
  }

  /** More than 53 digits: round, and repair a carry into bit 53. */
  method RoundLong(x: uint128, sd: nat) returns (a: nat, e: nat)
    requires MANT_DIG < sd == BitLength(x)
    ensures Normalised(a, e, x)
  {
    hide Pow2, Scaled, Shr, Low, Or, And, BitLength;
    a := Condense(x, sd);
    a := DropTwoBits(x, sd - MANT_DIG, a);
    assert a == Significand(x);
    e := sd - 1;
    SignificandRange(x);
    CarryBit(a, MANT_DIG, 128);
    if And(a, Shl(1, MANT_DIG, 128)) != 0 {
      HalvedPower(MANT_DIG);
      WithCarry(x);
      a := Shr(a, 1);
      e := e + 1;
    } else {
      WithoutCarry(x);
    }
  }

  /** The steps that floatuntidf.c and floattidf.c share. */
  method RoundSignificand(x: uint128, sd: nat) returns (a: nat, e: nat)
    requires x > 0 && sd == BitLength(x)
    ensures Normalised(a, e, x)
  {
    hide Scaled, Shr, Low, Or, And, BitLength;
    if sd > MANT_DIG {
      a, e := RoundLong(x, sd);
    } else {
      SignificandRange(x);
      ShortSignificand(x, 128);
      WithoutCarry(x);
      a, e := Shl(x, MANT_DIG - sd, 128), sd - 1;
    }
  }

  // ------------------------------------------------------------------ packing

  /** fb.u.s.high without the sign: exponent and the top mantissa bits. */
  function HighWord(e: nat, a: nat): nat
  {
    Or(Shl(e + 1023, 20, 32), And(Low(Shr(a, 32), 32), Pow2(20) - 1))
  }

  /** The same with the sign mask s. */
  function SignedHighWord(s: nat, e: nat, a: nat): nat
  {
    Or(Or(And(Low(s, 32), Pow2(31)), Shl(e + 1023, 20, 32)), And(Low(Shr(a, 32), 32), Pow2(20) - 1))
  }

  /** The two 32-bit words of double_bits, little end first. */
  function JoinWords(high: nat, low: nat): nat
  {
    Scaled(high, 32) + low
  }

  /** An exponent field above u + v mantissa bits, written as two words of which the lower has v bits. */
  lemma FieldsJoined(n: nat, a: nat, u: nat, v: nat, t: nat)
    requires t == u + v && Pow2(t) <= a < Pow2(t + 1) && u < v
    ensures Low(Shr(a, v), v) == Shr(a, v)
    ensures And(Shr(a, v), Pow2(u) - 1) < Pow2(u)
    ensures Scaled(Scaled(n + 1, u) + And(Shr(a, v), Pow2(u) - 1), v) + Low(a, v) == Scaled(n, t) + a
  {
    hide Scaled, Shr, Low, Or, And, BitLength;
    var top := Shr(a, v);
    Pow2Add(u + 1, v);
    Pow2Add(u, v);
    ShrBounds(a, v, Pow2(u), Pow2(u + 1));
    Pow2Mono(u + 1, v);
    LowOfSmall(top, v);
    AndMask(top, u);
    SplitBits(top, u);
    LowSplit(a, v, u);
    ScaledOne(t);
    SplitUnique(a, t, 1, a - Pow2(t));
    ScaledAdd(Scaled(n + 1, u), Low(top, u), v);
    ScaledScaled(n + 1, u, v);
    ScaledNext(n, t);
  }

  /** The same words as the C expression forms them: shifted, masked and or-ed. */
  lemma WordsOred(n: nat, a: nat, u: nat, v: nat, t: nat, k: nat, signBit: nat, width: nat)
    requires t == u + v && Pow2(t) <= a < Pow2(t + 1) && n + 1 < Pow2(k)
    requires u + k == signBit < v && width == signBit + v
    ensures var high := Or(Shl(n + 1, u, v), And(Low(Shr(a, v), v), Pow2(u) - 1));
            high < Pow2(signBit) && Scaled(high, v) + Low(a, v) == Scaled(n, t) + a < Pow2(width)
  {
    hide Scaled, Shr, Low, Or, And, BitLength;
    FieldsJoined(n, a, u, v, t);
    ExponentFits(n + 1, u, k, v);
    OrDisjoint(n + 1, u, And(Shr(a, v), Pow2(u) - 1));
    ScaledStrict(n + 1, Pow2(k), u);
    Pow2Add(k, u);
    WordsFit(Scaled(n + 1, u) + And(Shr(a, v), Pow2(u) - 1), a, u + k, v);
  }

  lemma WordsJoined(e: nat, a: nat, x: nat)
    requires Normalised(a, e, x)
    ensures HighWord(e, a) < Pow2(31) && JoinWords(HighWord(e, a), Low(a, 32)) == NearestDouble(x) < Pow2(63)
  {
    hide Pow2, Scaled, Shr, Low, Or, And, BitLength;
    Pow2Values();
    WordsOred(e + 1022, a, 20, 32, 52, 11, 31, 63);
  }

  lemma ExponentFits(n: nat, u: nat, k: nat, width: nat)
    requires n < Pow2(k) && u + k <= width
    ensures Shl(n, u, width) == Scaled(n, u)
  {
    ScaledStrict(n, Pow2(k), u);
    Pow2Add(k, u);
    Pow2Mono(k + u, width);
    ShlFits(n, u, width);
  }

  lemma WordsFit(high: nat, a: nat, k: nat, v: nat)
    requires high < Pow2(k)
    ensures Scaled(high, v) + Low(a, v) < Pow2(k + v)
  {
    SplitBits(a, v);
    ScaledStrict(high, Pow2(k), v);
    Pow2Add(k, v);
  }

  // ---------------------------------------------------------- the conversions

  /** ___floatuntidf */
  method FloatUntiDf(a: uint128) returns (bits: uint64)
    ensures bits == NearestDouble(a)
  {
    hide Pow2, Scaled, Shr, Low, Or, And, BitLength;
    if a == 0 {
      return 0;
    }
    var sd := 128 - Clzti2(a);
    var m, e := RoundSignificand(a, sd);
    WordsJoined(e, m, a);
    Pow2Mono(63, 64);
    var high, low := HighWord(e, m), Low(m, 32);
    bits := JoinWords(high, low);
  }

  /** a >> (w - 1) of a signed word: all copies of the sign bit. */
  function SignMask(a: int, w: nat): (s: nat)
    ensures s < Pow2(w)
  {
    ZeroMask(Flag(a >= 0), w)
  }

  /** (a ^ s) - s is the absolute value, also of the most negative number. */
  function BranchlessAbs(a: int, w: nat): (x: nat)
    requires w > 0 && 0 <= a + Pow2(w - 1) && a < Pow2(w - 1)
    ensures x == Abs(a) < Pow2(w)
  {
    AbsByMask(a, w);
    SubWord(Xor(ToWord(a, w), SignMask(a, w)), SignMask(a, w), w)
  }

  lemma AbsByMask(a: int, w: nat)
    requires w > 0 && 0 <= a + Pow2(w - 1) && a < Pow2(w - 1)
    ensures SubWord(Xor(ToWord(a, w), SignMask(a, w)), SignMask(a, w), w) == Abs(a)
  {
    if a < 0 {
      XorOnes(ToWord(a, w), w);
      LowOfSmall(-a, w);
    } else {
      XorZero(a);
      ScaledOne(w);
      SplitUnique(a + Pow2(w), w, 1, a);
    }
  }

  /** The magnitude's pattern with the sign in bit 63. */
  function SignedNearestDouble(a: int): nat
  {
    (if a < 0 then Pow2(63) else 0) + NearestDouble(Abs(a))
  }

  lemma SignedWordsJoined(a: int, e: nat, m: nat)
    requires Normalised(m, e, Abs(a))
    ensures JoinWords(SignedHighWord(SignMask(a, 128), e, m), Low(m, 32)) == SignedNearestDouble(a) < Pow2(64)
  {
    hide Pow2, Scaled, Shr, Low, Or, And, BitLength;
    WordsJoined(e, m, Abs(a));
    var sign := if a < 0 then Pow2(31) else 0;
    assert SignedHighWord(SignMask(a, 128), e, m) == Or(sign, HighWord(e, m)) by {
      MaskedWidth(Flag(a >= 0), 128, 32, 31);
      OrAssociative(sign, Shl(e + 1023, 20, 32), And(Low(Shr(m, 32), 32), Pow2(20) - 1));
    }
    SignAbove(a < 0, HighWord(e, m), 31, 32, 63);
    Pow2Next(63, 64);
  }

  lemma SignAbove(negative: bool, high: nat, k: nat, v: nat, top: nat)
    requires high < Pow2(k) && top == k + v
    ensures var sign := if negative then Pow2(k) else 0;
            Scaled(Or(sign, high), v) == (if negative then Pow2(top) else 0) + Scaled(high, v)
  {
    if negative {
      ScaledOne(k);
      OrDisjoint(1, k, high);
      ScaledAdd(Pow2(k), high, v);
      Pow2Add(k, v);
    }
  }

  /** ___floattidf */
  method FloatTiDf(a: int128) returns (bits: uint64)
    ensures bits == SignedNearestDouble(a)
  {
    hide Pow2, Scaled, Shr, Low, Or, And, BitLength;
    if a == 0 {
      return 0;
    }
    var s := SignMask(a, 128);
    var x := BranchlessAbs(a, 128);
    var sd := 128 - Clzti2(x);
    var m, e := RoundSignificand(x, sd);
    SignedWordsJoined(a, e, m);
    var high := SignedHighWord(s, e, m);
    bits := JoinWords(high, Low(m, 32));
  }
}
