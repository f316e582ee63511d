/**
 name_suffix of unittests/misc_tests.cpp: the part of an account name after its
 last dot, computed on the packed number.
 */
module NameSuffixes {
  import opened Bits
  import opened Names

  /** The symbols of the suffix: trailing dots do not count, the rest is moved to the front. */
  function SuffixChars(s: seq<nat>): (t: seq<nat>)
    requires |s| == 13
    ensures |t| == 13
  {
    var suffix := AfterLastDot(TrimDots(s));
    suffix + Dots(13 - |suffix|)
  }

  /** The number of bits to the right of symbol i, or 0 if there is no such symbol. */
  function BitsAfter(i: int): int
  {
    if i < 0 then 0 else 59 - 5 * i
  }

  // -------------------------------------------------------------- the scan

  lemma DotStep(s: seq<nat>, x: nat)
    ensures x == 0 ==> LastDot(s + [x]) == |s| && TrimDots(s + [x]) == TrimDots(s)
    ensures x != 0 ==> LastDot(s + [x]) == LastDot(s) && TrimDots(s + [x]) == s + [x]
  {
    assert (s + [x])[..|s|] == s;
  }

  lemma SymbolByShift(n: nat, k: nat)
    requires k < 12
    ensures Chars(n)[k] == And(Shr(n, 59 - 5 * k), 31)
  {
    hide And, Shr, Low, Pow2, Digits;
    Pow2Values();
    AndMask(Shr(n, 59 - 5 * k), 5);
    ShiftIsDivision(n, 4);
    ShrShr(n, 4, 5 * (11 - k));
    DigitByShift(n / 16, 12, k);
  }

  lemma LastSymbol(n: nat)
    ensures Chars(n)[12] == And(n, 15)
  {
    hide And, Shr, Low, Pow2, Digits;
    Pow2Values();
    AndMask(n, 4);
    ShiftIsDivision(n, 4);
  }

  // ------------------------------------------------------------- the shift

  lemma {:induction false} AndScaled(x: nat, y: nat, k: nat)
    ensures And(x, Scaled(y, k)) == Scaled(And(Shr(x, k), y), k)
  {
    if k != 0 {
      AndScaled(x / 2, y, k - 1);
      if x == 0 {
        LowOfSmall(0, k);
        ScaledZero(k);
      }
    }
  }

  /** A mask of ones from bit 4 to bit r - 1. */
  lemma MaskFromFour(n: nat, r: nat)
    requires r >= 4
    ensures Pow2(r) >= 16 && And(n, Pow2(r) - 16) == Scaled(Low(Shr(n, 4), r - 4), 4)
  {
    hide And, Shr, Low, Scaled, Pow2;
    Pow2Values();
    Pow2Mono(4, r);
    Pow2Add(r - 4, 4);
    ScaledNext(Pow2(r - 4) - 1, 4);
    AndScaled(n, Pow2(r - 4) - 1, 4);
    AndMask(Shr(n, 4), r - 4);
  }

  /** The target symbols as a number, in the two pieces that the code adds up. */
  lemma ShiftedPieces(n: nat, d: nat)
    requires d <= 11
    ensures var c := Chars(n);
            var target := c[d + 1..] + Dots(d + 1);
            && IsName(target)
            && Encode(target) == Scaled(Scaled(Low(Shr(n, 4), 55 - 5 * d), 4), 5 + 5 * d) + Scaled(c[12], 4 + 5 * d)
  {
    hide And, Shr, Low, Scaled, Pow2, Digits, Value, Dots;
    var c := Chars(n);
    var m, t := Digits(n / 16, 12), c[12];
    var target := c[d + 1..] + Dots(d + 1);
    assert target[..12] == m[d + 1..] + [t] + Dots(d) && target[12] == 0;
    ValueShifted(m[d + 1..] + [t], d);
    ValueLast(m[d + 1..], t);
    ValueOfTail(n / 16, 12, d + 1);
    ShiftIsDivision(n, 4);
    Pow2Values();
    TwoPieces(Value(m[d + 1..]), t, d);
  }

  lemma TwoPieces(v: nat, t: nat, d: nat)
    ensures 16 * Scaled(32 * v + t, 5 * d) == Scaled(Scaled(v, 4), 5 + 5 * d) + Scaled(t, 4 + 5 * d)
  {
    hide Scaled, Pow2;
    Pow2Values();
    ScaledScaled(32 * v + t, 5 * d, 4);
    ScaledIsProduct(Scaled(32 * v + t, 5 * d), 4);
    ScaledAdd(32 * v, t, 5 * d + 4);
    ScaledIsProduct(v, 5);
    ScaledScaled(v, 5, 5 * d + 4);
    ScaledScaled(v, 4, 5 * d + 5);
  }

  lemma ValueLast(s: seq<nat>, t: nat)
    ensures Value(s + [t]) == 32 * Value(s) + t
  {
    assert (s + [t])[..|s|] == s;
  }

  lemma SuffixFrom(s: seq<nat>, d: nat)
    requires |s| == 13 && LastDot(TrimDots(s)) == d
    ensures d <= 11 && SuffixChars(s) == s[d + 1..] + Dots(d + 1)
  {
    hide TrimDots, LastDot, Dots;
    var t := TrimDots(s);
    TrimmedEnds(s);
    PaddedTail(s, |t|, d + 1);
    assert t[d + 1..] == s[d + 1..|t|];
  }

  /** Dropping trailing dots and padding again restores them. */
  lemma PaddedTail(s: seq<nat>, n: nat, from: nat)
    requires from <= n <= |s| && forall k | n <= k < |s| :: s[k] == 0
    ensures s[from..n] + Dots(|s| - (n - from)) == s[from..] + Dots(from)
  {
    hide Dots;
    var r, w := s[from..n] + Dots(|s| - (n - from)), s[from..] + Dots(from);
    forall k | 0 <= k < |s| ensures r[k] == w[k] {
      if k < n - from {
        assert r[k] == s[from + k] == w[k];
      } else if k < |s| - from {
        assert w[k] == s[from + k] == 0;
      }
    }
  }

  /** What TrimDots drops is dots, and what it keeps does not end in one. */
  lemma {:induction false} TrimmedEnds(s: seq<nat>)
    ensures var t := TrimDots(s);
            (t != [] ==> t[|t| - 1] != 0) && forall k | |t| <= k < |s| :: s[k] == 0
  {
    if s != [] && s[|s| - 1] == 0 {
      TrimmedEnds(s[..|s| - 1]);
    }
  }

  lemma NoDotNoChange(s: seq<nat>)
    requires |s| == 13 && LastDot(TrimDots(s)) == -1
    ensures SuffixChars(s) == s
  {
    hide TrimDots, LastDot, Dots;
    TrimmedEnds(s);
    var t := TrimDots(s);
    PaddedTail(s, |t|, 0);
    assert AfterLastDot(t) == t by { assert t[0..] == t; }
    assert s[0..|t|] == t;
    assert s[0..] + Dots(0) == s by { assert s[0..] == s && Dots(0) == []; }
  }

  // -------------------------------------------------------------- the method

  method NameSuffix(n: uint64) returns (r: nat)
    ensures r < Pow2(64) && Chars(r) == SuffixChars(Chars(n))
  {
    hide And, Shr, Low, Scaled, Pow2, Digits, Value, Chars, TrimDots;
    ghost var c := Chars(n);
    var afterLastActualDot, tmp := 0, 0;
    var remaining := 59;
    ghost var k := 0;
    while remaining >= 4
      invariant 0 <= k <= 12 && remaining == 59 - 5 * k
      invariant tmp == BitsAfter(LastDot(c[..k]))
      invariant afterLastActualDot == BitsAfter(LastDot(TrimDots(c[..k])))
    {
      SymbolByShift(n, k);
      DotStep(c[..k], c[k]);
      assert c[..k + 1] == c[..k] + [c[k]];
      if And(Shr(n, remaining), 31) == 0 {
        tmp := remaining;
      } else {
        afterLastActualDot := tmp;
      }
      remaining := remaining - 5;
      k := k + 1;
    }
    LastSymbol(n);
    DotStep(c[..12], c[12]);
    assert c == c[..12] + [c[12]];
    var thirteenth := And(n, 15);
    if thirteenth != 0 {
      afterLastActualDot := tmp;
    }
    ghost var d := LastDot(TrimDots(c));
    if afterLastActualDot == 0 {
      assert d == -1 by { if d >= 0 { SuffixFrom(c, d); } }
      NoDotNoChange(c);
      return n;
    }
    SuffixFrom(c, d);
    r := Shifted(n, afterLastActualDot, thirteenth, d);
  }

  /** The last lines: mask, shift, and the thirteenth symbol one bit lower. */
  method Shifted(n: uint64, remaining: nat, thirteenth: nat, ghost d: nat) returns (r: nat)
    requires d <= 11 && remaining == 59 - 5 * d && thirteenth == Chars(n)[12]
    ensures r < Pow2(64) && Chars(r) == Chars(n)[d + 1..] + Dots(d + 1)
  {
    hide And, Shr, Low, Scaled, Pow2, Digits, Value, Chars, Encode;
    ShiftedPieces(n, d);
    CharsEncode(Chars(n)[d + 1..] + Dots(d + 1));
    MaskFromFour(n, remaining);
    ScaledOne(remaining);
    Pow2Mono(remaining + 1, 64);
    Pow2Next(remaining, remaining + 1);
    ShlFits(1, remaining, 64);
    var mask := Shl(1, remaining, 64) - 16;
    var shift := 64 - remaining;
    ShlFits(And(n, mask), shift, 64);
    ShlFits(thirteenth, shift - 1, 64);
    LowOfSmall(Shl(And(n, mask), shift, 64) + Shl(thirteenth, shift - 1, 64), 64);
    r := Low(Shl(And(n, mask), shift, 64) + Shl(thirteenth, shift - 1, 64), 64);
  }

  // ------------------------------------------------------------ its meaning

  /** Without its padding, the suffix is what follows the last dot. */
  lemma SuffixTrimmed(s: seq<nat>)
    requires |s| == 13
    ensures TrimDots(SuffixChars(s)) == AfterLastDot(TrimDots(s))
  {
    hide TrimDots, LastDot, Dots;
    var t := AfterLastDot(TrimDots(s));
    TrimmedEnds(s);
    TrimAppended(t, 13 - |t|);
  }

  /** A suffix has no dot before its last symbol, so taking the suffix again changes nothing. */
  lemma SuffixIdempotent(s: seq<nat>)
    requires |s| == 13
    ensures SuffixChars(SuffixChars(s)) == SuffixChars(s)
  {
    hide TrimDots, LastDot, Dots;
    var t := AfterLastDot(TrimDots(s));
    SuffixTrimmed(s);
    assert LastDot(t) == -1;
    assert t[0..] == t;
  }

  lemma {:induction false} TrimAppended(t: seq<nat>, k: nat)
    requires t != [] ==> t[|t| - 1] != 0
    ensures TrimDots(t + Dots(k)) == t
  {
    if k == 0 {
      assert t + Dots(0) == t;
    } else {
      TrimAppended(t, k - 1);
      var s := t + Dots(k);
      assert s[..|s| - 1] == t + Dots(k - 1) && s[|s| - 1] == 0;
    }
  }
}
