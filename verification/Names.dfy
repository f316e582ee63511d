/**
 Account names as 64-bit numbers: twelve 5-bit symbols and one 4-bit symbol,
 symbol 0 being the dot (libraries/chain/include/eosio/chain/name.hpp).
 */
module Names {
  import opened Bits

  /** The k base-32 digits of m, highest first. */
  function Digits(m: nat, k: nat): (s: seq<nat>)
    ensures |s| == k && forall i | 0 <= i < k :: s[i] < 32
    decreases m, k
  {
    if k == 0 then [] else Digits(m / 32, k - 1) + [m % 32]
  }

  function Value(s: seq<nat>): nat
  {
    if s == [] then 0 else 32 * Value(s[..|s| - 1]) + s[|s| - 1]
  }

  predicate IsName(s: seq<nat>) {
    |s| == 13 && (forall i | 0 <= i < 12 :: s[i] < 32) && s[12] < 16
  }

  /** The thirteen symbols of a name, first character first. */
  function Chars(n: nat): (s: seq<nat>)
    ensures IsName(s)
  {
    Digits(n / 16, 12) + [n % 16]
  }

  function Encode(s: seq<nat>): nat
    requires IsName(s)
  {
    16 * Value(s[..12]) + s[12]
  }

  /** Without the trailing dots. */
  function TrimDots(s: seq<nat>): (t: seq<nat>)
    ensures |t| <= |s| && t == s[..|t|]
  {
    if s != [] && s[|s| - 1] == 0 then TrimDots(s[..|s| - 1]) else s
  }

  function Dots(k: nat): (s: seq<nat>)
    ensures |s| == k && forall i | 0 <= i < k :: s[i] == 0
  {
    if k == 0 then [] else Dots(k - 1) + [0]
  }

  /** The index of the last dot, or -1. */
  function LastDot(s: seq<nat>): (i: int)
    ensures -1 <= i < |s| && (0 <= i ==> s[i] == 0) && forall k | i < k < |s| :: s[k] != 0
  {
    if s == [] then -1 else if s[|s| - 1] == 0 then |s| - 1 else LastDot(s[..|s| - 1])
  }

  function AfterLastDot(s: seq<nat>): seq<nat> { s[LastDot(s) + 1..] }

  // ------------------------------------------------------- numbers and symbols

  lemma {:induction false} ValueOfDigits(m: nat, k: nat)
    requires m < Pow2(5 * k)
    ensures Value(Digits(m, k)) == m
  {
    if k > 0 {
      Pow2FiveMore(5 * (k - 1));
      ValueOfDigits(m / 32, k - 1);
      assert Digits(m, k)[..k - 1] == Digits(m / 32, k - 1);
    }
  }

  lemma Pow2FiveMore(n: nat)
    ensures Pow2(n + 5) == 32 * Pow2(n)
  {
    assert Pow2(n + 5) == 2 * Pow2(n + 4) && Pow2(n + 4) == 2 * Pow2(n + 3);
    assert Pow2(n + 3) == 2 * Pow2(n + 2) && Pow2(n + 2) == 2 * Pow2(n + 1);
  }

  lemma {:induction false} DigitsOfValue(s: seq<nat>)
    requires forall i | 0 <= i < |s| :: s[i] < 32
    ensures Digits(Value(s), |s|) == s && Value(s) < Pow2(5 * |s|)
  {
    if s != [] {
      var t := s[..|s| - 1];
      DigitsOfValue(t);
      Pow2FiveMore(5 * |t|);
      LowDigit(Value(t), s[|s| - 1]);
      assert s == t + [s[|s| - 1]];
    }
  }

  lemma LowDigit(q: nat, r: nat)
    requires r < 32
    ensures (32 * q + r) / 32 == q && (32 * q + r) % 32 == r
  {}

  lemma LowNibble(q: nat, r: nat)
    requires r < 16
    ensures (16 * q + r) / 16 == q && (16 * q + r) % 16 == r
  {}

  lemma EncodeChars(n: uint64)
    ensures Encode(Chars(n)) == n
  {
    hide Digits, Value, Pow2, Scaled;
    Pow2Values();
    Pow2Add(60, 4);
    ScaledIsProduct(Pow2(60), 4);
    ValueOfDigits(n / 16, 12);
    assert Chars(n)[..12] == Digits(n / 16, 12);
  }

  lemma CharsEncode(s: seq<nat>)
    requires IsName(s)
    ensures Chars(Encode(s)) == s && Encode(s) < Pow2(64)
  {
    hide Digits, Value, Pow2, Scaled;
    DigitsOfValue(s[..12]);
    LowNibble(Value(s[..12]), s[12]);
    assert s == s[..12] + [s[12]];
    Pow2Values();
    Pow2Add(60, 4);
    ScaledIsProduct(Pow2(60), 4);
  }

  // -------------------------------------------------------- symbols and shifts

  lemma ShrFive(m: nat)
    ensures Shr(m, 5) == m / 32 && Low(m, 5) == m % 32
  {
    ShiftIsDivision(m, 5);
    Pow2Values();
  }

  /** A symbol by shifting and masking, as the code reads it. */
  lemma {:induction false} DigitByShift(m: nat, k: nat, i: nat)
    requires i < k
    ensures Digits(m, k)[i] == Low(Shr(m, 5 * (k - 1 - i)), 5)
  {
    if i == k - 1 {
      ShrFive(m);
    } else {
      DigitByShift(m / 32, k - 1, i);
      ShrFive(m);
      ShrShr(m, 5, 5 * (k - 2 - i));
    }
  }

  /** The digits from position j on make up the low bits. */
  lemma {:induction false} ValueOfTail(m: nat, k: nat, j: nat)
    requires j <= k
    ensures Value(Digits(m, k)[j..]) == Low(m, 5 * (k - j))
  {
    if j == k {
      assert Digits(m, k)[j..] == [];
    } else {
      ValueOfTail(m / 32, k - 1, j);
      var t := Digits(m, k)[j..];
      assert t[..|t| - 1] == Digits(m / 32, k - 1)[j..];
      ShrFive(m);
      LowSplit(m, 5, 5 * (k - 1 - j));
      ScaledIsProduct(Low(m / 32, 5 * (k - 1 - j)), 5);
      Pow2Values();
    }
  }

  lemma {:induction false} ValueShifted(s: seq<nat>, k: nat)
    ensures Value(s + Dots(k)) == Scaled(Value(s), 5 * k)
  {
    if k == 0 {
      assert s + Dots(0) == s;
    } else {
      ValueShifted(s, k - 1);
      var t := s + Dots(k);
      assert t[..|t| - 1] == s + Dots(k - 1);
      ScaledScaled(Value(s), 5 * (k - 1), 5);
      ScaledIsProduct(Scaled(Value(s), 5 * (k - 1)), 5);
      Pow2Values();
    }
  }
}
