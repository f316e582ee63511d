/**
 Decimal text and the small library functions that asset.cpp builds on:
 fc::to_string, fc::to_int64, fc::trim, string::find.
 */
module Decimal {
  import opened Common

  datatype Error =
    | NoSpace | MissingFraction | EmptySymbol | MissingComma | PrecisionTooLarge | InvalidCharacter
    | ShiftUndefined | NotAnInteger | Overflow | AmountTooLarge

  const INT64_MIN: int := -0x8000_0000_0000_0000
  const INT64_MAX: int := 0x7FFF_FFFF_FFFF_FFFF

  // ------------------------------------------------------------------ digits

  predicate IsDigit(c: char) { '0' <= c <= '9' }

  predicate IsDigits(s: string) { forall c <- s :: IsDigit(c) }

  function DigitOf(c: char): (d: nat)
    requires IsDigit(c)
    ensures d < 10
  {
    c as int - '0' as int
  }

  function CharOf(d: nat): (c: char)
    requires d < 10
    ensures IsDigit(c) && DigitOf(c) == d
  {
    (d + '0' as int) as char
  }

  /** The characters 0 to 9 stand for ten numbers below ten, in order. */
  lemma DigitsInOrder(c: char, d: char)
    requires '0' <= c < d <= '9'
    ensures IsDigit(c) && IsDigit(d) && DigitOf(c) < DigitOf(d)
  {}

  /** m * 10^k */
  function Scale10(m: nat, k: nat): nat
    decreases m, k
  {
    if k == 0 then m else 10 * Scale10(m, k - 1)
  }

  function Pow10(k: nat): nat { Scale10(1, k) }

  /** The number written by a string of digits. */
  function ValueOf(s: string): nat
    requires IsDigits(s)
  {
    if s == [] then 0 else 10 * ValueOf(s[..|s| - 1]) + DigitOf(s[|s| - 1])
  }

  /** The shortest decimal text of n. */
  function ToDecimal(n: nat): (s: string)
    ensures IsDigits(s) && s != []
  {
    if n < 10 then [CharOf(n)] else ToDecimal(n / 10) + [CharOf(n % 10)]
  }

  /** The low `width` decimal digits of n. */
  function Padded(n: nat, width: nat): (s: string)
    ensures IsDigits(s) && |s| == width
    decreases n, width
  {
    if width == 0 then [] else Padded(n / 10, width - 1) + [CharOf(n % 10)]
  }

  /** n without its low k digits. */
  function Quotient10(n: nat, k: nat): nat
    decreases n, k
  {
    if k == 0 then n else Quotient10(n / 10, k - 1)
  }

  lemma DecimalLast(s: string, c: char)
    requires IsDigits(s) && IsDigit(c)
    ensures IsDigits(s + [c]) && ValueOf(s + [c]) == 10 * ValueOf(s) + DigitOf(c)
  {
    assert (s + [c])[..|s|] == s;
  }

  lemma {:induction false} ValueOfToDecimal(n: nat)
    ensures ValueOf(ToDecimal(n)) == n
  {
    if n < 10 {
      DecimalLast([], CharOf(n));
      assert [] + [CharOf(n)] == ToDecimal(n);
    } else {
      ValueOfToDecimal(n / 10);
      DecimalLast(ToDecimal(n / 10), CharOf(n % 10));
    }
  }

  lemma {:induction false} ValueOfPadded(n: nat, width: nat)
    requires n < Pow10(width)
    ensures ValueOf(Padded(n, width)) == n
  {
    if width > 0 {
      ValueOfPadded(n / 10, width - 1);
      DecimalLast(Padded(n / 10, width - 1), CharOf(n % 10));
    }
  }

  /** Printing 10^width + n and erasing the leading 1 pads n with zeros. */
  lemma {:induction false} ErasedLeadingOne(n: nat, width: nat)
    requires n < Pow10(width)
    ensures ToDecimal(Pow10(width) + n)[1..] == Padded(n, width)
  {
    if width > 0 {
      ErasedLeadingOne(n / 10, width - 1);
      var m := Pow10(width) + n;
      assert m / 10 == Pow10(width - 1) + n / 10 && m % 10 == n % 10;
      assert ToDecimal(m) == ToDecimal(m / 10) + [CharOf(m % 10)];
      assert (ToDecimal(m / 10) + [CharOf(m % 10)])[1..] == ToDecimal(m / 10)[1..] + [CharOf(m % 10)];
    }
  }

  /** Digits without a superfluous zero in front are the shortest text of their number. */
  lemma {:induction false} ShortestText(s: string)
    requires IsDigits(s) && s != "" && (|s| > 1 ==> s[0] != '0')
    ensures ToDecimal(ValueOf(s)) == s && (|s| > 1 ==> ValueOf(s) >= 10)
  {
    var n := |s| - 1;
    var front, c := s[..n], s[n];
    assert s == front + [c];
    if n > 0 {
      ShortestText(front);
      if n == 1 { FirstDigit(front[0]); }
      LastDigit(ValueOf(front), DigitOf(c));
    } else {
      assert ValueOf(front) == 0;
    }
  }

  lemma FirstDigit(c: char)
    requires IsDigit(c) && c != '0'
    ensures ValueOf([c]) > 0
  {
    assert [c] == "" + [c];
    DecimalLast("", c);
  }

  lemma LastDigit(n: nat, d: nat)
    requires n > 0 && d < 10
    ensures ToDecimal(10 * n + d) == ToDecimal(n) + [CharOf(d)]
  {
    assert (10 * n + d) / 10 == n && (10 * n + d) % 10 == d;
  }

  lemma {:induction false} NoLeadingZero(n: nat)
    ensures var s := ToDecimal(n); (|s| > 1 ==> s[0] != '0') && (n > 0 ==> s[0] != '0')
  {
    if n >= 10 { NoLeadingZero(n / 10); }
  }

  lemma {:induction false} PaddedOfValue(s: string)
    requires IsDigits(s)
    ensures ValueOf(s) < Pow10(|s|) && Padded(ValueOf(s), |s|) == s
  {
    if s != "" {
      var n := |s| - 1;
      var front, c := s[..n], s[n];
      PaddedOfValue(front);
      assert s == front + [c];
      var v := ValueOf(front);
      assert (10 * v + DigitOf(c)) / 10 == v && (10 * v + DigitOf(c)) % 10 == DigitOf(c);
    }
  }

  lemma {:induction false} QuotientOf(w: nat, f: nat, k: nat)
    requires f < Pow10(k)
    ensures Quotient10(Scale10(w, k) + f, k) == w
  {
    if k > 0 {
      QuotientOf(w, f / 10, k - 1);
      var n := Scale10(w, k) + f;
      assert n / 10 == Scale10(w, k - 1) + f / 10;
    }
  }

  lemma {:induction false} Scale10Add(m: nat, n: nat, k: nat)
    ensures Scale10(m + n, k) == Scale10(m, k) + Scale10(n, k)
  {
    if k != 0 { Scale10Add(m, n, k - 1); }
  }

  lemma {:induction false} Scale10Twice(m: nat, a: nat, b: nat)
    ensures Scale10(Scale10(m, a), b) == Scale10(m, a + b)
  {
    if b != 0 { Scale10Twice(m, a, b - 1); }
  }

  lemma {:induction false} Scale10IsProduct(m: nat, k: nat)
    ensures Scale10(m, k) == m * Pow10(k)
  {
    if k != 0 {
      Scale10IsProduct(m, k - 1);
      assert m * (10 * Pow10(k - 1)) == 10 * (m * Pow10(k - 1));
    }
  }

  lemma {:induction false} Scale10AtLeast(m: nat, k: nat)
    ensures m <= Scale10(m, k) && Pow10(k) > 0
  {
    if k != 0 { Scale10AtLeast(m, k - 1); }
  }

  /** Quotient and remainder by a power of ten. */
  lemma {:induction false} SplitDigits(n: nat, k: nat) returns (r: nat)
    ensures r < Pow10(k) && n == Scale10(Quotient10(n, k), k) + r
  {
    if k == 0 {
      r := 0;
    } else {
      var r' := SplitDigits(n / 10, k - 1);
      r := 10 * r' + n % 10;
    }
  }

  // ------------------------------------------------------------------ search

  /** The position of the first c in s, or |s|. */
  function Find(s: string, c: char): (n: nat)
    ensures n <= |s| && (n < |s| ==> s[n] == c) && c !in s[..n]
  {
    if s == [] then 0 else if s[0] == c then 0 else 1 + Find(s[1..], c)
  }

  lemma FindFirst(a: string, c: char, b: string)
    requires c !in a
    ensures Find(a + [c] + b, c) == |a|
  {
    var s := a + [c] + b;
    assert s[|a|] == c && s[..|a|] == a;
  }

  lemma FindNone(s: string, c: char)
    requires c !in s
    ensures Find(s, c) == |s|
  {}

  // -------------------------------------------------------------- white space

  predicate IsSpace(c: char) {
    c == ' ' || c == '\t' || c == '\n' || c == '\r' || c == 11 as char || c == 12 as char
  }

  predicate IsBlank(s: string) { forall c <- s :: IsSpace(c) }

  function TrimLeft(s: string): string
  {
    if s != [] && IsSpace(s[0]) then TrimLeft(s[1..]) else s
  }

  function TrimRight(s: string): string
  {
    if s != [] && IsSpace(s[|s| - 1]) then TrimRight(s[..|s| - 1]) else s
  }

  /** fc::trim */
  function Trim(s: string): string { TrimRight(TrimLeft(s)) }

  lemma {:induction false} TrimLeftBlank(blank: string, s: string)
    requires IsBlank(blank) && (s != [] ==> !IsSpace(s[0]))
    ensures TrimLeft(blank + s) == s
  {
    if blank == [] {
      assert blank + s == s;
    } else {
      TrimLeftBlank(blank[1..], s);
      assert (blank + s)[1..] == blank[1..] + s;
    }
  }

  lemma {:induction false} TrimRightBlank(s: string, blank: string)
    requires IsBlank(blank) && (s != [] ==> !IsSpace(s[|s| - 1]))
    ensures TrimRight(s + blank) == s
  {
    if blank == [] {
      assert s + blank == s;
    } else {
      var n := |blank| - 1;
      TrimRightBlank(s, blank[..n]);
      assert (s + blank)[..|s + blank| - 1] == s + blank[..n];
    }
  }

  lemma {:induction false} TrimLeftSplit(s: string) returns (left: string)
    ensures IsBlank(left) && s == left + TrimLeft(s)
    ensures TrimLeft(s) != "" ==> !IsSpace(TrimLeft(s)[0])
  {
    if s != [] && IsSpace(s[0]) {
      left := TrimLeftSplit(s[1..]);
      left := [s[0]] + left;
    } else {
      left := "";
    }
  }

  lemma {:induction false} TrimRightSplit(s: string) returns (right: string)
    ensures IsBlank(right) && s == TrimRight(s) + right
    ensures TrimRight(s) != "" ==> !IsSpace(TrimRight(s)[|TrimRight(s)| - 1])
  {
    if s != [] && IsSpace(s[|s| - 1]) {
      right := TrimRightSplit(s[..|s| - 1]);
      right := right + [s[|s| - 1]];
    } else {
      right := "";
    }
  }

  /** Trimming takes white space off both ends and nothing else. */
  lemma TrimSplit(s: string) returns (left: string, right: string)
    ensures IsBlank(left) && IsBlank(right) && s == left + Trim(s) + right
    ensures Trim(s) != "" ==> !IsSpace(Trim(s)[0]) && !IsSpace(Trim(s)[|Trim(s)| - 1])
  {
    left := TrimLeftSplit(s);
    right := TrimRightSplit(TrimLeft(s));
    if Trim(s) != "" { assert Trim(s)[0] == TrimLeft(s)[0]; }
  }

  lemma TrimPadded(left: string, s: string, right: string)
    requires IsBlank(left) && IsBlank(right) && s != [] && !IsSpace(s[0]) && !IsSpace(s[|s| - 1])
    ensures Trim(left + s + right) == s
  {
    assert left + s + right == left + (s + right);
    TrimLeftBlank(left, s + right);
    TrimRightBlank(s, right);
  }

  // --------------------------------------------------------- checked integers

  /** fc::to_int64: an optional sign and at least one digit, within the 64-bit range. */
  function ToInt64(s: string): Result<int, Error>
  {
    var digits := if s != [] && (s[0] == '-' || s[0] == '+') then s[1..] else s;
    if digits == [] || !IsDigits(digits) then Err(NotAnInteger)
    else
      var n: int := if s[0] == '-' then 0 - ValueOf(digits) else ValueOf(digits);
      if INT64_MIN <= n <= INT64_MAX then Ok(n) else Err(NotAnInteger)
  }

  /** safe<int64_t>: a result outside the 64-bit range is an exception. */
  function Checked(n: int): Result<int, Error>
  {
    if INT64_MIN <= n <= INT64_MAX then Ok(n) else Err(Overflow)
  }
}
