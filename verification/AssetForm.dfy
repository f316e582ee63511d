/**
 The text of an asset, letter by letter: what printing produces, that nothing else of that form
 stands for the same asset, and which texts of that form are accepted.
 */
module AssetForm {
  import opened Common
  import opened Bits
  import opened Decimal
  import opened Symbols
  import opened Assets
  import opened AssetTheorems

  /** A minus sign or none, the whole part, a point and the fraction if there is one, one space, the name. */
  function Written(negative: bool, whole: string, frac: string, name: string): string
  {
    (if negative then "-" else "") + whole + (if frac == "" then "" else "." + frac) + " " + name
  }

  predicate IsName(name: string) { |name| <= 7 && forall c | c in name :: 'A' <= c <= 'Z' }

  predicate IsNumber(whole: string, frac: string) { whole != "" && IsDigits(whole) && IsDigits(frac) }

  /** No superfluous zero in front, and a minus sign only on a number that is not zero. */
  predicate IsCanonical(negative: bool, whole: string, frac: string)
    requires IsNumber(whole, frac)
  {
    (|whole| > 1 ==> whole[0] != '0') && (negative ==> ValueOf(whole) + ValueOf(frac) > 0)
  }

  /** What the digits come to in smallest units. */
  function SmallestUnits(whole: string, frac: string): nat
    requires IsNumber(whole, frac)
  {
    Scale10IsProduct(ValueOf(whole), |frac|);
    ValueOf(whole) * Pow10(|frac|) + ValueOf(frac)
  }

  /** The asset is the amount written, with as many decimals as the fraction has digits. */
  predicate StandsFor(a: Asset, negative: bool, whole: string, frac: string, name: string)
    requires IsNumber(whole, frac)
  {
    && a.amount == (if negative then 0 - SmallestUnits(whole, frac) else SmallestUnits(whole, frac))
    && a.sym.Decimals() == |frac| && a.sym.Name() == name
  }

  lemma CapitalLetters(name: string)
    ensures IsUpper(name) <==> forall c | c in name :: 'A' <= c <= 'Z'
  {
    if forall c | c in name :: 'A' <= c <= 'Z' {
      assert forall i | 0 <= i < |name| :: name[i] in name;
    }
  }

  lemma WrittenIs(negative: bool, whole: string, frac: string, name: string)
    ensures Written(negative, whole, frac, name) == AmountText(negative, whole, frac) + " " + name
  {
    var tail := if frac == "" then "" else "." + frac;
    assert (if negative then "-" else "") + whole + tail == AmountText(negative, whole, frac);
  }

  // -------------------------------------------------------------------- printing

  /** Every valid asset is printed in canonical form, a minus sign exactly for a negative amount. */
  lemma PrintedForm(a: Asset) returns (whole: string, frac: string)
    requires a.Valid()
    ensures IsNumber(whole, frac) && IsCanonical(a.amount < 0, whole, frac)
    ensures Text(a) == Written(a.amount < 0, whole, frac, a.sym.Name())
    ensures StandsFor(a, a.amount < 0, whole, frac, a.sym.Name())
  {
    hide ToDecimal, Padded, Quotient10, ValueOf, Scale10, Unpacked, Written, Text, AmountText;
    var m, d := Abs(a.amount), a.sym.Decimals();
    whole, frac := ToDecimal(Quotient10(m, d)), Padded(m, d);
    TextIsAmountText(a);
    WrittenIs(a.amount < 0, whole, frac, a.sym.Name());
    NoLeadingZero(Quotient10(m, d));
    PrintedUnits(m, d);
    Scale10IsProduct(ValueOf(whole), d);
    if ValueOf(whole) == 0 { Scale10Zero(d); }
  }

  /** A canonical text that stands for an asset is the text that is printed for it. */
  lemma FormIsUnique(a: Asset, negative: bool, whole: string, frac: string, name: string)
    requires a.Valid() && IsNumber(whole, frac) && IsCanonical(negative, whole, frac)
    requires StandsFor(a, negative, whole, frac, name)
    ensures Written(negative, whole, frac, name) == Text(a)
  {
    hide ToDecimal, Padded, Quotient10, ValueOf, Scale10, Unpacked, Written, Text, AmountText;
    var w, f, d := ValueOf(whole), ValueOf(frac), |frac|;
    var m := SmallestUnits(whole, frac);
    Scale10IsProduct(w, d);
    Scale10AtLeast(w, d);
    assert negative <==> a.amount < 0;
    assert Abs(a.amount) == m;
    PaddedOfValue(frac);
    QuotientOf(w, f, d);
    PaddedIgnoresHigh(w, f, d);
    ShortestText(whole);
    TextIsAmountText(a);
    WrittenIs(negative, whole, frac, name);
  }

  // --------------------------------------------------------------------- parsing

  /**
   With at most 18 fraction digits, a text is accepted exactly when its number is below 2^62, and stands for
   what it yields.
   */
  lemma ShortFractionExact(negative: bool, whole: string, frac: string, name: string)
    requires IsNumber(whole, frac) && |frac| <= 18 && IsName(name) && name != ""
    ensures Parsed(Written(negative, whole, frac, name)).Ok? <==> SmallestUnits(whole, frac) < Pow2(62)
    ensures Parsed(Written(negative, whole, frac, name)).Ok? ==>
              StandsFor(Parsed(Written(negative, whole, frac, name)).value, negative, whole, frac, name)
  {
    hide Parsed, Scale10, ValueOf, SymbolOf, AmountText, Written, Pow2, Unpacked;
    Pow2Large();
    ByteCut(|frac|);
    CapitalLetters(name);
    WrittenIs(negative, whole, frac, name);
    Scale10IsProduct(ValueOf(whole), |frac|);
    PlainAccepted(negative, whole, frac, name);
  }

  /** From 19 to 255 fraction digits it is refused for its precision. */
  lemma LongFractionRefused(negative: bool, whole: string, frac: string, name: string)
    requires IsNumber(whole, frac) && 18 < |frac| < 256 && IsName(name) && name != ""
    ensures Parsed(Written(negative, whole, frac, name)) == Err(PrecisionTooLarge)
  {
    hide Parsed, Scale10, ValueOf, SymbolOf, AmountText, Written;
    ByteCut(|frac|);
    CapitalLetters(name);
    WrittenIs(negative, whole, frac, name);
    PlainAccepted(negative, whole, frac, name);
  }

  /** A canonical text with at most 18 fraction digits that is accepted is printed again as it was. */
  lemma CanonicalReprinted(negative: bool, whole: string, frac: string, name: string)
    requires IsNumber(whole, frac) && IsCanonical(negative, whole, frac) && |frac| <= 18 && IsName(name) && name != ""
    requires SmallestUnits(whole, frac) < Pow2(62)
    ensures var t := Written(negative, whole, frac, name); Parsed(t).Ok? && Text(Parsed(t).value) == t
  {
    hide Parsed, Written, Text, Pow2;
    var t := Written(negative, whole, frac, name);
    ShortFractionExact(negative, whole, frac, name);
    ParsedIsValid(t);
    FormIsUnique(Parsed(t).value, negative, whole, frac, name);
  }

  /** A valid asset is below 2^62, has at most 18 decimals and a name of at most seven capital letters. */
  lemma ValidIff(a: Asset)
    ensures a.Valid() <==> (0 - Pow2(62) < a.amount < Pow2(62) && a.sym.Decimals() <= 18 && IsName(a.sym.Name()))
  {
    hide Pow2, Unpacked;
    Pow2Large();
    CapitalLetters(a.sym.Name());
    if a.sym.Valid() { SymbolRebuilt(a.sym); }
  }

  /** The whole part and the fraction are read as signed 64-bit numbers. */
  lemma IntegersFit(n: nat)
    ensures ToInt64(ToDecimal(n)) == if n < Pow2(63) then Ok(n) else Err(NotAnInteger)
    ensures ToInt64("-" + ToDecimal(n)) == if n <= Pow2(63) then Ok(0 - n) else Err(NotAnInteger)
  {
    hide Pow2, ToDecimal, ValueOf, ToInt64, IsSigned, SignedValue;
    var digits := ToDecimal(n);
    Pow2Large();
    ValueOfToDecimal(n);
    SignedText(true, digits);
    SignedText(false, digits);
    assert Sign(false) + digits == digits && Sign(true) + digits == "-" + digits;
    IntegerPart("-" + digits);
    IntegerPart(digits);
  }

  /** Without a space inside, a text is refused for that, and only then. */
  lemma NoSpaceIff(from: string)
    ensures Parsed(from) == Err(NoSpace) <==> ' ' !in Trim(from)
  {
    hide Trim, ParsedParts;
    var s := Trim(from);
    var space := Find(s, ' ');
    if space < |s| { OtherErrors(s[..space], Trim(s[space + 1..])); }
  }

  lemma OtherErrors(t: string, tail: string)
    ensures ParsedParts(t, tail) != Err(NoSpace)
  {
    hide Trim, Find, ToDecimal, ValueOf, SymbolOf, IsUpper;
  }

  /** A point needs a fraction behind it. */
  lemma DanglingPoint(whole: string, tail: string)
    requires IsDigits(whole) && whole != "" && tail != "" && !IsSpace(tail[0]) && !IsSpace(tail[|tail| - 1])
    ensures Parsed(whole + ". " + tail) == Err(MissingFraction)
  {
    hide Trim, Find, ParsedParts, Parsed;
    DigitsHaveNo(whole, '.');
    DigitsHaveNo(whole, ' ');
    var t := whole + ".";
    assert IsDigit(whole[0]) && t[0] == whole[0];
    TextShape("", t, "", tail, "");
    assert "" + (t + " " + ("" + tail)) + "" == whole + ". " + tail;
    ParsedByShape(whole + ". " + tail, t, tail);
    assert t == whole + ['.'] + "";
    FindFirst(whole, '.', "");
    PointLast(t, tail);
  }

  lemma PointLast(t: string, tail: string)
    requires t != "" && Find(t, '.') == |t| - 1
    ensures ParsedParts(t, tail) == Err(MissingFraction)
  {}

  predicate IsPadding(c: char) { c in [' ', '\t', '\n', '\r', 11 as char, 12 as char] }

  /** White space in front of a text or behind it does not matter. */
  lemma PaddingIgnored(from: string, c: char)
    requires IsPadding(c)
    ensures Parsed([c] + from) == Parsed(from) == Parsed(from + [c])
  {
    hide TrimRight, Find, ParsedParts;
    assert ([c] + from)[1..] == from;
    assert Trim([c] + from) == Trim(from);
    TrimLeftLonger(from, c);
    TrimRightLonger(TrimLeft(from), c);
    if TrimLeft(from) == "" { TrimNothing(); }
  }

  lemma TrimNothing()
    ensures TrimRight("") == ""
  {}

  lemma {:induction false} TrimLeftLonger(s: string, c: char)
    requires IsSpace(c)
    ensures TrimLeft(s + [c]) == if TrimLeft(s) == "" then "" else TrimLeft(s) + [c]
  {
    if s != "" && IsSpace(s[0]) {
      assert (s + [c])[1..] == s[1..] + [c];
      TrimLeftLonger(s[1..], c);
    } else if s == "" {
      assert (s + [c])[1..] == "";
    }
  }

  lemma TrimRightLonger(s: string, c: char)
    requires IsSpace(c)
    ensures TrimRight(s + [c]) == TrimRight(s)
  {
    assert (s + [c])[..|s|] == s;
  }
}
