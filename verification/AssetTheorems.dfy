/**
 Printing and parsing assets undo each other, and exactly which texts parse.
 */
module AssetTheorems {
  import opened Common
  import Bits
  import opened Decimal
  import opened Symbols
  import opened Assets

  // --------------------------------------------------------- texts of assets

  /** A sign or none, then digits. */
  predicate IsSigned(t: string) { Unsigned(t) != "" && IsDigits(Unsigned(t)) }

  function Unsigned(t: string): string { if t != "" && (t[0] == '-' || t[0] == '+') then t[1..] else t }

  function SignedValue(t: string): int
    requires IsSigned(t)
  {
    if t[0] == '-' then 0 - ValueOf(Unsigned(t)) else ValueOf(Unsigned(t))
  }

  /** A whole part, and a point with a fraction unless `frac` is empty. */
  function Number(whole: string, frac: string): string
  {
    whole + (if frac == "" then "" else "." + frac)
  }

  /** The pieces of a text: white space, a number, a space, white space, a name, what follows a NUL, white space. */
  datatype Pieces = Pieces(left: string, whole: string, frac: string, gap: string, name: string, rest: string,
                           right: string) {

    function Joined(): string { left + (Number(whole, frac) + " " + (gap + Tail())) + right }

    function Tail(): string { name + rest }

    predicate Grammatical() {
      && IsBlank(left) && IsBlank(gap) && IsBlank(right)
      && IsSigned(whole) && (frac == "" || IsSigned(frac))
      && IsUpper(name) && |name| <= MAX_NAME && (rest == "" || rest[0] == NUL)
      && Tail() != "" && !IsSpace(Tail()[|Tail()| - 1])
    }

    /** The length of the fraction, sign included, in eight bits. */
    function Decimals(): nat { |frac| % 256 }

    function Fraction(): int
      requires Grammatical()
    {
      if frac == "" then 0 else SignedValue(frac)
    }

    /** The fraction counts toward the sign that the text starts with. */
    function Amount(): int
      requires Grammatical()
    {
      SignedValue(whole) * Pow10(Decimals()) + if whole[0] == '-' then 0 - Fraction() else Fraction()
    }

    predicate InRange()
      requires Grammatical()
    {
      && |frac| <= INT64_MAX && Decimals() <= MAX_PRECISION
      && INT64_MIN <= Fraction() <= INT64_MAX && (whole[0] == '-' ==> Fraction() != INT64_MIN)
      && INT64_MIN <= SignedValue(whole) * Pow10(Decimals()) <= INT64_MAX
      && -MAX_AMOUNT <= Amount() <= MAX_AMOUNT
    }
  }

  const NUL: char := 0 as char

  // ------------------------------------------------------ taking text apart

  lemma DigitsHaveNo(s: string, c: char)
    requires IsDigits(s) && !IsDigit(c)
    ensures c !in s
  {}

  lemma SignedHasNo(t: string, c: char)
    requires IsSigned(t) && !IsDigit(c) && c != '-' && c != '+'
    ensures c !in t && t != "" && !IsSpace(t[0])
  {
    DigitsHaveNo(Unsigned(t), c);
    if t[0] == '-' || t[0] == '+' { assert t == [t[0]] + Unsigned(t); } else { assert IsDigit(t[0]); }
  }

  lemma NumberShape(whole: string, frac: string)
    requires IsSigned(whole) && (frac == "" || IsSigned(frac))
    ensures var t := Number(whole, frac);
            && whole != "" && t != "" && t[0] == whole[0] && !IsSpace(t[0]) && ' ' !in t
            && Find(t, '.') == |whole| && t[..|whole|] == whole
            && |t| == |whole| + (if frac == "" then 0 else 1 + |frac|)
            && (frac != "" ==> t[|whole| + 1..] == frac)
  {
    hide IsSigned, Find;
    var t := Number(whole, frac);
    SignedHasNo(whole, '.');
    SignedHasNo(whole, ' ');
    if frac == "" {
      assert t == whole;
      FindNone(whole, '.');
    } else {
      SignedHasNo(frac, ' ');
      assert t == whole + ['.'] + frac;
      FindFirst(whole, '.', frac);
    }
  }

  lemma TextShape(left: string, amount: string, gap: string, tail: string, right: string)
    requires IsBlank(left) && IsBlank(gap) && IsBlank(right)
    requires tail != "" && !IsSpace(tail[0]) && !IsSpace(tail[|tail| - 1])
    requires amount != "" && !IsSpace(amount[0]) && ' ' !in amount
    ensures var s := Trim(left + (amount + " " + (gap + tail)) + right);
            Find(s, ' ') == |amount| < |s| && s[..|amount|] == amount && Trim(s[|amount| + 1..]) == tail
  {
    hide Trim, Find;
    var s := amount + " " + (gap + tail);
    assert s[0] == amount[0] && s[|s| - 1] == tail[|tail| - 1];
    TrimPadded(left, s, right);
    FindFirst(amount, ' ', gap + tail);
    assert s == amount + [' '] + (gap + tail);
    assert s[|amount| + 1..] == gap + tail;
    assert gap + tail + "" == gap + tail;
    TrimPadded(gap, tail, "");
  }

  lemma ParsedByShape(from: string, amount: string, tail: string)
    requires var s := Trim(from);
             Find(s, ' ') == |amount| < |s| && s[..|amount|] == amount && Trim(s[|amount| + 1..]) == tail
    ensures Parsed(from) == ParsedParts(amount, tail)
  {
    hide Trim, Find, ParsedParts;
  }

  function FromParts(sym: Result<Symbol, Error>, whole: Result<int, Error>, fract: Result<int, Error>)
    : Result<Asset, Error>
  {
    var s :- sym;
    var w :- whole;
    var f :- fract;
    Combined(w, f, s)
  }

  lemma PartsByShape(t: string, whole: string, frac: string, tail: string)
    requires Find(t, '.') == |whole| && |whole| <= |t| && t[..|whole|] == whole
    requires |t| == |whole| + if frac == "" then 0 else 1 + |frac|
    ensures ParsedParts(t, tail)
            == FromParts(SymbolFromString(ToDecimal(|frac|) + "," + tail), ToInt64(whole), FractionOf(t, |whole|))
  {
    hide Find, ToDecimal, SymbolFromString, ToInt64, FractionOf, Combined;
    ZeroText();
  }

  lemma ZeroText()
    ensures ToDecimal(0) == "0"
  {}

  // -------------------------------------------------------- the three parts

  /** What the symbol's text comes to: the digit count in eight bits and the name up to a NUL. */
  lemma SymbolPart(k: nat, tail: string)
    requires tail != "" && !IsSpace(tail[|tail| - 1])
    ensures SymbolFromString(ToDecimal(k) + "," + tail)
            == if k > INT64_MAX then Err(NotAnInteger)
               else if k % 256 > MAX_PRECISION then Err(PrecisionTooLarge)
               else Encoded(k % 256, CString(tail))
  {
    hide Trim, Find, ToDecimal, ValueOf, Encoded, CString;
    var digits := ToDecimal(k);
    var s := digits + "," + tail;
    DigitsHaveNo(digits, ',');
    FindFirst(digits, ',', tail);
    assert s[0] == digits[0] && s[|s| - 1] == tail[|tail| - 1] && IsDigit(digits[0]);
    assert "" + s + "" == s;
    TrimPadded("", s, "");
    assert s[..|digits|] == digits && s[|digits| + 1..] == tail;
    assert digits[0] != '-' && digits[0] != '+';
    ValueOfToDecimal(k);
  }

  lemma NameBeforeNul(name: string, rest: string)
    requires IsUpper(name) && (rest == "" || rest[0] == NUL)
    ensures CString(name + rest) == name
  {
    hide Find;
    assert NUL !in name;
    if rest == "" {
      assert name + rest == name;
      FindNone(name, NUL);
    } else {
      assert name + rest == name + [NUL] + rest[1..];
      FindFirst(name, NUL, rest[1..]);
    }
  }

  lemma IntegerPart(t: string)
    ensures ToInt64(t)
            == if IsSigned(t) && INT64_MIN <= SignedValue(t) <= INT64_MAX then Ok(SignedValue(t))
               else Err(NotAnInteger)
  {}

  lemma FractionPart(x: Pieces)
    requires x.Grammatical()
    ensures FractionOf(Number(x.whole, x.frac), |x.whole|)
            == if !(INT64_MIN <= x.Fraction() <= INT64_MAX) then Err(NotAnInteger)
               else if x.whole[0] != '-' then Ok(x.Fraction())
               else if x.Fraction() != INT64_MIN then Ok(0 - x.Fraction()) else Err(Overflow)
  {
    hide Find, ToInt64, SignedValue, IsSigned, IsUpper, IsBlank;
    NumberShape(x.whole, x.frac);
    if x.frac != "" { IntegerPart(x.frac); }
  }

  // ----------------------------------------------------- which texts are accepted

  /** A text of these pieces is accepted if and only if its numbers are in range, and then it yields its amount. */
  lemma JoinedAccepted(x: Pieces)
    requires x.Grammatical()
    ensures Parsed(x.Joined()).Ok? <==> x.InRange()
    ensures x.InRange() ==> Parsed(x.Joined()) == Ok(Asset(x.Amount(), SymbolOf(x.Decimals(), x.name)))
    ensures |x.frac| <= INT64_MAX && x.Decimals() > MAX_PRECISION ==> Parsed(x.Joined()) == Err(PrecisionTooLarge)
  {
    hide Trim, Find, ToDecimal, Pow10, SignedValue, SymbolFromString, ToInt64, FractionOf, Combined,
         SymbolOf, CString, Parsed, ParsedParts, Number, IsSigned;
    var t, tail := Number(x.whole, x.frac), x.Tail();
    NumberShape(x.whole, x.frac);
    TextShape(x.left, t, x.gap, tail, x.right);
    ParsedByShape(x.Joined(), t, tail);
    PartsByShape(t, x.whole, x.frac, tail);
    SymbolPart(|x.frac|, tail);
    NameBeforeNul(x.name, x.rest);
    IntegerPart(x.whole);
    FractionPart(x);
    if x.Decimals() <= MAX_PRECISION {
      var f := if x.whole[0] == '-' then 0 - x.Fraction() else x.Fraction();
      CombinedIs(SignedValue(x.whole), f, SymbolOf(x.Decimals(), x.name));
    }
  }

  /** The checked product and sum, and the constructor's bound. */
  lemma CombinedIs(w: int, f: int, sym: Symbol)
    requires sym.Valid()
    ensures var product := w * Pow10(sym.Decimals());
            && (Combined(w, f, sym).Ok?
                <==> INT64_MIN <= product <= INT64_MAX && -MAX_AMOUNT <= product + f <= MAX_AMOUNT)
            && (Combined(w, f, sym).Ok? ==> Combined(w, f, sym).value == Asset(product + f, sym))
            && (INT64_MIN <= product <= INT64_MAX ==> INT64_MIN <= w <= INT64_MAX)
  {
    hide Scale10, IsUpper, Unpacked;
    Scale10AtLeast(1, sym.Decimals());
    FactorFits(w, Pow10(sym.Decimals()));
  }

  lemma FactorFits(w: int, p: nat)
    requires p > 0
    ensures (w >= 0 ==> w * p >= w) && (w <= 0 ==> w * p <= w)
  {
    if w >= 0 { Bits.MulMono(1, p, w); } else { Bits.MulMono(1, p, 0 - w); }
  }

  /** The symbol's text behind the first space is not empty, and what is trimmed off it stands in front. */
  lemma TailSplit(s: string, space: nat) returns (gap: string)
    requires space < |s| && !IsSpace(s[|s| - 1]) && IsSpace(s[space])
    ensures var tail := Trim(s[space + 1..]);
            && IsBlank(gap) && s[space + 1..] == gap + tail
            && tail != "" && !IsSpace(tail[0]) && !IsSpace(tail[|tail| - 1])
  {
    hide Trim;
    var after := s[space + 1..];
    var right: string;
    gap, right := TrimSplit(after);
    assert after != "" && after[|after| - 1] == s[|s| - 1];
    var tail := Trim(after);
  }

  /** Every accepted text has such pieces. */
  lemma AcceptedHasPieces(from: string) returns (x: Pieces)
    requires Parsed(from).Ok?
    ensures x.Grammatical() && x.InRange() && from == x.Joined()
  {
    hide Trim, ToDecimal, SymbolFromString, ToInt64, FractionOf, Combined, CString, ParsedParts, IsSigned, SignedValue,
         Find, Encoded;
    var left, right := TrimSplit(from);
    var s := Trim(from);
    var space := Find(s, ' ');
    var gap := TailSplit(s, space);
    var t, tail := s[..space], Trim(s[space + 1..]);
    assert s == t + " " + (gap + tail);
    var whole, frac := NumberSplit(t, tail);
    var name, rest := NameSplit(|frac|, tail);
    x := Pieces(left, whole, frac, gap, name, rest, right);
    assert x.Tail() == tail;
    JoinedAccepted(x);
  }

  lemma NumberSplit(t: string, tail: string) returns (whole: string, frac: string)
    requires ParsedParts(t, tail).Ok?
    ensures IsSigned(whole) && (frac == "" || IsSigned(frac)) && t == Number(whole, frac)
    ensures SymbolFromString(ToDecimal(|frac|) + "," + tail).Ok?
  {
    hide ToDecimal, SymbolFromString, Combined, ToInt64, IsSigned, SignedValue, Find;
    var dot := Find(t, '.');
    whole, frac := t[..dot], if dot < |t| then t[dot + 1..] else "";
    PartsByShape(t, whole, frac, tail);
    IntegerPart(whole);
    if frac != "" {
      assert t == whole + "." + frac;
      IntegerPart(frac);
    }
  }

  lemma NameSplit(k: nat, tail: string) returns (name: string, rest: string)
    requires tail != "" && !IsSpace(tail[|tail| - 1]) && SymbolFromString(ToDecimal(k) + "," + tail).Ok?
    ensures tail == name + rest && IsUpper(name) && |name| <= MAX_NAME && (rest == "" || rest[0] == NUL)
  {
    hide ToDecimal, SymbolFromString, SymbolOf;
    SymbolPart(k, tail);
    name := CString(tail);
    rest := tail[|name|..];
  }

  /** Exactly these texts are accepted. */
  lemma AcceptedIff(from: string)
    ensures Parsed(from).Ok? <==> exists x: Pieces :: x.Grammatical() && x.InRange() && from == x.Joined()
  {
    hide Parsed;
    if Parsed(from).Ok? {
      var x := AcceptedHasPieces(from);
    }
    forall x: Pieces | x.Grammatical() && x.InRange() && from == x.Joined() ensures Parsed(from).Ok? {
      JoinedAccepted(x);
    }
  }

  // ------------------------------------------------------------- decimal numbers

  /** Optional minus, digits, and a point with digits unless `frac` is empty. */
  function AmountText(negative: bool, whole: string, frac: string): string { Number(Sign(negative) + whole, frac) }

  predicate WellFormed(whole: string, frac: string, name: string) {
    IsDigits(whole) && whole != "" && IsDigits(frac) && IsUpper(name) && 0 < |name| <= MAX_NAME
  }

  /** An amount and a name, with any white space around and between. */
  function FullText(left: string, amount: string, gap: string, name: string, right: string): string
  {
    left + (amount + " " + (gap + name)) + right
  }

  /** What the digits come to with the precision that the parser computes from a fraction of d digits. */
  function Units(whole: string, frac: string): nat
    requires IsDigits(whole) && IsDigits(frac)
  {
    Scale10(ValueOf(whole), |frac| % 256) + ValueOf(frac)
  }

  lemma SignedText(negative: bool, digits: string)
    requires IsDigits(digits) && digits != ""
    ensures var t := Sign(negative) + digits;
            && IsSigned(t) && (t[0] == '-' <==> negative)
            && SignedValue(t) == if negative then 0 - ValueOf(digits) else ValueOf(digits)
  {
    var t := Sign(negative) + digits;
    assert IsDigit(digits[0]);
    if negative { assert t[1..] == digits; } else { assert t == digits; }
  }

  /**
   With a fraction that has no sign of its own, the checked steps reject nothing that the final bound would
   accept.
   */
  lemma UnsignedInRange(negative: bool, w: nat, f: nat, d: nat)
    ensures var product := (if negative then 0 - w else w) * Pow10(d);
            var amount := product + if negative then 0 - f else f;
            var m := Scale10(w, d) + f;
            && amount == (if negative then 0 - m else m)
            && (f <= INT64_MAX && INT64_MIN <= product <= INT64_MAX && -MAX_AMOUNT <= amount <= MAX_AMOUNT
                <==> m <= MAX_AMOUNT)
  {
    hide Scale10;
    Scale10IsProduct(w, d);
    assert (0 - w) * Pow10(d) == 0 - w * Pow10(d);
  }

  /**
   Of a well-formed text: it is accepted if and only if the precision computed
   from the length of its fraction is at most 18 and the amount in smallest
   units is below 2^62, and then it yields that amount with that sign.
   */
  lemma WellFormedAccepted(negative: bool, whole: string, frac: string, name: string,
                           left: string, gap: string, right: string)
    requires WellFormed(whole, frac, name) && IsBlank(left) && IsBlank(gap) && IsBlank(right)
    ensures var r := Parsed(FullText(left, AmountText(negative, whole, frac), gap, name, right));
            var m, p := Units(whole, frac), |frac| % 256;
            && (r.Ok? <==> |frac| <= INT64_MAX && p <= MAX_PRECISION && m <= MAX_AMOUNT)
            && (r.Ok? ==> r.value == Asset(if negative then 0 - m else m, SymbolOf(p, name)))
            && (|frac| <= INT64_MAX && p > MAX_PRECISION ==> r == Err(PrecisionTooLarge))
  {
    hide Scale10, ValueOf, SymbolOf, Parsed, SignedValue, IsSigned;
    var x := Pieces(left, Sign(negative) + whole, frac, gap, name, "", right);
    assert x.Tail() == name;
    SignedText(negative, whole);
    FractionText(frac);
    UnsignedInRange(negative, ValueOf(whole), ValueOf(frac), |frac| % 256);
    JoinedAccepted(x);
  }

  lemma FractionText(frac: string)
    requires IsDigits(frac)
    ensures frac != "" ==> IsSigned(frac) && SignedValue(frac) == ValueOf(frac)
    ensures frac == "" ==> ValueOf(frac) == 0
  {
    if frac != "" {
      assert Sign(false) + frac == frac;
      SignedText(false, frac);
    }
  }

  /** The same without extra white space. */
  lemma PlainAccepted(negative: bool, whole: string, frac: string, name: string)
    requires WellFormed(whole, frac, name)
    ensures var r := Parsed(AmountText(negative, whole, frac) + " " + name);
            var m, p := Units(whole, frac), |frac| % 256;
            && (r.Ok? <==> |frac| <= INT64_MAX && p <= MAX_PRECISION && m <= MAX_AMOUNT)
            && (r.Ok? ==> r.value == Asset(if negative then 0 - m else m, SymbolOf(p, name)))
            && (|frac| <= INT64_MAX && p > MAX_PRECISION ==> r == Err(PrecisionTooLarge))
  {
    hide Parsed, Units, SymbolOf, AmountText, WellFormed;
    var t := AmountText(negative, whole, frac);
    assert FullText("", t, "", name, "") == t + " " + name;
    WellFormedAccepted(negative, whole, frac, name, "", "", "");
  }

  lemma ByteCut(n: nat)
    ensures n % 256 <= n && (n % 256 == n <==> n < 256)
  {}

  /** The asset denotes the decimal number written: whole.frac with this sign. */
  predicate Denotes(a: Asset, negative: bool, whole: string, frac: string)
    requires IsDigits(whole) && IsDigits(frac)
  {
    var m := Scale10(ValueOf(whole), |frac|) + ValueOf(frac);
    a.amount * Pow10(|frac|) == (if negative then 0 - m else m) * Pow10(a.sym.Decimals())
  }

  /**
   The precision is cut to eight bits, so a fraction of 256 digits or more can be
   accepted; the result denotes the number written exactly when the fraction is
   shorter than that or zero.
   */
  lemma AcceptedDenotesIff(negative: bool, whole: string, frac: string, name: string)
    requires WellFormed(whole, frac, name)
    requires Parsed(AmountText(negative, whole, frac) + " " + name).Ok?
    ensures Denotes(Parsed(AmountText(negative, whole, frac) + " " + name).value, negative, whole, frac)
            <==> |frac| < 256 || ValueOf(frac) == 0
  {
    hide Parsed, Units, ValueOf, SymbolOf, AmountText, Denotes;
    PlainAccepted(negative, whole, frac, name);
    DenotesIff(Parsed(AmountText(negative, whole, frac) + " " + name).value, negative, whole, frac);
  }

  lemma DenotesIff(a: Asset, negative: bool, whole: string, frac: string)
    requires IsDigits(whole) && IsDigits(frac) && a.sym.Decimals() == |frac| % 256
    requires a.amount == if negative then 0 - Units(whole, frac) else Units(whole, frac)
    ensures Denotes(a, negative, whole, frac) <==> |frac| < 256 || ValueOf(frac) == 0
  {
    hide Scale10, ValueOf, Unpacked;
    ByteCut(|frac|);
    var p, d, m := |frac| % 256, |frac|, Scale10(ValueOf(whole), |frac|) + ValueOf(frac);
    SameNumber(ValueOf(whole), ValueOf(frac), p, d);
    Scale10IsProduct(Units(whole, frac), d);
    Scale10IsProduct(m, p);
    SignedProducts(Units(whole, frac), Pow10(d), m, Pow10(p));
  }

  lemma SignedProducts(a: nat, b: nat, c: nat, d: nat)
    ensures (0 - a) * b == (0 - c) * d <==> a * b == c * d
  {
    assert (0 - a) * b == 0 - a * b && (0 - c) * d == 0 - c * d;
  }

  lemma SameNumber(w: nat, f: nat, p: nat, d: nat)
    requires p <= d
    ensures Scale10(Scale10(w, p) + f, d) == Scale10(Scale10(w, d) + f, p) <==> p == d || f == 0
  {
    hide Scale10;
    Scale10Add(Scale10(w, p), f, d);
    Scale10Twice(w, p, d);
    Scale10Add(Scale10(w, d), f, p);
    Scale10Twice(w, d, p);
    Scale10Injective(f, p, d);
  }

  lemma Scale10Injective(m: nat, a: nat, b: nat)
    requires a <= b
    ensures Scale10(m, a) == Scale10(m, b) <==> a == b || m == 0
  {
    Scale10Twice(m, a, b - a);
    Scale10Zero(a);
    Scale10Zero(b);
    Scale10AtLeast(m, a);
    if a < b { Scale10Grows(Scale10(m, a), b - a); }
  }

  lemma {:induction false} Scale10Zero(k: nat)
    ensures Scale10(0, k) == 0
  {
    if k != 0 { Scale10Zero(k - 1); }
  }

  lemma Scale10Grows(m: nat, k: nat)
    requires k > 0
    ensures m > 0 ==> Scale10(m, k) > m
  {
    Scale10AtLeast(m, k - 1);
  }

  function Zeros(n: nat): (s: string)
    ensures |s| == n && IsDigits(s)
  {
    if n == 0 then "" else Zeros(n - 1) + "0"
  }

  lemma {:induction false} ZerosAreZero(n: nat)
    ensures ValueOf(Zeros(n)) == 0
  {
    if n != 0 {
      ZerosAreZero(n - 1);
      DecimalLast(Zeros(n - 1), '0');
    }
  }

  /** "1.", 255 zeros and "5 CUR" is accepted as the amount 6 with no decimals. */
  lemma LongFractionMisread()
    ensures Parsed(AmountText(false, "1", Zeros(255) + "5") + " " + "CUR") == Ok(Asset(6, SymbolOf(0, "CUR")))
  {
    hide Parsed, SymbolOf, Zeros;
    var frac := Zeros(255) + "5";
    ZerosAreZero(255);
    DecimalLast(Zeros(255), '5');
    DecimalLast("", '1');
    assert "" + "1" == "1";
    PlainAccepted(false, "1", frac, "CUR");
  }

  /** "1.-5 CUR" is accepted as 0.95 CUR: the fraction may have a sign of its own, which counts as a digit. */
  lemma SignedFractionAccepted()
    ensures Parsed("1.-5 CUR") == Ok(Asset(95, SymbolOf(2, "CUR")))
  {
    hide Parsed, SymbolOf, SignedValue, IsSigned, Scale10, Number, ValueOf;
    var x := Pieces("", "1", "-5", "", "CUR", "", "");
    OneDigit('1');
    OneDigit('5');
    SignedText(true, "5");
    SignedText(false, "1");
    assert Sign(false) + "1" == "1" && Sign(true) + "5" == "-5";
    HundredIs();
    SignedFractionText();
    JoinedAccepted(x);
  }

  lemma SignedFractionText()
    ensures Pieces("", "1", "-5", "", "CUR", "", "").Joined() == "1.-5 CUR"
  {}

  lemma OneDigit(c: char)
    requires IsDigit(c)
    ensures ValueOf([c]) == DigitOf(c)
  {
    DecimalLast("", c);
    assert "" + [c] == [c];
  }

  lemma HundredIs()
    ensures Pow10(2) == 100
  {}

  /** A NUL behind the space hides the name: the text is accepted, and what it yields prints to a text that is not. */
  lemma NamelessAccepted()
    ensures Parsed("1 " + [NUL]) == Ok(Asset(1, Symbol(0))) && Asset(1, Symbol(0)).Valid()
    ensures Parsed(Text(Asset(1, Symbol(0)))) == Err(NoSpace)
  {
    hide Parsed, SignedValue, IsSigned;
    var x := Pieces("", "1", "", "", "", [NUL], "");
    OneDigit('1');
    SignedText(false, "1");
    assert Sign(false) + "1" == "1";
    JoinedAccepted(x);
    assert x.Joined() == "1 " + [NUL];
    PrintParse(Asset(1, Symbol(0)));
  }

  /** Parsing undoes printing if and only if the symbol has a name; without one the text has no inner space left. */
  lemma PrintParse(a: Asset)
    requires a.Valid()
    ensures Parsed(Text(a)) == if a.sym.Name() != "" then Ok(a) else Err(NoSpace)
  {
    hide Parsed, Scale10, ValueOf, SymbolOf, ToDecimal, Padded, Quotient10, Unpacked;
    var m, d, name := Bits.Abs(a.amount), a.sym.Decimals(), a.sym.Name();
    var whole, frac := ToDecimal(Quotient10(m, d)), Padded(m, d);
    TextIsAmountText(a);
    ByteCut(d);
    SymbolRebuilt(a.sym);
    PrintedUnits(m, d);
    if name != "" {
      PlainAccepted(a.amount < 0, whole, frac, name);
    } else {
      NamelessText(a.amount < 0, whole, frac);
    }
  }

  lemma TextIsAmountText(a: Asset)
    ensures var m, d := Bits.Abs(a.amount), a.sym.Decimals();
            Text(a) == AmountText(a.amount < 0, ToDecimal(Quotient10(m, d)), Padded(m, d)) + " " + a.sym.Name()
  {
    hide ToDecimal, Padded, Quotient10, Unpacked;
    var m, d := Bits.Abs(a.amount), a.sym.Decimals();
    var whole, frac := ToDecimal(Quotient10(m, d)), Padded(m, d);
    var tail := if frac == "" then "" else "." + frac;
    assert Sign(a.amount < 0) + (whole + tail) == Sign(a.amount < 0) + whole + tail;
  }

  lemma PrintedUnits(m: nat, d: nat)
    ensures Scale10(ValueOf(ToDecimal(Quotient10(m, d))), d) + ValueOf(Padded(m, d)) == m
  {
    ValueOfToDecimal(Quotient10(m, d));
    var r := SplitDigits(m, d);
    PaddedIgnoresHigh(Quotient10(m, d), r, d);
    ValueOfPadded(r, d);
  }

  lemma NamelessText(negative: bool, whole: string, frac: string)
    requires IsDigits(whole) && whole != "" && IsDigits(frac)
    ensures Parsed(AmountText(negative, whole, frac) + " " + "") == Err(NoSpace)
  {
    hide Parsed, Find, IsSigned, SignedValue, ValueOf;
    var t := AmountText(negative, whole, frac);
    SignedText(negative, whole);
    FractionText(frac);
    NumberShape(Sign(negative) + whole, frac);
    LastIsDigit(negative, whole, frac);
    NoInnerSpace(t);
    assert t + " " + "" == t + " ";
  }

  lemma NoInnerSpace(t: string)
    requires t != "" && !IsSpace(t[0]) && !IsSpace(t[|t| - 1]) && ' ' !in t
    ensures Parsed(t + " ") == Err(NoSpace)
  {
    hide Trim, Find, ParsedParts;
    assert "" + t + " " == t + " ";
    TrimPadded("", t, " ");
    FindNone(t, ' ');
  }

  lemma LastIsDigit(negative: bool, whole: string, frac: string)
    requires IsDigits(whole) && whole != "" && IsDigits(frac)
    ensures var t := AmountText(negative, whole, frac); t != "" && IsDigit(t[|t| - 1])
  {
    var t := AmountText(negative, whole, frac);
    if frac == "" {
      assert t[|t| - 1] == whole[|whole| - 1];
    } else {
      assert t[|t| - 1] == frac[|frac| - 1];
    }
  }

  /** What the parser accepts is a valid asset. */
  lemma ParsedIsValid(from: string)
    ensures Parsed(from).Ok? ==> Parsed(from).value.Valid()
  {
    hide Trim, Find, ToDecimal, SymbolFromString, ToInt64, Scale10, IsUpper, Unpacked;
  }

  /** Printing what was parsed and parsing it again changes nothing, if and only if the symbol has a name. */
  lemma ReparseStable(from: string)
    requires Parsed(from).Ok?
    ensures Parsed(Text(Parsed(from).value)) == Parsed(from) <==> Parsed(from).value.sym.Name() != ""
  {
    hide Parsed, Text, Unpacked;
    ParsedIsValid(from);
    PrintParse(Parsed(from).value);
  }

  /** Different assets print differently, nameless ones included. */
  lemma TextInjective(a: Asset, b: Asset)
    requires a.Valid() && b.Valid() && Text(a) == Text(b)
    ensures a == b
  {
    hide Parsed, Unpacked, NumberText, SymbolOf;
    PrintParse(a);
    PrintParse(b);
    if a.sym.Name() == "" {
      SymbolRebuilt(a.sym);
      SymbolRebuilt(b.sym);
      assert b.sym.Name() == "";
      var a', b' := Named(a), Named(b);
      assert Text(a') == Text(a) + "A" && Text(b') == Text(b) + "A";
      PrintParse(a');
      PrintParse(b');
    }
  }

  /** The same amount and decimals under the name A. */
  function Named(a: Asset): (r: Asset)
    requires a.Valid()
    ensures r.Valid() && r.sym.Name() == "A" && r.amount == a.amount && r.sym.Decimals() == a.sym.Decimals()
  {
    Asset(a.amount, SymbolOf(a.sym.Decimals(), "A"))
  }
}
