/**
 libraries/chain/asset.cpp: amounts of a token as text.
 */
module Assets {
  import opened Common
  import Bits
  import opened Decimal
  import opened Symbols

  const MAX_AMOUNT: int := 0x3FFF_FFFF_FFFF_FFFF

  datatype Asset = Asset(amount: int, sym: Symbol) {
    /** The constructor's two assertions. */
    predicate Valid() { -MAX_AMOUNT <= amount <= MAX_AMOUNT && sym.Valid() }
  }

  // ---------------------------------------------------------------- printing

  function Sign(negative: bool): string { if negative then "-" else "" }

  /** m smallest units with d decimals: the integer part, and a fraction padded to d digits. */
  function NumberText(m: nat, d: nat): string
  {
    ToDecimal(Quotient10(m, d)) + (if d == 0 then "" else "." + Padded(m, d))
  }

  /** The text of an asset. */
  function Text(a: Asset): string
  {
    Sign(a.amount < 0) + NumberText(Bits.Abs(a.amount), a.sym.Decimals()) + " " + a.sym.Name()
  }

  /** asset::to_string */
  method ToString(a: Asset) returns (text: string)
    requires a.Valid()
    ensures text == Text(a)
  {
    hide ToDecimal, Padded, Quotient10, Scale10, Unpacked;
    var sign := if a.amount < 0 then "-" else "";
    var absAmount := Bits.Abs(a.amount);
    var p := Precision(a.sym);
    var precision := p.value;
    DivisionByPow10(absAmount, a.sym.Decimals());
    var result := ToDecimal(absAmount / precision);
    if a.sym.Decimals() != 0 {
      var fract := absAmount % precision;
      ErasedLeadingOne(fract, a.sym.Decimals());
      result := result + ("." + ToDecimal(precision + fract)[1..]);
    }
    var name := SymbolName(a.sym);
    text := sign + result + " " + name;
  }

  lemma DivisionByPow10(n: nat, k: nat)
    ensures Pow10(k) > 0 && n / Pow10(k) == Quotient10(n, k)
    ensures n % Pow10(k) < Pow10(k) && Padded(n % Pow10(k), k) == Padded(n, k)
  {
    Scale10AtLeast(1, k);
    var r := SplitDigits(n, k);
    Scale10IsProduct(Quotient10(n, k), k);
    Bits.DivModUnique(n, Pow10(k), Quotient10(n, k), r);
    PaddedIgnoresHigh(Quotient10(n, k), r, k);
  }

  lemma {:induction false} PaddedIgnoresHigh(q: nat, r: nat, k: nat)
    requires r < Pow10(k)
    ensures Padded(Scale10(q, k) + r, k) == Padded(r, k)
  {
    if k > 0 {
      PaddedIgnoresHigh(q, r / 10, k - 1);
      var n := Scale10(q, k) + r;
      assert n / 10 == Scale10(q, k - 1) + r / 10 && n % 10 == r % 10;
    }
  }

  // ----------------------------------------------------------------- parsing

  /** asset::from_string */
  function Parsed(from: string): Result<Asset, Error>
  {
    var s := Trim(from);
    var space := Find(s, ' ');
    if space == |s| then Err(NoSpace) else ParsedParts(s[..space], Trim(s[space + 1..]))
  }

  /** The text before the first space and the trimmed text after it. */
  function ParsedParts(amountText: string, symbolText: string): Result<Asset, Error>
  {
    var dot := Find(amountText, '.');
    if dot < |amountText| && dot == |amountText| - 1 then Err(MissingFraction)
    else
      var digits := if dot < |amountText| then ToDecimal(|amountText| - dot - 1) else "0";
      var sym :- SymbolFromString(digits + "," + symbolText);
      var whole :- ToInt64(amountText[..dot]);
      var fract :- FractionOf(amountText, dot);
      Combined(whole, fract, sym)
  }

  /** Checked arithmetic: whole units and fraction to the smallest unit. */
  function Combined(whole: int, fract: int, sym: Symbol): Result<Asset, Error>
  {
    var scaled :- Checked(whole * Pow10(sym.Decimals()));
    var amount :- Checked(scaled + fract);
    Constructed(amount, sym)
  }

  /** The digits after the point, negated when the amount starts with a minus sign. */
  function FractionOf(amountText: string, dot: nat): Result<int, Error>
  {
    if dot >= |amountText| then Ok(0)
    else
      var f :- ToInt64(amountText[dot + 1..]);
      if amountText[0] == '-' then Checked(f * -1) else Ok(f)
  }

  /** The constructor of asset. */
  function Constructed(amount: int, sym: Symbol): Result<Asset, Error>
  {
    if !(-MAX_AMOUNT <= amount <= MAX_AMOUNT) then Err(AmountTooLarge)
    else if !sym.Valid() then Err(InvalidCharacter)
    else Ok(Asset(amount, sym))
  }

  method FromString(from: string) returns (r: Result<Asset, Error>)
    ensures r == Parsed(from)
  {
    hide Trim, Find, ToDecimal, SymbolFromString, ToInt64, Combined, Scale10, IsUpper, Unpacked;
    var s := Trim(from);
    var spacePos := Find(s, ' ');
    if spacePos == |s| {
      return Err(NoSpace);
    }
    var symbolStr := Trim(s[spacePos + 1..]);
    var amountStr := s[..spacePos];
    var dotPos := Find(amountStr, '.');
    if dotPos < |amountStr| {
      if dotPos == |amountStr| - 1 {
        return Err(MissingFraction);
      }
    }
    var precisionDigits := "0";
    if dotPos < |amountStr| {
      precisionDigits := ToDecimal(|amountStr| - dotPos - 1);
    }
    var sym :- SymbolFromString(precisionDigits + "," + symbolStr);
    var intPart, fractPart := 0, 0;
    if dotPos < |amountStr| {
      intPart :- ToInt64(amountStr[..dotPos]);
      fractPart :- ToInt64(amountStr[dotPos + 1..]);
      if amountStr[0] == '-' {
        fractPart :- Checked(fractPart * -1);
      }
    } else {
      assert amountStr[..dotPos] == amountStr;
      intPart :- ToInt64(amountStr);
    }
    EncodedIsValid(precisionDigits + "," + symbolStr);
    r := Combine(intPart, fractPart, sym);
  }

  /** The last lines of from_string. */
  method Combine(intPart: int, fractPart: int, sym: Symbol) returns (r: Result<Asset, Error>)
    requires sym.Valid()
    ensures r == Combined(intPart, fractPart, sym)
  {
    hide Scale10, IsUpper, Unpacked;
    var p := Precision(sym);
    var precision := p.value;
    var amount := intPart;
    amount :- Checked(amount * precision);
    amount :- Checked(amount + fractPart);
    r := Constructed(amount, sym);
  }

  lemma EncodedIsValid(from: string)
    ensures SymbolFromString(from).Ok? ==> SymbolFromString(from).value.Valid()
  {
    var s := Trim(from);
    if SymbolFromString(from).Ok? {
      var comma := Find(s, ',');
      var p := ToInt64(s[..comma]).value % 256;
      SymbolParts(p, CString(s[comma + 1..]));
    }
  }
}
