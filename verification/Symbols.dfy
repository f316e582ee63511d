/**
 libraries/chain/include/eosio/chain/symbol.hpp: a token symbol packed into 64
 bits, the number of decimals in the low byte and the name above it.
 */
module Symbols {
  import opened Common
  import opened Bits
  import opened Decimal

  const MAX_PRECISION: nat := 18
  const MAX_NAME: nat := 7

  datatype Symbol = Symbol(value: uint64) {
    function Decimals(): (d: nat) ensures d < 256 { value % 256 }
    function Name(): string { Unpacked(value / 256) }
    predicate Valid() { Decimals() <= MAX_PRECISION && IsUpper(Name()) }
  }

  predicate IsUpper(s: string) { forall i | 0 <= i < |s| :: 'A' <= s[i] <= 'Z' }

  /** The name as a base-256 number, first character lowest. */
  function Packed(name: string): nat
  {
    if name == [] then 0 else name[0] as int + 256 * Packed(name[1..])
  }

  function Unpacked(v: nat): string
  {
    if v == 0 then [] else [(v % 256) as char] + Unpacked(v / 256)
  }

  /** What c_str() shows of a string: everything before the first NUL. */
  function CString(s: string): string
  {
    s[..Find(s, 0 as char)]
  }

  /**
   string_to_symbol, as a value. A name of more than seven letters shifts by 64 or more, which C++ leaves
   undefined.
   */
  function Encoded(precision: nat, name: string): Result<Symbol, Error>
    requires precision < 256
  {
    if !IsUpper(name) then Err(InvalidCharacter)
    else if |name| > MAX_NAME then Err(ShiftUndefined)
    else Ok(SymbolOf(precision, name))
  }

  function SymbolOf(precision: nat, name: string): (sym: Symbol)
    requires precision < 256 && IsUpper(name) && |name| <= MAX_NAME
    ensures sym.Decimals() == precision && sym.Name() == name
  {
    SymbolParts(precision, name);
    hide Packed, Unpacked, Pow2;
    Symbol(precision + 256 * Packed(name))
  }

  /** symbol::from_string. The precision is cut to eight bits before it is checked. */
  function SymbolFromString(from: string): Result<Symbol, Error>
  {
    var s := Trim(from);
    if s == [] then Err(EmptySymbol)
    else
      var comma := Find(s, ',');
      if comma == |s| then Err(MissingComma)
      else
        var n :- ToInt64(s[..comma]);
        var p := n % 256;
        if p > MAX_PRECISION then Err(PrecisionTooLarge) else Encoded(p, CString(s[comma + 1..]))
  }

  // ------------------------------------------------------------- round trips

  lemma {:induction false} UnpackedPacked(name: string)
    requires IsUpper(name)
    ensures Unpacked(Packed(name)) == name
  {
    if name != [] {
      UnpackedPacked(name[1..]);
      assert name == [name[0]] + name[1..] && 0 < name[0] as int < 256;
      LowByte(name[0] as int, Packed(name[1..]));
    }
  }

  lemma {:induction false} PackedUnpacked(v: nat)
    ensures Packed(Unpacked(v)) == v
  {
    if v != 0 {
      PackedUnpacked(v / 256);
      assert Unpacked(v)[1..] == Unpacked(v / 256);
    }
  }

  /** Decimals and name determine a symbol, and the other way round. */
  lemma SymbolParts(p: nat, name: string)
    requires p < 256 && IsUpper(name) && |name| <= MAX_NAME
    ensures var v := p + 256 * Packed(name); v < Pow2(64) && v % 256 == p && Unpacked(v / 256) == name
  {
    hide Packed, Unpacked, Pow2, Scaled;
    UnpackedPacked(name);
    PackedFits(name);
    LowByte(p, Packed(name));
    Pow2Mono(8 * |name|, 56);
    Pow2Add(56, 8);
    Scaled8(Pow2(56));
  }

  lemma LowByte(p: nat, n: nat)
    requires p < 256
    ensures (p + 256 * n) % 256 == p && (p + 256 * n) / 256 == n
  {}

  /** The precision is the lowest byte, the letters follow in order, and nothing is above them. */
  lemma SymbolBytes(precision: nat, name: string, i: nat)
    requires precision < 256 && IsUpper(name) && |name| <= 7
    ensures var v := SymbolOf(precision, name).value;
            && v % 256 == precision
            && (i < |name| ==> Shr(v, 8 * (i + 1)) % 256 == name[i] as int)
            && (i >= |name| ==> Shr(v, 8 * (i + 1)) == 0)
  {
    hide Shr, Packed, Pow2;
    var v := SymbolOf(precision, name).value;
    LowByte(precision, Packed(name));
    ByteUp(v, i);
    PackedBytes(name, i);
  }

  lemma {:induction false} PackedBytes(name: string, i: nat)
    requires IsUpper(name)
    ensures i < |name| ==> Shr(Packed(name), 8 * i) % 256 == name[i] as int
    ensures i >= |name| ==> Shr(Packed(name), 8 * i) == 0
  {
    hide Shr;
    if name == "" {
      ShrOfZero(8 * i);
    } else {
      LowByte(name[0] as int, Packed(name[1..]));
      if i == 0 {
        ShrNothing(Packed(name));
      } else {
        PackedBytes(name[1..], i - 1);
        ByteUp(Packed(name), i - 1);
      }
    }
  }

  lemma ByteUp(v: nat, i: nat)
    ensures Shr(v, 8 * (i + 1)) == Shr(v / 256, 8 * i)
  {
    hide Shr;
    ShrShr(v, 8, 8 * i);
    ShrByte(v);
  }

  lemma ShrByte(v: nat)
    ensures Shr(v, 8) == v / 256
  {
    hide Shr;
    ShiftIsDivision(v, 8);
    Pow2Values();
  }

  lemma ShrNothing(v: nat)
    ensures Shr(v, 0) == v
  {}

  lemma {:induction false} ShrOfZero(k: nat)
    ensures Shr(0, k) == 0
  {
    if k > 0 { ShrOfZero(k - 1); }
  }

  lemma SymbolRebuilt(sym: Symbol)
    requires sym.Valid()
    ensures |sym.Name()| <= MAX_NAME && sym == SymbolOf(sym.Decimals(), sym.Name())
  {
    var v: nat := sym.value / 256;
    PackedUnpacked(v);
    Pow2Add(56, 8);
    Scaled8(Pow2(56));
    UnpackedLength(v, 7);
  }

  lemma {:induction false} UnpackedLength(v: nat, n: nat)
    requires v < Pow2(8 * n)
    ensures |Unpacked(v)| <= n
  {
    if v != 0 {
      Pow2Add(8 * (n - 1), 8);
      Scaled8(Pow2(8 * (n - 1)));
      UnpackedLength(v / 256, n - 1);
    }
  }

  // ----------------------------------------------------- the loops in place

  lemma {:induction false} PackedAppend(name: string, c: char)
    ensures Packed(name + [c]) == Packed(name) + Scaled(c as int, 8 * |name|)
  {
    if name == [] {
      assert name + [c] == [c];
      assert Packed([c]) == c as int + 256 * Packed([]);
    } else {
      PackedAppend(name[1..], c);
      assert (name + [c])[1..] == name[1..] + [c];
      ScaledByte(c as int, 8 * (|name| - 1));
    }
  }

  lemma ScaledByte(m: nat, t: nat)
    ensures Scaled(m, t + 8) == 256 * Scaled(m, t)
  {
    ScaledScaled(m, t, 8);
    Scaled8(Scaled(m, t));
  }

  lemma Scaled8(m: nat)
    ensures Scaled(m, 8) == 256 * m
  {
    ScaledIsProduct(m, 8);
    Pow2Values();
  }

  lemma {:induction false} PackedFits(name: string)
    requires IsUpper(name)
    ensures Packed(name) < Pow2(8 * |name|) && 256 * Packed(name) < Pow2(8 * (|name| + 1))
  {
    Pow2Add(8 * |name|, 8);
    Scaled8(Pow2(8 * |name|));
    if name != [] {
      PackedFits(name[1..]);
      Pow2Add(8 * (|name| - 1), 8);
      Scaled8(Pow2(8 * (|name| - 1)));
      assert name[0] as int < 256;
    }
  }

  /** string_to_symbol: one letter at a time, or-ed into its byte. */
  method StringToSymbol(precision: nat, name: string) returns (r: Result<Symbol, Error>)
    requires precision < 256
    ensures r == Encoded(precision, name)
  {
    hide Or, Scaled, Shr, Low, Pow2;
    var result: nat := 0;
    for i := 0 to |name|
      invariant IsUpper(name[..i])
      invariant i <= MAX_NAME ==> result == 256 * Packed(name[..i])
    {
      var c := name[i];
      if !('A' <= c <= 'Z') {
        assert !IsUpper(name);
        return Err(InvalidCharacter);
      }
      assert name[..i + 1] == name[..i] + [c];
      if i < MAX_NAME {
        OrLetter(name[..i], c);
        result := Or(result, Shl(c as int, 8 * (i + 1), 64));
      }
    }
    assert name[..|name|] == name;
    if |name| > MAX_NAME {
      return Err(ShiftUndefined);
    }
    OrPrecision(name, precision);
    SymbolParts(precision, name);
    r := Ok(Symbol(Or(result, precision)));
  }

  lemma OrLetter(name: string, c: char)
    requires IsUpper(name) && 'A' <= c <= 'Z' && |name| < MAX_NAME
    ensures Or(256 * Packed(name), Shl(c as int, 8 * (|name| + 1), 64)) == 256 * Packed(name + [c])
  {
    hide Or, Scaled, Shr, Low, Pow2, Packed;
    var k, m := 8 * (|name| + 1), c as int;
    PackedFits(name);
    PackedAppend(name, c);
    ScaledByte(m, 8 * |name|);
    Pow2Values();
    ScaledStrict(m, Pow2(8), k);
    Pow2Add(8, k);
    Pow2Mono(8 + k, 64);
    ShlFits(m, k, 64);
    OrCommutative(256 * Packed(name), Scaled(m, k));
    OrDisjoint(m, k, 256 * Packed(name));
  }

  lemma OrPrecision(name: string, precision: nat)
    requires precision < 256
    ensures Or(256 * Packed(name), precision) == precision + 256 * Packed(name)
  {
    Scaled8(Packed(name));
    Pow2Values();
    OrDisjoint(Packed(name), 8, precision);
  }

  /** symbol::name: peels one byte after the other. */
  method SymbolName(sym: Symbol) returns (result: string)
    ensures result == sym.Name()
  {
    var v: nat := sym.value / 256;
    result := "";
    while v > 0
      invariant result + Unpacked(v) == sym.Name()
      decreases v
    {
      var c := (v % 256) as char;
      assert Unpacked(v) == [c] + Unpacked(v / 256);
      result := result + [c];
      v := v / 256;
    }
  }

  /** symbol::precision: ten to the number of decimals, which must be at most 18. */
  method Precision(sym: Symbol) returns (r: Result<nat, Error>)
    ensures r == if sym.Decimals() <= MAX_PRECISION then Ok(Pow10(sym.Decimals())) else Err(PrecisionTooLarge)
    ensures r.Ok? ==> r.value < Pow2(64)
  {
    if sym.Decimals() > MAX_PRECISION {
      return Err(PrecisionTooLarge);
    }
    var p10, p := 1, sym.Decimals();
    while p > 0
      invariant 0 <= p <= sym.Decimals() && p10 == Pow10(sym.Decimals() - p)
    {
      p10 := p10 * 10;
      p := p - 1;
    }
    Pow10Fits(sym.Decimals());
    r := Ok(p10);
  }

  lemma Pow10Fits(k: nat)
    requires k <= MAX_PRECISION
    ensures Pow10(k) <= 1_000_000_000_000_000_000 < Pow2(64)
  {
    assert Pow10(6) == 1_000_000;
    Scale10Twice(1, 6, 6);
    Scale10IsProduct(Pow10(6), 6);
    Scale10Twice(1, 12, 6);
    Scale10IsProduct(Pow10(12), 6);
    Pow10Mono(k, 18);
    Pow2Large();
  }

  lemma {:induction false} Pow10Mono(a: nat, b: nat)
    requires a <= b
    ensures Pow10(a) <= Pow10(b)
  {
    if a < b {
      Pow10Mono(a, b - 1);
      Scale10AtLeast(Pow10(b - 1), 1);
    }
  }
}
