/**
 Names as text: string_to_name of libraries/chain/include/eosio/chain/name.hpp,
 name::set and the conversion to string of libraries/chain/name.cpp.
 */
module NameText {
  import opened Bits
  import opened Names
  import opened NameSuffixes

  const CHARMAP: string := ".12345abcdefghijklmnopqrstuvwxyz"

  /** char_to_symbol: anything that is not a letter or 1 to 5 counts as a dot. */
  function CharToSymbol(c: char): (k: nat)
    ensures k < 32
  {
    if 'a' <= c <= 'z' then c as int - 'a' as int + 6
    else if '1' <= c <= '5' then c as int - '1' as int + 1
    else 0
  }

  predicate IsNameChar(c: char) { c == '.' || 'a' <= c <= 'z' || '1' <= c <= '5' }

  function SymbolToChar(k: nat): char
    requires k < 32
  {
    CHARMAP[k]
  }

  lemma CharmapAt(k: nat)
    requires k < 32
    ensures CHARMAP[k]
            == if k == 0 then '.'
               else if k < 6 then ('1' as int + k - 1) as char
               else ('a' as int + k - 6) as char
  {}

  lemma SymbolCharRoundTrip(k: nat)
    requires k < 32
    ensures IsNameChar(SymbolToChar(k)) && CharToSymbol(SymbolToChar(k)) == k
    ensures SymbolToChar(k) == '.' <==> k == 0
  {
    CharmapAt(k);
  }

  lemma CharSymbolRoundTrip(c: char)
    requires IsNameChar(c)
    ensures SymbolToChar(CharToSymbol(c)) == c
  {
    var k := CharToSymbol(c);
    SymbolCharRoundTrip(k);
  }

  function Spelled(s: seq<nat>): (t: string)
    requires forall i | 0 <= i < |s| :: s[i] < 32
    ensures |t| == |s| && forall i | 0 <= i < |s| :: t[i] == SymbolToChar(s[i])
  {
    seq(|s|, i requires 0 <= i < |s| => SymbolToChar(s[i]))
  }

  /** The text of a name. */
  function Text(n: nat): string { Spelled(TrimDots(Chars(n))) }

  /** The symbols that a string of any length is read as. */
  function SymbolsOf(str: string): (s: seq<nat>)
    ensures IsName(s)
  {
    seq(13, i requires 0 <= i < 13 =>
      if i >= |str| then 0 else if i == 12 then CharToSymbol(str[i]) % 16 else CharToSymbol(str[i]))
  }

  /** Text that a name can have: no trailing dot, and at the thirteenth place one of the first sixteen symbols. */
  predicate IsNormal(str: string) {
    && |str| <= 13
    && (forall i | 0 <= i < |str| :: IsNameChar(str[i]))
    && (str != "" ==> str[|str| - 1] != '.')
    && (|str| == 13 ==> CharToSymbol(str[12]) < 16)
  }

  lemma TextIsNormal(n: nat)
    ensures IsNormal(Text(n))
  {
    hide TrimDots, Chars;
    var s := Chars(n);
    var t := TrimDots(s);
    TrimmedEnds(s);
    forall i | 0 <= i < |t| ensures IsNameChar(Text(n)[i]) && CharToSymbol(Text(n)[i]) == t[i] {
      SymbolCharRoundTrip(t[i]);
    }
    if t != [] { SymbolCharRoundTrip(t[|t| - 1]); }
  }

  /** Reading what was written: every 64-bit number is the value of its text. */
  lemma ReadWritten(n: uint64)
    ensures Encode(SymbolsOf(Text(n))) == n
  {
    hide TrimDots, Chars, Encode;
    var s := Chars(n);
    var t := TrimDots(s);
    TrimmedEnds(s);
    var r := SymbolsOf(Text(n));
    forall i | 0 <= i < 13 ensures r[i] == s[i] {
      if i < |t| { SymbolCharRoundTrip(t[i]); }
    }
    assert r == s;
    EncodeChars(n);
  }

  /** Writing what was read gives the string back exactly when it is normal. */
  lemma WrittenReadIff(str: string)
    requires |str| <= 13
    ensures Text(Encode(SymbolsOf(str))) == str <==> IsNormal(str)
  {
    hide TrimDots, Chars, Encode, Text;
    var n := Encode(SymbolsOf(str));
    TextIsNormal(n);
    if IsNormal(str) { NormalIsKept(str); }
  }

  lemma NormalIsKept(str: string)
    requires IsNormal(str)
    ensures Text(Encode(SymbolsOf(str))) == str
  {
    hide TrimDots, Chars, Encode, Dots, SymbolToChar, CharToSymbol, Spelled, SymbolsOf, IsNormal;
    var t := NormalSymbols(str);
    CharsEncode(SymbolsOf(str));
    TrimAppended(t, 13 - |str|);
  }

  /** A normal string is read letter by letter, with dots behind it. */
  lemma NormalSymbols(str: string) returns (t: seq<nat>)
    requires IsNormal(str)
    ensures |t| == |str| && SymbolsOf(str) == t + Dots(13 - |str|) && (forall i | 0 <= i < |t| :: t[i] < 32)
    ensures Spelled(t) == str && (t != [] ==> t[|t| - 1] != 0)
  {
    hide Dots, SymbolToChar, CharToSymbol, Spelled;
    var s := SymbolsOf(str);
    t := s[..|str|];
    forall i | 0 <= i < |str| ensures t[i] == CharToSymbol(str[i]) && SymbolToChar(t[i]) == str[i] {
      CharSymbolRoundTrip(str[i]);
      SmallRemainder(CharToSymbol(str[i]));
    }
    if t != [] { SymbolCharRoundTrip(t[|t| - 1]); }
  }

  lemma SmallRemainder(k: nat)
    ensures k < 16 ==> k % 16 == k
  {}

  // --------------------------------------------------------------- the loops

  datatype SetResult = TooLong | NotNormalized | Set(value: nat)

  /** string_to_name: each symbol is or-ed into its place, the thirteenth into the low four bits. */
  method StringToName(str: string) returns (name: nat)
    ensures name == Encode(SymbolsOf(str)) < Pow2(64)
  {
    hide Or, And, Shr, Low, Scaled, Pow2, Value;
    ghost var s := SymbolsOf(str);
    name := 0;
    ScaledZero(64);
    var i := 0;
    assert Value(s[..0]) == 0 by { EmptyValue(s[..0]); }
    while i < |str| && i < 12
      invariant i <= |str| && i <= 12 && name == Scaled(Value(s[..i]), 64 - 5 * i)
    {
      assert s[i] == CharToSymbol(str[i]);
      PlaceSymbol(s, i);
      name := Or(name, Shl(And(CharToSymbol(str[i]), 31), 64 - 5 * (i + 1), 64));
      i := i + 1;
    }
    CharsEncode(s);
    if i == 12 {
      var last := if |str| > 12 then CharToSymbol(str[12]) else 0;
      PlaceLast(s, last);
      name := Or(name, And(last, 15));
    } else {
      RestIsDots(s, i);
    }
  }

  lemma EmptyValue(s: seq<nat>)
    requires s == []
    ensures Value(s) == 0
  {}

  lemma PlaceSymbol(s: seq<nat>, i: nat)
    requires IsName(s) && i < 12
    ensures Or(Scaled(Value(s[..i]), 64 - 5 * i), Shl(And(s[i], 31), 64 - 5 * (i + 1), 64))
            == Scaled(Value(s[..i + 1]), 64 - 5 * (i + 1))
  {
    hide Or, And, Shr, Low, Scaled, Pow2, Value;
    var v, k := Value(s[..i]), 64 - 5 * (i + 1);
    Pow2Values();
    AndMask(s[i], 5);
    LowOfSmall(s[i], 5);
    ScaledStrict(s[i], 32, k);
    Pow2Add(5, k);
    Pow2Mono(5 + k, 64);
    ShlFits(s[i], k, 64);
    OrDisjoint(v, k + 5, Scaled(s[i], k));
    ValueLast(s[..i], s[i]);
    assert s[..i + 1] == s[..i] + [s[i]];
    ScaledAdd(32 * v, s[i], k);
    ScaledIsProduct(v, 5);
    ScaledScaled(v, 5, k);
  }

  lemma PlaceLast(s: seq<nat>, last: nat)
    requires IsName(s) && s[12] == last % 16
    ensures Or(Scaled(Value(s[..12]), 4), And(last, 15)) == Encode(s)
  {
    hide Or, And, Shr, Low, Scaled, Pow2, Value;
    Pow2Values();
    AndMask(last, 4);
    ShiftIsDivision(last, 4);
    ScaledIsProduct(Value(s[..12]), 4);
    OrDisjoint(Value(s[..12]), 4, s[12]);
  }

  /** A shorter string leaves dots behind it. */
  lemma RestIsDots(s: seq<nat>, i: nat)
    requires IsName(s) && i < 12 && forall k | i <= k < 13 :: s[k] == 0
    ensures Encode(s) == Scaled(Value(s[..i]), 64 - 5 * i)
  {
    hide Scaled, Value, Dots;
    assert s[..12] == s[..i] + Dots(12 - i);
    ValueShifted(s[..i], 12 - i);
    ScaledScaled(Value(s[..i]), 5 * (12 - i), 4);
    ScaledIsProduct(Scaled(Value(s[..i]), 5 * (12 - i)), 4);
    Pow2Values();
  }

  /** name::operator string: fills the text from the right, then drops trailing dots. */
  method ToString(value: uint64) returns (str: string)
    ensures str == Text(value)
  {
    hide And, Shr, Low, Pow2, Digits, Chars, TrimDots;
    ghost var s := Chars(value);
    str := seq(13, _ => '.');
    var tmp := value;
    var i := 0;
    while i <= 12
      invariant i <= 13 && |str| == 13
      invariant tmp == if i == 0 then value else Shr(value, 4 + 5 * (i - 1))
      invariant forall k | 13 - i <= k < 13 :: str[k] == SymbolToChar(s[k])
    {
      var mask := if i == 0 then 15 else 31;
      var shift := if i == 0 then 4 else 5;
      assert And(tmp, mask) == s[12 - i] by {
        if i == 0 { LastSymbol(value); } else { SymbolByShift(value, 12 - i); }
      }
      str := str[12 - i := CHARMAP[And(tmp, mask)]];
      if i > 0 { ShrShr(value, 4 + 5 * (i - 1), 5); }
      tmp := Shr(tmp, shift);
      i := i + 1;
    }
    TrimSpelled(s);
    assert str == Spelled(s);
    str := TrimRightDots(str);
  }

  /** trim_right_if with dots. */
  function TrimRightDots(s: string): string
  {
    if s != "" && s[|s| - 1] == '.' then TrimRightDots(s[..|s| - 1]) else s
  }

  lemma {:induction false} TrimSpelled(s: seq<nat>)
    requires forall i | 0 <= i < |s| :: s[i] < 32
    ensures TrimRightDots(Spelled(s)) == Spelled(TrimDots(s))
  {
    if s != [] {
      SymbolCharRoundTrip(s[|s| - 1]);
      if s[|s| - 1] == 0 {
        TrimSpelled(s[..|s| - 1]);
        assert Spelled(s)[..|s| - 1] == Spelled(s[..|s| - 1]);
      }
    }
  }

  /** name::set: accepted exactly when the string is the normal text of a name, which it then denotes. */
  method SetName(str: string) returns (r: SetResult)
    ensures r.Set? <==> IsNormal(str)
    ensures r.Set? ==> r.value < Pow2(64) && Text(r.value) == str
    ensures r == TooLong <==> |str| > 13
  {
    hide Encode, Text, Pow2, IsNormal, SymbolsOf;
    if |str| > 13 {
      TooLongNotNormal(str);
      return TooLong;
    }
    var value := StringToName(str);
    WrittenReadIff(str);
    var text := ToString(value);
    r := if text == str then Set(value) else NotNormalized;
  }

  lemma TooLongNotNormal(str: string)
    requires |str| > 13
    ensures !IsNormal(str)
  {}

  // ------------------------------------------------------- suffixes of text

  /** The part of a text after its last dot. */
  function AfterDot(s: string): string
  {
    if s == "" || s[|s| - 1] == '.' then "" else AfterDot(s[..|s| - 1]) + [s[|s| - 1]]
  }

  /** name_suffix seen as text: what follows the last dot of the name. */
  lemma SuffixText(n: nat, r: nat)
    requires Chars(r) == SuffixChars(Chars(n))
    ensures Text(r) == AfterDot(Text(n))
  {
    hide Chars, TrimDots, LastDot, AfterLastDot, SuffixChars, Spelled, AfterDot, SymbolToChar;
    SuffixTrimmed(Chars(n));
    AfterDotSpelled(TrimDots(Chars(n)));
  }

  lemma {:induction false} AfterDotSpelled(s: seq<nat>)
    requires forall i | 0 <= i < |s| :: s[i] < 32
    ensures AfterDot(Spelled(s)) == Spelled(AfterLastDot(s))
  {
    hide Spelled, SymbolToChar, CharToSymbol;
    if s != [] {
      var n := |s| - 1;
      SymbolCharRoundTrip(s[n]);
      if s[n] != 0 {
        assert Spelled(s)[..n] == Spelled(s[..n]);
        AfterDotSpelled(s[..n]);
        AfterLastDotNext(s);
        assert Spelled(AfterLastDot(s)) == Spelled(AfterLastDot(s[..n])) + [SymbolToChar(s[n])];
      } else {
        assert AfterLastDot(s) == [];
      }
    } else {
      assert Spelled(s) == "";
    }
  }

  lemma AfterLastDotNext(s: seq<nat>)
    requires s != [] && s[|s| - 1] != 0
    ensures AfterLastDot(s) == AfterLastDot(s[..|s| - 1]) + [s[|s| - 1]]
  {}
}
