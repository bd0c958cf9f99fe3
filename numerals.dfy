/** Positional numerals: the digits of a natural number in a base, the value
    of a digit sequence, and the spelling of digits as characters (lower-case
    letters for ten to fifteen, as PHP prints them; either case when read). */
module Numerals {

  function Pow(base: nat, k: nat): (p: nat)
    requires base >= 1
    ensures p >= 1
  {
    if k == 0 then 1 else AtLeast(Pow(base, k - 1), base); Pow(base, k - 1) * base
  }

  lemma DivMod(x: nat, base: nat)
    requires base >= 2
    ensures x == (x / base) * base + x % base
    ensures x % base < base
    ensures x >= base ==> 1 <= x / base < x
    ensures x < base ==> x / base == 0 && x % base == x
  {
  }

  lemma Distrib(a: nat, k: nat, c: nat)
    ensures (a + k) * c == a * c + k * c
  {
  }

  lemma AtLeast(k: nat, c: nat)
    requires k >= 1
    ensures k * c >= c
  {
  }

  /** Division by `base` undoes appending a digit. */
  lemma MulAddDiv(v: nat, base: nat, d: nat)
    requires base >= 2 && d < base
    ensures (v * base + d) / base == v && (v * base + d) % base == d
  {
    var x := v * base + d;
    DivMod(x, base);
    var q := x / base;
    if q < v {
      Distrib(q, v - q, base);
      AtLeast(v - q, base);
    } else if q > v {
      Distrib(v, q - v, base);
      AtLeast(q - v, base);
    }
  }

  /** A digit sequence as a number printer writes it: digits below `base`,
      at least one, and no leading zero unless the number is zero. */
  predicate Canonical(ds: seq<nat>, base: nat)
  {
    && |ds| >= 1
    && (ds[0] != 0 || |ds| == 1)
    && forall i :: 0 <= i < |ds| ==> ds[i] < base
  }

  /** The digits of `x` in `base`, most significant first. */
  function DigitsOf(x: nat, base: nat): (ds: seq<nat>)
    requires base >= 2
    ensures Canonical(ds, base)
    decreases x
  {
    DivMod(x, base);
    if x < base then [x] else DigitsOf(x / base, base) + [x % base]
  }

  /** The number a digit sequence denotes in `base`, most significant first. */
  function ValueOf(ds: seq<nat>, base: nat): nat
  {
    if ds == [] then 0 else ValueOf(ds[..|ds| - 1], base) * base + ds[|ds| - 1]
  }

  lemma {:induction false} ValueOfDigitsOf(x: nat, base: nat)
    requires base >= 2
    ensures ValueOf(DigitsOf(x, base), base) == x
  {
    DivMod(x, base);
    if x >= base {
      var ds := DigitsOf(x / base, base);
      assert (ds + [x % base])[..|ds|] == ds;
      ValueOfDigitsOf(x / base, base);
    }
  }

  lemma {:induction false} ValueOfPositive(ds: seq<nat>, base: nat)
    requires base >= 2 && |ds| >= 1 && ds[0] != 0
    ensures ValueOf(ds, base) >= 1
  {
    if |ds| > 1 {
      ValueOfPositive(ds[..|ds| - 1], base);
      AtLeast(ValueOf(ds[..|ds| - 1], base), base);
    }
  }

  lemma {:induction false} ValueOfBound(ds: seq<nat>, base: nat)
    requires base >= 2
    requires forall i :: 0 <= i < |ds| ==> ds[i] < base
    ensures ValueOf(ds, base) < Pow(base, |ds|)
  {
    if ds != [] {
      var init := ds[..|ds| - 1];
      ValueOfBound(init, base);
      var v := ValueOf(init, base);
      var p := Pow(base, |init|);
      assert Pow(base, |ds|) == p * base;
      Distrib(v + 1, p - (v + 1), base);
      assert p * base >= (v + 1) * base;
      Distrib(v, 1, base);
      assert (v + 1) * base == v * base + base;
    }
  }

  /** A canonical digit sequence is what `DigitsOf` prints for its value. */
  lemma {:induction false} DigitsOfValueOf(ds: seq<nat>, base: nat)
    requires base >= 2 && Canonical(ds, base)
    ensures DigitsOf(ValueOf(ds, base), base) == ds
  {
    if |ds| > 1 {
      var init := ds[..|ds| - 1];
      var last := ds[|ds| - 1];
      var v := ValueOf(init, base);
      ValueOfPositive(init, base);
      AtLeast(v, base);
      MulAddDiv(v, base, last);
      DigitsOfValueOf(init, base);
      assert init + [last] == ds;
    }
  }

  lemma DivBelow(x: nat, base: nat, p: nat)
    requires base >= 2 && x < p * base
    ensures x / base < p
  {
    DivMod(x, base);
    var q := x / base;
    assert (p - q) * base == p * base - q * base;
    assert (p - q) * base > 0;
  }

  /** A number below `base`^k has at most k digits. */
  lemma {:induction false} DigitsOfLength(x: nat, base: nat, k: nat)
    requires base >= 2 && k >= 1 && x < Pow(base, k)
    ensures |DigitsOf(x, base)| <= k
  {
    DivMod(x, base);
    assert Pow(base, k) == Pow(base, k - 1) * base;
    if x >= base && k > 1 {
      DivBelow(x, base, Pow(base, k - 1));
      DigitsOfLength(x / base, base, k - 1);
    }
  }

  predicate IsDecimalDigit(c: char)
  {
    '0' <= c <= '9'
  }

  predicate IsLowerHexDigit(c: char)
  {
    IsDecimalDigit(c) || 'a' <= c <= 'f'
  }

  predicate IsHexDigit(c: char)
  {
    IsLowerHexDigit(c) || 'A' <= c <= 'F'
  }

  lemma DecimalIsHex(s: string)
    requires forall i :: 0 <= i < |s| ==> IsDecimalDigit(s[i])
    ensures forall i :: 0 <= i < |s| ==> IsHexDigit(s[i])
  {
  }

  /** The character PHP prints for a digit below sixteen. */
  function DigitChar(d: nat): (c: char)
    requires d < 16
  {
    if d < 10 then ('0' as int + d) as char else ('a' as int + d - 10) as char
  }

  /** The digit a character stands for, in either case. */
  function CharValue(c: char): (d: nat)
    requires IsHexDigit(c)
  {
    if '0' <= c <= '9' then c as int - '0' as int
    else if 'a' <= c <= 'f' then c as int - 'a' as int + 10
    else c as int - 'A' as int + 10
  }

  function Spell(ds: seq<nat>): string
    requires forall i :: 0 <= i < |ds| ==> ds[i] < 16
  {
    seq(|ds|, i requires 0 <= i < |ds| => DigitChar(ds[i]))
  }

  function Read(s: string): seq<nat>
    requires forall i :: 0 <= i < |s| ==> IsHexDigit(s[i])
  {
    seq(|s|, i requires 0 <= i < |s| => CharValue(s[i]))
  }

  lemma SpellDigits(ds: seq<nat>)
    requires forall i :: 0 <= i < |ds| ==> ds[i] < 16
    ensures |Spell(ds)| == |ds|
    ensures forall i :: 0 <= i < |ds| ==> IsLowerHexDigit(Spell(ds)[i])
    ensures forall i :: 0 <= i < |ds| ==> (IsDecimalDigit(Spell(ds)[i]) <==> ds[i] < 10)
    ensures forall i :: 0 <= i < |ds| ==> (Spell(ds)[i] == '0' <==> ds[i] == 0)
    ensures Read(Spell(ds)) == ds
  {
  }

  lemma ReadLowerHex(s: string)
    requires forall i :: 0 <= i < |s| ==> IsLowerHexDigit(s[i])
    ensures forall i :: 0 <= i < |s| ==> IsHexDigit(s[i])
    ensures Spell(Read(s)) == s
    ensures forall i :: 0 <= i < |s| ==> (Read(s)[i] == 0 <==> s[i] == '0')
    ensures forall i :: 0 <= i < |s| ==> (Read(s)[i] < 10 <==> IsDecimalDigit(s[i]))
  {
  }

  lemma SpellAppend(xs: seq<nat>, ys: seq<nat>)
    requires forall i :: 0 <= i < |xs| ==> xs[i] < 16
    requires forall i :: 0 <= i < |ys| ==> ys[i] < 16
    ensures Spell(xs) + Spell(ys) == Spell(xs + ys)
  {
  }

  /** The value of four digits, spelled out. */
  lemma ValueOfFour(d0: nat, d1: nat, d2: nat, d3: nat, base: nat)
    ensures ValueOf([d0, d1, d2, d3], base) == ((d0 * base + d1) * base + d2) * base + d3
  {
    var ds := [d0, d1, d2, d3];
    assert ds[..3][..2][..1][..0] == [];
    assert ValueOf(ds[..3][..2][..1], base) == d0;
    assert ValueOf(ds[..3][..2], base) == d0 * base + d1;
    assert ValueOf(ds[..3], base) == (d0 * base + d1) * base + d2;
  }

  /** The lower-case hexadecimal numeral of `x`, without leading zeros. */
  function HexText(x: nat): string
  {
    Spell(DigitsOf(x, 16))
  }

  /** The decimal numeral of `x`, without leading zeros. */
  function DecimalText(x: nat): string
  {
    Spell(DigitsOf(x, 10))
  }

  /** The value of a hexadecimal numeral (any case, leading zeros allowed). */
  function HexValue(s: string): nat
    requires forall i :: 0 <= i < |s| ==> IsHexDigit(s[i])
  {
    ValueOf(Read(s), 16)
  }

  /** The value of a decimal numeral. */
  function DecimalValue(s: string): nat
    requires forall i :: 0 <= i < |s| ==> IsDecimalDigit(s[i])
  {
    DecimalIsHex(s);
    ValueOf(Read(s), 10)
  }

  /** A hexadecimal numeral of k digits is below 16^k. */
  lemma HexValueBound(s: string)
    requires forall i :: 0 <= i < |s| ==> IsHexDigit(s[i])
    ensures HexValue(s) < Pow(16, |s|)
  {
    ValueOfBound(Read(s), 16);
  }

  /** `HexText` prints a canonical lower-case numeral that reads back as `x`. */
  lemma HexTextFacts(x: nat)
    ensures |HexText(x)| >= 1
    ensures forall i :: 0 <= i < |HexText(x)| ==> IsLowerHexDigit(HexText(x)[i])
    ensures |HexText(x)| == 1 || HexText(x)[0] != '0'
    ensures HexValue(HexText(x)) == x
  {
    SpellDigits(DigitsOf(x, 16));
    ValueOfDigitsOf(x, 16);
  }

  /** `DecimalText` prints a decimal numeral without leading zeros that reads back as `x`. */
  lemma DecimalTextFacts(x: nat)
    ensures |DecimalText(x)| >= 1
    ensures forall i :: 0 <= i < |DecimalText(x)| ==> IsDecimalDigit(DecimalText(x)[i])
    ensures |DecimalText(x)| == 1 || DecimalText(x)[0] != '0'
    ensures DecimalValue(DecimalText(x)) == x
  {
    var ds := DigitsOf(x, 10);
    assert forall i :: 0 <= i < |ds| ==> ds[i] < 10;
    SpellDigits(ds);
    var s := Spell(ds);
    assert forall i :: 0 <= i < |s| ==> IsDecimalDigit(s[i]);
    DecimalIsHex(s);
    assert Read(s) == ds;
    ValueOfDigitsOf(x, 10);
    assert DecimalValue(s) == ValueOf(ds, 10);
  }

  /** A decimal numeral without leading zeros is the one `DecimalText` prints for its value. */
  lemma DecimalTextOfValue(s: string)
    requires |s| >= 1 && (s[0] != '0' || |s| == 1)
    requires forall i :: 0 <= i < |s| ==> IsDecimalDigit(s[i])
    ensures DecimalText(DecimalValue(s)) == s
  {
    ReadLowerHex(s);
    DigitsOfValueOf(Read(s), 10);
  }

  /** A lower-case hexadecimal numeral without leading zeros is the one
      `HexText` prints for its value. */
  lemma HexTextOfValue(s: string)
    requires |s| >= 1 && (s[0] != '0' || |s| == 1)
    requires forall i :: 0 <= i < |s| ==> IsLowerHexDigit(s[i])
    ensures HexText(HexValue(s)) == s
  {
    ReadLowerHex(s);
    DigitsOfValueOf(Read(s), 16);
  }

  /** Digit sequences of one length denote one value only if they are equal. */
  lemma {:induction false} ValueOfInjective(ds: seq<nat>, es: seq<nat>, base: nat)
    requires base >= 2 && |ds| == |es|
    requires forall i :: 0 <= i < |ds| ==> ds[i] < base && es[i] < base
    requires ValueOf(ds, base) == ValueOf(es, base)
    ensures ds == es
  {
    if ds != [] {
      var n := |ds| - 1;
      MulAddDiv(ValueOf(ds[..n], base), base, ds[n]);
      MulAddDiv(ValueOf(es[..n], base), base, es[n]);
      ValueOfInjective(ds[..n], es[..n], base);
      assert ds == ds[..n] + [ds[n]] && es == es[..n] + [es[n]];
    }
  }
}
