/** The JavaScript string built-ins the colour code relies on: hexadecimal digits and
    `parseInt(_, 16)`, `Number.prototype.toString` for integers in bases 16 and 10,
    whitespace trimming with the `\s` class, and `toLowerCase`. */
module Text {

  predicate IsHexDigit(c: char)
  {
    '0' <= c <= '9' || 'a' <= c <= 'f' || 'A' <= c <= 'F'
  }

  type HexDigit = c: char | IsHexDigit(c) witness '0'

  predicate AllHexDigits(s: string)
  {
    forall i :: 0 <= i < |s| ==> IsHexDigit(s[i])
  }

  /** The value of one hexadecimal digit, in either case. */
  function DigitValue(c: char): (n: nat)
    requires IsHexDigit(c)
    ensures n < 16
  {
    if '0' <= c <= '9' then c as int - '0' as int
    else if 'a' <= c <= 'f' then c as int - 'a' as int + 10
    else c as int - 'A' as int + 10
  }

  /** The lower-case digit `toString(16)` writes for `n`. */
  function LowerHexDigit(n: nat): (c: char)
    requires n < 16
    ensures IsHexDigit(c) && DigitValue(c) == n
    ensures !('A' <= c <= 'F')
  {
    if n < 10 then ('0' as int + n) as char else ('a' as int + n - 10) as char
  }

  /** Two lower-case digits are equal exactly when their values are. */
  lemma LowerHexDigitInjective(m: nat, n: nat)
    requires m < 16 && n < 16
    ensures LowerHexDigit(m) == LowerHexDigit(n) <==> m == n
  {
    if LowerHexDigit(m) == LowerHexDigit(n) {
      assert DigitValue(LowerHexDigit(m)) == DigitValue(LowerHexDigit(n));
    }
  }

  /** `parseInt(s, 16)` on a string of hexadecimal digits. Every caller passes a non-empty
      string; on the empty string this gives 0 where `parseInt` gives `NaN`. */
  function HexValue(s: string): (n: nat)
    requires AllHexDigits(s)
  {
    if s == [] then 0 else 16 * HexValue(s[..|s| - 1]) + DigitValue(s[|s| - 1])
  }

  /** `parseInt` of a two-digit hexadecimal string is the byte those digits spell. */
  lemma HexPairValue(hi: char, lo: char)
    requires IsHexDigit(hi) && IsHexDigit(lo)
    ensures HexValue([hi, lo]) == 16 * DigitValue(hi) + DigitValue(lo) < 256
  {
    assert [hi, lo][..1] == [hi];
    assert [hi][..0] == [];
    assert HexValue([hi]) == DigitValue(hi);
    assert DigitValue(hi) < 16 && DigitValue(lo) < 16;
  }

  /** `n.toString(16)` for a non-negative integer: lower-case digits, no leading zeros. */
  function IntToHex(n: nat): (s: string)
    ensures |s| >= 1 && AllHexDigits(s)
    ensures forall i :: 0 <= i < |s| ==> !('A' <= s[i] <= 'F')
    ensures n < 16 <==> |s| == 1
    ensures 16 <= n < 256 <==> |s| == 2
  {
    if n < 16 then [LowerHexDigit(n)] else IntToHex(n / 16) + [LowerHexDigit(n % 16)]
  }

  /** Reading back what `toString(16)` wrote gives the number. */
  lemma {:induction false} HexValueOfIntToHex(n: nat)
    ensures HexValue(IntToHex(n)) == n
  {
    var s := IntToHex(n);
    if n < 16 {
      assert s[..0] == [];
    } else {
      HexValueOfIntToHex(n / 16);
      assert s[..|s| - 1] == IntToHex(n / 16);
    }
  }

  /** A byte written with `toString(16)` and left-padded with `'0'` to two digits, as
      `toHex` does, is its high digit followed by its low digit. */
  lemma PaddedByte(n: nat)
    requires n < 256
    ensures var s := IntToHex(n);
            (if |s| == 1 then "0" + s else s) == [LowerHexDigit(n / 16), LowerHexDigit(n % 16)]
  {
    if n >= 16 {
      assert IntToHex(n / 16) == [LowerHexDigit(n / 16)];
    }
  }

  function DecimalDigit(n: nat): (c: char)
    requires n < 10
    ensures '0' <= c <= '9'
  {
    ('0' as int + n) as char
  }

  /** `n.toString()` for a non-negative integer. */
  function NatToDecimal(n: nat): (s: string)
    ensures |s| >= 1 && forall i :: 0 <= i < |s| ==> '0' <= s[i] <= '9'
    ensures |s| > 1 ==> s[0] != '0'
  {
    if n < 10 then [DecimalDigit(n)] else NatToDecimal(n / 10) + [DecimalDigit(n % 10)]
  }

  /** `i.toString()` for any integer: a minus sign before the digits of a negative one. */
  function IntToDecimal(i: int): (s: string)
    ensures |s| >= 1
    ensures (s[0] == '-') <==> i < 0
  {
    if i < 0 then "-" + NatToDecimal(-i) else NatToDecimal(i)
  }

  predicate AllDecimalDigits(s: string)
  {
    forall i :: 0 <= i < |s| ==> '0' <= s[i] <= '9'
  }

  /** The number a string of decimal digits spells. */
  function DecimalValue(s: string): nat
    requires AllDecimalDigits(s)
  {
    if s == [] then 0 else 10 * DecimalValue(s[..|s| - 1]) + (s[|s| - 1] as int - '0' as int)
  }

  /** Reading back what `toString()` wrote for a natural number gives the number. */
  lemma {:induction false} DecimalValueOfNatToDecimal(n: nat)
    ensures DecimalValue(NatToDecimal(n)) == n
  {
    var s := NatToDecimal(n);
    if n < 10 {
      assert s[..0] == [];
    } else {
      DecimalValueOfNatToDecimal(n / 10);
      assert s[..|s| - 1] == NatToDecimal(n / 10);
    }
  }

  /** `toString()` of an integer spells it: the digits after an optional minus sign read
      back as its absolute value. */
  lemma IntToDecimalValue(i: int)
    ensures var s := IntToDecimal(i);
      && (i < 0 ==> AllDecimalDigits(s[1..]) && DecimalValue(s[1..]) == -i)
      && (i >= 0 ==> AllDecimalDigits(s) && DecimalValue(s) == i)
  {
    if i < 0 {
      assert IntToDecimal(i)[1..] == NatToDecimal(-i);
      DecimalValueOfNatToDecimal(-i);
    } else {
      DecimalValueOfNatToDecimal(i);
    }
  }

  /** The characters of the JavaScript `\s` class. */
  predicate IsSpace(c: char)
  {
    c == ' ' || c == '\t' || c == '\n' || c == '\r' || c == '\U{000B}' || c == '\U{000C}'
    || c == '\U{00A0}' || c == '\U{1680}' || '\U{2000}' <= c <= '\U{200A}'
    || c == '\U{2028}' || c == '\U{2029}' || c == '\U{202F}' || c == '\U{205F}'
    || c == '\U{3000}' || c == '\U{FEFF}'
  }

  /** `s.replace(/^\s+/, '')`. */
  function TrimLeft(s: string): (t: string)
    ensures |t| <= |s| && t == s[|s| - |t|..]
    ensures forall k :: 0 <= k < |s| - |t| ==> IsSpace(s[k])
    ensures t == [] || !IsSpace(t[0])
  {
    if |s| > 0 && IsSpace(s[0]) then
      var t := TrimLeft(s[1..]);
      assert forall k :: 1 <= k < |s| ==> s[k] == s[1..][k - 1];
      t
    else s
  }

  /** `s.replace(/\s+$/, '')`. */
  function TrimRight(s: string): (t: string)
    ensures |t| <= |s| && t == s[..|t|]
    ensures forall k :: |t| <= k < |s| ==> IsSpace(s[k])
    ensures t == [] || !IsSpace(t[|t| - 1])
  {
    if |s| > 0 && IsSpace(s[|s| - 1]) then TrimRight(s[..|s| - 1]) else s
  }

  /** `toLowerCase` on one character; only the ASCII letters are mapped. */
  function LowerChar(c: char): (d: char)
    ensures 'A' <= c <= 'Z' ==> d as int == c as int + 32
    ensures !('A' <= c <= 'Z') ==> d == c
  {
    if 'A' <= c <= 'Z' then (c as int + 32) as char else c
  }

  /** `toLowerCase`, character by character. */
  function ToLower(s: string): (t: string)
    ensures |t| == |s| && forall i :: 0 <= i < |s| ==> t[i] == LowerChar(s[i])
  {
    if s == [] then [] else [LowerChar(s[0])] + ToLower(s[1..])
  }

  /** The normalisation `parseColor` applies first: trim both ends, then lower-case. */
  function Normalize(s: string): string
  {
    ToLower(TrimRight(TrimLeft(s)))
  }

  /** Lower-casing leaves the space class alone and is idempotent. */
  lemma LowerCharSpace(c: char)
    ensures IsSpace(LowerChar(c)) <==> IsSpace(c)
    ensures LowerChar(LowerChar(c)) == LowerChar(c)
  {
  }

  /** A string with no space at either end is left alone by both trims. */
  lemma TrimmedFixed(n: string)
    requires n == [] || (!IsSpace(n[0]) && !IsSpace(n[|n| - 1]))
    ensures TrimRight(TrimLeft(n)) == n
  {
  }

  /** A normalised string has no space at either end. */
  lemma NormalizedEnds(s: string)
    ensures var n := Normalize(s);
      n == [] || (!IsSpace(n[0]) && !IsSpace(n[|n| - 1]))
  {
    var u := TrimLeft(s);
    var t := TrimRight(u);
    if t != [] {
      assert t[0] == u[0];
      LowerCharSpace(t[0]);
      LowerCharSpace(t[|t| - 1]);
    }
  }

  /** Lower-casing twice is lower-casing once. */
  lemma ToLowerIdempotent(t: string)
    ensures ToLower(ToLower(t)) == ToLower(t)
  {
    var n := ToLower(t);
    forall i | 0 <= i < |n|
      ensures LowerChar(n[i]) == n[i]
    {
      LowerCharSpace(t[i]);
    }
  }

  /** Normalising twice is normalising once. */
  lemma NormalizeIdempotent(s: string)
    ensures Normalize(Normalize(s)) == Normalize(s)
  {
    var n := Normalize(s);
    NormalizedEnds(s);
    TrimmedFixed(n);
    ToLowerIdempotent(TrimRight(TrimLeft(s)));
  }
}
