/**
 * Characters as digits: the hexadecimal alphabet (either case), the digits of
 * a smaller base, and the value of a digit string.
 */
module Digits {
  import opened Radix

  predicate IsHexDigit(c: char)
  {
    ('0' <= c <= '9') || ('a' <= c <= 'f') || ('A' <= c <= 'F')
  }

  /** A digit as JavaScript's `toString(16)` and Node's hex encoder write it. */
  predicate IsLowerHexDigit(c: char)
  {
    ('0' <= c <= '9') || ('a' <= c <= 'f')
  }

  /**
   * The value of a hexadecimal digit of either case. It is total for the sake
   * of the proofs: a character that is not a digit counts as 0, and the guards
   * keep such characters away from every conversion that reads digits.
   */
  function DigitValue(c: char): (d: nat)
    ensures d < 16
  {
    if '0' <= c <= '9' then c as int - '0' as int
    else if 'a' <= c <= 'f' then c as int - 'a' as int + 10
    else if 'A' <= c <= 'F' then c as int - 'A' as int + 10
    else 0
  }

  /** The lower-case character for a digit value. */
  function LowerDigit(d: nat): (c: char)
    requires d < 16
    ensures IsLowerHexDigit(c) && DigitValue(c) == d
  {
    if d < 10 then ('0' as int + d) as char else ('a' as int + d - 10) as char
  }

  lemma LowerDigitOfValue(c: char)
    requires IsLowerHexDigit(c)
    ensures LowerDigit(DigitValue(c)) == c
  {
  }

  predicate IsDigitIn(c: char, base: nat)
  {
    IsHexDigit(c) && DigitValue(c) < base
  }

  predicate AllDigitsIn(s: string, base: nat)
  {
    forall i :: 0 <= i < |s| ==> IsDigitIn(s[i], base)
  }

  predicate AllLowerHex(s: string)
  {
    forall i :: 0 <= i < |s| ==> IsLowerHexDigit(s[i])
  }

  function DigitValues(s: string): (ds: seq<nat>)
    ensures |ds| == |s|
    ensures forall i :: 0 <= i < |s| ==> ds[i] == DigitValue(s[i])
  {
    seq(|s|, i requires 0 <= i < |s| => DigitValue(s[i]))
  }

  /** The number a digit string denotes in `base`, most significant digit first. */
  function Value(s: string, base: nat): nat
  {
    Fold(DigitValues(s), base)
  }

  /** Appending a digit shifts the value by one place. */
  lemma ValueSnoc(s: string, c: char, base: nat)
    ensures Value(s + [c], base) == Value(s, base) * base + DigitValue(c)
  {
    var ds := DigitValues(s + [c]);
    assert ds[..|ds| - 1] == DigitValues(s);
  }

  /** Splitting a digit string splits its value. */
  lemma ValueAppend(a: string, b: string, base: nat)
    ensures Value(a + b, base) == Value(a, base) * Pow(base, |b|) + Value(b, base)
  {
    assert DigitValues(a + b) == DigitValues(a) + DigitValues(b);
    FoldAppend(DigitValues(a), DigitValues(b), base);
  }

  /** A leading zero digit does not change the value. */
  lemma ValueLeadingZero(s: string, base: nat)
    ensures Value("0" + s, base) == Value(s, base)
  {
    ValueAppend("0", s, base);
    ValueSnoc([], '0', base);
    assert [] + ['0'] == "0";
  }
}

/**
 * The type guards of the utilities package that the conversions call, stated
 * from their documentation.
 */
module TypeChecks {
  import opened Digits

  /**
   * `isHexadecimal(value, prefix)`: with `prefix`, "0x" or "0X" followed by one
   * or more hexadecimal digits of either case; without it, one or more such
   * digits and nothing else. `requireHexadecimal` throws a `TypeError` exactly
   * when this is false.
   */
  predicate IsHexadecimal(s: string, prefix: bool)
  {
    if prefix then
      |s| >= 3 && s[0] == '0' && (s[1] == 'x' || s[1] == 'X') && AllDigitsIn(s[2..], 16)
    else
      |s| >= 1 && AllDigitsIn(s, 16)
  }

  /**
   * A prefixed hexadecimal string is "0x" or "0X" followed by an unprefixed
   * one, and no string is hexadecimal both ways.
   */
  lemma PrefixedHexadecimal(s: string)
    ensures IsHexadecimal(s, true) <==>
              |s| >= 2 && (s[..2] == "0x" || s[..2] == "0X") && IsHexadecimal(s[2..], false)
    ensures !(IsHexadecimal(s, true) && IsHexadecimal(s, false))
  {
    if |s| >= 2 {
      assert s[..2] == [s[0], s[1]];
      assert !IsDigitIn('x', 16) && !IsDigitIn('X', 16);
    }
  }
}
