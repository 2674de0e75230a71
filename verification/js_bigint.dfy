/**
 * The two JavaScript built-ins the conversions rely on for text: rendering a
 * BigInt in base 16 and the `BigInt(string)` constructor.
 */
module JsBigInt {
  import opened Errors
  import opened Radix
  import opened Digits
  import opened TypeChecks

  /**
   * `value.toString(16)` for a non-negative BigInt: lower-case digits and no
   * leading zero, except that zero itself is "0".
   */
  function ToBase16(v: nat): (r: string)
    ensures |r| >= 1 && AllLowerHex(r) && AllDigitsIn(r, 16)
    ensures r[0] == '0' <==> v == 0
    ensures v == 0 ==> |r| == 1
    decreases v
  {
    if v < 16 then [LowerDigit(v)] else ToBase16(v / 16) + [LowerDigit(v % 16)]
  }

  /** The rendering denotes the number: its digits read in base 16 give `v` back. */
  lemma {:induction false} ToBase16Value(v: nat)
    ensures Value(ToBase16(v), 16) == v
    decreases v
  {
    if v < 16 {
      ValueSnoc([], LowerDigit(v), 16);
      assert [] + [LowerDigit(v)] == [LowerDigit(v)];
    } else {
      ToBase16Value(v / 16);
      ValueSnoc(ToBase16(v / 16), LowerDigit(v % 16), 16);
    }
  }

  /** The base named by the letter after a leading "0" of a BigInt literal; 0 if none. */
  function PrefixBase(c: char): nat
  {
    if c == 'x' || c == 'X' then 16
    else if c == 'o' || c == 'O' then 8
    else if c == 'b' || c == 'B' then 2
    else 0
  }

  /**
   * `BigInt(s)` for a string: a "0x"/"0X", "0o"/"0O" or "0b"/"0B" prefix
   * followed by one or more digits of that base, or one or more decimal
   * digits; the empty string is 0. Anything else raises a `SyntaxError`.
   */
  function StringToBigInt(s: string): (r: Result<nat>)
    ensures r.Ok? <==>
              s == []
              || (|s| >= 3 && s[0] == '0' && PrefixBase(s[1]) != 0 && AllDigitsIn(s[2..], PrefixBase(s[1])))
              || (|s| >= 1 && AllDigitsIn(s, 10))
    ensures r.Err? ==> r.error == BigIntSyntax
    ensures |s| >= 3 && s[0] == '0' && PrefixBase(s[1]) != 0 && AllDigitsIn(s[2..], PrefixBase(s[1])) ==>
              r == Ok(Value(s[2..], PrefixBase(s[1])))
    ensures IsHexadecimal(s, true) ==> r == Ok(Value(s[2..], 16))
    ensures |s| >= 2 && s[..2] == "0x" && !IsHexadecimal(s, true) ==> r == Err(BigIntSyntax)
    ensures |s| >= 1 && AllDigitsIn(s, 10) ==> r == Ok(Value(s, 10))
    ensures s == [] ==> r == Ok(0)
  {
    if s == [] then
      Ok(0)
    else if |s| >= 2 && s[0] == '0' && PrefixBase(s[1]) != 0 then
      var base := PrefixBase(s[1]);
      if |s| >= 3 && AllDigitsIn(s[2..], base) then Ok(Value(s[2..], base)) else Err(BigIntSyntax)
    else if |s| >= 1 && AllDigitsIn(s, 10) then
      Ok(Value(s, 10))
    else
      Err(BigIntSyntax)
  }

  /** An octal literal: "0o17" is 15. */
  lemma OctalExample()
    ensures StringToBigInt("0o17") == Ok(15)
  {
    var s := "0o17";
    assert s[2..] == "1" + ['7'];
    assert "1" == [] + ['1'];
    ValueSnoc([], '1', 8);
    ValueSnoc("1", '7', 8);
    assert AllDigitsIn(s[2..], 8);
  }

  /** A binary literal: "0b101" is 5. */
  lemma BinaryExample()
    ensures StringToBigInt("0b101") == Ok(5)
  {
    var s := "0b101";
    assert s[2..] == "10" + ['1'];
    assert "10" == "1" + ['0'];
    assert "1" == [] + ['1'];
    ValueSnoc([], '1', 2);
    ValueSnoc("1", '0', 2);
    ValueSnoc("10", '1', 2);
    assert AllDigitsIn(s[2..], 2);
  }
}
