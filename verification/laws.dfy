/**
 * Laws relating the conversions to each other: round trips between numbers,
 * hexadecimal strings and buffers, the minimality of the default buffer size,
 * and the byte-order symmetry of the big- and little-endian variants.
 */
module ConversionLaws {
  import opened Errors
  import opened Radix
  import opened Digits
  import opened TypeChecks
  import opened NodeBuffer
  import opened Conversions

  // ---------------------------------------------------------------------------
  // Number <-> hexadecimal string

  /** A rendered number parses back to itself, with or without a "0x" prefix. */
  lemma HexadecimalRoundTrip(value: nat)
    ensures HexadecimalToBigInt(BigIntToHexadecimal(value)) == Ok(value)
    ensures HexadecimalToBigInt("0x" + BigIntToHexadecimal(value)) == Ok(value)
  {
    var hex := BigIntToHexadecimal(value);
    BigIntToHexadecimalValue(value);
    assert IsHexadecimal(hex, false);
    var s := "0x" + hex;
    assert s[2..] == hex;
    assert IsHexadecimal(s, true) && s[1] == 'x';
  }

  /**
   * The as-written parse and the corrected one agree on every string except
   * those with a "0X" prefix, which only the corrected one accepts.
   */
  lemma HexadecimalToBigIntUpperPrefix(s: string)
    ensures !(IsHexadecimal(s, true) && s[1] == 'X') ==> HexadecimalToBigInt(s) == HexadecimalToBigIntAnyPrefix(s)
    ensures IsHexadecimal(s, true) && s[1] == 'X' ==>
              HexadecimalToBigInt(s).Err? && HexadecimalToBigIntAnyPrefix(s).Ok?
  {
  }

  /** The input that shows it: "0X1" passes the guard, is rejected as written and is 1 when corrected. */
  lemma UpperPrefixCounterexample()
    ensures IsHexadecimal("0X1", true)
    ensures HexadecimalToBigInt("0X1") == Err(BigIntSyntax)
    ensures HexadecimalToBigIntAnyPrefix("0X1") == Ok(1)
  {
    var s := "0X1";
    assert s[2..] == "1";
    assert IsHexadecimal(s, true);
    ValueSnoc([], '1', 16);
    assert [] + ['1'] == s[2..];
  }

  // ---------------------------------------------------------------------------
  // The default size

  /** The value fits in its default number of bytes. */
  lemma MinSizeFits(value: nat)
    ensures value < Pow(256, MinSize(value))
  {
    MinBytesValue(value);
    BytesBelow256(MinBytes(value));
    FoldBound(MinBytes(value), 256);
  }

  /** No non-empty buffer shorter than the default size reads as the value. */
  lemma MinSizeIsMinimal(value: nat, b: seq<Byte>)
    requires |b| >= 1 && BeValue(b) == value
    ensures |b| >= MinSize(value)
  {
    var m := MinBytes(value);
    if |m| > 1 {
      MinBytesValue(value);
      BytesBelow256(b);
      MinimalWidth(m, b, 256);
    }
  }

  // ---------------------------------------------------------------------------
  // Number <-> buffer

  /** Every buffer `beBigIntToBuffer` returns reads back as the value, big-endian. */
  lemma BeRoundTrip(value: nat, size: Option<int>)
    ensures BeBigIntToBytes(value, size).Ok? ==> BeBufferToBigInt(BeBigIntToBytes(value, size).value) == Ok(value)
  {
    BeBigIntToBytesValue(value, size);
  }

  /** Every buffer `leBigIntToBuffer` returns reads back as the value, little-endian. */
  lemma LeRoundTrip(value: nat, size: Option<int>)
    ensures LeBigIntToBytes(value, size).Ok? ==> LeBufferToBigInt(LeBigIntToBytes(value, size).value) == Ok(value)
  {
    LeBigIntToBytesValue(value, size);
  }

  /** A non-empty buffer re-encoded at its own length is the same buffer, big-endian. */
  lemma BeBytesRoundTrip(b: seq<Byte>)
    requires b != []
    ensures BeBigIntToBytes(BeValue(b), Some(|b|)) == Ok(b)
  {
    var value := BeValue(b);
    MinSizeIsMinimal(value, b);
    var r := BeBigIntToBytes(value, Some(|b|));
    BeBigIntToBytesValue(value, Some(|b|));
    BytesBelow256(b);
    BytesBelow256(r.value);
    FoldInjective(r.value, b, 256);
  }

  /** The little-endian result is the big-endian one reversed, and they fail alike. */
  lemma LeIsReversedBe(value: nat, size: Option<int>)
    ensures LeBigIntToBytes(value, size).Err? <==> BeBigIntToBytes(value, size).Err?
    ensures LeBigIntToBytes(value, size).Err? ==> LeBigIntToBytes(value, size) == BeBigIntToBytes(value, size)
    ensures LeBigIntToBytes(value, size).Ok? ==>
              LeBigIntToBytes(value, size).value == Reverse(BeBigIntToBytes(value, size).value)
  {
    var minSize := MinSize(value);
    if IsFalsy(size) || size.value >= minSize {
      var n := if IsFalsy(size) then minSize else size.value;
      var m, z := MinBytes(value), Zeros(n - minSize);
      assert BeBigIntToBytes(value, size).value == z + m;
      assert LeBigIntToBytes(value, size).value == Reverse(m) + z;
      ReverseAppend(z, m);
      ReverseZeros(n - minSize);
    }
  }

  /** A non-empty buffer re-encoded at its own length is the same buffer, little-endian. */
  lemma LeBytesRoundTrip(b: seq<Byte>)
    requires b != []
    ensures LeBigIntToBytes(LeValue(b), Some(|b|)) == Ok(b)
  {
    LeValueIsReversedBeValue(b);
    BeBytesRoundTrip(Reverse(b));
    LeIsReversedBe(LeValue(b), Some(|b|));
    ReverseReverse(b);
  }

  // ---------------------------------------------------------------------------
  // Buffer <-> hexadecimal string

  /**
   * A non-empty buffer survives rendering and parsing; the empty buffer renders
   * as "", which the guard rejects.
   */
  lemma BufferHexadecimalRoundTrip(b: seq<Byte>)
    ensures b != [] ==> HexadecimalToBuffer(BufferToHexadecimal(b)) == Ok(b)
    ensures b == [] ==> HexadecimalToBuffer(BufferToHexadecimal(b)) == Err(NotHexadecimal)
  {
    BytesToHexRoundTrip(b);
  }

  /**
   * Lower-case digits survive parsing and rendering, except that an odd count
   * comes back with the leading "0" the parse added.
   */
  lemma HexadecimalBufferRoundTrip(s: string)
    requires IsHexadecimal(s, false) && AllLowerHex(s)
    ensures HexadecimalToBuffer(s).Ok?
    ensures BufferToHexadecimal(HexadecimalToBuffer(s).value) == if |s| % 2 == 0 then s else "0" + s
  {
    var padded := if |s| % 2 != 0 then "0" + s else s;
    assert AllLowerHex(padded) by {
      forall i | 0 <= i < |padded|
        ensures IsLowerHexDigit(padded[i])
      {
        if |s| % 2 != 0 && i > 0 {
          assert padded[i] == s[i - 1];
        }
      }
    }
    HexToBytesRoundTrip(padded);
  }

  // ---------------------------------------------------------------------------
  // BigNumberish

  /** Converting to a buffer and reading the buffer back gives the same number. */
  lemma BigNumberishRoundTrip(x: BigNumberish)
    ensures BigNumberishToBuffer(x).Ok? ==>
              BigNumberishToBigInt(Bytes(BigNumberishToBuffer(x).value)) == BigNumberishToBigInt(x)
  {
  }
}
