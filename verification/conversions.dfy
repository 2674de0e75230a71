/**
 * The conversions of the zk-kit utilities package between non-negative big
 * integers, hexadecimal strings and byte buffers (big- and little-endian).
 * Without a prefix in its name a conversion is big-endian.
 */
module Conversions {
  import opened Errors
  import opened Radix
  import opened Digits
  import opened TypeChecks
  import opened JsBigInt
  import opened NodeBuffer

  // ---------------------------------------------------------------------------
  // BigInt <-> hexadecimal string

  /**
   * `bigIntToHexadecimal`: base 16 in lower case, with one leading "0" added
   * when the rendering has an odd number of digits.
   */
  function BigIntToHexadecimal(value: nat): (r: string)
    ensures |r| >= 2 && |r| % 2 == 0
    ensures AllLowerHex(r) && AllDigitsIn(r, 16)
    ensures value == 0 ==> r == "00"
    // no whole byte of leading zeros
    ensures |r| == 2 || r[0] != '0' || r[1] != '0'
  {
    var hex := ToBase16(value);
    if |hex| % 2 != 0 then "0" + hex else hex
  }

  /** The string denotes the number: its digits read in base 16 give `value` back. */
  lemma BigIntToHexadecimalValue(value: nat)
    ensures Value(BigIntToHexadecimal(value), 16) == value
  {
    ToBase16Value(value);
    ValueLeadingZero(ToBase16(value), 16);
  }

  /**
   * `hexadecimalToBigInt`, as written: the guard admits "0x" or "0X" prefixed
   * and unprefixed digits, but only a "0x" prefix is recognised when the
   * string is handed to `BigInt`, so a "0X" prefixed string becomes "0x0X..."
   * and is rejected by the parse.
   */
  function HexadecimalToBigInt(s: string): (r: Result<nat>)
    ensures !IsHexadecimal(s, true) && !IsHexadecimal(s, false) ==> r == Err(NotHexadecimal)
    ensures IsHexadecimal(s, false) ==> r == Ok(Value(s, 16))
    ensures IsHexadecimal(s, true) && s[1] == 'x' ==> r == Ok(Value(s[2..], 16))
    ensures IsHexadecimal(s, true) && s[1] == 'X' ==> r == Err(BigIntSyntax)
  {
    if !IsHexadecimal(s, true) && !IsHexadecimal(s, false) then
      Err(NotHexadecimal)
    else
      var formatted := if |s| >= 2 && s[..2] == "0x" then s else "0x" + s;
      UnprefixedIsNotPrefixed(s);
      StringToBigInt(formatted)
  }

  /**
   * `hexadecimalToBigInt` as its guard and its documentation intend it: both
   * prefixes are recognised, so every string the guard admits is parsed.
   */
  function HexadecimalToBigIntAnyPrefix(s: string): (r: Result<nat>)
    ensures r.Ok? <==> IsHexadecimal(s, true) || IsHexadecimal(s, false)
    ensures r.Err? ==> r.error == NotHexadecimal
    ensures IsHexadecimal(s, false) ==> r == Ok(Value(s, 16))
    ensures IsHexadecimal(s, true) ==> r == Ok(Value(s[2..], 16))
  {
    if !IsHexadecimal(s, true) && !IsHexadecimal(s, false) then
      Err(NotHexadecimal)
    else
      var formatted := if |s| >= 2 && (s[..2] == "0x" || s[..2] == "0X") then s else "0x" + s;
      UnprefixedIsNotPrefixed(s);
      StringToBigInt(formatted)
  }

  /** Unprefixed digits never start with a prefix, and a prefix put in front of them is all that changes. */
  lemma UnprefixedIsNotPrefixed(s: string)
    ensures IsHexadecimal(s, false) ==> !(|s| >= 2 && (s[..2] == "0x" || s[..2] == "0X"))
    ensures IsHexadecimal(s, false) ==> IsHexadecimal("0x" + s, true) && ("0x" + s)[2..] == s
    ensures IsHexadecimal(s, true) && s[1] == 'X' ==> !IsHexadecimal("0x" + s, true)
  {
    if IsHexadecimal(s, false) && |s| >= 2 {
      assert IsDigitIn(s[1], 16);
    }
    if IsHexadecimal(s, true) && s[1] == 'X' {
      assert ("0x" + s)[2..][1] == 'X';
    }
  }

  // ---------------------------------------------------------------------------
  // Buffer -> BigInt

  /**
   * `beBufferToBigInt`: the buffer's hex rendering behind "0x", parsed by
   * `BigInt`. An empty buffer gives "0x", which the parse rejects.
   */
  function BeBufferToBigInt(b: seq<Byte>): (r: Result<nat>)
    ensures b == [] ==> r == Err(BigIntSyntax)
    ensures b != [] ==> r == Ok(BeValue(b))
  {
    var hex := BytesToHex(b);
    BytesToHexValue(b);
    var s := "0x" + hex;
    assert s[2..] == hex;
    StringToBigInt(s)
  }

  /** `leBufferToBigInt`: as `beBufferToBigInt` on a reversed copy of the buffer. */
  function LeBufferToBigInt(b: seq<Byte>): (r: Result<nat>)
    ensures b == [] ==> r == Err(BigIntSyntax)
    ensures b != [] ==> r == Ok(LeValue(b))
  {
    var hex := BytesToHex(Reverse(b));
    BytesToHexValue(Reverse(b));
    LeValueIsReversedBeValue(b);
    var s := "0x" + hex;
    assert s[2..] == hex;
    StringToBigInt(s)
  }

  /** `bufferToBigInt`: the big-endian reading. */
  function BufferToBigInt(b: seq<Byte>): (r: Result<nat>)
    ensures b == [] ==> r == Err(BigIntSyntax)
    ensures b != [] ==> r == Ok(BeValue(b))
  {
    BeBufferToBigInt(b)
  }

  // ---------------------------------------------------------------------------
  // BigInt -> buffer

  /** `Math.ceil(hex.length / 2)`: the bytes the value needs. */
  function MinSize(value: nat): nat
  {
    (|BigIntToHexadecimal(value)| + 1) / 2
  }

  /** `Buffer.from(bigIntToHexadecimal(value), "hex")`: the value's shortest big-endian bytes. */
  function MinBytes(value: nat): (r: seq<Byte>)
    ensures |r| == MinSize(value) >= 1
    ensures |r| == 1 || r[0] != 0
  {
    HexToBytes(BigIntToHexadecimal(value))
  }

  /** The bytes denote the number: read big-endian they give `value` back. */
  lemma MinBytesValue(value: nat)
    ensures BeValue(MinBytes(value)) == value
  {
    BigIntToHexadecimalValue(value);
    HexToBytesValue(BigIntToHexadecimal(value));
  }

  /** `!size` in JavaScript: an absent size and a size of 0 both mean "as small as possible". */
  predicate IsFalsy(size: Option<int>)
  {
    size.None? || size.value == 0
  }

  /** The bytes `beBigIntToBuffer(value, size)` returns: zeros, then the value's bytes. */
  function BeBigIntToBytes(value: nat, size: Option<int>): (r: Result<seq<Byte>>)
    ensures r.Err? <==> !IsFalsy(size) && size.value < MinSize(value)
    ensures r.Err? ==> r.error == SizeTooSmall(size.value, MinSize(value))
    ensures r.Ok? ==> |r.value| == if IsFalsy(size) then MinSize(value) else size.value
  {
    var minSize := MinSize(value);
    if !IsFalsy(size) && size.value < minSize then
      Err(SizeTooSmall(size.value, minSize))
    else
      var n := if IsFalsy(size) then minSize else size.value;
      Ok(Zeros(n - minSize) + MinBytes(value))
  }

  /** The big-endian buffer denotes the number, whatever the padding. */
  lemma BeBigIntToBytesValue(value: nat, size: Option<int>)
    ensures BeBigIntToBytes(value, size).Ok? ==> BeValue(BeBigIntToBytes(value, size).value) == value
  {
    var minSize := MinSize(value);
    if IsFalsy(size) || size.value >= minSize {
      var n := if IsFalsy(size) then minSize else size.value;
      MinBytesValue(value);
      FoldZeros(n - minSize, MinBytes(value), 256);
    }
  }

  /** The bytes `leBigIntToBuffer(value, size)` returns: the value's bytes reversed, then zeros. */
  function LeBigIntToBytes(value: nat, size: Option<int>): (r: Result<seq<Byte>>)
    ensures r.Err? <==> !IsFalsy(size) && size.value < MinSize(value)
    ensures r.Err? ==> r.error == SizeTooSmall(size.value, MinSize(value))
    ensures r.Ok? ==> |r.value| == if IsFalsy(size) then MinSize(value) else size.value
  {
    var minSize := MinSize(value);
    if !IsFalsy(size) && size.value < minSize then
      Err(SizeTooSmall(size.value, minSize))
    else
      var n := if IsFalsy(size) then minSize else size.value;
      Ok(Reverse(MinBytes(value)) + Zeros(n - minSize))
  }

  /** The little-endian buffer denotes the number, whatever the padding. */
  lemma LeBigIntToBytesValue(value: nat, size: Option<int>)
    ensures LeBigIntToBytes(value, size).Ok? ==> LeValue(LeBigIntToBytes(value, size).value) == value
  {
    var minSize := MinSize(value);
    if IsFalsy(size) || size.value >= minSize {
      var n := if IsFalsy(size) then minSize else size.value;
      MinBytesValue(value);
      LeValuePadded(MinBytes(value), n - minSize);
    }
  }

  /** A zero-filled buffer with the value's bytes copied into its end is the big-endian result. */
  lemma BeCopiedLayout(value: nat, size: Option<int>, n: nat, contents: seq<Byte>)
    requires IsFalsy(size) || size.value >= MinSize(value)
    requires n == if IsFalsy(size) then MinSize(value) else size.value
    requires contents == Zeros(n)[..n - MinSize(value)] + MinBytes(value) + Zeros(n)[n..]
    ensures BeBigIntToBytes(value, size).Ok? && BeBigIntToBytes(value, size).value == contents
  {
    ZerosSlice(n, 0, n - MinSize(value));
    assert Zeros(n)[n..] == [];
  }

  /** A zero-filled buffer with the reversed bytes copied into its start is the little-endian result. */
  lemma LeCopiedLayout(value: nat, size: Option<int>, n: nat, contents: seq<Byte>)
    requires IsFalsy(size) || size.value >= MinSize(value)
    requires n == if IsFalsy(size) then MinSize(value) else size.value
    requires contents == Zeros(n)[..0] + Reverse(MinBytes(value)) + Zeros(n)[MinSize(value)..]
    ensures LeBigIntToBytes(value, size).Ok? && LeBigIntToBytes(value, size).value == contents
  {
    ZerosSlice(n, MinSize(value), n);
    assert Zeros(n)[..0] == [];
  }

  /**
   * `beBigIntToBuffer`: allocates a zero-filled buffer of the requested size
   * (the value's own size when none is given) and copies the value's bytes
   * into its end.
   */
  method BeBigIntToBuffer(value: nat, size: Option<int>) returns (r: Result<array<Byte>>)
    ensures r.Ok? ==> fresh(r.value)
    ensures r.Ok? ==> BeBigIntToBytes(value, size).Ok? && BeBigIntToBytes(value, size).value == r.value[..]
    ensures r.Err? ==> BeBigIntToBytes(value, size) == Err(r.error)
  {
    var minSize := MinSize(value);
    var n: nat;
    if IsFalsy(size) {
      n := minSize;
    } else if size.value < minSize {
      return Err(SizeTooSmall(size.value, minSize));
    } else {
      n := size.value;
    }
    var buffer := Alloc(n);
    var fromHex := MinBytes(value);
    var copied := Copy(fromHex, buffer, n - |fromHex|);
    BeCopiedLayout(value, size, n, buffer[..]);
    return Ok(buffer);
  }

  /**
   * `leBigIntToBuffer`: allocates a zero-filled buffer of the requested size
   * and copies the value's bytes, reversed, into its start.
   */
  method LeBigIntToBuffer(value: nat, size: Option<int>) returns (r: Result<array<Byte>>)
    ensures r.Ok? ==> fresh(r.value)
    ensures r.Ok? ==> LeBigIntToBytes(value, size).Ok? && LeBigIntToBytes(value, size).value == r.value[..]
    ensures r.Err? ==> LeBigIntToBytes(value, size) == Err(r.error)
  {
    var minSize := MinSize(value);
    var n: nat;
    if IsFalsy(size) {
      n := minSize;
    } else if size.value < minSize {
      return Err(SizeTooSmall(size.value, minSize));
    } else {
      n := size.value;
    }
    var buffer := Alloc(n);
    var fromHex := Reverse(MinBytes(value));
    var copied := Copy(fromHex, buffer, 0);
    LeCopiedLayout(value, size, n, buffer[..]);
    return Ok(buffer);
  }

  /** `bigIntToBuffer`: `beBigIntToBuffer` without a size, which cannot fail. */
  method BigIntToBuffer(value: nat) returns (buf: array<Byte>)
    ensures fresh(buf)
    ensures buf[..] == MinBytes(value)
    ensures BeValue(buf[..]) == value
  {
    var r := BeBigIntToBuffer(value, None);
    buf := r.value;
    BeBigIntToBytesValue(value, None);
    assert Zeros(0) + MinBytes(value) == MinBytes(value);
  }

  // ---------------------------------------------------------------------------
  // BigNumberish

  /**
   * The `BigNumberish` argument: a bigint or an integral number, a string, or
   * a `Buffer`/`Uint8Array`.
   */
  datatype BigNumberish = Integer(n: nat) | Text(s: string) | Bytes(b: seq<Byte>)

  /**
   * `bigNumberishToBigInt`: a string must be one `BigInt` can parse, else the
   * guard throws; bytes are read big-endian; anything else goes through `BigInt`.
   */
  function BigNumberishToBigInt(x: BigNumberish): (r: Result<nat>)
    ensures x.Integer? ==> r == Ok(x.n)
    ensures x.Bytes? && x.b == [] ==> r == Err(BigIntSyntax)
    ensures x.Bytes? && x.b != [] ==> r == Ok(BeValue(x.b))
    ensures x.Text? && IsHexadecimal(x.s, true) ==> r == Ok(Value(x.s[2..], 16))
    ensures x.Text? && |x.s| >= 1 && AllDigitsIn(x.s, 10) ==> r == Ok(Value(x.s, 10))
    ensures x.Text? && StringToBigInt(x.s).Err? ==> r == Err(NotBigNumberish)
    ensures x.Text? ==> (r.Ok? <==> StringToBigInt(x.s).Ok?)
    ensures x.Text? && r.Ok? ==> r == StringToBigInt(x.s)
  {
    match x
    case Bytes(b) => BufferToBigInt(b)
    case Integer(n) => Ok(n)
    case Text(s) => if StringToBigInt(s).Err? then Err(NotBigNumberish) else StringToBigInt(s)
  }

  /**
   * `bigNumberishToBuffer`: a copy of a buffer argument, otherwise the
   * big-endian bytes of the argument's value.
   */
  function BigNumberishToBuffer(x: BigNumberish): (r: Result<seq<Byte>>)
    ensures x.Bytes? ==> r == Ok(x.b)
    ensures !x.Bytes? ==> (r.Err? <==> BigNumberishToBigInt(x).Err?)
    ensures !x.Bytes? && r.Ok? ==> BeValue(r.value) == BigNumberishToBigInt(x).value
    ensures !x.Bytes? && r.Ok? ==> |r.value| == MinSize(BigNumberishToBigInt(x).value)
  {
    match x
    case Bytes(b) => Ok(b)
    case _ =>
      match BigNumberishToBigInt(x)
      case Err(e) => Err(e)
      case Ok(v) =>
        BeBigIntToBytesValue(v, None);
        Ok(BeBigIntToBytes(v, None).value)
  }

  // ---------------------------------------------------------------------------
  // Hexadecimal string <-> buffer

  /**
   * `hexadecimalToBuffer`: unprefixed digits only; an odd count gets a
   * leading "0", and each digit pair becomes one byte, in order.
   */
  function HexadecimalToBuffer(s: string): (r: Result<seq<Byte>>)
    ensures r.Err? <==> !IsHexadecimal(s, false)
    ensures r.Err? ==> r.error == NotHexadecimal
    ensures r.Ok? ==> |r.value| == (|s| + 1) / 2 && BeValue(r.value) == Value(s, 16)
  {
    if !IsHexadecimal(s, false) then
      Err(NotHexadecimal)
    else
      var padded := if |s| % 2 != 0 then "0" + s else s;
      ValueLeadingZero(s, 16);
      HexToBytesValue(padded);
      Ok(HexToBytes(padded))
  }

  /** `bufferToHexadecimal`: two lower-case digits per byte, in order, without a prefix. */
  function BufferToHexadecimal(b: seq<Byte>): (r: string)
    ensures |r| == 2 * |b| && AllLowerHex(r) && AllDigitsIn(r, 16)
    ensures forall i :: 0 <= i < |b| ==> PairValue(r[2 * i], r[2 * i + 1]) == b[i]
    ensures Value(r, 16) == BeValue(b)
  {
    BytesToHexPairs(b);
    BytesToHexValue(b);
    BytesToHex(b)
  }
}
