/**
 * Node's `Buffer` hex codec, as the conversions use it: `Buffer.from(s, "hex")`
 * on a well-formed even-length string and `buf.toString("hex")`.
 */
module NodeBuffer {
  import opened Radix
  import opened Digits

  /** The byte written by two hexadecimal digits, high nibble first. */
  function PairValue(hi: char, lo: char): Byte
  {
    DigitValue(hi) * 16 + DigitValue(lo)
  }

  /** `Buffer.from(h, "hex")`: one byte per digit pair, in the same order. */
  function HexToBytes(h: string): (r: seq<Byte>)
    requires |h| % 2 == 0 && AllDigitsIn(h, 16)
    ensures |r| == |h| / 2
  {
    seq(|h| / 2, i requires 0 <= i < |h| / 2 => PairValue(h[2 * i], h[2 * i + 1]))
  }

  /** `buf.toString("hex")`: two lower-case digits per byte, in the same order. */
  function BytesToHex(b: seq<Byte>): (r: string)
    ensures |r| == 2 * |b|
    ensures AllLowerHex(r) && AllDigitsIn(r, 16)
  {
    seq(2 * |b|, i requires 0 <= i < 2 * |b| =>
      LowerDigit(if i % 2 == 0 then b[i / 2] / 16 else b[i / 2] % 16))
  }

  /** `Buffer.alloc(size, 0)`: a new buffer of `size` zero bytes. */
  method Alloc(size: nat) returns (buf: array<Byte>)
    ensures fresh(buf)
    ensures buf[..] == Zeros(size)
  {
    buf := new Byte[size](_ => 0);
  }

  /**
   * `source.copy(target, offset)`: writes as much of `source` as fits into
   * `target` from `offset` on, leaves the rest of `target` as it was, and
   * returns the number of bytes written.
   */
  method Copy(source: seq<Byte>, target: array<Byte>, offset: nat) returns (copied: nat)
    modifies target
    ensures copied == if offset >= target.Length then 0 else Min(|source|, target.Length - offset)
    ensures target[..] == old(target[..]) [..Min(offset, target.Length)] + source[..copied]
                          + old(target[..])[Min(offset, target.Length) + copied..]
    ensures offset + |source| <= target.Length ==>
              target[..] == old(target[..offset]) + source + old(target[offset + |source|..])
  {
    copied := if offset >= target.Length then 0 else Min(|source|, target.Length - offset);
    ghost var before := target[..];
    var start := Min(offset, target.Length);
    for i := 0 to copied
      invariant target[..start] == before[..start]
      invariant target[start..start + i] == source[..i]
      invariant target[start + copied..] == before[start + copied..]
    {
      target[start + i] := source[i];
    }
    assert target[..] == target[..start] + target[start..start + copied] + target[start + copied..];
    assert offset + |source| <= target.Length ==> source[..copied] == source;
  }

  function Min(a: int, b: int): int
  {
    if a < b then a else b
  }

  /** Decoding keeps the number: the bytes read big-endian equal the digits read in base 16. */
  lemma {:induction false} HexToBytesValue(h: string)
    requires |h| % 2 == 0 && AllDigitsIn(h, 16)
    ensures BeValue(HexToBytes(h)) == Value(h, 16)
    decreases |h|
  {
    if h != [] {
      var n := |h|;
      var h' := h[..n - 2];
      HexToBytesValue(h');
      HexToBytesSnoc(h);
      BeValueSnoc(HexToBytes(h'), PairValue(h[n - 2], h[n - 1]));
      assert h == h' + [h[n - 2], h[n - 1]];
      ValuePairSnoc(h', h[n - 2], h[n - 1]);
    }
  }

  /** Appending a digit pair shifts the value by one byte. */
  lemma ValuePairSnoc(s: string, hi: char, lo: char)
    ensures Value(s + [hi, lo], 16) == Value(s, 16) * 256 + PairValue(hi, lo)
  {
    ValueSnoc(s, hi, 16);
    ValueSnoc(s + [hi], lo, 16);
    assert s + [hi] + [lo] == s + [hi, lo];
  }

  /** The last digit pair decodes to the last byte. */
  lemma HexToBytesSnoc(h: string)
    requires |h| >= 2 && |h| % 2 == 0 && AllDigitsIn(h, 16)
    ensures HexToBytes(h) == HexToBytes(h[..|h| - 2]) + [PairValue(h[|h| - 2], h[|h| - 1])]
  {
    var n := |h|;
    var x := HexToBytes(h[..n - 2]);
    assert |x| == n / 2 - 1;
    forall i | 0 <= i < n / 2
      ensures HexToBytes(h)[i] == (x + [PairValue(h[n - 2], h[n - 1])])[i]
    {
      if i < n / 2 - 1 {
        assert x[i] == PairValue(h[2 * i], h[2 * i + 1]);
      } else {
        assert 2 * i == n - 2;
      }
    }
  }

  /** The two digits `BytesToHex` writes for byte `k`. */
  lemma BytesToHexAt(b: seq<Byte>, k: nat)
    requires k < |b|
    ensures BytesToHex(b)[2 * k] == LowerDigit(b[k] / 16)
    ensures BytesToHex(b)[2 * k + 1] == LowerDigit(b[k] % 16)
  {
    assert (2 * k) / 2 == k && (2 * k) % 2 == 0;
    assert (2 * k + 1) / 2 == k && (2 * k + 1) % 2 == 1;
  }

  lemma PairOfByte(x: Byte)
    ensures PairValue(LowerDigit(x / 16), LowerDigit(x % 16)) == x
  {
  }

  lemma ByteOfPair(hi: char, lo: char)
    requires IsLowerHexDigit(hi) && IsLowerHexDigit(lo)
    ensures LowerDigit(PairValue(hi, lo) / 16) == hi
    ensures LowerDigit(PairValue(hi, lo) % 16) == lo
  {
    LowerDigitOfValue(hi);
    LowerDigitOfValue(lo);
  }

  /** Each byte is encoded as its own digit pair, in order. */
  lemma BytesToHexPairs(b: seq<Byte>)
    ensures forall k :: 0 <= k < |b| ==> PairValue(BytesToHex(b)[2 * k], BytesToHex(b)[2 * k + 1]) == b[k]
  {
    forall k | 0 <= k < |b|
      ensures PairValue(BytesToHex(b)[2 * k], BytesToHex(b)[2 * k + 1]) == b[k]
    {
      BytesToHexAt(b, k);
      PairOfByte(b[k]);
    }
  }

  /** Decoding what was encoded gives back the same bytes. */
  lemma BytesToHexRoundTrip(b: seq<Byte>)
    ensures HexToBytes(BytesToHex(b)) == b
  {
    var h := BytesToHex(b);
    assert |h| / 2 == |b|;
    forall k | 0 <= k < |b|
      ensures HexToBytes(h)[k] == b[k]
    {
      BytesToHexAt(b, k);
      PairOfByte(b[k]);
    }
  }

  /** Encoding keeps the number: the digits read in base 16 equal the bytes read big-endian. */
  lemma BytesToHexValue(b: seq<Byte>)
    ensures Value(BytesToHex(b), 16) == BeValue(b)
  {
    BytesToHexRoundTrip(b);
    HexToBytesValue(BytesToHex(b));
  }

  /** Encoding what was decoded gives back a lower-case even-length string. */
  lemma HexToBytesRoundTrip(h: string)
    requires |h| % 2 == 0 && AllLowerHex(h)
    ensures BytesToHex(HexToBytes(h)) == h
  {
    var b := HexToBytes(h);
    var r := BytesToHex(b);
    forall i | 0 <= i < |h|
      ensures r[i] == h[i]
    {
      var k := i / 2;
      assert b[k] == PairValue(h[2 * k], h[2 * k + 1]);
      BytesToHexAt(b, k);
      ByteOfPair(h[2 * k], h[2 * k + 1]);
      assert i == 2 * k || i == 2 * k + 1;
    }
  }
}
