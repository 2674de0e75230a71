/**
 * Positional notation: the value of a digit sequence written most significant
 * digit first, bytes, and the big- and little-endian readings of a byte sequence.
 */
module Radix {

  /** An octet, the element of a Node `Buffer` or a `Uint8Array`. */
  type Byte = b: int | 0 <= b < 256

  function Pow(base: nat, n: nat): (r: nat)
    ensures base > 0 ==> r > 0
  {
    if n == 0 then 1 else Pow(base, n - 1) * base
  }

  /** The value of `ds` read in `base`, most significant digit first. */
  function Fold(ds: seq<nat>, base: nat): nat
  {
    if ds == [] then 0 else Fold(ds[..|ds| - 1], base) * base + ds[|ds| - 1]
  }

  predicate DigitsBelow(ds: seq<nat>, base: nat)
  {
    forall i :: 0 <= i < |ds| ==> ds[i] < base
  }

  /** Big-endian (network order) value of a byte sequence. */
  function BeValue(b: seq<Byte>): nat
  {
    Fold(b, 256)
  }

  /**
   * Little-endian value of a byte sequence, defined on its own: the first byte
   * is the least significant.
   */
  function LeValue(b: seq<Byte>): nat
  {
    if b == [] then 0 else b[0] + 256 * LeValue(b[1..])
  }

  function Reverse(b: seq<Byte>): (r: seq<Byte>)
    ensures |r| == |b|
    ensures forall i :: 0 <= i < |b| ==> r[i] == b[|b| - 1 - i]
  {
    seq(|b|, i requires 0 <= i < |b| => b[|b| - 1 - i])
  }

  function Zeros(n: nat): (r: seq<Byte>)
    ensures |r| == n
    ensures forall i :: 0 <= i < n ==> r[i] == 0
  {
    seq(n, _ => 0)
  }

  /** A larger exponent never gives a smaller power. */
  lemma {:induction false} PowMonotone(base: nat, m: nat, n: nat)
    requires base > 0 && m <= n
    ensures Pow(base, m) <= Pow(base, n)
    decreases n
  {
    if m < n {
      PowMonotone(base, m, n - 1);
      MulMonotone(1, base, Pow(base, n - 1));
    }
  }

  /** Reading a concatenation: the left part is shifted by the right part's width. */
  lemma {:induction false} FoldAppend(a: seq<nat>, b: seq<nat>, base: nat)
    ensures Fold(a + b, base) == Fold(a, base) * Pow(base, |b|) + Fold(b, base)
    decreases |b|
  {
    if b == [] {
      assert a + b == a;
    } else {
      var b' := b[..|b| - 1];
      assert (a + b)[..|a + b| - 1] == a + b';
      FoldAppend(a, b', base);
      ShiftSum(Fold(a, base), Pow(base, |b'|), Fold(b', base), base, b[|b| - 1]);
    }
  }

  /** Digits below the base have a value below `base^|ds|`. */
  lemma {:induction false} FoldBound(ds: seq<nat>, base: nat)
    requires DigitsBelow(ds, base)
    ensures Fold(ds, base) < Pow(base, |ds|)
    decreases |ds|
  {
    if ds != [] {
      var ds' := ds[..|ds| - 1];
      FoldBound(ds', base);
      BelowNextMultiple(Fold(ds', base), ds[|ds| - 1], Pow(base, |ds'|), base);
    }
  }

  /** Appending a byte shifts the big-endian value by one place. */
  lemma BeValueSnoc(x: seq<Byte>, p: Byte)
    ensures BeValue(x + [p]) == BeValue(x) * 256 + p
  {
    assert (x + [p])[..|x|] == x;
  }

  lemma ShiftSum(x: int, p: int, y: int, base: int, d: int)
    ensures (x * p + y) * base + d == x * (p * base) + (y * base + d)
  {
  }

  lemma BelowNextMultiple(q: nat, d: nat, p: nat, base: nat)
    requires q < p && d < base
    ensures q * base + d < p * base
  {
    MulMonotone(q + 1, p, base);
  }

  /** The leading digit contributes at least its weight. */
  lemma LeadingDigitWeight(ds: seq<nat>, base: nat)
    requires |ds| > 0
    ensures Fold(ds, base) >= ds[0] * Pow(base, |ds| - 1)
  {
    assert ds == [ds[0]] + ds[1..];
    FoldAppend([ds[0]], ds[1..], base);
    assert [ds[0]][..0] == [];
  }

  /** A digit string without a leading zero is as short as any that denotes the same number. */
  lemma MinimalWidth(a: seq<nat>, b: seq<nat>, base: nat)
    requires base > 0 && |a| > 0 && a[0] != 0
    requires DigitsBelow(b, base) && Fold(a, base) == Fold(b, base)
    ensures |b| >= |a|
  {
    LeadingDigitWeight(a, base);
    MulMonotone(1, a[0], Pow(base, |a| - 1));
    FoldBound(b, base);
    if |b| < |a| {
      PowMonotone(base, |b|, |a| - 1);
      assert false;
    }
  }

  /** A run of zero digits is worth nothing, so leading zeros do not change a value. */
  lemma {:induction false} FoldZeros(n: nat, ds: seq<nat>, base: nat)
    ensures Fold(Zeros(n) + ds, base) == Fold(ds, base)
    decreases n
  {
    if n == 0 {
      assert Zeros(n) + ds == ds;
    } else {
      assert Zeros(n) + ds == Zeros(n - 1) + ([0] + ds);
      FoldZeros(n - 1, [0] + ds, base);
      FoldAppend([0], ds, base);
      assert [0][..0] == [];
    }
  }

  /** Positional notation of a fixed width is unique. */
  lemma {:induction false} FoldInjective(a: seq<nat>, b: seq<nat>, base: nat)
    requires base > 0 && |a| == |b|
    requires DigitsBelow(a, base) && DigitsBelow(b, base)
    requires Fold(a, base) == Fold(b, base)
    ensures a == b
    decreases |a|
  {
    if a != [] {
      var a', b' := a[..|a| - 1], b[..|b| - 1];
      var x, y := a[|a| - 1], b[|b| - 1];
      assert Fold(a, base) == Fold(a', base) * base + x;
      assert Fold(b, base) == Fold(b', base) * base + y;
      assert x == y && Fold(a', base) == Fold(b', base) by {
        DivModUnique(Fold(a', base), x, Fold(b', base), y, base);
      }
      FoldInjective(a', b', base);
      assert a == a' + [x] && b == b' + [y];
    }
  }

  lemma DivModUnique(q1: nat, r1: nat, q2: nat, r2: nat, base: nat)
    requires r1 < base && r2 < base
    requires q1 * base + r1 == q2 * base + r2
    ensures q1 == q2 && r1 == r2
  {
    if q1 < q2 {
      BelowNextMultiple(q1, r1, q2, base);
      assert false;
    } else if q2 < q1 {
      BelowNextMultiple(q2, r2, q1, base);
      assert false;
    }
  }

  lemma MulMonotone(x: nat, y: nat, k: nat)
    requires x <= y
    ensures x * k <= y * k
  {
  }

  lemma BytesBelow256(b: seq<Byte>)
    ensures DigitsBelow(b, 256)
  {
  }

  /** Little-endian reading is big-endian reading of the reversed bytes. */
  lemma {:induction false} LeValueIsReversedBeValue(b: seq<Byte>)
    ensures LeValue(b) == BeValue(Reverse(b))
    decreases |b|
  {
    if b != [] {
      LeValueIsReversedBeValue(b[1..]);
      var r := Reverse(b);
      assert r[..|r| - 1] == Reverse(b[1..]);
      assert r[|r| - 1] == b[0];
    }
  }

  lemma ZerosSlice(n: nat, i: nat, j: nat)
    requires i <= j <= n
    ensures Zeros(n)[i..j] == Zeros(j - i)
  {
  }

  lemma ReverseAppend(a: seq<Byte>, b: seq<Byte>)
    ensures Reverse(a + b) == Reverse(b) + Reverse(a)
  {
  }

  lemma ReverseZeros(n: nat)
    ensures Reverse(Zeros(n)) == Zeros(n)
  {
  }

  lemma ReverseReverse(b: seq<Byte>)
    ensures Reverse(Reverse(b)) == b
  {
  }

  /** Zeros after the reversed bytes add nothing to the little-endian value. */
  lemma LeValuePadded(m: seq<Byte>, k: nat)
    ensures LeValue(Reverse(m) + Zeros(k)) == BeValue(m)
  {
    var b := Reverse(m) + Zeros(k);
    ReverseAppend(Reverse(m), Zeros(k));
    ReverseZeros(k);
    ReverseReverse(m);
    LeValueIsReversedBeValue(b);
    FoldZeros(k, m, 256);
  }
}
