/** Definitions shared by the models of the tracker's firmware modules:
    the width of a C `unsigned char`, powers, and a first-occurrence search. */
module Common {

  datatype Option<T> = None | Some(value: T)

  /** An `unsigned char`: every byte buffer of the firmware holds these. */
  type uint8 = x: int | 0 <= x < 256

  /** A `signed char`. */
  type int8 = x: int | -128 <= x < 128

  /** An `unsigned int` on the 32-bit target. */
  const Uint32Limit: nat := 0x1_0000_0000

  /** b raised to the n-th power, the mathematical reference for every
      power-of-ten table of the firmware. */
  function Power(b: nat, n: nat): (r: nat)
    ensures b >= 1 ==> r >= 1
  {
    if n == 0 then 1 else b * Power(b, n - 1)
  }

  /** Index of the first occurrence of c at or after `from`, or |s| when
      there is none: what every `while (buf[i] != c && i < SIZE) i++;`
      scan of the firmware computes. */
  function FindFrom<T(==)>(s: seq<T>, c: T, from: nat): (r: nat)
    requires from <= |s|
    decreases |s| - from
    ensures from <= r <= |s|
    ensures r < |s| ==> s[r] == c
    ensures forall i :: from <= i < r ==> s[i] != c
  {
    if from == |s| || s[from] == c then from else FindFrom(s, c, from + 1)
  }

  /** A first occurrence found by inspection is the one FindFrom returns. */
  lemma {:induction false} FindFromIs<T>(s: seq<T>, c: T, from: nat, r: nat)
    requires from <= r < |s| && s[r] == c
    requires forall i :: from <= i < r ==> s[i] != c
    ensures FindFrom(s, c, from) == r
    decreases r - from
  {
    if from < r {
      FindFromIs(s, c, from + 1, r);
    }
  }

  /** n zero bytes: the content of a buffer the firmware has cleared. */
  function ZeroBytes(n: nat): (z: seq<uint8>)
    ensures |z| == n && forall i :: 0 <= i < n ==> z[i] == 0
  {
    seq(n, _ => 0)
  }

  /** Byte i of s, reading 0 beyond its end. The firmware reads past the end
      of its buffers in a few places; the model reads 0 there instead. */
  function At(s: seq<uint8>, i: nat): uint8
  {
    if i < |s| then s[i] else 0
  }

  // Multiplication and division facts used by the digit and bit-field
  // models.

  lemma MulSwap(a: int, b: int, c: int)
    ensures a * (b * c) == b * (a * c)
    ensures (a * b) * c == a * (b * c)
  {
  }

  lemma MulAtLeast(d: nat, k: nat)
    requires k >= 1
    ensures d * k >= d
  {
    assert d * k == d + d * (k - 1);
  }

  lemma MulLe(d: nat, a: nat, c: nat)
    requires a <= c
    ensures 0 <= d * a <= d * c
  {
    assert d * c == d * a + d * (c - a);
  }

  /** A non-zero multiple of d is at least d away from 0. */
  lemma MulAway(d: nat, k: int)
    ensures k >= 1 ==> d * k >= d
    ensures k <= -1 ==> d * k + d <= 0
  {
    if k >= 1 {
      MulAtLeast(d, k);
    } else if k <= -1 {
      MulAtLeast(d, -k);
      assert d * k == -(d * -k);
    }
  }

  /** The quotient and remainder of a division are the only ones. */
  lemma DivUnique(v: nat, d: nat, q: nat, r: nat)
    requires d > 0 && r < d && v == d * q + r
    ensures v / d == q && v % d == r
  {
    var q0, r0 := v / d, v % d;
    assert d * (q0 - q) == r - r0 by {
      assert d * q0 + r0 == d * q + r;
      assert d * (q0 - q) == d * q0 - d * q;
    }
    MulAway(d, q0 - q);
  }

  /** Dividing by b * p is dividing by p, then by b. */
  lemma DivDiv(v: nat, p: nat, b: nat)
    requires p > 0 && b > 0
    ensures v / (b * p) == (v / p) / b
  {
    var q, r := v / p, v % p;
    var q2, r2 := q / b, q % b;
    assert v == p * q + r;
    assert q == b * q2 + r2;
    assert v == (b * p) * q2 + (p * r2 + r) by {
      assert p * q == p * (b * q2) + p * r2;
      assert p * (b * q2) == (b * p) * q2;
    }
    MulLe(p, r2, b - 1);
    assert p * (b - 1) == b * p - p;
    DivUnique(v, b * p, q2, p * r2 + r);
  }

  /** Division by a positive number is monotone. */
  lemma DivMonotone(x: nat, y: nat, d: nat)
    requires x <= y && d > 0
    ensures x / d <= y / d
  {
    var qx, qy := x / d, y / d;
    assert d * (qx - qy) < d by {
      assert d * qx + x % d == x && d * qy + y % d == y;
      assert d * (qx - qy) == d * qx - d * qy;
    }
    MulAway(d, qx - qy);
  }
}
