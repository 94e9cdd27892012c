/** Bitwise operations on unsigned integers, written out over `nat`. */
module Bits {

  function Pow2(n: nat): (p: nat)
    ensures p >= 1
  {
    if n == 0 then 1 else 2 * Pow2(n - 1)
  }

  /** `(x as u8) << n` in `u8`: bits shifted past the eighth are lost. */
  function ShiftLeftByte(x: nat, n: nat): (r: nat)
    ensures r < 256
    ensures x * Pow2(n) < 256 ==> r == x * Pow2(n)
  {
    var p := Pow2(n);
    assert x * p < 256 ==> x < 256 && x % 256 == x by { assert x * p >= x * 1; }
    ((x % 256) * p) % 256
  }

  /** `(x as u8) & 7`: truncating to a byte first leaves the low three bits as they are. */
  lemma LowBitsOfByte(x: nat)
    ensures (x % 256) % 8 == x % 8
  {
    var q := x / 256;
    assert x == 256 * q + x % 256;
    assert 256 * q == 8 * (32 * q);
  }

  /** Bitwise exclusive or, one bit at a time from the least significant. */
  function Xor(a: nat, b: nat): (r: nat)
    ensures r % 2 == (a % 2 + b % 2) % 2
    ensures r <= a + b
    decreases a + b
  {
    if a == 0 then b
    else if b == 0 then a
    else 2 * Xor(a / 2, b / 2) + (a % 2 + b % 2) % 2
  }

  /** When `low` fits below bit `n`, the bits of `high * 2^n` and of `low` are
      disjoint and exclusive or is addition. */
  lemma {:induction false} XorDisjointLow(high: nat, n: nat, low: nat)
    requires high * Pow2(n) < 256 && low < Pow2(n)
    ensures Xor(ShiftLeftByte(high, n), low) == high * Pow2(n) + low
  {
    XorShifted(high, n, low);
  }

  lemma {:induction false} XorShifted(high: nat, n: nat, low: nat)
    requires low < Pow2(n)
    ensures Xor(high * Pow2(n), low) == high * Pow2(n) + low
  {
    var a := high * Pow2(n);
    if n == 0 {
      assert low == 0 && a == high;
    } else if a != 0 && low != 0 {
      var half := high * Pow2(n - 1);
      assert a == 2 * half;
      assert a / 2 == half && a % 2 == 0;
      XorShifted(high, n - 1, low / 2);
      assert Xor(a, low) == 2 * (half + low / 2) + low % 2;
    }
  }
}
