// Util.h: the duration literals (all in milliseconds, as unsigned long long)
// and the array_size helper.
module Util {

  /** unsigned long long is 64 bits wide; its arithmetic wraps modulo 2^64. */
  const ULongLongModulus: nat := 0x1_0000_0000_0000_0000

  type ULongLong = x: nat | x < ULongLongModulus

  function Wrap(x: nat): ULongLong
  {
    x % ULongLongModulus
  }

  /** n_ms: milliseconds are the base unit. */
  function Milliseconds(n: ULongLong): (r: ULongLong)
    ensures r == n
  {
    n
  }

  /** n_s == n * 1000_ms. */
  function Seconds(n: ULongLong): (r: ULongLong)
    ensures r == Wrap(n * 1000)
    ensures n * 1000 < ULongLongModulus ==> r == n * Milliseconds(1000)
  {
    Wrap(n * Milliseconds(1000))
  }

  /** n_m == n * 60_s. */
  function Minutes(n: ULongLong): (r: ULongLong)
    ensures r == Wrap(n * 60000)
    ensures n * 60 < ULongLongModulus ==> r == Seconds(n * 60)
  {
    Wrap(n * Seconds(60))
  }

  /** n_h == n * 60_m. */
  function Hours(n: ULongLong): (r: ULongLong)
    ensures r == Wrap(n * 3600000)
    ensures n * 60 < ULongLongModulus ==> r == Minutes(n * 60)
  {
    Wrap(n * Minutes(60))
  }

  /** Reducing a factor modulo 2^64 first does not change a wrapped product. */
  lemma WrapMul(a: nat, k: nat)
    ensures Wrap(Wrap(a) * k) == Wrap(a * k)
  {
    var q := a / ULongLongModulus;
    var r := a % ULongLongModulus;
    assert a * k == (q * k) * ULongLongModulus + r * k by {
      assert a == q * ULongLongModulus + r;
    }
  }

  /** The literals compose in 64-bit arithmetic for every count, overflow
      included: each unit is its count, wrapped to 64 bits, in the next
      smaller unit, down to milliseconds. */
  lemma UnitsCompose(n: ULongLong)
    ensures Seconds(n) == Wrap(Milliseconds(n) * 1000)
    ensures Minutes(n) == Seconds(Wrap(n * 60))
    ensures Hours(n) == Minutes(Wrap(n * 60))
  {
    WrapMul(n * 60, 1000);
    WrapMul(n * 60, 60000);
    assert n * 60 * 1000 == n * 60000;
    assert n * 60 * 60000 == n * 3600000;
  }

  /** array_size: the element count N of a T[N] buffer. */
  function ArraySize<T>(a: array<T>): (n: nat)
    ensures n == a.Length
  {
    a.Length
  }
}
