/**
 * The ECMAScript Number operations lib/hash.ts relies on, for the integral
 * values it ever holds: ToUint32, ToInt32, the `^` operator and `Math.imul`.
 * `x >>> 0` is ToUint32(x). The remainder operator `%` is modelled for a
 * non-negative integral dividend, the only kind lib/hash.ts applies it to.
 */
module JsNumber {
  import opened Bits

  const TWO_31: int := 0x8000_0000
  const TWO_32: int := 0x1_0000_0000

  /** ToUint32: the representative of `x` modulo 2^32 in [0, 2^32). */
  function ToUint32(x: int): (r: int)
    ensures 0 <= r < TWO_32
    ensures (x - r) % TWO_32 == 0
  {
    x % TWO_32
  }

  /** ToInt32: the representative of `x` modulo 2^32 in [-2^31, 2^31). */
  function ToInt32(x: int): (r: int)
    ensures -TWO_31 <= r < TWO_31
    ensures ToUint32(r) == ToUint32(x)
  {
    var u := ToUint32(x);
    if u >= TWO_31 then u - TWO_32 else u
  }

  /** `a ^ b`: both operands go through ToInt32, the xor of their 32-bit patterns is read as signed. */
  function BitwiseXor(a: int, b: int): (r: int)
    ensures -TWO_31 <= r < TWO_31
    ensures ToUint32(r) == Xor(ToUint32(a), ToUint32(b))
  {
    Pow2Values();
    XorBound(ToUint32(a), ToUint32(b), 32);
    ToInt32(Xor(ToUint32(a), ToUint32(b)))
  }

  /** `Math.imul(a, b)`: the product of the ToUint32 values modulo 2^32, read as signed. */
  function Imul(a: int, b: int): (r: int)
    ensures -TWO_31 <= r < TWO_31
    ensures ToUint32(r) == (ToUint32(a) * ToUint32(b)) % TWO_32
  {
    ToInt32(ToUint32(a) * ToUint32(b))
  }

  /** An integral Number, or NaN. */
  datatype Number = Integral(value: int) | NaN

  function Abs(x: int): nat
  {
    if x < 0 then -x else x
  }

  /**
   * `a % b` for a non-negative integer `a` and an integer `b`: NaN when `b`
   * is zero; otherwise the remainder of the division truncated toward zero,
   * which takes the sign of the dividend and so is never negative here.
   */
  function Remainder(a: nat, b: int): (r: Number)
    ensures r.NaN? <==> b == 0
    ensures r.Integral? ==> 0 <= r.value < Abs(b) && a == a / Abs(b) * Abs(b) + r.value
  {
    if b == 0 then NaN else Integral(a % Abs(b))
  }

  /** The remainder is the only r in [0, |b|) that leaves a multiple of |b| behind. */
  lemma RemainderUnique(a: nat, b: int, k: int, r: int)
    requires b != 0 && 0 <= r < Abs(b) && a == k * Abs(b) + r
    ensures Remainder(a, b) == Integral(r)
  {
    var m := Abs(b);
    var q, s := a / m, a % m;
    assert (q - k) * m == r - s;
    if q > k {
      MulAtLeast(q - k, m);
    } else if q < k {
      MulAtLeast(k - q, m);
    }
  }

  /** A positive multiple of m is at least m. */
  lemma MulAtLeast(x: int, m: int)
    requires x >= 1 && m > 0
    ensures x * m >= m
  {
  }
}
