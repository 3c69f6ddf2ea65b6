/**
 * The 32-bit FNV-1a hash of Fowler, Noll and Vo, as lib/hash.ts computes it
 * (`fnv1aHash`): start from the offset basis, then for every UTF-16 code unit
 * xor it into the accumulator and multiply by the FNV prime, modulo 2^32.
 */
module Fnv1a {
  import opened Bits
  import opened JsNumber
  import opened JsStrings

  /** An unsigned 32-bit value. */
  type Uint32 = n: int | 0 <= n < 0x1_0000_0000

  /** 32-bit FNV offset basis (0x811C9DC5). */
  const OFFSET_BASIS: Uint32 := 2166136261

  /** 32-bit FNV prime (0x01000193). */
  const FNV_PRIME: Uint32 := 16777619

  /** The inverse of FNV_PRIME modulo 2^32; it exists because the prime is odd. */
  const FNV_PRIME_INVERSE: Uint32 := 0x359C449B

  /** One round of FNV-1a: xor the code unit into the accumulator, then multiply modulo 2^32. */
  function Step(h: Uint32, c: CodeUnit): Uint32
  {
    (Xor(h, c) * FNV_PRIME) % TWO_32
  }

  /** Undoes one round for a known code unit. */
  function Unstep(h: Uint32, c: CodeUnit): Uint32
  {
    Pow2Values();
    XorBound((h * FNV_PRIME_INVERSE) % TWO_32, c, 32);
    Xor((h * FNV_PRIME_INVERSE) % TWO_32, c)
  }

  /** The rounds applied left to right, starting from `h`. */
  function Fold(h: Uint32, s: JsString): Uint32
    decreases |s|
  {
    if |s| == 0 then h else Fold(Step(h, s[0]), s[1..])
  }

  /** FNV-1a of a whole string. */
  function Hash(s: JsString): Uint32
  {
    Fold(OFFSET_BASIS, s)
  }

  /** If a * b is 1 modulo 2^32, multiplying by a and then by b modulo 2^32 is the identity. */
  lemma MulInverse(x: Uint32, a: int, b: int, t: int)
    requires a * b == 1 + t * TWO_32
    ensures ((x * a) % TWO_32 * b) % TWO_32 == x
  {
    var q, r := (x * a) / TWO_32, (x * a) % TWO_32;
    assert r == x * a - q * TWO_32;
    assert r * b == x * (a * b) - q * b * TWO_32 by {
      assert r * b == (x * a - q * TWO_32) * b;
    }
    assert r * b == x + (x * t - q * b) * TWO_32;
    ModOfOffset(x, x * t - q * b);
  }

  /** Adding a multiple of 2^32 does not change the residue of a value already below 2^32. */
  lemma ModOfOffset(x: Uint32, k: int)
    ensures (x + k * TWO_32) % TWO_32 == x
  {
  }

  /** Multiplying by the FNV prime modulo 2^32 is undone by multiplying by its inverse. */
  lemma PrimeInverse(x: Uint32)
    ensures ((x * FNV_PRIME) % TWO_32 * FNV_PRIME_INVERSE) % TWO_32 == x
  {
    MulInverse(x, FNV_PRIME, FNV_PRIME_INVERSE, 3513497);
  }

  /** Multiplying by the inverse modulo 2^32 is undone by multiplying by the FNV prime. */
  lemma InversePrime(y: Uint32)
    ensures ((y * FNV_PRIME_INVERSE) % TWO_32 * FNV_PRIME) % TWO_32 == y
  {
    MulInverse(y, FNV_PRIME_INVERSE, FNV_PRIME, 3513497);
  }

  /** Each round is a bijection on 32-bit values, with Unstep as its inverse. */
  lemma StepBijective(h: Uint32, c: CodeUnit)
    ensures Unstep(Step(h, c), c) == h
    ensures Step(Unstep(h, c), c) == h
  {
    Pow2Values();
    XorBound(h, c, 32);
    PrimeInverse(Xor(h, c));
    XorCancel(h, c);
    var m := (h * FNV_PRIME_INVERSE) % TWO_32;
    XorBound(m, c, 32);
    XorCancel(m, c);
    InversePrime(h);
  }

  /** Different accumulators stay different after a round with the same unit. */
  lemma StepInjectiveInState(h1: Uint32, h2: Uint32, c: CodeUnit)
    ensures h1 != h2 ==> Step(h1, c) != Step(h2, c)
  {
    StepBijective(h1, c);
    StepBijective(h2, c);
  }

  /** From the same accumulator, different units give different results. */
  lemma StepInjectiveInUnit(h: Uint32, c1: CodeUnit, c2: CodeUnit)
    ensures c1 != c2 ==> Step(h, c1) != Step(h, c2)
  {
    Pow2Values();
    XorBound(h, c1, 32);
    XorBound(h, c2, 32);
    PrimeInverse(Xor(h, c1));
    PrimeInverse(Xor(h, c2));
    XorInjective(h, c1, c2);
  }

  /** Hashing a concatenation continues from the hash of the first part. */
  lemma {:induction false} FoldAppend(h: Uint32, s: JsString, t: JsString)
    ensures Fold(h, s + t) == Fold(Fold(h, s), t)
    decreases |s|
  {
    if |s| > 0 {
      assert (s + t)[1..] == s[1..] + t;
      FoldAppend(Step(h, s[0]), s[1..], t);
    } else {
      assert s + t == t;
    }
  }

  /** One more unit is one more round. */
  lemma FoldSnoc(h: Uint32, s: JsString, c: CodeUnit)
    ensures Fold(h, s + [c]) == Step(Fold(h, s), c)
  {
    FoldAppend(h, s, [c]);
  }

  /** Over the same units, different starting accumulators give different results. */
  lemma {:induction false} FoldInjective(h1: Uint32, h2: Uint32, s: JsString)
    ensures h1 != h2 ==> Fold(h1, s) != Fold(h2, s)
    decreases |s|
  {
    if |s| > 0 {
      StepInjectiveInState(h1, h2, s[0]);
      FoldInjective(Step(h1, s[0]), Step(h2, s[0]), s[1..]);
    }
  }

  /**
   * Two strings of the same length that differ in exactly one code unit have
   * different hashes: the rounds before the difference agree, the differing
   * round separates the accumulators, and no later round joins them again.
   */
  lemma HashSingleUnitChange(s: JsString, t: JsString, i: nat)
    requires |s| == |t| && i < |s|
    requires s[i] != t[i]
    requires forall j :: 0 <= j < |s| && j != i ==> s[j] == t[j]
    ensures Hash(s) != Hash(t)
  {
    assert s[..i] == t[..i];
    assert s[i + 1..] == t[i + 1..];
    assert s == s[..i] + [s[i]] + s[i + 1..];
    assert t == t[..i] + [t[i]] + t[i + 1..];
    var h := Fold(OFFSET_BASIS, s[..i]);
    FoldAppend(OFFSET_BASIS, s[..i] + [s[i]], s[i + 1..]);
    FoldAppend(OFFSET_BASIS, t[..i] + [t[i]], t[i + 1..]);
    FoldSnoc(OFFSET_BASIS, s[..i], s[i]);
    FoldSnoc(OFFSET_BASIS, t[..i], t[i]);
    StepInjectiveInUnit(h, s[i], t[i]);
    FoldInjective(Step(h, s[i]), Step(h, t[i]), s[i + 1..]);
  }

  /**
   * One iteration of the source loop on the JavaScript Number `hash`
   * (`hash ^= c; hash = Math.imul(hash, 16777619)`) is one round on its
   * unsigned 32-bit reading.
   */
  lemma JsRoundIsStep(hash: int, c: CodeUnit)
    ensures ToUint32(Imul(BitwiseXor(hash, c), FNV_PRIME)) == Step(ToUint32(hash), c)
  {
    assert ToUint32(c) == c;
    assert ToUint32(FNV_PRIME) == FNV_PRIME;
    Pow2Values();
    XorBound(ToUint32(hash), c, 32);
  }

  /**
   * fnv1aHash: the source loop over the code units, on a JavaScript Number
   * accumulator, returning `hash >>> 0`.
   */
  method Fnv1aHash(str: JsString) returns (r: int)
    ensures 0 <= r < 0x1_0000_0000
    ensures r == Hash(str)
    ensures |str| == 0 ==> r == 2166136261
  {
    var hash: int := 2166136261;
    var i := 0;
    while i < |str|
      invariant 0 <= i <= |str|
      invariant ToUint32(hash) == Hash(str[..i])
    {
      assert str[..i + 1] == str[..i] + [str[i]];
      FoldSnoc(OFFSET_BASIS, str[..i], str[i]);
      JsRoundIsStep(hash, str[i]);
      hash := BitwiseXor(hash, str[i]);
      hash := Imul(hash, 16777619);
      i := i + 1;
    }
    assert str[..|str|] == str;
    r := ToUint32(hash);
  }
}
