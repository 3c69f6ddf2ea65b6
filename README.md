# Deterministic daily wish selection, modelled in Dafny

The app shows each signed-in user one wish per day, picked from a fixed list.
The pick is a pure function of the user id (`fid`), the calendar day in UTC and
the length of the list. `lib/hash.ts` builds the key `"<fid>-<YYYY-MM-DD>"`,
hashes it with 32-bit FNV-1a over its UTF-16 code units, and reduces the hash
modulo the number of wishes.

The model has six modules:

- `Bits` defines bitwise exclusive or on naturals and proves the algebra the hash proofs need.
- `JsStrings` defines strings as sequences of 16-bit code units, plus the few characters the key and the ISO text use.
- `JsNumber` models the ECMAScript Number operations the code relies on:
  - ToUint32 (`>>> 0`), ToInt32, `^` and `Math.imul`;
  - the remainder operator `%`, including its NaN result for a zero divisor.
- `Fnv1a` holds the hash:
  - `Fnv1aHash` is the source loop as an imperative method over a JavaScript-style accumulator;
  - it is proved equal to `Hash`, a fold of one-round functions `Step` from the offset basis;
  - there are lemmas on rounds, folds and injectivity.
- `IsoText` covers the text the key is made of:
  - the decimal numeral of `fid`;
  - `Date.prototype.toISOString` for the UTC fields of a date;
  - `split('T')[0]`.
- `WishSelector` holds the key and `getDeterministicWishIndex`, with the selection properties.

A seventh module, `HashTestVectors`, evaluates the concrete cases of
`lib/__tests__/hash.test.ts` inside the model. It covers the three keys, their
hashes and their indices among 25 wishes.

The code and a stricter reading of its contract disagree on a zero or negative
wish count. The code does not reject either. `hash % 0` is NaN, and
`hash % -n` equals `hash % n` because JavaScript's remainder takes the sign of
the dividend, and the hash is never negative. The model follows the code:
`GetDeterministicWishIndex` returns a `Number` that is `NaN` exactly for zero
wishes.

## Model

| member | source | states |
|---|---|---|
| Fnv1a.Fnv1aHash | lib/hash.ts:1-10 | result is in [0, 2^32), equals `Hash(str)` (the rounds folded over the code units from the offset basis), and is 2166136261 for the empty string; the loop keeps `ToUint32(hash) == Hash(str[..i])` on the JavaScript accumulator |
| Fnv1a.Step | lib/hash.ts:5-6 | defines one round: the xor of the accumulator and the code unit, multiplied by 16777619 modulo 2^32 |
| Fnv1a.Fold | lib/hash.ts:4-7 | defines the loop's effect: the rounds applied to the code units from first to last, starting from a given accumulator |
| Fnv1a.Hash | lib/hash.ts:1-10 | defines FNV-1a of a string: the fold from the offset basis 2166136261 |
| Bits.Xor | lib/hash.ts:5 | defines the bitwise exclusive or of two naturals, bit by bit from the least significant |
| Fnv1a.JsRoundIsStep | lib/hash.ts:5-6 | one iteration `hash ^= c; hash = Math.imul(hash, 16777619)` read through ToUint32 is one round `Step`, xor then multiply modulo 2^32, whatever integral Number `hash` holds |
| Fnv1a.FoldSnoc | lib/hash.ts:4-7 | hashing one more code unit is one more round: `Fold(h, s + [c]) == Step(Fold(h, s), c)` |
| Fnv1a.FoldAppend | lib/hash.ts:4-7 | hashing a concatenation continues from the hash of the first part |
| Fnv1a.PrimeInverse | lib/hash.ts:6 | multiplying by 16777619 modulo 2^32 is undone by multiplying by 0x359C449B |
| Fnv1a.InversePrime | lib/hash.ts:6 | multiplying by 0x359C449B modulo 2^32 is undone by multiplying by 16777619 |
| Fnv1a.StepBijective | lib/hash.ts:5-6 | each round is a bijection on 32-bit values, with `Unstep` as its two-sided inverse |
| Fnv1a.StepInjectiveInState | lib/hash.ts:5-6 | different accumulators stay different after a round with the same unit |
| Fnv1a.StepInjectiveInUnit | lib/hash.ts:5-6 | from the same accumulator, different code units give different results |
| Fnv1a.FoldInjective | lib/hash.ts:4-7 | over the same units, different starting accumulators never meet |
| Fnv1a.HashSingleUnitChange | lib/hash.ts:1-10 | two strings of equal length that differ in exactly one code unit hash differently |
| Bits.XorCancel | lib/hash.ts:5 | xor with the same value twice restores the original |
| Bits.XorBound | lib/hash.ts:5 | the xor of two values below 2^n is below 2^n, so the xor of a 32-bit value with a code unit is 32-bit |
| Bits.XorBelow64 | lib/hash.ts:5 | defines the closed form of an exclusive or with a unit below 64: the accumulator with each of its low six bits flipped where the unit has a one |
| Bits.XorSixBits | lib/hash.ts:5 | for a unit below 64 the exclusive or equals `XorBelow64`, so it changes only the low six bits |
| JsNumber.ToUint32 | lib/hash.ts:9 | `x >>> 0` is the representative of x modulo 2^32 in [0, 2^32) |
| JsNumber.ToInt32 | lib/hash.ts:5-6 | the signed reading lies in [-2^31, 2^31) and has the same 32-bit pattern |
| JsNumber.BitwiseXor | lib/hash.ts:5 | `a ^ b` is signed and its 32-bit pattern is the xor of the operands' patterns |
| JsNumber.Imul | lib/hash.ts:6 | `Math.imul(a, b)` is signed and its 32-bit pattern is the product of the patterns modulo 2^32 |
| JsNumber.Remainder | lib/hash.ts:16 | `a % b` for a non-negative dividend is NaN exactly when b is 0, and otherwise is r in [0, abs(b)) with a = (a / abs(b)) * abs(b) + r |
| JsNumber.RemainderUnique | lib/hash.ts:16 | every r in [0, abs(b)) that leaves a multiple of abs(b) behind is the remainder `%` yields |
| IsoText.Decimal | lib/hash.ts:14 | the numeral of `fid` is non-empty and all digits, and starts with '0' only for 0, which is then the whole numeral |
| IsoText.DecimalRoundTrip | lib/hash.ts:14 | reading the numeral back gives the number |
| IsoText.DecimalInjective | lib/hash.ts:14 | distinct ids have distinct numerals |
| IsoText.Padded | lib/hash.ts:13 | a zero-padded field has exactly its width, all digits |
| IsoText.PaddedRoundTrip | lib/hash.ts:13 | reading a padded field back gives the number |
| IsoText.DateText | lib/hash.ts:13 | "YYYY-MM-DD" is ten units, with hyphens at 4 and 7 and digits elsewhere |
| IsoText.DateTextRoundTrip | lib/hash.ts:13 | year, month and day read back from the date text |
| IsoText.DateTextInjective | lib/hash.ts:13 | distinct days have distinct date texts |
| IsoText.DateTextLastUnit | lib/hash.ts:13 | the date text ends in the units digit of the day, after year, month and the tens digit of the day |
| IsoText.IsoString | lib/hash.ts:13 | `toISOString()` is 24 units, 'T' at 10 and 'Z' at 23, and starts with the date text |
| IsoText.SplitFirst | lib/hash.ts:13 | `split(sep)[0]` is a prefix without `sep`, followed by `sep` or the end of the string |
| IsoText.SplitFirstAt | lib/hash.ts:13 | a prefix without `sep` that ends at `sep` or at the end is what `split(sep)[0]` returns |
| IsoText.IsoDatePart | lib/hash.ts:13 | `toISOString().split('T')[0]` is the date text, whatever the time of day |
| WishSelector.Key | lib/hash.ts:13-14 | the key has the length of the numeral plus 11, reads as the numeral up to its first '-', and ends with the date text |
| WishSelector.KeyInjective | lib/hash.ts:13-14 | two keys are equal if and only if both user id and day are equal |
| WishSelector.GetDeterministicWishIndex | lib/hash.ts:12-17 | the index is the remainder of the hash of the key by the count: NaN exactly for zero wishes, otherwise in [0, abs(wishesCount)) |
| WishSelector.WishIndexInRange | lib/hash.ts:12-17 | for a positive count the index is `Hash(Key(fid, day)) % wishesCount`, in [0, wishesCount) |
| WishSelector.SameDaySameIndex | lib/hash.ts:12-17 | two instants of the same UTC day give the same index |
| WishSelector.UnitsDigitOfDayChangesHash | lib/hash.ts:13-15 | two days of one month whose numbers differ only in the units digit give one user different hashes |
| HashTestVectors.FoldChain | lib/hash.ts:4-7 | a chain of closed-form rounds over a key computes its fold |
| HashTestVectors.HashOfUser12345OnJan1 | lib/__tests__/hash.test.ts:5-8 | FNV-1a of "12345-2024-01-01" is 1374990515 |
| HashTestVectors.HashOfUser12345OnJan2 | lib/__tests__/hash.test.ts:11-15 | FNV-1a of "12345-2024-01-02" is 1391768134 |
| HashTestVectors.HashOfUser54321OnJan1 | lib/__tests__/hash.test.ts:53-62 | FNV-1a of "54321-2024-01-01" is 2174355415 |
| HashTestVectors.KeyOfUser12345OnJan1 | lib/__tests__/hash.test.ts:58 | the key of user 12345 on 2024-01-01 is "12345-2024-01-01" |
| HashTestVectors.KeyOfUser12345OnJan2 | lib/__tests__/hash.test.ts:39-46 | the key of user 12345 on 2024-01-02 is "12345-2024-01-02" |
| HashTestVectors.KeyOfUser54321OnJan1 | lib/__tests__/hash.test.ts:59 | the key of user 54321 on 2024-01-01 is "54321-2024-01-01" |
| HashTestVectors.Midnight | lib/__tests__/hash.test.ts:41-42 | `new Date("2024-01-0d")` read as midnight UTC of that January 2024 day, a valid instant exactly for days 1 to 31 |
| HashTestVectors.NextDayHashDiffers | lib/__tests__/hash.test.ts:11-15 | user 12345 hashes to 1374990515 on 2024-01-01 and to 1391768134 on 2024-01-02 |
| HashTestVectors.OtherUserHashDiffers | lib/__tests__/hash.test.ts:53-62 | users 12345 and 54321 hash to 1374990515 and 2174355415 on 2024-01-01 |
| HashTestVectors.IndexChangesWithDate | lib/__tests__/hash.test.ts:39-51 | among 25 wishes user 12345 gets index 15 on 2024-01-01 and index 9 on 2024-01-02 |
| HashTestVectors.OtherUserSameIndex | lib/__tests__/hash.test.ts:53-62 | among 25 wishes users 12345 and 54321 both get index 15 on 2024-01-01, so distinct hashes need not give distinct wishes |

## Left out

- The date is modelled as its UTC fields (`UtcInstant`). The conversion from a time value in milliseconds since the epoch to those fields is left out; the engine does it.
- Parsing `new Date("2024-01-01")` in the tests is taken as UTC midnight (`HashTestVectors.Midnight`), as ECMAScript specifies for date-only forms.
- IsoString: years above 9999 and negative years are outside its precondition. `toISOString` writes them as a signed six-digit year. An invalid Date, for which `toISOString` throws a RangeError, is not modelled.
- GetDeterministicWishIndex: `fid` is a non-negative integer, and `Decimal(fid)` equals JavaScript's `String(fid)` exactly for `fid <= 2^53`. Above 2^53 the source's id is a Number: it rounds to a representable value, and `String` prints the shortest digits that read back to it, so `String(2**60)` is "1152921504606847000" while `Decimal(2^60)` is "1152921504606846976". From 10^21 on `String` uses exponent notation. For those ids the model's key differs from the source's. Negative, fractional and NaN ids (`String` gives "-1", "1.5", "NaN") are not modelled.
- GetDeterministicWishIndex: `wishesCount` is an integer. Non-integer counts are not modelled. A fractional count makes `%` yield a fraction, and a NaN count yields NaN. An infinite count of either sign returns the hash unchanged.
- The two determinism tests (lib/__tests__/hash.test.ts:4-9 and 17-26) hold for every input by construction: `Hash` and `GetDeterministicWishIndex` are functions.
- The range test over several ids (lib/__tests__/hash.test.ts:64-74) is covered for every id by `WishSelector.WishIndexInRange`. Those ids' indices are not evaluated.
- How evenly the hash spreads users over the wishes is a statistical property and is not stated.
- The wish list itself (`lib/wishes`) is not part of this model.
- The React component that calls the selector (components/WishDisplay.tsx) is not part of this model. Nor are the layout and the build configuration.
