# BigIntMath in Dafny

A model of `BigIntMath.js`, a small JavaScript module of big-integer helpers.
The module is built around a *flyweight cache*: a function object that, when
called with an integer, returns the BigInt of that integer and memoises it as a
property of itself. At load time the cache is warmed with 0, 1, 2 and 3, and the
default modulus of `pow` is computed as `2 ** 128` (which also stores 128). The
same object then carries `abs`, `max`, `min`, `pow` (right-to-left
square-and-multiply modular exponentiation) and `random`.

Files:

- `Arith.dfy` (module `JsArith`): `Power` (BigInt `**`) and `TRem`, JavaScript's
  BigInt `%`, which truncates toward zero so the remainder takes the sign of the
  dividend. Lemmas relate it to Dafny's Euclidean `%` through congruence modulo
  the divisor's magnitude.
- `Cache.dfy` (module `FlyweightCache`): class `Cache`, whose `entries` map is
  the set of numeric properties of the cache object. `Valid()` says every entry
  holds the value of its own key.
- `BigIntMath.dfy` (module `BigIntMath`): module start-up, `abs`, `max`/`min`
  as left folds, `pow` as a method with a loop, its specification `PowSpec`,
  and `random` over an explicit sample.

`pow` is modelled for every sign of base, exponent and modulus. `PowSpec(b, e, mod)` is
`Ok(1)` when `e <= 0`, whatever the modulus. This holds even for modulus 1 or 0, because
`result` starts as an unreduced 1 and the loop never runs. For `e > 0`, a zero
modulus is `RangeError`: JavaScript throws on the first `% mod`: `(result * base) % mod` when `exp` is odd, otherwise `(base * base) % mod`. Any other modulus
gives `Ok(TRem(b ** e, mod))`. The loop invariant is
`TRem(result * base ** exp, mod) == TRem(b ** e, mod)`. The loop stops because `exp`
halves on every turn.

Three facts about the code that the model keeps:

- A negative exponent makes the loop skip and returns 1 (BigIntMath.js:35).
- The default modulus is `2 ** 128` (BigIntMath.js:19).
- Start-up stores 0, 1, 2, 3 and 128 (BigIntMath.js:17, 19).

One consequence, proved as `PowDefaultWrapsLargePowers`: without a modulus,
`pow(2, 1024)` is 0, because `2 ** 1024` is a multiple of `2 ** 128`. So the
module's large-range random test, which builds its bounds from `pow(2, 1024)`,
works on the range from -1 to 0.

## Model

| member | source | states |
|---|---|---|
| `FlyweightCache.Cache.constructor` | BigIntMath.js:1-14 | the cache object starts with no numeric entries |
| `FlyweightCache.Cache.Lookup` | BigIntMath.js:2-4 | reading property `k` finds a value exactly when `k` is stored, and that value is `k` |
| `FlyweightCache.Cache.Get` | BigIntMath.js:1-14 | returns `k`; the entries afterwards are the old ones plus `k := k`; on a hit the stored value is returned and the cache is unchanged; every entry still holds its own key |
| `FlyweightCache.Cache.WarmUp` | BigIntMath.js:17 | calling the cache on every key of a list adds exactly those keys; old entries keep their values |
| `BigIntMath.InitModule` | BigIntMath.js:16-19 | after start-up the cache holds exactly 0, 1, 2, 3 and 128, each mapped to itself, and the default modulus is `2 ** 128` |
| `BigIntMath.Abs` | BigIntMath.js:22-24 | the result is non-negative and is `n` or `-n` |
| `BigIntMath.AbsOfNegation` | BigIntMath.js:23 | `abs(-n) == abs(n)` |
| `BigIntMath.MaxFold` | BigIntMath.js:26 | the strict-`>` fold returns the accumulator or a list element, and nothing it saw is larger |
| `BigIntMath.MinFold` | BigIntMath.js:29 | the strict-`<` fold returns the accumulator or a list element, and nothing it saw is smaller |
| `BigIntMath.Max` | BigIntMath.js:25-27 | `max(v, ...values)` is one of its arguments and at least every argument |
| `BigIntMath.Min` | BigIntMath.js:28-30 | `min(v, ...values)` is one of its arguments and at most every argument |
| `BigIntMath.MaxPos` | BigIntMath.js:26 | the strict-`>` fold over positions ends on the position of `max`'s result. Its accumulator is always an earliest maximum: every earlier element is strictly smaller. A `>=` step would break this on ties |
| `BigIntMath.MinPos` | BigIntMath.js:29 | the strict-`<` fold over positions ends on the position of `min`'s result. Its accumulator is always an earliest minimum: every earlier element is strictly larger. A `<=` step would break this on ties |
| `BigIntMath.MaxIndex` | BigIntMath.js:25-27 | the position the fold picks holds `max(v, ...values)`, and every argument before it is strictly smaller |
| `BigIntMath.MinIndex` | BigIntMath.js:28-30 | the position the fold picks holds `min(v, ...values)`, and every argument before it is strictly larger |
| `BigIntMath.MinIsNegatedMax` | BigIntMath.js:25-30 | `min` of the negated arguments is the negation of `max` |
| `BigIntMath.AbsMinMaxVectors` | spec.js:5-19 | the tests' vectors: `abs(-5) == 5`, `min(5, 8, 3) == 3`, `max(5, 8, 3) == 8` and the two-argument cases |
| `JsArith.TRem` | BigIntMath.js:37-39 | BigInt `a % m` is smaller in magnitude than `m`, on the same side of zero as `a`, and congruent to `a` modulo the magnitude of `m` |
| `JsArith.TRemUnique` | BigIntMath.js:37-39 | those three properties determine `a % m` |
| `JsArith.TRemCongruent` | BigIntMath.js:37-39 | congruent dividends on the same side of zero have the same remainder |
| `JsArith.TRemOfNonneg` | BigIntMath.js:37-39 | for a non-negative dividend and positive modulus, BigInt `%` is the Euclidean remainder |
| `BigIntMath.SquareMultiplyStep` | BigIntMath.js:35-41 | one turn of the loop leaves `(result * base ** exp) % mod` unchanged |
| `BigIntMath.Pow` | BigIntMath.js:31-44 | returns `PowSpec(b, e, mod)`: 1 when `e <= 0`, RangeError for `e > 0` and a zero modulus, otherwise `(b ** e) % mod` with truncating `%` |
| `BigIntMath.PowDefault` | BigIntMath.js:19-32 | `pow(b, e)` with no modulus is `PowSpec(b, e, 2 ** 128)` |
| `BigIntMath.PowIsResidue` | BigIntMath.js:32-43 | for `b >= 0`, `mod > 0`, `e >= 1` the result is `b ** e` reduced modulo `mod` |
| `BigIntMath.PowExactBelowModulus` | BigIntMath.js:32-43 | a power smaller in magnitude than the modulus is returned exactly |
| `BigIntMath.PowDefaultSmall` | spec.js:21-28 | with the default modulus, `pow(i, 2) == i ** 2` and `pow(2, i) == 2 ** i` for `0 <= i < 100` |
| `BigIntMath.PowKnownVector` | spec.js:30-32 | `pow(3, 4, 5) == 1` |
| `BigIntMath.PowDefaultWrapsLargePowers` | spec.js:44-45 | with the default modulus, `pow(2, 1024) == 0` and `pow(-1, 2) == 1` |
| `BigIntMath.Random` | BigIntMath.js:46-48 | for `min <= max` and a sample in [0, 1), the result lies in `[min, max]`; for `min == max` it is `min` |

## Left out

- BigIntMath.Random: the sample `Math.random()` is a parameter. `Number(...)`, the product and `Math.floor` are computed over exact reals, not IEEE doubles. Two effects of doubles are not modelled. Past 2^53 most values in the range cannot be reached. For a range wider than `Number.MAX_VALUE`, `Number(...)` is `Infinity`, and the call throws `RangeError`; the model returns an in-range value there instead.
- `random_bytes` and the chi-squared uniformity test: the module's tests call `random_bytes`, but it is not defined in `BigIntMath.js`. The chi-squared test is not in the source either. So neither is modelled.
- JavaScript object mechanics of the cache: keys coerced to strings, getter-only property descriptors, and the same object also holding `abs`, `max`, `min`, `pow` and `random`. The cache is a plain map from integers to integers. `module.exports` is left out too.
- `BigInt(+num)` on a key that is not an integer, or that loses precision as a `Number`. A BigInt key also throws a `TypeError` at `+num` on a miss; on a hit it is returned. Keys in the model are integers.
- The cache constants that `abs` and `pow` read (`flyweightCache[0]`, `[1]`, `[2]`) are written as the literals 0, 1 and 2. Those keys are always warmed before the functions run.
- Mixing `Number` and BigInt operands (a TypeError in JavaScript): every value is an integer.
- `max()` and `min()` with no argument (the result is `undefined`): the first argument is a separate parameter, so the list is never empty.
- Ties in `max`/`min`: equal BigInts cannot be told apart, so "the earliest extremal argument wins" matters only for positions. `MaxPos` and `MinPos` follow the same fold over positions, and `MaxIndex` and `MinIndex` state the result that way.
