/** The big-integer helpers attached to the flyweight cache: `abs`, `max`,
    `min`, `pow` (modular exponentiation by square-and-multiply) and `random`,
    together with the module's start-up code that warms the cache and
    computes the default modulus of `pow`. */
module BigIntMath {
  import opened JsArith
  import FlyweightCache

  /** The default modulus of `pow`: `2 ** 128`. */
  const DefaultModulus: int := Power(2, 128)

  /** Module start-up: warm the cache with 0, 1, 2 and 3, then compute the
      default modulus from the stored 2 and a fresh entry for 128. */
  method InitModule() returns (cache: FlyweightCache.Cache, defaultMod: int)
    ensures fresh(cache) && cache.Valid()
    ensures cache.entries == map[0 := 0, 1 := 1, 2 := 2, 3 := 3, 128 := 128]
    ensures defaultMod == DefaultModulus
  {
    cache := new FlyweightCache.Cache();
    cache.WarmUp([0, 1, 2, 3]);
    var two := cache.Lookup(2);
    var e := cache.Get(128);
    defaultMod := Power(two.value, e);
    assert cache.entries.Keys == {0, 1, 2, 3, 128};
  }

  // ---------------------------------------------------------------- abs

  function Abs(n: int): (r: int)
    ensures r >= 0
    ensures r == n || r == -n
  {
    if n < 0 then -n else n
  }

  lemma AbsOfNegation(n: int)
    ensures Abs(-n) == Abs(n)
  {
  }

  // ---------------------------------------------------------------- max, min

  /** The left fold of `max`: the accumulator is replaced only by a strictly
      greater element. */
  function MaxFold(acc: int, rest: seq<int>): (r: int)
    ensures r == acc || r in rest
    ensures r >= acc && forall x :: x in rest ==> x <= r
    decreases |rest|
  {
    if rest == [] then acc
    else
      assert forall x :: x in rest ==> x == rest[0] || x in rest[1..];
      MaxFold(if rest[0] > acc then rest[0] else acc, rest[1..])
  }

  /** The left fold of `min`: the accumulator is replaced only by a strictly
      smaller element. */
  function MinFold(acc: int, rest: seq<int>): (r: int)
    ensures r == acc || r in rest
    ensures r <= acc && forall x :: x in rest ==> r <= x
    decreases |rest|
  {
    if rest == [] then acc
    else
      assert forall x :: x in rest ==> x == rest[0] || x in rest[1..];
      MinFold(if rest[0] < acc then rest[0] else acc, rest[1..])
  }

  /** `max(v, ...values)`: one of the arguments, and no argument exceeds it. */
  function Max(v: int, values: seq<int>): (r: int)
    ensures r in [v] + values
    ensures forall x :: x in [v] + values ==> x <= r
  {
    MaxFold(v, values)
  }

  /** `min(v, ...values)`: one of the arguments, and no argument is below it. */
  function Min(v: int, values: seq<int>): (r: int)
    ensures r in [v] + values
    ensures forall x :: x in [v] + values ==> r <= x
  {
    MinFold(v, values)
  }

  /** The same fold as MaxFold, run over the positions of `s`: `acc` is the
      position the accumulator came from, `i` the next position visited.
      Because the accumulator moves only to a strictly greater element, it
      always sits at the earliest maximum of what has been seen. */
  function MaxPos(s: seq<int>, acc: nat, i: nat): (r: nat)
    requires acc < i <= |s|
    requires forall j :: 0 <= j < acc ==> s[j] < s[acc]
    requires forall j :: acc < j < i ==> s[j] <= s[acc]
    ensures r < |s| && s[r] == MaxFold(s[acc], s[i..])
    ensures forall j :: 0 <= j < r ==> s[j] < s[r]
    decreases |s| - i
  {
    if i == |s| then acc
    else
      assert s[i..][1..] == s[i + 1..];
      MaxPos(s, if s[i] > s[acc] then i else acc, i + 1)
  }

  /** The same fold as MinFold, run over the positions of `s`. */
  function MinPos(s: seq<int>, acc: nat, i: nat): (r: nat)
    requires acc < i <= |s|
    requires forall j :: 0 <= j < acc ==> s[j] > s[acc]
    requires forall j :: acc < j < i ==> s[j] >= s[acc]
    ensures r < |s| && s[r] == MinFold(s[acc], s[i..])
    ensures forall j :: 0 <= j < r ==> s[j] > s[r]
    decreases |s| - i
  {
    if i == |s| then acc
    else
      assert s[i..][1..] == s[i + 1..];
      MinPos(s, if s[i] < s[acc] then i else acc, i + 1)
  }

  /** The position in `[v] + values` of the argument `max` returns: the
      earliest maximum, since every argument before it is strictly smaller. */
  function MaxIndex(v: int, values: seq<int>): (r: nat)
    ensures r <= |values| && ([v] + values)[r] == Max(v, values)
    ensures forall j :: 0 <= j < r ==> ([v] + values)[j] < Max(v, values)
  {
    var s := [v] + values;
    assert s[1..] == values;
    MaxPos(s, 0, 1)
  }

  /** The position in `[v] + values` of the argument `min` returns: the
      earliest minimum, since every argument before it is strictly larger. */
  function MinIndex(v: int, values: seq<int>): (r: nat)
    ensures r <= |values| && ([v] + values)[r] == Min(v, values)
    ensures forall j :: 0 <= j < r ==> ([v] + values)[j] > Min(v, values)
  {
    var s := [v] + values;
    assert s[1..] == values;
    MinPos(s, 0, 1)
  }

  /** `max` and `min` mirror each other under negation. */
  lemma MinIsNegatedMax(v: int, values: seq<int>)
    ensures Min(-v, Negated(values)) == -Max(v, values)
  {
    var m := Min(-v, Negated(values));
    var args := [v] + values;
    assert Negated(args) == [-v] + Negated(values);
    NegatedMembers(args);
    assert -m in args;
    assert forall x :: x in args ==> x <= -m by {
      forall x | x in args ensures x <= -m {
        assert -x in Negated(args);
      }
    }
  }

  function Negated(s: seq<int>): seq<int>
  {
    seq(|s|, i requires 0 <= i < |s| => -s[i])
  }

  lemma NegatedMembers(s: seq<int>)
    ensures forall x :: x in Negated(s) <==> -x in s
  {
    forall x ensures x in Negated(s) <==> -x in s {
      if x in Negated(s) {
        var i :| 0 <= i < |s| && Negated(s)[i] == x;
        assert s[i] == -x;
      }
      if -x in s {
        var i :| 0 <= i < |s| && s[i] == -x;
        assert Negated(s)[i] == x;
      }
    }
  }

  /** The values the module's tests expect of `abs`, `min` and `max`. */
  lemma AbsMinMaxVectors()
    ensures Abs(-5) == 5
    ensures Min(5, [8, 3]) == 3 && Min(100, [10]) == 10 && Min(10, [100]) == 10
    ensures Max(5, [8, 3]) == 8 && Max(10, [100]) == 100 && Max(100, [10]) == 100
  {
  }

  // ---------------------------------------------------------------- pow

  datatype Outcome = Ok(value: int) | RangeError

  /** What `pow(b, e, mod)` evaluates to: the loop never runs for `e <= 0`,
      whatever `mod` is; otherwise the first `% mod` throws when the modulus is zero, and
      a non-zero modulus gives JavaScript's `b ** e % mod`. */
  function PowSpec(b: int, e: int, mod: int): Outcome
  {
    if e <= 0 then Ok(1)
    else if mod == 0 then RangeError
    else Ok(TRem(Power(b, e as nat), mod))
  }

  /** One turn of the square-and-multiply loop keeps
      `(result * base ** exp) % mod` unchanged. */
  lemma SquareMultiplyStep(result: int, base: int, exp: int, mod: int)
    requires exp > 0 && mod != 0
    ensures var result' := if exp % 2 == 1 then TRem(result * base, mod) else result;
      TRem(result' * Power(TRem(base * base, mod), exp / 2), mod)
        == TRem(result * Power(base, exp as nat), mod)
  {
    var n := Magnitude(mod);
    var k := exp / 2;
    var result' := if exp % 2 == 1 then TRem(result * base, mod) else result;
    var base' := TRem(base * base, mod);
    var rb := if exp % 2 == 1 then result * base else result;
    assert base * base >= 0;
    PowerCong(base', base * base, k, n);
    PowerSquare(base, k);
    PowerNonneg(base', k);
    PowerNonneg(base * base, k);
    assert result * Power(base, exp as nat) == rb * Power(base * base, k) by {
      if exp % 2 == 1 {
        assert Power(base, exp as nat) == base * Power(base, 2 * k);
      } else {
        assert exp == 2 * k;
      }
    }
    assert result' % n == rb % n && SameSide(result', rb);
    MulCong(result', rb, Power(base', k), Power(base * base, k), n);
    SameSideScale(result', rb, Power(base', k), Power(base * base, k));
    TRemCongruent(result' * Power(base', k), rb * Power(base * base, k), mod);
  }

  /** `pow(b, e, mod)`: right-to-left binary exponentiation. */
  method Pow(b: int, e: int, mod: int) returns (r: Outcome)
    ensures r == PowSpec(b, e, mod)
  {
    if e > 0 && mod == 0 {
      // The first iteration always evaluates `(result * base) % mod` or
      // `(base * base) % mod`, and `% 0` throws.
      return RangeError;
    }
    var result, base, exp := 1, b, e;
    while exp > 0
      invariant e <= 0 ==> exp == e && result == 1
      invariant e > 0 ==> exp >= 0
      invariant e > 0 ==> TRem(result * Power(base, exp as nat), mod) == TRem(Power(b, e as nat), mod)
      invariant e > 0 && exp == 0 ==> Magnitude(result) < Magnitude(mod)
    {
      SquareMultiplyStep(result, base, exp, mod);
      if exp % 2 == 1 {
        result := TRem(result * base, mod);
      }
      base := TRem(base * base, mod);
      exp := exp / 2;
    }
    if e > 0 {
      TRemSmall(result, mod);
    }
    r := Ok(result);
  }

  /** `pow(b, e)` with the modulus left out. */
  method PowDefault(b: int, e: int) returns (r: Outcome)
    ensures r == PowSpec(b, e, DefaultModulus)
  {
    r := Pow(b, e, DefaultModulus);
  }

  /** For a non-negative base and a positive modulus the result is the
      ordinary (Euclidean) residue of the power. */
  lemma PowIsResidue(b: int, e: int, mod: int)
    requires b >= 0 && mod > 0 && e >= 1
    ensures PowSpec(b, e, mod) == Ok(Power(b, e as nat) % mod)
  {
    PowerNonneg(b, e as nat);
    TRemOfNonneg(Power(b, e as nat), mod);
  }

  /** A power smaller in magnitude than the modulus comes back unreduced. */
  lemma PowExactBelowModulus(b: int, e: int, mod: int)
    requires e >= 0 && mod != 0 && Magnitude(Power(b, e as nat)) < Magnitude(mod)
    ensures PowSpec(b, e, mod) == Ok(Power(b, e as nat))
  {
    if e > 0 {
      TRemSmall(Power(b, e as nat), mod);
    }
  }

  /** With the default modulus, squares and powers of two below `2 ** 100`
      are exact. */
  lemma PowDefaultSmall(i: int)
    requires 0 <= i < 100
    ensures PowSpec(i, 2, DefaultModulus) == Ok(i * i)
    ensures PowSpec(2, i, DefaultModulus) == Ok(Power(2, i as nat))
  {
    PowerOfTwoStrict(14, 128);
    assert Power(2, 14) == 16384;
    assert Power(i, 2) == i * i;
    assert 0 <= i * i < 10000;
    PowExactBelowModulus(i, 2, DefaultModulus);
    PowerOfTwoStrict(i as nat, 128);
    PowExactBelowModulus(2, i, DefaultModulus);
  }

  lemma PowKnownVector()
    ensures PowSpec(3, 4, 5) == Ok(1)
  {
  }

  /** `2 ** 1024` is a multiple of the default modulus, so `pow(2, 1024)`
      without a modulus is 0, and `pow(0 - 1, 2)` is 1. */
  lemma PowDefaultWrapsLargePowers()
    ensures PowSpec(2, 1024, DefaultModulus) == Ok(0)
    ensures PowSpec(-1, 2, DefaultModulus) == Ok(1)
  {
    var n := DefaultModulus;
    PowerOfTwoPositive(128);
    PowerAdd(2, 128, 896);
    ModAddMultiple(0, n, Power(2, 896));
    ModUnique(0, n, 0, 0);
    PowerNonneg(2, 1024);
    TRemOfNonneg(Power(2, 1024), n);
    PowerOfTwoStrict(0, 128);
    TRemSmall(Power(-1, 2), n);
  }

  // ---------------------------------------------------------------- random

  /** `random(min, max)` for a sample `u` of `Math.random()` in [0, 1),
      computed over exact reals. */
  function Random(min: int, max: int, u: real): (r: int)
    requires 0.0 <= u < 1.0
    ensures min <= max ==> min <= r <= max
    ensures min == max ==> r == min
  {
    var width := (max - min + 1) as real;
    assert min <= max ==> 0.0 <= u * width < width;
    (u * width).Floor + min
  }
}
