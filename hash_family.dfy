/**
  The affine hash family shared by the Count-Min Sketch and the Count Sketch.

  For row coefficients `(a, b)` a key `x` is mixed as
    u = a * x + b            (computed in 128 bits)
    h = (u & p) + (u >> 89)  (p is LARGE_PRIME)
  and then reduced to a bucket `h & (k - 1)` or to a sign `(h & 1) * 2 - 1`.

  The bit operations are written out on unsigned integers: `&` is `And`
  below (defined on binary digits), `>> 89` is division by 2^89, and the
  128-bit wrap-around is `% 2^128`. The claim of the source's comment that
  `h` is congruent to `u` modulo LARGE_PRIME is not part of this model:
  it holds only when LARGE_PRIME is the Mersenne number 2^89 - 1.
 */
module HashFamily {
  import opened Keys
  import opened Arithmetic

  /** 2^89, the shift amount of `u >> 89`. */
  const TWO_89: nat := 0x200_0000_0000_0000_0000_0000

  /** 2^128: the number of distinct `__uint128_t` values. */
  const U128_MODULUS: nat := 0x1_0000_0000_0000_0000_0000_0000_0000_0000

  function Pow2(n: nat): (r: nat)
    ensures r > 0
  {
    if n == 0 then 1 else 2 * Pow2(n - 1)
  }

  /** Bitwise AND of two unsigned integers, one binary digit at a time. */
  function And(x: nat, y: nat): (r: nat)
    ensures r <= x && r <= y
    decreases x
  {
    if x == 0 || y == 0 then 0
    else 2 * And(x / 2, y / 2) + (if x % 2 == 1 && y % 2 == 1 then 1 else 0)
  }

  /** The constructors' test `(k & (k - 1)) == 0 && k > 0` on a `uint64_t`. */
  predicate IsPowerOfTwo(k: U64)
  {
    k > 0 && And(k, k - 1) == 0
  }

  /** The mixing step common to the bucket hash and the sign hash. */
  function Mix(a: U64, b: U64, prime: U64, x: Key): nat
  {
    var u := (a * x + b) % U128_MODULUS;
    var lo := And(u, prime);
    var hi := u / TWO_89;
    (hi + lo) % U128_MODULUS
  }

  /** The coefficients `(a, b)` of one affine hash function. */
  datatype Affine = Affine(a: U64, b: U64)

  /** Coefficients as the constructors draw them: `0 < a < prime` and `0 <= b < prime`. */
  predicate Drawn(c: Affine, prime: U64)
  {
    0 < c.a < prime && c.b < prime
  }

  /** `h & (k - 1)`: the bucket a mixed hash falls into. */
  function Bucket(h: nat, k: U64): (r: nat)
    requires k > 0
    ensures r < k
  {
    And(h, k - 1)
  }

  /** The conversion of an unsigned value to `int8_t`: its low byte in two's complement. */
  function Int8Of(v: nat): int
  {
    var low := v % 256;
    if low < 128 then low else low - 256
  }

  /** `(h & 1) * 2 - 1` computed in 128 bits and returned as `int8_t`. */
  function Sign(h: nat): (r: int)
    ensures r == 1 || r == -1
    ensures r == 1 <==> h % 2 == 1
  {
    Int8Of((And(h, 1) * 2 - 1) % U128_MODULUS)
  }

  /** The bucket that the row with coefficients `c` gives `x` in a table `k` wide. */
  function RowBucket(c: Affine, prime: U64, k: U64, x: Key): (r: nat)
    requires IsPowerOfTwo(k)
    ensures r < k
    ensures r == Mix(c.a, c.b, prime, x) % k
  {
    BucketIsRemainder(Mix(c.a, c.b, prime, x), k);
    Bucket(Mix(c.a, c.b, prime, x), k)
  }

  /** The sign, +1 or -1, that the row with sign coefficients `c` gives `x`. */
  function RowSign(c: Affine, prime: U64, x: Key): (r: int)
    ensures r == 1 || r == -1
    ensures r == 1 <==> Mix(c.a, c.b, prime, x) % 2 == 1
  {
    Sign(Mix(c.a, c.b, prime, x))
  }

  /** The power-of-two test accepts exactly the powers of two. */
  lemma PowerOfTwoTest(k: U64)
    ensures IsPowerOfTwo(k) <==> exists j: nat :: k == Pow2(j)
  {
    if IsPowerOfTwo(k) {
      PowerOfTwoFromTest(k);
    }
    if j: nat :| k == Pow2(j) {
      PowerOfTwoPassesTest(j);
    }
  }

  /** For `k` a power of two the mask `k - 1` keeps the remainder modulo `k`. */
  lemma BucketIsRemainder(h: nat, k: U64)
    requires IsPowerOfTwo(k)
    ensures Bucket(h, k) == h % k
  {
    PowerOfTwoTest(k);
    var j: nat :| k == Pow2(j);
    AndLowBits(h, j);
  }

  lemma {:induction false} PowerOfTwoPassesTest(j: nat)
    ensures And(Pow2(j), Pow2(j) - 1) == 0
  {
    if j > 0 {
      PowerOfTwoPassesTest(j - 1);
      assert Pow2(j) / 2 == Pow2(j - 1);
      assert (Pow2(j) - 1) / 2 == Pow2(j - 1) - 1;
    }
  }

  lemma {:induction false} AndSelf(x: nat)
    ensures And(x, x) == x
  {
    if x > 0 {
      AndSelf(x / 2);
    }
  }

  lemma {:induction false} PowerOfTwoFromTest(k: nat)
    requires k > 0 && And(k, k - 1) == 0
    ensures exists j: nat :: k == Pow2(j)
  {
    if k == 1 {
      assert k == Pow2(0);
    } else if k % 2 == 0 {
      assert (k - 1) / 2 == k / 2 - 1;
      assert And(k / 2, k / 2 - 1) == 0;
      PowerOfTwoFromTest(k / 2);
      var j: nat :| k / 2 == Pow2(j);
      assert k == Pow2(j + 1);
    } else {
      assert (k - 1) / 2 == k / 2;
      AndSelf(k / 2);
      assert false;
    }
  }

  lemma {:induction false} AndLowBits(x: nat, j: nat)
    ensures And(x, Pow2(j) - 1) == x % Pow2(j)
  {
    if j == 0 {
      assert Pow2(j) == 1;
    } else if x == 0 {
      DivisionIsUnique(x, Pow2(j), 0, 0);
    } else {
      var p := Pow2(j - 1);
      assert Pow2(j) == 2 * p;
      AndOddMask(x, p);
      AndLowBits(x / 2, j - 1);
      RemainderOfDouble(x, p);
    }
  }

  lemma AndOddMask(x: nat, p: nat)
    requires x > 0 && p > 0
    ensures And(x, 2 * p - 1) == 2 * And(x / 2, p - 1) + x % 2
  {
    var mask := 2 * p - 1;
    assert mask / 2 == p - 1 && mask % 2 == 1;
  }

  lemma RemainderOfDouble(x: nat, p: nat)
    requires p > 0
    ensures x % (2 * p) == 2 * ((x / 2) % p) + x % 2
  {
    var q, r := (x / 2) / p, (x / 2) % p;
    assert x == q * (2 * p) + (2 * r + x % 2);
    DivisionIsUnique(x, 2 * p, q, 2 * r + x % 2);
  }
}
