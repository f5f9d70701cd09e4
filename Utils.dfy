/** The integer helpers of prime-sieves/src/utils.rs: the digit-by-digit
    integer square root and the search bound for "the first n primes". */
module Utils {
  import Primes

  /** `usize` values are below 2^64 on the 64-bit targets the code is built for. */
  const UsizeLimit: nat := 0x1_0000_0000_0000_0000

  /** The largest count the by-count entry points are exercised with
      (fuzz/lib/types.rs), and the largest limit that count leads to. Every
      by-limit call is bounded by `MaxLimit`; it exceeds the 20,000,000 cap on
      by-limit inputs. */
  const MaxCount: nat := 1_270_607
  const MaxLimit: nat := 26_682_747

  /** The result of a call that either returns a value or panics. */
  datatype Outcome<T> = Returns(value: T) | Panics

  function Pow4(k: nat): nat {
    if k == 0 then 1 else 4 * Pow4(k - 1)
  }

  /** `r` is the integer square root of `n`. */
  predicate IsIsqrt(n: nat, r: nat) {
    r * r <= n < (r + 1) * (r + 1)
  }

  lemma Pow4ThirtyOne()
    ensures Pow4(31) == 0x4000_0000_0000_0000
  {
    assert Pow4(10) == 0x10_0000;
    assert Pow4(20) == 0x100_0000_0000;
    assert Pow4(30) == 0x1000_0000_0000_0000;
  }

  /** Lines 9-13 of `isqrt`: shift `d` down from 2^62 to the largest power of
      four not above `n` (to 0 when `n` is 0). */
  method StartingPowerOfFour(n: nat) returns (d: nat, ghost k: nat)
    requires n < UsizeLimit
    ensures n == 0 ==> d == 0
    ensures 0 < n ==> d == Pow4(k) && d <= n < 4 * d
  {
    d := 0x4000_0000_0000_0000;  // 1 << (usize::BITS - 2)
    k := 31;
    Pow4ThirtyOne();
    while d > n
      invariant d == Pow4(k) || (d == 0 && n == 0)
      invariant n < 4 * d || (d == 0 && n == 0)
      decreases d
    {
      d := d / 4;
      if k > 0 {
        k := k - 1;
      }
    }
  }

  lemma HalfOfMultiple(r: nat, q: nat)
    ensures (r * (4 * q)) / 2 == (2 * r + 1) * q - q
    ensures (r * (4 * q)) / 2 + q == (2 * r + 1) * q
  {
    assert r * (4 * q) == 2 * (2 * r * q);
  }

  /** The next binary digit of the root is 1. */
  lemma DigitOne(x: nat, r: nat, q: nat, n: nat)
    requires x + r * r * (4 * q) == n
    requires x >= r * (4 * q) + q
    requires x < (2 * r + 1) * (4 * q)
    ensures x - (r * (4 * q) + q) + (2 * r + 1) * (2 * r + 1) * q == n
    ensures x - (r * (4 * q) + q) < (2 * (2 * r + 1) + 1) * q
  {
    assert (2 * r + 1) * (2 * r + 1) * q == r * r * (4 * q) + r * (4 * q) + q;
  }

  /** The next binary digit of the root is 0. */
  lemma DigitZero(x: nat, r: nat, q: nat, n: nat)
    requires x + r * r * (4 * q) == n
    requires x < r * (4 * q) + q
    ensures x + (2 * r) * (2 * r) * q == n
    ensures x < (2 * (2 * r) + 1) * q
  {
    assert (2 * r) * (2 * r) * q == r * r * (4 * q);
  }

  lemma IsqrtFinish(x: nat, r: nat, n: nat)
    requires x + r * r == n
    requires x < 2 * r + 1
    ensures IsIsqrt(n, r)
  {
    assert (r + 1) * (r + 1) == r * r + 2 * r + 1;
  }

  /** The state of `isqrt`'s main loop: the ghost `root` is the square root of
      the leading digits consumed so far, `Pow4(e)` is four times `d`,
      `c == root * Pow4(e)`, and `x` is what is left of `n`. */
  ghost predicate DigitState(n: nat, x: nat, c: nat, d: nat, root: nat, e: nat) {
    && d == (if e == 0 then 0 else Pow4(e - 1))
    && c == root * Pow4(e)
    && x + root * root * Pow4(e) == n
    && x < (2 * root + 1) * Pow4(e)
  }

  /** One iteration of the main loop settles the next binary digit. */
  lemma DigitStep(n: nat, x: nat, c: nat, d: nat, root: nat, e: nat)
    requires DigitState(n, x, c, d, root, e) && d != 0
    ensures x >= c + d ==> DigitState(n, x - (c + d), c / 2 + d, d / 4, 2 * root + 1, e - 1)
    ensures x < c + d ==> DigitState(n, x, c / 2, d / 4, 2 * root, e - 1)
  {
    assert Pow4(e) == 4 * d;
    assert d / 4 == (if e - 1 == 0 then 0 else Pow4(e - 2));
    HalfOfMultiple(root, d);
    if x >= c + d {
      DigitOne(x, root, d, n);
    } else {
      DigitZero(x, root, d, n);
    }
  }

  /** `isqrt`: the binary digit-by-digit square root. */
  method Isqrt(n: nat) returns (c: nat)
    requires n < UsizeLimit
    ensures IsIsqrt(n, c)
  {
    var x: nat := n;
    c := 0;
    var d;
    ghost var k;
    d, k := StartingPowerOfFour(n);
    ghost var root: nat := 0;
    ghost var e: nat := if n == 0 then 0 else k + 1;
    while d != 0
      invariant DigitState(n, x, c, d, root, e)
      decreases e
    {
      DigitStep(n, x, c, d, root, e);
      if x >= c + d {
        x := x - (c + d);
        c := c / 2 + d;
        root := 2 * root + 1;
      } else {
        c := c / 2;
        root := 2 * root;
      }
      d := d / 4;
      e := e - 1;
    }
    IsqrtFinish(x, root, n);
  }

  /** `a` is no larger than the integer square root of `n` exactly when
      `a * a <= n`; in particular the root is unique. */
  lemma IsqrtIsLargestSquareRoot(n: nat, r: nat, a: nat)
    requires IsIsqrt(n, r)
    ensures a * a <= n <==> a <= r
  {
    if a <= r {
      Primes.MulMonotone(a, a, r);
      Primes.MulMonotone(r, a, r);
    } else {
      Primes.MulMonotone(r + 1, r + 1, a);
      Primes.MulMonotone(a, r + 1, a);
    }
  }

  lemma IsqrtUnique(n: nat, r: nat, s: nat)
    requires IsIsqrt(n, r) && IsIsqrt(n, s)
    ensures r == s
  {
    IsqrtIsLargestSquareRoot(n, r, s);
    IsqrtIsLargestSquareRoot(n, s, r);
  }

  function Pow2(k: nat): nat {
    if k == 0 then 1 else 2 * Pow2(k - 1)
  }

  /** `usize::BITS - n.leading_zeros()`: the number of binary digits of `n`. */
  function BitLength(n: nat): nat {
    if n == 0 then 0 else 1 + BitLength(n / 2)
  }

  /** `n` has exactly `BitLength(n)` binary digits. */
  lemma {:induction false} BitLengthBounds(n: nat)
    requires 1 <= n
    ensures Pow2(BitLength(n) - 1) <= n < Pow2(BitLength(n))
  {
    if n > 1 {
      BitLengthBounds(n / 2);
    }
  }

  /** `approximate_primes`: how far to sieve for the first `n` primes, taken
      as `n` times its bit length. */
  function ApproximatePrimes(n: nat): (r: nat)
    ensures n == 0 ==> r == 0
    ensures 1 <= n ==> n <= r
  {
    BitLength(n) * n
  }

  lemma {:induction false} BitLengthMonotone(a: nat, b: nat)
    requires a <= b
    ensures BitLength(a) <= BitLength(b)
  {
    if a != 0 {
      BitLengthMonotone(a / 2, b / 2);
    }
  }

  /** A larger count never leads to a smaller sieving limit. */
  lemma ApproximatePrimesMonotone(a: nat, b: nat)
    requires a <= b
    ensures ApproximatePrimes(a) <= ApproximatePrimes(b)
  {
    BitLengthMonotone(a, b);
    Primes.MulMonotone(BitLength(a), a, b);
    Primes.MulMonotone(b, BitLength(a), BitLength(b));
  }

  /** One needs a limit of 1 for the first prime and gets the empty list:
      the bound is too small for `n == 1`. */
  lemma ApproximatePrimesOfOne()
    ensures ApproximatePrimes(1) == 1
  {
    assert BitLength(0) == 0;
  }

  lemma BitLengthOf2481()
    ensures BitLength(2481) == 12
  {
    assert BitLength(38) == 6;
    assert BitLength(1240) == 11;
  }

  lemma BitLengthOfMaxCount()
    ensures BitLength(MaxCount) == 21
  {
    BitLengthOf2481();
    assert BitLength(79412) == 17;
    assert BitLength(635303) == 20;
  }

  /** The largest count leads to `MaxLimit`, which fits in a `usize`. */
  lemma ApproximatePrimesOfMaxCount()
    ensures ApproximatePrimes(MaxCount) == MaxLimit
    ensures MaxLimit < UsizeLimit
  {
    BitLengthOfMaxCount();
  }
}
