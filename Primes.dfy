/** The meaning of "prime" shared by every sieve of the project, the
    specification `PrimesUpTo` that their results are proved equal to, and the
    elementary number theory those proofs need. */
module Primes {

  /** `m` has no divisor `d` with `2 <= d < k`. */
  predicate Rough(m: nat, k: nat) {
    forall d :: 2 <= d < k ==> m % d != 0
  }

  predicate IsPrime(n: nat) {
    2 <= n && Rough(n, n)
  }

  predicate StrictlyIncreasing(s: seq<nat>) {
    forall a, b :: 0 <= a < b < |s| ==> s[a] < s[b]
  }

  /** Two ascending lists, the first ending below the start of the second,
      join into an ascending list. */
  lemma ConcatIncreasing(a: seq<nat>, b: seq<nat>)
    requires StrictlyIncreasing(a) && StrictlyIncreasing(b)
    requires 0 < |a| && 0 < |b| ==> a[|a| - 1] < b[0]
    ensures StrictlyIncreasing(a + b)
  {
    var t := a + b;
    forall i, j | 0 <= i < j < |t|
      ensures t[i] < t[j]
    {
      if i < |a| <= j {
        assert t[i] <= a[|a| - 1];
        assert b[0] <= t[j];
      }
    }
  }

  /** The primes `<= n`, in ascending order: what every by-limit sieve returns. */
  function PrimesUpTo(n: nat): (r: seq<nat>)
    ensures StrictlyIncreasing(r)
    ensures forall m: nat {:trigger m in r} :: m in r <==> IsPrime(m) && m <= n
  {
    if n < 2 then []
    else
      var below := PrimesUpTo(n - 1);
      assert forall a :: 0 <= a < |below| ==> below[a] in below;
      below + (if IsPrime(n) then [n] else [])
  }

  /** `r` is the list of the first `n` primes: ascending, all prime, and
      missing no prime up to its last element. */
  ghost predicate IsFirstPrimes(r: seq<nat>, n: nat) {
    && |r| == n
    && StrictlyIncreasing(r)
    && (forall j :: 0 <= j < |r| ==> IsPrime(r[j]))
    && (forall q :: IsPrime(q) && 0 < n && q <= r[n - 1] ==> q in r)
  }

  // ---------------------------------------------------------------------
  // Sorted sequences

  lemma HeadIsLeast(s: seq<nat>, m: nat)
    requires StrictlyIncreasing(s) && m in s
    ensures s[0] <= m
  {
    var j :| 0 <= j < |s| && s[j] == m;
    assert j == 0 || s[0] < s[j];
  }

  /** A strictly increasing sequence is determined by its elements. */
  lemma {:induction false} SortedUnique(a: seq<nat>, b: seq<nat>)
    requires StrictlyIncreasing(a) && StrictlyIncreasing(b)
    requires forall m :: m in a <==> m in b
    ensures a == b
    decreases |a|
  {
    if a == [] {
      assert forall j :: 0 <= j < |b| ==> b[j] in b;
    } else {
      assert a[0] in a;
      assert b[0] in b;
      HeadIsLeast(b, a[0]);
      HeadIsLeast(a, b[0]);
      forall m
        ensures m in a[1..] <==> m in b[1..]
      {
        if m in a[1..] {
          var j :| 1 <= j < |a| && a[j] == m;
          assert a[0] < a[j];
        }
        if m in b[1..] {
          var j :| 1 <= j < |b| && b[j] == m;
          assert b[0] < b[j];
        }
        assert m in a <==> m == a[0] || m in a[1..] by { assert a == [a[0]] + a[1..]; }
        assert m in b <==> m == b[0] || m in b[1..] by { assert b == [b[0]] + b[1..]; }
      }
      SortedUnique(a[1..], b[1..]);
      assert a == [a[0]] + a[1..];
      assert b == [b[0]] + b[1..];
    }
  }

  /** Any ascending list of exactly the primes `<= n` is `PrimesUpTo(n)`. */
  lemma CharacterizePrimesUpTo(s: seq<nat>, n: nat)
    requires StrictlyIncreasing(s)
    requires forall m: nat :: m in s <==> IsPrime(m) && m <= n
    ensures s == PrimesUpTo(n)
  {
    SortedUnique(s, PrimesUpTo(n));
  }

  /** The primes up to `a` are a prefix of the primes up to any `b >= a`. */
  lemma {:induction false} PrimesUpToPrefix(a: nat, b: nat)
    requires a <= b
    ensures |PrimesUpTo(a)| <= |PrimesUpTo(b)|
    ensures PrimesUpTo(b)[..|PrimesUpTo(a)|] == PrimesUpTo(a)
    decreases b - a
  {
    if a < b {
      PrimesUpToPrefix(a, b - 1);
      assert PrimesUpTo(b)[..|PrimesUpTo(b - 1)|] == PrimesUpTo(b - 1);
    }
  }

  /** Whatever limit is sieved, its first `n` primes are the first `n` primes. */
  lemma FirstPrimesOfPrefix(limit: nat, n: nat)
    requires n <= |PrimesUpTo(limit)|
    ensures IsFirstPrimes(PrimesUpTo(limit)[..n], n)
  {
    var all := PrimesUpTo(limit);
    var r := all[..n];
    forall j | 0 <= j < |r|
      ensures IsPrime(r[j])
    {
      assert r[j] == all[j] && all[j] in all;
    }
    forall q | IsPrime(q) && 0 < n && q <= r[n - 1]
      ensures q in r
    {
      assert r[n - 1] in all;
      assert q in all;
      var j :| 0 <= j < |all| && all[j] == q;
      if j >= n {
        assert false;
      }
      assert r[j] == q;
    }
  }

  // ---------------------------------------------------------------------
  // Divisibility

  lemma MulAtLeast(e: nat, a: nat)
    requires 1 <= a
    ensures e <= e * a
  {
  }

  lemma MulMonotone(a: nat, b: nat, c: nat)
    requires b <= c
    ensures a * b <= a * c
  {
  }

  /** Euclidean division has exactly one quotient and remainder. */
  lemma DivModUnique(x: nat, e: nat, q: nat, r: nat)
    requires 0 < e && x == e * q + r && r < e
    ensures x % e == r && x / e == q
  {
    var q', r' := x / e, x % e;
    assert x == e * q' + r';
    if q > q' {
      MulAtLeast(e, q - q');
      assert false;
    } else if q < q' {
      MulAtLeast(e, q' - q);
      assert false;
    }
  }

  lemma MultipleMod(e: nat, k: nat)
    requires 0 < e
    ensures (e * k) % e == 0
  {
    DivModUnique(e * k, e, k, 0);
  }

  lemma DividesTransitive(n: nat, d: nat, e: nat)
    requires 0 < d && 0 < e && n % d == 0 && d % e == 0
    ensures n % e == 0
  {
    var a, b := n / d, d / e;
    assert n == d * a;
    assert d == e * b;
    assert n == e * (b * a);
    MultipleMod(e, b * a);
  }

  lemma DividesSum(a: nat, b: nat, e: nat)
    requires 0 < e && a % e == 0 && b % e == 0
    ensures (a + b) % e == 0
  {
    var x, y := a / e, b / e;
    assert a + b == e * (x + y);
    MultipleMod(e, x + y);
  }

  lemma DividesDifference(a: nat, b: nat, e: nat)
    requires 0 < e && b <= a && a % e == 0 && b % e == 0
    ensures (a - b) % e == 0
  {
    var x, y := a / e, b / e;
    assert e * y <= e * x;
    if x < y {
      MulAtLeast(e, y - x);
      assert false;
    }
    assert a - b == e * (x - y);
    MultipleMod(e, x - y);
  }

  /** Every `n >= 2` has a prime factor. */
  lemma {:induction false} PrimeFactorOf(n: nat) returns (e: nat)
    requires 2 <= n
    ensures IsPrime(e) && e <= n && n % e == 0
    decreases n
  {
    if IsPrime(n) {
      e := n;
      MultipleMod(n, 1);
    } else {
      var d :| 2 <= d < n && n % d == 0;
      e := PrimeFactorOf(d);
      DividesTransitive(n, d, e);
    }
  }

  /** To be `k`-rough it suffices to have no prime factor below `k`. */
  lemma RoughFromPrimes(m: nat, k: nat)
    requires forall q: nat :: IsPrime(q) && q < k ==> m % q != 0
    ensures Rough(m, k)
  {
    forall d | 2 <= d < k
      ensures m % d != 0
    {
      if m % d == 0 {
        var e := PrimeFactorOf(d);
        DividesTransitive(m, d, e);
        assert false;
      }
    }
  }

  /** A composite number has a factor no larger than its square root. */
  lemma SmallFactorOfComposite(n: nat) returns (d: nat)
    requires 2 <= n && !IsPrime(n)
    ensures 2 <= d < n && d * d <= n && n % d == 0
  {
    var f :| 2 <= f < n && n % f == 0;
    var q := n / f;
    assert n == f * q;
    if q <= 1 {
      MulMonotone(f, q, 1);
      assert false;
    }
    MulMonotone(q, 2, f);
    assert q < n;
    if f * f <= n {
      d := f;
    } else {
      if f <= q {
        MulMonotone(f, f, q);
        assert false;
      }
      MulMonotone(q, q, f);
      assert n == q * f;
      MultipleMod(q, f);
      d := q;
    }
  }

  /** A composite number has a PRIME factor no larger than its square root. */
  lemma SmallPrimeFactorOfComposite(n: nat) returns (e: nat)
    requires 2 <= n && !IsPrime(n)
    ensures IsPrime(e) && e < n && e * e <= n && n % e == 0
  {
    var d := SmallFactorOfComposite(n);
    e := PrimeFactorOf(d);
    DividesTransitive(n, d, e);
    MulMonotone(e, e, d);
    MulMonotone(d, e, d);
  }

  /** A `k`-rough number below `k * k` is prime (or 1). */
  lemma RoughBelowSquareIsPrime(m: nat, k: nat)
    requires 2 <= m < k * k && Rough(m, k)
    ensures IsPrime(m)
  {
    if !IsPrime(m) {
      var d := SmallFactorOfComposite(m);
      if k <= d {
        MulMonotone(k, k, d);
        MulMonotone(d, k, d);
        assert false;
      }
      assert false;
    }
  }

  /** A prime has no divisor in `[2, p)`, so it is `k`-rough for every `k <= p`;
      conversely, a prime below `k` is not `k`-rough (it divides itself). */
  lemma PrimeRoughness(p: nat, k: nat)
    requires IsPrime(p)
    ensures Rough(p, k) <==> k <= p
  {
    if p < k {
      MultipleMod(p, 1);
      assert p % p == 0;
    }
  }

  // ---------------------------------------------------------------------
  // Trial division of literals

  function NoDivisorBetween(n: nat, lo: nat, hi: nat): bool
    decreases hi - lo
  {
    lo >= hi || (0 < lo && n % lo != 0 && NoDivisorBetween(n, lo + 1, hi))
  }

  lemma {:induction false} NoDivisorBetweenMeans(n: nat, lo: nat, hi: nat)
    requires NoDivisorBetween(n, lo, hi)
    ensures forall d :: lo <= d < hi ==> n % d != 0
    decreases hi - lo
  {
    if lo < hi {
      NoDivisorBetweenMeans(n, lo + 1, hi);
    }
  }

  /** Trial division up to the square root decides primality. */
  lemma PrimeByTrialDivision(n: nat, k: nat)
    requires 2 <= n < k * k && NoDivisorBetween(n, 2, k)
    ensures IsPrime(n)
  {
    NoDivisorBetweenMeans(n, 2, k);
    RoughBelowSquareIsPrime(n, k);
  }

  /** A chain of primes, each at most twice the one before it. */
  lemma BertrandChain()
    ensures IsPrime(2) && IsPrime(3) && IsPrime(5) && IsPrime(7) && IsPrime(13)
    ensures IsPrime(23) && IsPrime(43) && IsPrime(83) && IsPrime(163) && IsPrime(317)
    ensures IsPrime(631) && IsPrime(1259) && IsPrime(2503) && IsPrime(4999) && IsPrime(9973)
  {
    PrimeByTrialDivision(2, 2);
    PrimeByTrialDivision(3, 2);
    PrimeByTrialDivision(5, 3);
    PrimeByTrialDivision(7, 3);
    PrimeByTrialDivision(13, 4);
    PrimeByTrialDivision(23, 5);
    PrimeByTrialDivision(43, 7);
    PrimeByTrialDivision(83, 10);
    assert NoDivisorBetween(163, 5, 13);
    PrimeByTrialDivision(163, 13);
    assert NoDivisorBetween(317, 10, 18);
    PrimeByTrialDivision(317, 18);
    Prime631();
    Prime1259();
    Prime2503();
    Prime4999();
    Prime9973();
  }

  lemma Prime631()
    ensures IsPrime(631)
  {
    assert NoDivisorBetween(631, 18, 26);
    assert NoDivisorBetween(631, 10, 26);
    PrimeByTrialDivision(631, 26);
  }

  lemma Prime1259()
    ensures IsPrime(1259)
  {
    assert NoDivisorBetween(1259, 28, 36);
    assert NoDivisorBetween(1259, 20, 36);
    assert NoDivisorBetween(1259, 12, 36);
    assert NoDivisorBetween(1259, 4, 36);
    PrimeByTrialDivision(1259, 36);
  }

  lemma Prime2503()
    ensures IsPrime(2503)
  {
    assert NoDivisorBetween(2503, 43, 51);
    assert NoDivisorBetween(2503, 35, 51);
    assert NoDivisorBetween(2503, 27, 51);
    assert NoDivisorBetween(2503, 19, 51);
    assert NoDivisorBetween(2503, 11, 51);
    assert NoDivisorBetween(2503, 3, 51);
    PrimeByTrialDivision(2503, 51);
  }

  lemma Prime4999()
    ensures IsPrime(4999)
  {
    assert NoDivisorBetween(4999, 63, 71);
    assert NoDivisorBetween(4999, 55, 71);
    assert NoDivisorBetween(4999, 47, 71);
    assert NoDivisorBetween(4999, 39, 71);
    assert NoDivisorBetween(4999, 31, 71);
    assert NoDivisorBetween(4999, 23, 71);
    assert NoDivisorBetween(4999, 15, 71);
    assert NoDivisorBetween(4999, 7, 71);
    PrimeByTrialDivision(4999, 71);
  }

  lemma Prime9973()
    ensures IsPrime(9973)
  {
    assert NoDivisorBetween(9973, 92, 100);
    assert NoDivisorBetween(9973, 84, 100);
    assert NoDivisorBetween(9973, 76, 100);
    assert NoDivisorBetween(9973, 68, 100);
    assert NoDivisorBetween(9973, 60, 100);
    assert NoDivisorBetween(9973, 52, 100);
    assert NoDivisorBetween(9973, 44, 100);
    assert NoDivisorBetween(9973, 36, 100);
    assert NoDivisorBetween(9973, 28, 100);
    assert NoDivisorBetween(9973, 20, 100);
    assert NoDivisorBetween(9973, 12, 100);
    assert NoDivisorBetween(9973, 4, 100);
    PrimeByTrialDivision(9973, 100);
  }

  /** Bertrand's postulate below 9973: after every `p` comes a prime `<= 2p`. */
  lemma PrimeWithinDouble(p: nat) returns (q: nat)
    requires 2 <= p < 9973
    ensures IsPrime(q) && p < q <= 2 * p
  {
    BertrandChain();
    q := if p < 3 then 3 else if p < 5 then 5 else if p < 7 then 7
      else if p < 13 then 13 else if p < 23 then 23 else if p < 43 then 43
      else if p < 83 then 83 else if p < 163 then 163 else if p < 317 then 317
      else if p < 631 then 631 else if p < 1259 then 1259 else if p < 2503 then 2503
      else if p < 4999 then 4999 else 9973;
  }

  /** The primes up to the smallest limits, used by every fast path. */
  lemma SmallPrimes()
    ensures PrimesUpTo(0) == [] && PrimesUpTo(1) == [] && PrimesUpTo(2) == [2]
    ensures PrimesUpTo(3) == [2, 3] && PrimesUpTo(4) == [2, 3] && PrimesUpTo(5) == [2, 3, 5]
  {
    BertrandChain();
    assert 4 % 2 == 0;
  }

  /** Every limit from 3 on starts its prime list with 2 and 3. */
  lemma PrimesStartTwoThree(n: nat)
    requires 3 <= n
    ensures |PrimesUpTo(n)| >= 2 && PrimesUpTo(n)[..2] == [2, 3]
  {
    SmallPrimes();
    PrimesUpToPrefix(3, n);
  }
}
