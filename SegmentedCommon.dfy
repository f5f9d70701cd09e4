/** What the two segmented sieves (prime-sieves/src/segmented.rs and the draft
    src/segmented.rs) have in common: the bootstrap sieve of Eratosthenes over
    `0..=sqrt`, the collection of sieving primes with their first offsets, the
    arithmetic of the progression `p*p, p*p + 2p, ...` that every sieving prime
    strikes, and the shape of the result list between segments. */
module SegmentedCommon {
  import opened Primes
  import opened Utils

  function Min(a: nat, b: nat): nat {
    if a < b then a else b
  }

  function Max(a: nat, b: nat): nat {
    if a < b then b else a
  }

  // ---------------------------------------------------------------------
  // The bootstrap sieve over 0..=sqrt

  /** The bootstrap loop, handling the odd candidate `q`, clears `m`. */
  predicate OddStrike(m: nat, q: nat) {
    3 <= q && q % 2 == 1 && q * q <= m && m % q == 0
  }

  /** What the bootstrap table holds for `m` once every odd candidate below
      `i` has been handled. */
  predicate BootstrapRough(m: nat, i: nat) {
    forall q: nat :: q < i ==> !OddStrike(m, q)
  }

  ghost predicate Bootstrapped(isPrime: array<bool>, i: nat)
    reads isPrime
  {
    forall m :: 0 <= m < isPrime.Length ==> isPrime[m] == BootstrapRough(m, i)
  }

  /** Handling the odd candidate `i` clears exactly its multiples from `i*i`. */
  lemma BootstrapStep(m: nat, i: nat)
    requires 3 <= i && i % 2 == 1
    ensures BootstrapRough(m, i + 2) <==> BootstrapRough(m, i) && !OddStrike(m, i)
  {
    if BootstrapRough(m, i) && !OddStrike(m, i) {
      forall q: nat | q < i + 2
        ensures !OddStrike(m, q)
      {
        if q == i + 1 {
          assert q % 2 == 0;
        }
      }
    }
  }

  /** A candidate already cleared has a smaller odd factor that cleared its
      multiples too, so skipping it changes nothing. */
  lemma BootstrapSkip(m: nat, i: nat)
    requires 3 <= i && i % 2 == 1 && !BootstrapRough(i, i)
    ensures BootstrapRough(m, i + 2) <==> BootstrapRough(m, i)
  {
    BootstrapStep(m, i);
    if OddStrike(m, i) {
      var q: nat :| q < i && OddStrike(i, q);
      MulAtLeast(i, i);
      DividesTransitive(m, i, q);
      assert OddStrike(m, q);
    }
  }

  /** Below the square of the next candidate, the bootstrap table is exact on
      the odd numbers from 3. */
  lemma BootstrapRoughIsPrime(m: nat, i: nat)
    requires 3 <= m && m % 2 == 1 && m < i * i
    ensures BootstrapRough(m, i) <==> IsPrime(m)
  {
    if IsPrime(m) {
      forall q: nat | q < i
        ensures !OddStrike(m, q)
      {
        if 3 <= q && q * q <= m {
          MulMonotone(q, 2, q);
          assert 2 <= q < m;
        }
      }
    } else {
      var e := SmallPrimeFactorOfComposite(m);
      assert e != 2;
      assert e % 2 == 1;
      if i <= e {
        MulMonotone(i, i, e);
        MulMonotone(e, i, e);
      }
      assert OddStrike(m, e);
    }
  }

  /** Two multiples of `i` less than `i` apart are equal. */
  lemma NoMultipleBetween(m: nat, j: nat, i: nat)
    requires 0 < i && m % i == 0 && j % i == 0 && j <= m < j + i
    ensures m == j
  {
    DividesDifference(m, j, i);
    DivModUnique(m - j, i, 0, m - j);
  }

  /** Skipping a candidate the table has already cleared keeps the table
      exact for the next candidate. */
  lemma BootstrapSkipAll(isPrime: array<bool>, i: nat)
    requires 3 <= i && i % 2 == 1 && i < isPrime.Length
    requires Bootstrapped(isPrime, i) && !isPrime[i]
    ensures Bootstrapped(isPrime, i + 2)
  {
    forall m | 0 <= m < isPrime.Length
      ensures isPrime[m] == BootstrapRough(m, i + 2)
    {
      BootstrapSkip(m, i);
    }
  }

  /** Lines 94-100 of prime-sieves/src/segmented.rs (91-97 of the draft):
      while the candidate `i` is still marked, clear its multiples from `i*i`
      up to `sqrt`. */
  method StrikeMultiples(isPrime: array<bool>, sqrt: nat, i: nat)
    modifies isPrime
    requires isPrime.Length == sqrt + 1 && 3 <= i <= sqrt && i % 2 == 1
    requires Bootstrapped(isPrime, i)
    ensures Bootstrapped(isPrime, i + 2)
  {
    if !isPrime[i] {
      BootstrapSkipAll(isPrime, i);
      return;
    }
    var j := i * i;
    MultipleMod(i, i);
    while j <= sqrt
      invariant i * i <= j && j % i == 0
      invariant forall m :: 0 <= m < isPrime.Length ==>
        isPrime[m] == (BootstrapRough(m, i) && !(i * i <= m < j && m % i == 0))
      decreases sqrt - j
    {
      forall m: nat | j < m < j + i
        ensures m % i != 0
      {
        if m % i == 0 {
          NoMultipleBetween(m, j, i);
        }
      }
      isPrime[j] := false;
      DividesSum(j, i, i);
      j := j + i;
    }
    forall m | 0 <= m < isPrime.Length
      ensures isPrime[m] == BootstrapRough(m, i + 2)
    {
      BootstrapStep(m, i);
    }
  }

  /** A candidate whose square is at most `high` indexes the table and is at
      most `high`. */
  lemma CandidateInTable(primes: nat, sqrt: nat, high: nat, next: nat)
    requires IsIsqrt(primes, sqrt) && high <= primes && 1 <= next && next * next <= high
    ensures next <= sqrt && next <= high
  {
    MulAtLeast(next, next);
    IsqrtIsLargestSquareRoot(primes, sqrt, next);
  }

  /** Lines 93-102 of prime-sieves/src/segmented.rs (90-99 of the draft):
      handle the odd candidates from `i` on while their square is at most
      `high`. */
  method Bootstrap(isPrime: array<bool>, primes: nat, sqrt: nat, high: nat, i: nat) returns (next: nat)
    modifies isPrime
    requires isPrime.Length == sqrt + 1 && IsIsqrt(primes, sqrt) && high <= primes
    requires 3 <= i && i % 2 == 1 && Bootstrapped(isPrime, i)
    ensures i <= next && next % 2 == 1 && high < next * next
    ensures next == i || (next - 2) * (next - 2) <= high
    ensures Bootstrapped(isPrime, next)
  {
    next := i;
    while next * next <= high
      invariant i <= next && next % 2 == 1 && Bootstrapped(isPrime, next)
      invariant next == i || (next - 2) * (next - 2) <= high
      decreases high - next
    {
      CandidateInTable(primes, sqrt, high, next);
      StrikeMultiples(isPrime, sqrt, next);
      next := next + 2;
    }
  }

  // ---------------------------------------------------------------------
  // Sieving primes

  /** `primesVec` lists the odd primes below `s`, in ascending order. */
  ghost predicate IsSievingPrimes(primesVec: seq<nat>, s: nat) {
    && StrictlyIncreasing(primesVec)
    && forall v: nat {:trigger v in primesVec} :: v in primesVec <==> IsPrime(v) && v % 2 == 1 && v < s
  }

  /** Passing the odd candidate `next` keeps the sieving-prime list exact:
      a prime is appended, anything else is skipped. */
  lemma SievingPrimesStep(primesVec: seq<nat>, next: nat)
    requires IsSievingPrimes(primesVec, next) && 3 <= next && next % 2 == 1
    ensures IsPrime(next) ==> IsSievingPrimes(primesVec + [next], next + 2)
    ensures !IsPrime(next) ==> IsSievingPrimes(primesVec, next + 2)
  {
    if IsPrime(next) {
      var pv := primesVec + [next];
      if 0 < |primesVec| {
        assert primesVec[|primesVec| - 1] in primesVec;
      }
      ConcatIncreasing(primesVec, [next]);
      forall v: nat
        ensures v in pv <==> IsPrime(v) && v % 2 == 1 && v < next + 2
      {
        assert v in pv <==> v in primesVec || v == next;
      }
    } else {
      forall v: nat
        ensures v in primesVec <==> IsPrime(v) && v % 2 == 1 && v < next + 2
      {
        if v == next + 1 {
          assert v % 2 == 0;
        }
      }
    }
  }

  /** A sieving prime `p` whose square is at or above `low` starts at offset
      `p*p - low`. */
  lemma OffsetsAppend(low: nat, primesVec: seq<nat>, multiples: seq<nat>, p: nat)
    requires |multiples| == |primesVec| && 1 <= p && low <= p * p
    requires forall k :: 0 <= k < |primesVec| ==> Offset(low, multiples[k], primesVec[k])
    ensures forall k :: 0 <= k < |primesVec| + 1 ==>
      Offset(low, (multiples + [p * p - low])[k], (primesVec + [p])[k])
  {
    assert Hit(p * p, p);
    forall k | 0 <= k < |primesVec| + 1
      ensures Offset(low, (multiples + [p * p - low])[k], (primesVec + [p])[k])
    {
      if k < |primesVec| {
        assert (multiples + [p * p - low])[k] == multiples[k];
        assert (primesVec + [p])[k] == primesVec[k];
      }
    }
  }

  /** Lines 105-112 of prime-sieves/src/segmented.rs (102-109 of the draft):
      append every odd prime from `s` on whose square is at most `high`, with
      its first offset `s*s - low` into the segment that starts at `low`. */
  method CollectSievingPrimes(isPrime: array<bool>, primes: nat, sqrt: nat, ghost i: nat,
                              low: nat, high: nat, s: nat, primesVec: seq<nat>, multiples: seq<nat>)
    returns (next: nat, primesVec': seq<nat>, multiples': seq<nat>)
    requires isPrime.Length == sqrt + 1 && IsIsqrt(primes, sqrt) && high <= primes
    requires Bootstrapped(isPrime, i) && high < i * i
    requires 3 <= s && s % 2 == 1 && low <= s * s
    requires IsSievingPrimes(primesVec, s) && |multiples| == |primesVec|
    requires forall k :: 0 <= k < |primesVec| ==> Offset(low, multiples[k], primesVec[k])
    ensures s <= next && next % 2 == 1 && high < next * next
    ensures next == s || (next - 2) * (next - 2) <= high
    ensures IsSievingPrimes(primesVec', next)
    ensures |primesVec| <= |primesVec'| && |multiples'| == |primesVec'|
    ensures primesVec'[..|primesVec|] == primesVec && multiples'[..|primesVec|] == multiples
    ensures forall k :: |primesVec| <= k < |primesVec'| ==>
      low + multiples'[k] == primesVec'[k] * primesVec'[k]
    ensures forall k :: 0 <= k < |primesVec'| ==> Offset(low, multiples'[k], primesVec'[k])
  {
    next, primesVec', multiples' := s, primesVec, multiples;
    while next * next <= high
      invariant s <= next && next % 2 == 1
      invariant next == s || (next - 2) * (next - 2) <= high
      invariant IsSievingPrimes(primesVec', next)
      invariant |primesVec| <= |primesVec'| && |multiples'| == |primesVec'|
      invariant primesVec'[..|primesVec|] == primesVec && multiples'[..|primesVec|] == multiples
      invariant forall k :: |primesVec| <= k < |primesVec'| ==>
        low + multiples'[k] == primesVec'[k] * primesVec'[k]
      invariant forall k :: 0 <= k < |primesVec'| ==> Offset(low, multiples'[k], primesVec'[k])
      decreases high - next
    {
      CandidateInTable(primes, sqrt, high, next);
      BootstrapRoughIsPrime(next, i);
      SievingPrimesStep(primesVec', next);
      if isPrime[next] {
        MulMonotone(s, s, next);
        MulMonotone(next, s, next);
        OffsetsAppend(low, primesVec', multiples', next);
        assert (primesVec' + [next])[..|primesVec|] == primesVec'[..|primesVec|];
        assert (multiples' + [next * next - low])[..|primesVec|] == multiples'[..|primesVec|];
        primesVec' := primesVec' + [next];
        multiples' := multiples' + [next * next - low];
      }
      next := next + 2;
    }
  }

  // ---------------------------------------------------------------------
  // The progression a sieving prime strikes

  /** `v` is one of `p*p, p*p + 2p, p*p + 4p, ...`: the values the sweep
      strikes for the sieving prime `p`. */
  predicate Hit(v: nat, p: nat) {
    0 < p && p * p <= v && (v - p * p) % (2 * p) == 0
  }

  /** `j` is the offset, from `low`, of the first value at or above `low`
      that `p` strikes: either `p*p` itself or less than one step in. */
  predicate Offset(low: nat, j: nat, p: nat) {
    Hit(low + j, p) && (low + j == p * p || j < 2 * p)
  }

  /** A positive multiple of `e` is at least `e`. */
  lemma PositiveMultiple(d: nat, e: nat)
    requires 0 < e && 0 < d && d % e == 0
    ensures e <= d
  {
    if d < e {
      DivModUnique(d, e, 0, d);
    }
  }

  lemma CofactorAtLeast(v: nat, p: nat, m: nat)
    requires 1 <= p && v == p * m && p * p <= v
    ensures p <= m
  {
    if m < p {
      MulMonotone(p, m + 1, p);
    }
  }

  lemma OddCofactor(v: nat, p: nat, m: nat)
    requires v == p * m && v % 2 == 1
    ensures m % 2 == 1
  {
    if m % 2 == 0 {
      var h := m / 2;
      assert v == 2 * (p * h);
      MultipleMod(2, p * h);
    }
  }

  lemma StepsToCofactor(v: nat, p: nat, t: nat)
    requires 1 <= p && v == p * (p + 2 * t)
    ensures Hit(v, p)
  {
    assert v == p * p + (2 * p) * t;
    MultipleMod(2 * p, t);
  }

  /** An odd multiple of `p` from `p*p` on is `p` times an odd cofactor of
      at least `p`. */
  lemma OddCofactorOf(v: nat, p: nat) returns (m: nat)
    requires 1 <= p && p * p <= v && v % p == 0 && v % 2 == 1
    ensures v == p * m && p <= m && m % 2 == 1
  {
    m := v / p;
    assert v == p * m;
    CofactorAtLeast(v, p, m);
    OddCofactor(v, p, m);
  }

  /** An odd multiple of `p` from `p*p` on lies on the progression. */
  lemma OddMultipleIsHit(v: nat, p: nat)
    requires 1 <= p && p % 2 == 1 && p * p <= v && v % p == 0 && v % 2 == 1
    ensures Hit(v, p)
  {
    var m := OddCofactorOf(v, p);
    var t := (m - p) / 2;
    assert p + 2 * t == m;
    StepsToCofactor(v, p, t);
  }

  /** The progression holds only multiples of `p`. */
  lemma HitIsMultiple(v: nat, p: nat)
    requires Hit(v, p)
    ensures v % p == 0
  {
    var t := (v - p * p) / (2 * p);
    assert v - p * p == (2 * p) * t;
    assert v == p * (p + 2 * t);
    MultipleMod(p, p + 2 * t);
  }

  /** For odd `p` the progression holds exactly the odd multiples of `p` from
      `p*p` on. */
  lemma HitIsOddMultiple(v: nat, p: nat)
    requires 1 <= p && p % 2 == 1 && v % 2 == 1
    ensures Hit(v, p) <==> p * p <= v && v % p == 0
  {
    if p * p <= v && v % p == 0 {
      OddMultipleIsHit(v, p);
    }
    if Hit(v, p) {
      HitIsMultiple(v, p);
    }
  }

  /** From the first offset `j0`, the struck values above `low` are exactly the
      offsets `j0, j0 + 2p, j0 + 4p, ...`. */
  lemma OffsetProgression(low: nat, j0: nat, p: nat, x: nat)
    requires Offset(low, j0, p)
    ensures Hit(low + x, p) <==> j0 <= x && (x - j0) % (2 * p) == 0
  {
    var step := 2 * p;
    var b := low + j0 - p * p;
    if Hit(low + x, p) {
      var a := low + x - p * p;
      if x < j0 {
        DividesDifference(b, a, step);
        PositiveMultiple(b - a, step);
      }
      assert j0 <= x;
      DividesDifference(a, b, step);
    }
    if j0 <= x && (x - j0) % step == 0 {
      DividesSum(b, x - j0, step);
    }
  }

  /** Past a struck offset `j`, the next struck offset is a whole step away. */
  lemma NextHit(low: nat, j0: nat, p: nat, j: nat, x: nat)
    requires Offset(low, j0, p) && j0 <= j && (j - j0) % (2 * p) == 0
    requires j <= x < j + 2 * p && Hit(low + x, p)
    ensures x == j
  {
    OffsetProgression(low, j0, p, x);
    DividesDifference(x - j0, j - j0, 2 * p);
    if j < x {
      PositiveMultiple(x - j, 2 * p);
    }
  }

  /** An odd number from 3 below the square of `s` is prime exactly when no
      sieving prime below `s` strikes it. */
  lemma SievedIsPrime(v: nat, primesVec: seq<nat>, s: nat)
    requires IsSievingPrimes(primesVec, s) && 3 <= v && v % 2 == 1 && v < s * s
    ensures (forall k :: 0 <= k < |primesVec| ==> !Hit(v, primesVec[k])) <==> IsPrime(v)
  {
    if IsPrime(v) {
      forall k | 0 <= k < |primesVec|
        ensures !Hit(v, primesVec[k])
      {
        var p := primesVec[k];
        assert p in primesVec;
        HitIsOddMultiple(v, p);
        if p * p <= v {
          MulMonotone(p, 2, p);
          assert 2 <= p < v;
        }
      }
    } else {
      var e := SmallPrimeFactorOfComposite(v);
      assert e != 2;
      assert e % 2 == 1;
      if s <= e {
        MulMonotone(s, s, e);
        MulMonotone(e, s, e);
      }
      assert e in primesVec;
      var k :| 0 <= k < |primesVec| && primesVec[k] == e;
      HitIsOddMultiple(v, e);
      assert Hit(v, primesVec[k]);
    }
  }

  // ---------------------------------------------------------------------
  // The result list between segments

  /** `primesResult` lists, in ascending order, 2 and the primes below `low`
      that are at most `primes`. */
  ghost predicate ResultBelow(primesResult: seq<nat>, low: nat, primes: nat) {
    && StrictlyIncreasing(primesResult)
    && forall v: nat {:trigger v in primesResult} ::
         v in primesResult <==> IsPrime(v) && (v == 2 || (v < low && v <= primes))
  }

  /** Once the segments reach past `primes`, or stop at a `primes` that is not
      an odd prime, the result list is exactly the primes up to `primes`. */
  lemma ResultComplete(primesResult: seq<nat>, low: nat, primes: nat)
    requires ResultBelow(primesResult, low, primes) && 2 <= primes <= low
    requires low == primes ==> primes == 2 || !IsPrime(primes)
    ensures primesResult == PrimesUpTo(primes)
  {
    CharacterizePrimesUpTo(primesResult, primes);
  }
}
