/** Pritchard's wheel sieve, prime-sieves/src/pritchard.rs (src/pritchard.rs
    is the same code). The wheel starts as the numbers in `1..6` with no
    factor 2 or 3; each round rolls it forward to `p` times its length, strikes
    the multiples of the sieving prime `p`, records `p`, and takes the wheel's
    second element as the next sieving prime. Once `p * p` exceeds the limit,
    every wheel element but the leading 1 is prime. */
module Pritchard {
  import opened Primes
  import opened Utils
  import opened Wheel

  /** The initial wheel `[1, 5]` of length `min(primes, 6)`. */
  lemma InitialWheel(length: nat)
    requires length == 5 || length == 6
    ensures WheelOf([1, 5], length, 5)
    ensures CoversPrimesBelow(6, 5)
  {
    assert !Rough(4, 5) by {
      assert 4 % 2 == 0;
    }
    assert !IsPrime(4) by {
      assert 4 % 2 == 0;
    }
    forall m: nat
      ensures m in [1, 5] <==> 1 <= m <= length && Rough(m, 5)
    {
      if m == 2 || m == 4 {
        assert m % 2 == 0;
      } else if m == 3 {
        assert m % 3 == 0;
      } else if m == 6 {
        assert m % 2 == 0;
      }
    }
  }

  lemma WheelInRange(wheel: seq<nat>, length: nat, k: nat)
    requires WheelOf(wheel, length, k)
    ensures InRange(wheel, length)
  {
    assert forall j :: 0 <= j < |wheel| ==> wheel[j] in wheel;
  }

  /** Below the largest limit the sieving primes stay under 9973, where a
      prime lies between `p` and `2 * p`. */
  lemma SievingPrimeBound(p: nat)
    requires p * p <= MaxLimit
    ensures p < 9973
  {
    if p >= 9973 {
      MulMonotone(p, 9973, p);
    }
  }

  /** After striking `p` from a wheel of length at least `2 * p`, the wheel
      still holds a prime besides 1. */
  lemma SecondElementExists(wheel: seq<nat>, length: nat, p: nat)
    requires WheelOf(wheel, length, p + 1) && IsPrime(p) && 2 * p <= length && p < 9973
    ensures 2 <= |wheel|
  {
    var q := PrimeWithinDouble(p);
    PrimeRoughness(q, p + 1);
    assert q in wheel;
    OneInWheel(wheel, length, p + 1);
  }

  /** When no prime lies strictly between `p` and `next`, the primes below
      `next` are those below `p` followed by `p`. */
  lemma PrimesUpToNext(p: nat, next: nat)
    requires IsPrime(p) && p < next
    requires forall q: nat :: IsPrime(q) && q < next ==> q <= p
    ensures PrimesUpTo(next - 1) == PrimesUpTo(p - 1) + [p]
  {
    var s := PrimesUpTo(p - 1) + [p];
    var below := PrimesUpTo(p - 1);
    assert forall i :: 0 <= i < |below| ==> below[i] in below;
    CharacterizePrimesUpTo(s, next - 1);
  }

  /** When the limit is below `p * p`, the wheel for `(primes, p)` after its
      leading 1 holds exactly the primes in `p..primes`. */
  lemma FinalWheel(wheel: seq<nat>, primes: nat, p: nat)
    requires WheelOf(wheel, primes, p) && IsPrime(p) && p <= primes < p * p
    ensures |wheel| >= 1
    ensures PrimesUpTo(p - 1) + wheel[1..] == PrimesUpTo(primes)
  {
    OneInWheel(wheel, primes, p);
    var below := PrimesUpTo(p - 1);
    var t := below + wheel[1..];
    forall m: nat | m in wheel[1..]
      ensures p <= m && IsPrime(m)
    {
      var j :| 1 <= j < |wheel| && wheel[j] == m;
      assert wheel[0] < m;
      assert m in wheel;
      assert m % m == 0;
      RoughBelowSquareIsPrime(m, p);
    }
    assert StrictlyIncreasing(t) by {
      forall a, b | 0 <= a < b < |t|
        ensures t[a] < t[b]
      {
        if b >= |below| {
          assert t[b] == wheel[b - |below| + 1];
          assert t[b] in wheel[1..];
          if a < |below| {
            assert t[a] in below;
          }
        }
      }
    }
    forall m: nat
      ensures m in t <==> IsPrime(m) && m <= primes
    {
      if m in wheel[1..] {
        assert m in wheel;
      }
      if m in below {
        assert m in t;
      }
      if IsPrime(m) && m <= primes && p <= m {
        PrimeRoughness(m, p);
        assert m in wheel;
        var j :| 0 <= j < |wheel| && wheel[j] == m;
        assert j != 0;
        assert m == wheel[1..][j - 1];
      }
    }
    CharacterizePrimesUpTo(t, primes);
  }

  /** What holds at the head of every wheel round with sieving prime `p`. */
  ghost predicate RoundInvariant(wheel: seq<nat>, length: nat, p: nat, primes: nat) {
    && IsPrime(p) && 5 <= p <= length <= primes
    && WheelOf(wheel, length, p)
    && (length < primes ==> CoversPrimesBelow(length, p))
  }

  /** Lines 31-33: unless the wheel already reaches `primes`, roll it
      forward to `min(primes, p * length)`. */
  method RollForward(wheel: seq<nat>, length: nat, p: nat, primes: nat)
    returns (wheel': seq<nat>, length': nat)
    requires RoundInvariant(wheel, length, p, primes) && p * p <= primes
    ensures length < primes ==> length' == if primes < p * length then primes else p * length
    ensures length == primes ==> wheel' == wheel && length' == length
    ensures WheelOf(wheel', length', p) && 2 * p <= length' <= primes
  {
    MulMonotone(p, 5, p);
    wheel', length' := wheel, length;
    if length < primes {
      MulMonotone(p, 5, length);
      var target: nat := if primes < p * length then primes else p * length;
      WheelInRange(wheel, length, p);
      OneInWheel(wheel, length, p);
      wheel', length' := Extend(wheel, length, target);
      ExtendedWheel(wheel, length, target, p, wheel');
    }
  }

  /** `next` is the least prime above `p`. */
  ghost predicate NextPrime(p: nat, next: nat) {
    && IsPrime(next) && p < next
    && (forall q: nat :: IsPrime(q) && q < next ==> q <= p)
  }

  /** Striking `p` from the rolled wheel leaves a wheel whose second element
      is the least prime above `p`, and the round invariant holds for it. */
  lemma StrikeAndNext(wheel: seq<nat>, length: nat, p: nat, primes: nat, before: nat)
    requires WheelOf(wheel, length, p) && IsPrime(p) && 5 <= p
    requires 2 * p <= length <= primes && p * p <= primes <= MaxLimit
    requires length < primes ==> length == p * before && 1 <= before && CoversPrimesBelow(before, p)
    ensures 2 <= |Delete(wheel, p)|
    ensures RoundInvariant(Delete(wheel, p), length, Delete(wheel, p)[1], primes)
    ensures NextPrime(p, Delete(wheel, p)[1])
  {
    var w := Delete(wheel, p);
    assert WheelOf(w, length, p + 1) by {
      DeletedWheel(wheel, length, p);
    }
    assert 2 <= |w| by {
      SievingPrimeBound(p);
      SecondElementExists(w, length, p);
    }
    var next := w[1];
    assert IsPrime(next) && p < next <= length && WheelOf(w, length, next) by {
      WheelSecond(w, length, p + 1);
    }
    assert length < primes ==> CoversPrimesBelow(length, next) by {
      if length < primes {
        WheelSecond(w, length, p + 1);
        CoversNext(before, p, next);
      }
    }
    assert NextPrime(p, next) by {
      WheelSecond(w, length, p + 1);
    }
  }

  /** One wheel round (lines 31-36, also src/lib.rs lines 20-25): roll the
      wheel forward, strike the multiples of `p`, and read the next sieving
      prime off the wheel. That prime is the least prime above `p`. */
  method Round(wheel: seq<nat>, length: nat, p: nat, primes: nat)
    returns (wheel': seq<nat>, length': nat, next: nat)
    requires RoundInvariant(wheel, length, p, primes) && p * p <= primes <= MaxLimit
    ensures length < primes ==> length' == if primes < p * length then primes else p * length
    ensures length == primes ==> length' == length
    ensures RoundInvariant(wheel', length', next, primes)
    ensures NextPrime(p, next)
  {
    wheel', length' := RollForward(wheel, length, p, primes);
    StrikeAndNext(wheel', length', p, primes, length);
    wheel' := Delete(wheel', p);
    next := wheel'[1];
  }

  /** Lines 38-40: once `p * p` exceeds the limit, roll the wheel out to
      `primes` if it does not reach it yet. */
  method FinalRoll(wheel: seq<nat>, length: nat, p: nat, primes: nat) returns (wheel': seq<nat>)
    requires RoundInvariant(wheel, length, p, primes)
    ensures WheelOf(wheel', primes, p)
  {
    wheel' := wheel;
    if length < primes {
      WheelInRange(wheel, length, p);
      OneInWheel(wheel, length, p);
      var ignored;
      wheel', ignored := Extend(wheel, length, primes);
      ExtendedWheel(wheel, length, primes, p, wheel');
    }
  }

  /** Lines 23-43 of `sieve_pritchard` (and lines 13-32 of the older
      sieve in src/lib.rs): the wheel rounds for a limit of at least 5,
      appended to the list `startPrimes`. What is appended is the primes from
      5 to `primes`. */
  method WheelLoop(primes: nat, startPrimes: seq<nat>) returns (r: seq<nat>)
    requires 5 <= primes <= MaxLimit
    ensures |startPrimes| <= |r| && r[..|startPrimes|] == startPrimes
    ensures [2, 3] + r[|startPrimes|..] == PrimesUpTo(primes)
  {
    var wheel: seq<nat> := [1, 5];
    var length: nat := if primes < 6 then primes else 6;
    var p: nat := 5;
    var accum := startPrimes;
    InitialWheel(length);
    SmallPrimes();
    assert IsPrime(5);
    while p * p <= primes
      invariant RoundInvariant(wheel, length, p, primes)
      invariant |startPrimes| <= |accum| && accum[..|startPrimes|] == startPrimes
      invariant [2, 3] + accum[|startPrimes|..] == PrimesUpTo(p - 1)
      decreases primes - p
    {
      var next;
      wheel, length, next := Round(wheel, length, p, primes);
      AccumulateStep(accum, startPrimes, p, next);
      accum := accum + [p];
      p := next;
    }
    r := Finish(wheel, length, p, primes, accum, startPrimes);
  }

  lemma AccumulateStep(accum: seq<nat>, startPrimes: seq<nat>, p: nat, next: nat)
    requires IsPrime(p) && NextPrime(p, next)
    requires |startPrimes| <= |accum| && [2, 3] + accum[|startPrimes|..] == PrimesUpTo(p - 1)
    ensures [2, 3] + (accum + [p])[|startPrimes|..] == PrimesUpTo(next - 1)
  {
    PrimesUpToNext(p, next);
    assert (accum + [p])[|startPrimes|..] == accum[|startPrimes|..] + [p];
  }

  /** Lines 38-41: roll the wheel out to `primes` and append its elements
      after the leading 1 to the accumulated primes. */
  method Finish(wheel: seq<nat>, length: nat, p: nat, primes: nat, accum: seq<nat>, startPrimes: seq<nat>)
    returns (r: seq<nat>)
    requires RoundInvariant(wheel, length, p, primes) && primes < p * p
    requires |startPrimes| <= |accum| && accum[..|startPrimes|] == startPrimes
    requires [2, 3] + accum[|startPrimes|..] == PrimesUpTo(p - 1)
    ensures |startPrimes| <= |r| && r[..|startPrimes|] == startPrimes
    ensures [2, 3] + r[|startPrimes|..] == PrimesUpTo(primes)
  {
    var w := FinalRoll(wheel, length, p, primes);
    FinalWheel(w, primes, p);
    r := Union(accum, w);
    assert r[|startPrimes|..] == accum[|startPrimes|..] + w[1..];
    assert [2, 3] + r[|startPrimes|..] == ([2, 3] + accum[|startPrimes|..]) + w[1..];
  }

  /** `sieve_pritchard`: the primes up to `primes`, in ascending order. */
  method SievePritchard(primes: nat) returns (r: seq<nat>)
    requires primes <= MaxLimit
    ensures r == PrimesUpTo(primes)
  {
    SmallPrimes();
    var startPrimes: seq<nat> := [2, 3];
    if primes <= 1 {
      r := [];
    } else if primes == 2 {
      r := startPrimes[..1];
    } else if primes <= 4 {
      r := startPrimes;
    } else {
      r := WheelLoop(primes, startPrimes);
      assert r == r[..2] + r[2..];
    }
  }

  /** `n_primes_pritchard`: sieve up to `approximate_primes(n)` and drain the
      list down to its first `n` entries; `drain(n..)` panics when the list
      is shorter than `n`. */
  method NPrimesPritchard(n: nat) returns (r: Outcome<seq<nat>>)
    requires n <= MaxCount
    ensures r.Panics? <==> |PrimesUpTo(ApproximatePrimes(n))| < n
    ensures r.Returns? ==> r.value == PrimesUpTo(ApproximatePrimes(n))[..n]
    ensures r.Returns? ==> IsFirstPrimes(r.value, n)
  {
    var approx := ApproximatePrimes(n);
    ApproximatePrimesMonotone(n, MaxCount);
    ApproximatePrimesOfMaxCount();
    var accum := SievePritchard(approx);
    if |accum| < n {
      r := Panics;
    } else {
      r := Returns(accum[..n]);
      FirstPrimesOfPrefix(approx, n);
    }
  }

  /** For `n == 1` the bound `approximate_primes(1)` is 1, the sieve finds no
      prime, and the drain panics. */
  lemma CountOneFindsNoPrime()
    ensures |PrimesUpTo(ApproximatePrimes(1))| < 1
  {
    ApproximatePrimesOfOne();
    SmallPrimes();
  }

  /** The counts 2 and 3 that the unit tests ask for find enough primes:
      their limits 4 and 6 hold `[2, 3]` and `[2, 3, 5]`, so
      `NPrimesPritchard` returns for them instead of panicking. */
  lemma CountsTwoAndThreeFindEnough()
    ensures PrimesUpTo(ApproximatePrimes(2)) == [2, 3]
    ensures PrimesUpTo(ApproximatePrimes(3)) == [2, 3, 5]
  {
    assert BitLength(0) == 0;
    assert ApproximatePrimes(2) == 4 && ApproximatePrimes(3) == 6;
    SmallPrimes();
    assert !IsPrime(6) by { assert 6 % 2 == 0; }
  }

  /** `n_primes_pritchard` with the count 1 answered directly, as the
      segmented sieve does: it returns the first prime instead of panicking,
      and behaves as before for every other count. */
  method NPrimesPritchardCorrected(n: nat) returns (r: Outcome<seq<nat>>)
    requires n <= MaxCount
    ensures n == 1 ==> r == Returns([2])
    ensures r.Panics? <==> n != 1 && |PrimesUpTo(ApproximatePrimes(n))| < n
    ensures r.Returns? ==> IsFirstPrimes(r.value, n)
  {
    if n == 1 {
      r := Returns([2]);
      SmallPrimes();
      FirstPrimesOfPrefix(2, 1);
      assert PrimesUpTo(2)[..1] == [2];
    } else {
      r := NPrimesPritchard(n);
    }
  }
}
