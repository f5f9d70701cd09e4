/** The older wheel sieve of src/lib.rs. It shares the wheel helpers and the
    by-limit rounds with prime-sieves/src/pritchard.rs, but seeds its list with
    `[1, 2, 3]`, so 1 is reported alongside the primes; its answers for limits
    below 5 come from a reverse search over that seed; and its by-count
    variant keeps rolling the wheel, without clipping it, until the list and
    the wheel together hold more than `n` entries. */
module PritchardDraft {
  import opened Primes
  import opened Utils
  import opened Wheel
  import opened Pritchard

  /** `iter().enumerate().rev().find(|(_, num)| num < bound)` with `(0, &0)`
      as the fallback: the index of the last element below `bound`, or 0. */
  function LastIndexBelow(s: seq<nat>, bound: nat): (r: nat)
    ensures r < |s| || r == 0
    ensures (exists j :: 0 <= j < |s| && s[j] < bound) ==>
      r < |s| && s[r] < bound && forall j :: r < j < |s| ==> bound <= s[j]
    ensures (forall j :: 0 <= j < |s| ==> bound <= s[j]) ==> r == 0
  {
    if s == [] then 0
    else if s[|s| - 1] < bound then |s| - 1
    else
      var init := s[..|s| - 1];
      assert forall j :: 0 <= j < |init| ==> init[j] == s[j];
      LastIndexBelow(init, bound)
  }

  /** The reverse search over `[1, 2, 3]` for the limits below 5. */
  lemma SmallLimitIndex(primes: nat)
    requires primes < 5
    ensures primes <= 2 ==> LastIndexBelow([1, 2, 3], primes) == 0
    ensures primes == 3 ==> LastIndexBelow([1, 2, 3], primes) == 1
    ensures primes == 4 ==> LastIndexBelow([1, 2, 3], primes) == 2
  {
    var s: seq<nat> := [1, 2, 3];
    if primes <= 1 {
      assert forall j :: 0 <= j < |s| ==> primes <= s[j];
    } else if primes == 2 {
      assert s[0] < primes;
    } else if primes == 3 {
      assert s[1] < primes;
    } else {
      assert s[2] < primes;
    }
  }

  /** `sieve_pritchard` of src/lib.rs: below 5 the seed is cut at the index
      of its last element under the limit, which yields `[]` up to 2, `[1]`
      for 3 and `[1, 2]` for 4; from 5 on it is 1 followed by the primes up to
      the limit. */
  method SievePritchardDraft(primes: nat) returns (r: seq<nat>)
    requires primes <= MaxLimit
    ensures primes <= 2 ==> r == []
    ensures primes == 3 ==> r == [1]
    ensures primes == 4 ==> r == [1, 2]
    ensures 5 <= primes ==> r == [1] + PrimesUpTo(primes)
  {
    var startPrimes: seq<nat> := [1, 2, 3];
    if primes < 5 {
      var index := LastIndexBelow(startPrimes, primes);
      SmallLimitIndex(primes);
      r := startPrimes[..index];
    } else {
      r := WheelLoop(primes, startPrimes);
      assert r == r[..3] + r[3..];
      PrimesStartTwoThree(primes);
      assert PrimesUpTo(primes) == PrimesUpTo(primes)[..2] + PrimesUpTo(primes)[2..];
    }
  }

  // ---------------------------------------------------------------------
  // n_primes_pritchard of src/lib.rs

  /** What holds at the head of every round of the by-count loop: the wheel
      is never clipped, so every prime below `p` divides its length. */
  ghost predicate DraftInvariant(wheel: seq<nat>, length: nat, p: nat) {
    && IsPrime(p) && 5 <= p <= length
    && WheelOf(wheel, length, p)
    && CoversPrimesBelow(length, p)
  }

  lemma PredecessorNotMultiple(a: nat, q: nat)
    requires 2 <= q && 1 <= a && a % q == 0
    ensures (a - 1) % q != 0
  {
    DivModUnique(a - 1, q, a / q - 1, q - 1);
  }

  /** Euclid's argument: `p * length - 1` has no prime factor up to `p`, so it
      survives the strike and the wheel keeps a second element. */
  lemma EuclidSurvivor(wheel: seq<nat>, length: nat, p: nat, before: nat)
    requires WheelOf(wheel, length, p + 1) && IsPrime(p) && 3 <= p && 1 <= before
    requires length == p * before && CoversPrimesBelow(before, p)
    ensures 2 <= |wheel|
  {
    MulAtLeast(p, before);
    var m := p * before - 1;
    forall q: nat | IsPrime(q) && q < p + 1
      ensures m % q != 0
    {
      if q == p {
        MultipleMod(p, before);
      } else {
        MultipleMod(before, p);
        assert p * before == before * p;
        DividesTransitive(p * before, before, q);
      }
      PredecessorNotMultiple(p * before, q);
    }
    RoughFromPrimes(m, p + 1);
    assert 2 <= m <= length;
    assert m in wheel;
    OneInWheel(wheel, length, p + 1);
    var j :| 0 <= j < |wheel| && wheel[j] == m;
    assert j != 0;
  }

  /** Striking `p` from the wheel rolled out to `p * before` leaves a wheel
      whose second element is the least prime above `p`. */
  lemma DraftStrike(wheel: seq<nat>, length: nat, p: nat, before: nat)
    requires WheelOf(wheel, length, p) && IsPrime(p) && 5 <= p && 1 <= before
    requires length == p * before && CoversPrimesBelow(before, p)
    ensures 2 <= |Delete(wheel, p)|
    ensures DraftInvariant(Delete(wheel, p), length, Delete(wheel, p)[1])
    ensures NextPrime(p, Delete(wheel, p)[1])
  {
    var w := Delete(wheel, p);
    assert WheelOf(w, length, p + 1) by {
      DeletedWheel(wheel, length, p);
    }
    assert 2 <= |w| by {
      EuclidSurvivor(w, length, p, before);
    }
    var next := w[1];
    assert IsPrime(next) && p < next <= length && WheelOf(w, length, next) by {
      WheelSecond(w, length, p + 1);
    }
    assert CoversPrimesBelow(length, next) by {
      WheelSecond(w, length, p + 1);
      CoversNext(before, p, next);
    }
    assert NextPrime(p, next) by {
      WheelSecond(w, length, p + 1);
    }
  }

  /** One round of the by-count loop (lines 47-51): roll the wheel out to
      `p * length`, strike `p`, and read the next sieving prime. */
  method DraftRound(wheel: seq<nat>, length: nat, p: nat)
    returns (wheel': seq<nat>, length': nat, next: nat)
    requires DraftInvariant(wheel, length, p)
    ensures DraftInvariant(wheel', length', next) && NextPrime(p, next)
    ensures length' == p * length
  {
    WheelInRange(wheel, length, p);
    OneInWheel(wheel, length, p);
    MulAtLeast(length, p);
    assert length * p == p * length;
    wheel', length' := Extend(wheel, length, p * length);
    ExtendedWheel(wheel, length, p * length, p, wheel');
    DraftStrike(wheel', length', p, length);
    wheel' := Delete(wheel', p);
    next := wheel'[1];
  }

  /** Every prime up to the last element of `r` occurs in `r`. */
  ghost predicate MissesNoPrime(r: seq<nat>) {
    forall q: nat :: IsPrime(q) && 0 < |r| && q <= r[|r| - 1] ==> q in r
  }

  /** A prefix of an ascending list that holds every prime up to `bound`
      misses no prime up to its own last element. */
  lemma PrefixMissesNoPrime(t: seq<nat>, n: nat, bound: nat)
    requires StrictlyIncreasing(t) && n <= |t|
    requires forall j :: 0 <= j < |t| ==> t[j] <= bound
    requires forall q: nat :: IsPrime(q) && q <= bound ==> q in t
    ensures MissesNoPrime(t[..n])
  {
    forall q: nat | IsPrime(q) && 0 < n && q <= t[n - 1]
      ensures q in t[..n]
    {
      assert q in t;
      var i :| 0 <= i < |t| && t[i] == q;
      assert i < n;
      assert t[..n][i] == q;
    }
  }

  /** The elements of a wheel for `(length, p)` after its leading 1 lie in
      `p..length`. */
  lemma WheelTailBounds(wheel: seq<nat>, length: nat, p: nat)
    requires WheelOf(wheel, length, p) && 1 <= length
    ensures |wheel| >= 1 && wheel[0] == 1
    ensures forall j :: 1 <= j < |wheel| ==> p <= wheel[j] <= length
  {
    OneInWheel(wheel, length, p);
    forall j | 1 <= j < |wheel|
      ensures p <= wheel[j] <= length
    {
      var m := wheel[j];
      assert wheel[0] < m;
      assert m in wheel;
      assert m % m == 0;
    }
  }

  /** The primes below `p` behind a 1: ascending, starting with 1, the rest
      in `2..p - 1`. */
  lemma AccumShape(accum: seq<nat>, p: nat)
    requires 2 <= p && accum == [1] + PrimesUpTo(p - 1)
    ensures StrictlyIncreasing(accum) && accum[0] == 1
    ensures forall j :: 1 <= j < |accum| ==> 2 <= accum[j] < p
  {
    var below := PrimesUpTo(p - 1);
    assert forall i :: 0 <= i < |below| ==> below[i] in below;
    ConcatIncreasing([1], below);
  }

  /** An ascending list below `p` followed by the tail of an ascending wheel
      from `p` on is ascending. */
  lemma JoinIncreasing(accum: seq<nat>, wheel: seq<nat>, p: nat)
    requires StrictlyIncreasing(accum) && 1 <= |accum| && accum[0] == 1 && 2 <= p
    requires forall j :: 1 <= j < |accum| ==> accum[j] < p
    requires StrictlyIncreasing(wheel) && 1 <= |wheel|
    requires forall j :: 1 <= j < |wheel| ==> p <= wheel[j]
    ensures StrictlyIncreasing(accum + wheel[1..])
  {
    if 1 < |wheel| {
      assert accum[|accum| - 1] < wheel[1];
    }
    ConcatIncreasing(accum, wheel[1..]);
  }

  /** After its leading 1, the joined list lies in `2..length`. */
  lemma JoinBounds(accum: seq<nat>, wheel: seq<nat>, length: nat, p: nat)
    requires 1 <= |accum| && accum[0] == 1 && 2 <= p
    requires forall j :: 1 <= j < |accum| ==> 2 <= accum[j] < p <= length
    requires 1 <= |wheel|
    requires forall j :: 1 <= j < |wheel| ==> p <= wheel[j] <= length
    ensures (accum + wheel[1..])[0] == 1
    ensures forall j :: 1 <= j < |accum + wheel[1..]| ==> 2 <= (accum + wheel[1..])[j] <= length
  {
    var t := accum + wheel[1..];
    forall j | 1 <= j < |t|
      ensures 2 <= t[j] <= length
    {
      if j < |accum| {
        assert t[j] == accum[j];
      } else {
        assert t[j] == wheel[j - |accum| + 1];
      }
    }
  }

  /** A prime up to `length` is in the joined list: below `p` it is among the
      primes collected so far, from `p` on it is on the wheel. */
  lemma PrimeInJoin(accum: seq<nat>, wheel: seq<nat>, length: nat, p: nat, q: nat)
    requires DraftInvariant(wheel, length, p) && accum == [1] + PrimesUpTo(p - 1)
    requires IsPrime(q) && q <= length
    ensures 1 <= |wheel| && q in accum + wheel[1..]
  {
    WheelTailBounds(wheel, length, p);
    var t := accum + wheel[1..];
    if q < p {
      var below := PrimesUpTo(p - 1);
      assert q in below;
      var i :| 0 <= i < |below| && below[i] == q;
      assert t[i + 1] == q;
    } else {
      PrimeRoughness(q, p);
      assert q in wheel;
      var j :| 0 <= j < |wheel| && wheel[j] == q;
      assert j != 0;
      assert t[|accum| + j - 1] == q;
    }
  }

  /** At the end of the by-count loop, the list followed by the wheel after
      its 1 is ascending, starts with 1, lies in `1..length` and holds every
      prime up to `length`. */
  lemma DraftUnion(accum: seq<nat>, wheel: seq<nat>, length: nat, p: nat)
    requires DraftInvariant(wheel, length, p) && accum == [1] + PrimesUpTo(p - 1)
    ensures |wheel| >= 1
    ensures StrictlyIncreasing(accum + wheel[1..])
    ensures (accum + wheel[1..])[0] == 1
    ensures forall j :: 1 <= j < |accum + wheel[1..]| ==> 2 <= (accum + wheel[1..])[j] <= length
    ensures forall q: nat :: IsPrime(q) && q <= length ==> q in accum + wheel[1..]
  {
    WheelTailBounds(wheel, length, p);
    AccumShape(accum, p);
    JoinIncreasing(accum, wheel, p);
    JoinBounds(accum, wheel, length, p);
    forall q: nat | IsPrime(q) && q <= length
      ensures q in accum + wheel[1..]
    {
      PrimeInJoin(accum, wheel, length, p, q);
    }
  }

  /** Once the list and the wheel together hold more than `n` entries, the
      first `n` entries of their union are the by-count result: ascending,
      starting with 1, at least 2 after that, and missing no prime. */
  lemma DraftResult(accum: seq<nat>, wheel: seq<nat>, length: nat, p: nat, n: nat)
    requires DraftInvariant(wheel, length, p) && accum == [1] + PrimesUpTo(p - 1)
    requires 1 <= n && |accum| <= n && n + 1 <= |accum| + |wheel|
    ensures 1 <= |wheel|
    ensures |(accum + wheel[1..])[..n]| == n
    ensures StrictlyIncreasing((accum + wheel[1..])[..n])
    ensures (accum + wheel[1..])[..n][0] == 1
    ensures forall j :: 1 <= j < n ==> 2 <= (accum + wheel[1..])[..n][j]
    ensures MissesNoPrime((accum + wheel[1..])[..n])
  {
    DraftUnion(accum, wheel, length, p);
    var all := accum + wheel[1..];
    PrefixMissesNoPrime(all, n, length);
    assert forall j :: 1 <= j < n ==> all[..n][j] == all[j];
  }

  /** The seed's prefixes miss no prime. */
  lemma SeedMissesNoPrime(n: nat)
    requires n <= 3
    ensures MissesNoPrime([1, 2, 3][..n])
  {
    SmallPrimes();
    var r: seq<nat> := [1, 2, 3][..n];
    forall q: nat | IsPrime(q) && 0 < |r| && q <= r[|r| - 1]
      ensures q in r
    {
      assert q in PrimesUpTo(3);
      assert q == 2 || q == 3;
      if n == 2 {
        assert r == [1, 2];
      } else if n == 3 {
        assert r == [1, 2, 3];
      }
    }
  }

  lemma DraftAccumulateStep(accum: seq<nat>, p: nat, next: nat)
    requires IsPrime(p) && NextPrime(p, next) && accum == [1] + PrimesUpTo(p - 1)
    ensures accum + [p] == [1] + PrimesUpTo(next - 1)
  {
    PrimesUpToNext(p, next);
  }

  /** `n_primes_pritchard` of src/lib.rs. Up to 3 it returns a prefix of the
      seed `[1, 2, 3]`; beyond, it returns `n` ascending entries starting
      with 1 that miss no prime up to the last of them. */
  method NPrimesPritchardDraft(n: nat) returns (r: seq<nat>)
    ensures n <= 3 ==> r == [1, 2, 3][..n]
    ensures |r| == n && StrictlyIncreasing(r)
    ensures 0 < n ==> r[0] == 1
    ensures forall j :: 1 <= j < n ==> 2 <= r[j]
    ensures MissesNoPrime(r)
  {
    var startPrimes: seq<nat> := [1, 2, 3];
    if n <= 3 {
      r := startPrimes[..n];
      SeedMissesNoPrime(n);
      return;
    }
    var wheel: seq<nat> := [1, 5];
    var accum := startPrimes;
    var length: nat := 6;
    var p: nat := 5;
    InitialWheel(6);
    SmallPrimes();
    assert IsPrime(5);
    while |accum| + |wheel| < n + 1
      invariant DraftInvariant(wheel, length, p)
      invariant accum == [1] + PrimesUpTo(p - 1) && |accum| <= n
      decreases n + 1 - |accum|
    {
      var next;
      wheel, length, next := DraftRound(wheel, length, p);
      DraftAccumulateStep(accum, p, next);
      accum := accum + [p];
      p := next;
    }
    DraftResult(accum, wheel, length, p, n);
    var all := Union(accum, wheel);
    r := all[..n];
  }
}
