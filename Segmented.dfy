/** The segmented sieve of Eratosthenes of prime-sieves/src/segmented.rs.
    A `SieveSegmented` owns a bootstrap table `isPrime` over `0..=sqrt`, the
    sieving primes found so far with the offset of each one's next struck
    value, and the result list. The limit is walked in segments of
    `segmentSize` values; one bit of the segment stands for each odd value
    `low + 2b + 1`. */
module Segmented {
  import opened Primes
  import opened Utils
  import opened SegmentedCommon

  /** `L1D_CACHE_SIZE`: the number of bits in a segment, unless the square
      root of the limit is larger. */
  const L1DCacheSize: nat := 32768 * 8 * 2

  /** Below this limit the square root is at most `L1DCacheSize`, so a segment
      has exactly `L1DCacheSize` bits, a multiple of the 64-bit words the bit
      vector is built from. */
  const SegmentedLimit: nat := (L1DCacheSize + 1) * (L1DCacheSize + 1)

  /** The values `low + 2b + 1` of the set bits `b < n`, in ascending order:
      what the scan of a segment appends to the result. */
  function Survivors(bits: seq<bool>, low: nat, n: nat): seq<nat>
    requires n <= |bits|
  {
    if n == 0 then []
    else Survivors(bits, low, n - 1) + (if bits[n - 1] then [low + 2 * (n - 1) + 1] else [])
  }

  /** The survivors are in ascending order, and are the values of the set bits
      below `n`. */
  lemma {:induction false} SurvivorsMembers(bits: seq<bool>, low: nat, n: nat)
    requires n <= |bits|
    ensures StrictlyIncreasing(Survivors(bits, low, n))
    ensures forall v :: v in Survivors(bits, low, n) <==>
      exists b :: 0 <= b < n && bits[b] && v == low + 2 * b + 1
  {
    if n > 0 {
      SurvivorsMembers(bits, low, n - 1);
      var before := Survivors(bits, low, n - 1);
      if bits[n - 1] {
        if |before| > 0 {
          assert before[|before| - 1] in before;
        }
        ConcatIncreasing(before, [low + 2 * (n - 1) + 1]);
      }
    }
  }

  /** Bit `b` of a segment starting at `low` is struck by one of the first
      `n` sieving primes: its value lies on that prime's progression, and its
      offset `2b + 1` lies inside the segment. */
  ghost predicate Struck(low: nat, size: nat, b: nat, primesVec: seq<nat>, n: nat)
    requires n <= |primesVec|
  {
    2 * b + 1 < size && exists k :: 0 <= k < n && Hit(low + 2 * b + 1, primesVec[k])
  }

  /** After the sweep, the bits up to `diff` tell exactly which of their
      values are prime. */
  lemma SegmentBitsArePrimes(bits: seq<bool>, low: nat, high: nat, primesVec: seq<nat>, s: nat)
    requires low % 2 == 0 && low < high < low + |bits| && high < s * s
    requires IsSievingPrimes(primesVec, s)
    requires forall b :: 0 <= b < |bits| ==>
      bits[b] == ((low != 0 || b != 0) && !Struck(low, |bits|, b, primesVec, |primesVec|))
    ensures forall b :: 0 <= b <= (high - low - 1) / 2 ==> bits[b] == IsPrime(low + 2 * b + 1)
  {
    forall b | 0 <= b <= (high - low - 1) / 2
      ensures bits[b] == IsPrime(low + 2 * b + 1)
    {
      var v := low + 2 * b + 1;
      if low != 0 || b != 0 {
        SievedIsPrime(v, primesVec, s);
      }
    }
  }

  /** Appending the survivors of a segment whose bits tell the primes extends
      the result list from the primes below `low` to those up to `high`. */
  lemma ScanResult(r: seq<nat>, bits: seq<bool>, low: nat, high: nat, size: nat, primes: nat)
    requires ResultBelow(r, low, primes) && low % 2 == 0 && low < high && 1 <= size
    requires high == Min(low + size - 1, primes)
    requires (high - low - 1) / 2 < |bits|
    requires forall b :: 0 <= b <= (high - low - 1) / 2 ==> bits[b] == IsPrime(low + 2 * b + 1)
    ensures ResultBelow(r + Survivors(bits, low, (high - low - 1) / 2 + 1), low + size, primes)
  {
    var n := (high - low - 1) / 2 + 1;
    var t := Survivors(bits, low, n);
    SurvivorsMembers(bits, low, n);
    forall v: nat
      ensures v in r + t <==> IsPrime(v) && (v == 2 || (v < low + size && v <= primes))
    {
      if IsPrime(v) && v != 2 && low <= v <= high {
        assert v % 2 == 1;
        var b := (v - low - 1) / 2;
        assert v == low + 2 * b + 1;
        assert bits[b];
      }
    }
    if 0 < |r| && 0 < |t| {
      assert r[|r| - 1] in r;
      assert t[0] in t;
    }
    ConcatIncreasing(r, t);
  }

  /** `segment` is `orig` with every bit struck whose offset `2b + 1` is below
      `bound`, inside the segment, and on the progression of `p`. */
  ghost predicate StruckBelow(segment: seq<bool>, orig: seq<bool>, low: nat, p: nat, bound: nat) {
    && |segment| == |orig|
    && forall b :: 0 <= b < |segment| ==>
         segment[b] == (orig[b] && !(2 * b + 1 < bound && 2 * b + 1 < |orig| && Hit(low + 2 * b + 1, p)))
  }

  /** Nothing below the first offset is on the progression. */
  lemma SweepStart(segment: seq<bool>, low: nat, j0: nat, p: nat)
    requires Offset(low, j0, p)
    ensures StruckBelow(segment, segment, low, p, j0)
  {
    forall b | 0 <= b < |segment| && 2 * b + 1 < j0
      ensures !Hit(low + 2 * b + 1, p)
    {
      OffsetProgression(low, j0, p, 2 * b + 1);
    }
  }

  /** One step of the sweep: striking offset `j` (when it is odd) accounts for
      every struck offset below `j + 2p`. */
  lemma SweepStep(before: seq<bool>, after: seq<bool>, orig: seq<bool>, low: nat, j0: nat, p: nat, j: nat)
    requires Offset(low, j0, p) && j0 <= j && (j - j0) % (2 * p) == 0 && j < |orig|
    requires StruckBelow(before, orig, low, p, j)
    requires after == if j % 2 == 1 then before[j / 2 := false] else before
    ensures StruckBelow(after, orig, low, p, j + 2 * p)
  {
    OffsetProgression(low, j0, p, j);
    forall b | 0 <= b < |after|
      ensures after[b] == (orig[b] && !(2 * b + 1 < j + 2 * p && 2 * b + 1 < |orig| && Hit(low + 2 * b + 1, p)))
    {
      if j <= 2 * b + 1 < j + 2 * p && Hit(low + 2 * b + 1, p) {
        NextHit(low, j0, p, j, 2 * b + 1);
      }
    }
  }

  /** Lines 116-128: strike, from the first offset `j0`, every odd offset of
      the progression of `p` that lies inside the segment, and return the
      offset the progression reaches past the segment's end. */
  method SweepOne(segment: array<bool>, low: nat, j0: nat, p: nat) returns (j: nat)
    modifies segment
    requires Offset(low, j0, p)
    ensures segment.Length <= j && Offset(low + segment.Length, j - segment.Length, p)
    ensures StruckBelow(segment[..], old(segment[..]), low, p, j)
  {
    j := j0;
    SweepStart(segment[..], low, j0, p);
    while j < segment.Length
      invariant j0 <= j && (j - j0) % (2 * p) == 0 && (j == j0 || j < segment.Length + 2 * p)
      invariant StruckBelow(segment[..], old(segment[..]), low, p, j)
      decreases segment.Length - j
    {
      ghost var before := segment[..];
      if j % 2 == 1 {
        segment[j / 2] := false;
      }
      SweepStep(before, segment[..], old(segment[..]), low, j0, p, j);
      DividesSum(j - j0, 2 * p, 2 * p);
      j := j + 2 * p;
    }
    OffsetProgression(low, j0, p, j);
  }

  class SieveSegmented {
    var primes: nat
    var sqrt: nat
    var count: nat
    var segmentSize: nat
    var isPrime: array<bool>
    var primesVec: seq<nat>
    var multiples: seq<nat>
    var primesResult: seq<nat>

    /** `empty`: the answer for limits 0 and 1. */
    constructor Empty()
      ensures primes == 0 && sqrt == 0 && count == 0 && segmentSize == 0
      ensures isPrime.Length == 0 && primesVec == [] && multiples == [] && primesResult == []
    {
      primes, sqrt, count, segmentSize := 0, 0, 0, 0;
      isPrime := new bool[0];
      primesVec, multiples, primesResult := [], [], [];
    }

    /** `single`: the answer holding only the prime 2. */
    constructor Single()
      ensures primes == 1 && sqrt == 1 && count == 1 && segmentSize == 0
      ensures isPrime.Length == 0 && primesVec == [] && multiples == [] && primesResult == [2]
    {
      primes, sqrt, count, segmentSize := 1, 1, 1, 0;
      isPrime := new bool[0];
      primesVec, multiples, primesResult := [], [], [2];
    }

    /** `new`: a sieve up to `primes`, its bootstrap table all set. */
    constructor New(primes: nat)
      requires primes < UsizeLimit
      ensures this.primes == primes && IsIsqrt(primes, sqrt) && count == 0
      ensures segmentSize == Max(sqrt, L1DCacheSize)
      ensures fresh(isPrime) && isPrime.Length == sqrt + 1
      ensures forall m :: 0 <= m < isPrime.Length ==> isPrime[m]
      ensures primesVec == [] && multiples == [] && primesResult == []
    {
      var root := Isqrt(primes);
      this.primes := primes;
      sqrt := root;
      count := 0;
      segmentSize := Max(root, L1DCacheSize);
      isPrime := new bool[root + 1](_ => true);
      primesVec, multiples, primesResult := [], [], [];
    }

    /** `new_n`: a sieve up to the approximate limit for the first `n` primes. */
    constructor NewN(n: nat)
      requires ApproximatePrimes(n) < UsizeLimit
      ensures primes == ApproximatePrimes(n) && IsIsqrt(primes, sqrt) && count == 0
      ensures segmentSize == Max(sqrt, L1DCacheSize)
      ensures fresh(isPrime) && isPrime.Length == sqrt + 1
      ensures forall m :: 0 <= m < isPrime.Length ==> isPrime[m]
      ensures primesVec == [] && multiples == [] && primesResult == []
    {
      var limit := ApproximatePrimes(n);
      var root := Isqrt(limit);
      primes := limit;
      sqrt := root;
      count := 0;
      segmentSize := Max(root, L1DCacheSize);
      isPrime := new bool[root + 1](_ => true);
      primesVec, multiples, primesResult := [], [], [];
    }

    /** The shape the segment loop relies on: the table sized to the root,
        an offset per sieving prime and a count matching the result. Not an
        object invariant: `Empty` and `Single` do not meet it, and the
        by-count functions break the count after `drain`. */
    ghost predicate LoopShape()
      reads this
    {
      && isPrime.Length == sqrt + 1 && IsIsqrt(primes, sqrt)
      && 2 <= segmentSize && segmentSize % 2 == 0
      && |multiples| == |primesVec| && count == |primesResult|
    }

    /** The state at the start of the segment beginning at `low`, with `i`
        the next bootstrap candidate and `s` the next sieving candidate. */
    ghost predicate SegmentStart(low: nat, i: nat, s: nat)
      reads this, isPrime
    {
      && LoopShape()
      && low % 2 == 0
      && 3 <= i && i % 2 == 1 && Bootstrapped(isPrime, i)
      && 3 <= s && s % 2 == 1 && (low <= primes ==> low <= s * s)
      && SievingFrom(low, s)
      && ResultBelow(primesResult, low, primes)
    }

    /** Lines 115-129: strike every sieving prime's progression from the
        segment and move its offset on to the next segment. */
    method SweepSegment(segment: array<bool>, low: nat)
      modifies segment, this`multiples
      requires segment.Length == segmentSize && |multiples| == |primesVec|
      requires forall k :: 0 <= k < |primesVec| ==> Offset(low, multiples[k], primesVec[k])
      ensures |multiples| == |primesVec|
      ensures forall k :: 0 <= k < |primesVec| ==> Offset(low + segmentSize, multiples[k], primesVec[k])
      ensures forall b :: 0 <= b < segment.Length ==>
        segment[b] == (old(segment[b]) && !Struck(low, segmentSize, b, primesVec, |primesVec|))
    {
      for idx := 0 to |primesVec|
        invariant |multiples| == |primesVec|
        invariant forall k :: 0 <= k < idx ==> Offset(low + segmentSize, multiples[k], primesVec[k])
        invariant forall k :: idx <= k < |primesVec| ==> multiples[k] == old(multiples[k])
        invariant forall b :: 0 <= b < segment.Length ==>
          segment[b] == (old(segment[b]) && !Struck(low, segmentSize, b, primesVec, idx))
      {
        ghost var before := segment[..];
        var j := SweepOne(segment, low, multiples[idx], primesVec[idx]);
        multiples := multiples[idx := j - segmentSize];
        forall b | 0 <= b < segment.Length
          ensures segment[b] == (old(segment[b]) && !Struck(low, segmentSize, b, primesVec, idx + 1))
        {
          if Struck(low, segmentSize, b, primesVec, idx + 1) && !Struck(low, segmentSize, b, primesVec, idx) {
            var k :| 0 <= k < idx + 1 && Hit(low + 2 * b + 1, primesVec[k]);
            assert k == idx;
          }
        }
      }
    }

    /** Lines 131-137: append the value of every set bit up to `diff`. */
    method ScanSegment(segment: array<bool>, low: nat, high: nat)
      modifies this`primesResult, this`count
      requires low < high && (high - low - 1) / 2 < segment.Length
      ensures primesResult == old(primesResult) + Survivors(segment[..], low, (high - low - 1) / 2 + 1)
      ensures count == old(count) + |Survivors(segment[..], low, (high - low - 1) / 2 + 1)|
    {
      var diff := (high - low - 1) / 2;
      for b := 0 to diff + 1
        invariant primesResult == old(primesResult) + Survivors(segment[..], low, b)
        invariant count == old(count) + |Survivors(segment[..], low, b)|
      {
        if segment[b] {
          primesResult := primesResult + [low + b * 2 + 1];
          count := count + 1;
        }
      }
    }

    /** The sieving primes below `s`, each with the offset of its next struck
        value from `low`. */
    ghost predicate SievingFrom(low: nat, s: nat)
      reads this
    {
      && IsSievingPrimes(primesVec, s)
      && |multiples| == |primesVec|
      && (forall k :: 0 <= k < |primesVec| ==> Offset(low, multiples[k], primesVec[k]))
    }

    /** Lines 90-112: extend the bootstrap table and the sieving primes to
        every odd prime whose square is at most `high`. */
    method PrepareSegment(low: nat, high: nat, i: nat, s: nat) returns (i': nat, s': nat)
      modifies this`primesVec, this`multiples, isPrime
      requires isPrime.Length == sqrt + 1 && IsIsqrt(primes, sqrt) && high <= primes
      requires 3 <= i && i % 2 == 1 && Bootstrapped(isPrime, i)
      requires 3 <= s && s % 2 == 1 && low <= s * s && SievingFrom(low, s)
      ensures 3 <= i' && i' % 2 == 1 && Bootstrapped(isPrime, i')
      ensures i <= i' && high < i' * i' && (i' == i || (i' - 2) * (i' - 2) <= high)
      ensures 3 <= s' && s' % 2 == 1 && high < s' * s' && SievingFrom(low, s')
      ensures s <= s' && (s' == s || (s' - 2) * (s' - 2) <= high)
    {
      i' := Bootstrap(isPrime, primes, sqrt, high, i);
      var found, offsets;
      s', found, offsets := CollectSievingPrimes(isPrime, primes, sqrt, i', low, high, s, primesVec, multiples);
      primesVec, multiples := found, offsets;
    }

    /** Lines 115-139: strike the sieving primes from the segment, append
        the values of the bits left set up to `high`, and reset the segment. */
    method SieveAndScan(low: nat, high: nat, ghost s: nat, segment: array<bool>)
      modifies this`multiples, this`primesResult, this`count, segment
      requires segment.Length == segmentSize && 2 <= segmentSize && low % 2 == 0
      requires low < high == Min(low + segmentSize - 1, primes) && high < s * s
      requires SievingFrom(low, s) && count == |primesResult| && ResultBelow(primesResult, low, primes)
      requires forall b :: 0 <= b < segment.Length ==> segment[b] == (low != 0 || b != 0)
      ensures SievingFrom(low + segmentSize, s)
      ensures count == |primesResult| && ResultBelow(primesResult, low + segmentSize, primes)
      ensures forall b :: 0 <= b < segment.Length ==> segment[b]
    {
      SweepSegment(segment, low);
      ghost var bits := segment[..];
      SegmentBitsArePrimes(bits, low, high, primesVec, s);
      ghost var before := primesResult;
      ScanSegment(segment, low, high);
      ScanResult(before, bits, low, high, segmentSize, primes);
      forall b | 0 <= b < segment.Length {
        segment[b] := true;
      }
    }

    /** `calculate_primes_for_segment`: sieve the segment `[low, high]`,
        append its primes and reset the segment for the next one. */
    method CalculatePrimesForSegment(low: nat, i: nat, s: nat, segment: array<bool>) returns (i': nat, s': nat)
      modifies this`primesVec, this`multiples, this`primesResult, this`count, isPrime, segment
      requires SegmentStart(low, i, s) && low < primes
      requires segment.Length == segmentSize && segment != isPrime
      requires forall b :: 0 <= b < segment.Length ==> segment[b] == (low != 0 || b != 0)
      ensures SegmentStart(low + segmentSize, i', s')
      ensures forall b :: 0 <= b < segment.Length ==> segment[b]
      ensures var high := Min(low + segmentSize - 1, primes);
        && i <= i' && high < i' * i' && (i' == i || (i' - 2) * (i' - 2) <= high)
        && s <= s' && high < s' * s' && (s' == s || (s' - 2) * (s' - 2) <= high)
    {
      var high := Min(low + segmentSize - 1, primes);
      i', s' := PrepareSegment(low, high, i, s);
      SieveAndScan(low, high, s', segment);
    }

    /** `sieve_segmented_loop`: walk the segments from 0 while they start
        below the limit. The bit vector is built from whole 64-bit words, so
        the length check at line 149 holds exactly when `segmentSize` is a
        multiple of 64. */
    method SieveSegmentedLoop()
      modifies this`primesVec, this`multiples, this`primesResult, this`count, isPrime
      requires isPrime.Length == sqrt + 1 && IsIsqrt(primes, sqrt)
      requires 0 < segmentSize && segmentSize % 64 == 0
      requires forall m :: 0 <= m < isPrime.Length ==> isPrime[m]
      requires primesVec == [] && multiples == [] && primesResult == []
      ensures 2 <= primes ==> primesResult == PrimesUpTo(primes)
      ensures primes < 2 ==> primesResult == [2]
      ensures count == |primesResult|
    {
      var segment := new bool[segmentSize](_ => true);
      primesResult := primesResult + [2];
      count := 1;
      var i, s, low := 3, 3, 0;
      segment[0] := false;
      assert Bootstrapped(isPrime, 3);
      assert ResultBelow(primesResult, 0, primes) by {
        Primes.BertrandChain();
      }
      while low < primes
        invariant fresh(segment) && segment.Length == segmentSize
        invariant SegmentStart(low, i, s)
        invariant forall b :: 0 <= b < segment.Length ==> segment[b] == (low != 0 || b != 0)
        decreases primes - low
      {
        i, s := CalculatePrimesForSegment(low, i, s, segment);
        low := low + segmentSize;
      }
      if 2 <= primes {
        ResultComplete(primesResult, low, primes);
      } else {
        SmallPrimes();
        CharacterizePrimesUpTo(primesResult, 2);
      }
    }
  }

  /** `sieve_segmented`: the primes up to `primes`. */
  method SegmentedSieve(primes: nat) returns (r: SieveSegmented)
    requires primes < SegmentedLimit
    ensures r.primesResult == PrimesUpTo(primes)
    ensures r.count == |r.primesResult|
  {
    SmallPrimes();
    if primes <= 1 {
      r := new SieveSegmented.Empty();
    } else if primes == 2 {
      r := new SieveSegmented.Single();
    } else {
      r := new SieveSegmented.New(primes);
      IsqrtIsLargestSquareRoot(primes, r.sqrt, L1DCacheSize + 1);
      r.SieveSegmentedLoop();
    }
  }

  /** Lines 224-225: the sieve up to the approximate limit for `n` primes. */
  method SieveForCount(n: nat) returns (e: SieveSegmented)
    requires 2 <= n && ApproximatePrimes(n) < SegmentedLimit
    ensures fresh(e)
    ensures e.primesResult == PrimesUpTo(ApproximatePrimes(n)) && e.count == |e.primesResult|
  {
    e := new SieveSegmented.NewN(n);
    IsqrtIsLargestSquareRoot(e.primes, e.sqrt, L1DCacheSize + 1);
    e.SieveSegmentedLoop();
  }

  /** `n_primes_segmented`: the first `n` primes, cut from the sieve up to the
      approximate limit; the cut panics when that sieve found fewer than `n`.
      The count keeps the number found before the cut. */
  method NPrimesSegmented(n: nat) returns (r: Outcome<SieveSegmented>)
    requires ApproximatePrimes(n) < SegmentedLimit
    ensures r.Panics? <==> 2 <= n && |PrimesUpTo(ApproximatePrimes(n))| < n
    ensures r.Returns? ==> IsFirstPrimes(r.value.primesResult, n)
    ensures r.Returns? && 2 <= n ==>
      r.value.primesResult == PrimesUpTo(ApproximatePrimes(n))[..n] &&
      r.value.count == |PrimesUpTo(ApproximatePrimes(n))|
  {
    if n == 0 {
      var e := new SieveSegmented.Empty();
      FirstPrimesOfPrefix(0, 0);
      SmallPrimes();
      r := Returns(e);
    } else if n == 1 {
      var e := new SieveSegmented.Single();
      FirstPrimesOfPrefix(2, 1);
      SmallPrimes();
      r := Returns(e);
    } else {
      ghost var found := PrimesUpTo(ApproximatePrimes(n));
      var e := SieveForCount(n);
      if |e.primesResult| < n {
        r := Panics;
      } else {
        FirstPrimesOfPrefix(ApproximatePrimes(n), n);
        e.primesResult := e.primesResult[..n];
        r := Returns(e);
      }
    }
  }
}
