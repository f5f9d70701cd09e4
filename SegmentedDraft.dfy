/** The draft segmented sieve of src/segmented.rs. It keeps the state of
    prime-sieves/src/segmented.rs, but its segment holds one flag per value
    (`low + x` at index `x`), is refilled at the start of every segment, and
    is scanned with a cursor `n` over the odd values that runs on from one
    segment to the next; segments are walked while they start at or below the
    limit. */
module SegmentedDraft {
  import opened Primes
  import opened Utils
  import opened SegmentedCommon

  /** `L1D_CACHE_SIZE` of the draft: the number of values in a segment,
      unless the square root of the limit is larger. */
  const L1DCacheSize: nat := 32768

  /** The values `n, n + 2, ...` up to `high` whose flags are set, in
      ascending order: what the scan of a segment appends to the result. */
  function Survivors(flags: seq<bool>, low: nat, n: nat, high: nat): seq<nat>
    requires low <= n && high < low + |flags|
    decreases high + 2 - n
  {
    if high < n then []
    else (if flags[n - low] then [n] else []) + Survivors(flags, low, n + 2, high)
  }

  /** `v` survives exactly when it lies between `n` and `high`, has the
      parity of `n` and has its flag set. */
  lemma {:induction false} SurvivorsMember(flags: seq<bool>, low: nat, n: nat, high: nat, v: nat)
    requires low <= n && high < low + |flags|
    ensures v in Survivors(flags, low, n, high) <==>
      n <= v <= high && (v - n) % 2 == 0 && flags[v - low]
    decreases high + 2 - n
  {
    if n <= high {
      SurvivorsMember(flags, low, n + 2, high, v);
      var rest := Survivors(flags, low, n + 2, high);
      var head := if flags[n - low] then [n] else [];
      assert Survivors(flags, low, n, high) == head + rest;
      assert v in head + rest <==> v in head || v in rest;
      if v < n {
        assert v !in head + rest;
      } else if v == n {
        assert v in head + rest <==> flags[n - low];
      } else if v == n + 1 {
        assert (v - n) % 2 == 1;
        assert v !in head + rest;
      } else {
        assert v in head + rest <==> v in rest;
        assert (v - n) % 2 == (v - (n + 2)) % 2;
      }
    }
  }

  /** The survivors are in ascending order. */
  lemma {:induction false} SurvivorsIncreasing(flags: seq<bool>, low: nat, n: nat, high: nat)
    requires low <= n && high < low + |flags|
    ensures StrictlyIncreasing(Survivors(flags, low, n, high))
    decreases high + 2 - n
  {
    if n <= high && flags[n - low] {
      SurvivorsIncreasing(flags, low, n + 2, high);
      var rest := Survivors(flags, low, n + 2, high);
      if |rest| > 0 {
        assert rest[0] in rest;
        SurvivorsMember(flags, low, n + 2, high, rest[0]);
      }
      ConcatIncreasing([n], rest);
    } else if n <= high {
      SurvivorsIncreasing(flags, low, n + 2, high);
    }
  }

  /** The survivors are in ascending order, and are the values from `n` to
      `high`, of the parity of `n`, whose flags are set. */
  lemma SurvivorsMembers(flags: seq<bool>, low: nat, n: nat, high: nat)
    requires low <= n && high < low + |flags|
    ensures StrictlyIncreasing(Survivors(flags, low, n, high))
    ensures forall v :: v in Survivors(flags, low, n, high) <==>
      n <= v <= high && (v - n) % 2 == 0 && flags[v - low]
  {
    SurvivorsIncreasing(flags, low, n, high);
    forall v: nat
      ensures v in Survivors(flags, low, n, high) <==>
        n <= v <= high && (v - n) % 2 == 0 && flags[v - low]
    {
      SurvivorsMember(flags, low, n, high, v);
    }
  }

  /** `segment` is `orig` with every flag cleared whose offset is below
      `bound` and on the progression of `p`. */
  ghost predicate StruckBelow(segment: seq<bool>, orig: seq<bool>, low: nat, p: nat, bound: nat) {
    && |segment| == |orig|
    && forall x :: 0 <= x < |segment| ==> segment[x] == (orig[x] && !(x < bound && Hit(low + x, p)))
  }

  /** Nothing below the first offset is on the progression. */
  lemma SweepStart(segment: seq<bool>, low: nat, j0: nat, p: nat)
    requires Offset(low, j0, p)
    ensures StruckBelow(segment, segment, low, p, j0)
  {
    forall v: nat | low <= v < low + j0
      ensures !Hit(v, p)
    {
      OffsetProgression(low, j0, p, v - low);
    }
  }

  /** One step of the sweep: clearing offset `j` accounts for every struck
      offset below `j + 2p`. */
  lemma SweepStep(before: seq<bool>, after: seq<bool>, orig: seq<bool>, low: nat, j0: nat, p: nat, j: nat)
    requires Offset(low, j0, p) && j0 <= j && (j - j0) % (2 * p) == 0 && j < |orig|
    requires StruckBelow(before, orig, low, p, j)
    requires after == before[j := false]
    ensures StruckBelow(after, orig, low, p, j + 2 * p)
  {
    OffsetProgression(low, j0, p, j);
    forall x | 0 <= x < |after|
      ensures after[x] == (orig[x] && !(x < j + 2 * p && Hit(low + x, p)))
    {
      if j <= x < j + 2 * p && Hit(low + x, p) {
        NextHit(low, j0, p, j, x);
      }
    }
  }

  /** Lines 113-119: clear, from the first offset `j0`, every offset of the
      progression of `p` inside the segment, and return the offset the
      progression reaches past the segment's end. */
  method SweepOne(segment: array<bool>, low: nat, j0: nat, p: nat) returns (j: nat)
    modifies segment
    requires Offset(low, j0, p)
    ensures segment.Length <= j && Offset(low + segment.Length, j - segment.Length, p)
    ensures StruckBelow(segment[..], old(segment[..]), low, p, j)
  {
    j := j0;
    SweepStart(segment[..], low, j0, p);
    while j < segment.Length
      invariant j0 <= j && (j - j0) % (2 * p) == 0 && (j == j0 || j < segment.Length + 2 * p)
      invariant StruckBelow(segment[..], old(segment[..]), low, p, j)
      decreases segment.Length - j
    {
      ghost var before := segment[..];
      segment[j] := false;
      SweepStep(before, segment[..], old(segment[..]), low, j0, p, j);
      DividesSum(j - j0, 2 * p, 2 * p);
      j := j + 2 * p;
    }
    OffsetProgression(low, j0, p, j);
  }

  /** The value `low + x` is struck by one of the first `n` sieving primes. */
  ghost predicate Struck(low: nat, x: nat, primesVec: seq<nat>, n: nat)
    requires n <= |primesVec|
  {
    exists k :: 0 <= k < n && Hit(low + x, primesVec[k])
  }

  /** After the sweep, the flags of the odd values from 3 up to `high` tell
      exactly which of them are prime. */
  lemma SegmentFlagsArePrimes(flags: seq<bool>, low: nat, high: nat, primesVec: seq<nat>, s: nat)
    requires high < low + |flags| && high < s * s
    requires IsSievingPrimes(primesVec, s)
    requires forall x :: 0 <= x < |flags| ==> flags[x] == !Struck(low, x, primesVec, |primesVec|)
    ensures forall v :: low <= v <= high && 3 <= v && v % 2 == 1 ==> flags[v - low] == IsPrime(v)
  {
    forall v | low <= v <= high && 3 <= v && v % 2 == 1
      ensures flags[v - low] == IsPrime(v)
    {
      SievedIsPrime(v, primesVec, s);
      assert low + (v - low) == v;
    }
  }

  /** Appending the survivors from the cursor `n`, the least odd value from
      `max(low, 3)` on, extends the result list from the primes below `low`
      to those up to `high`. */
  lemma ScanResult(r: seq<nat>, flags: seq<bool>, low: nat, n: nat, high: nat, size: nat, primes: nat)
    requires ResultBelow(r, low, primes) && 1 <= size && high == Min(low + size - 1, primes)
    requires n % 2 == 1 && Max(low, 3) <= n <= Max(low, 3) + 1 && high < low + |flags|
    requires forall v :: low <= v <= high && 3 <= v && v % 2 == 1 ==> flags[v - low] == IsPrime(v)
    ensures ResultBelow(r + Survivors(flags, low, n, high), low + size, primes)
  {
    var t := Survivors(flags, low, n, high);
    SurvivorsMembers(flags, low, n, high);
    forall v: nat
      ensures v in r + t <==> IsPrime(v) && (v == 2 || (v < low + size && v <= primes))
    {
      if v in t {
        assert (v - n) % 2 == 0 && 3 <= v;
      }
      if IsPrime(v) && v != 2 && low <= v <= high {
        assert v % 2 == 1;
      }
    }
    if 0 < |r| && 0 < |t| {
      assert r[|r| - 1] in r;
      assert t[0] in t;
    }
    ConcatIncreasing(r, t);
  }

  /** Line 84: `fill(true)`. */
  method Fill(segment: array<bool>)
    modifies segment
    ensures forall x :: 0 <= x < segment.Length ==> segment[x]
  {
    forall x | 0 <= x < segment.Length {
      segment[x] := true;
    }
  }

  class SieveSegmented {
    var primes: nat
    var sqrt: nat
    var count: nat
    var segmentSize: nat
    var isPrime: array<bool>
    var primesVec: seq<nat>
    var multiples: seq<nat>
    var primesResult: seq<nat>

    /** `empty`: the answer for limits 0 and 1. */
    constructor Empty()
      ensures primes == 0 && sqrt == 0 && count == 0 && segmentSize == 0
      ensures isPrime.Length == 0 && primesVec == [] && multiples == [] && primesResult == []
    {
      primes, sqrt, count, segmentSize := 0, 0, 0, 0;
      isPrime := new bool[0];
      primesVec, multiples, primesResult := [], [], [];
    }

    /** `single`: the answer holding only the prime 2. */
    constructor Single()
      ensures primes == 1 && sqrt == 1 && count == 1 && segmentSize == 0
      ensures isPrime.Length == 0 && primesVec == [] && multiples == [] && primesResult == [2]
    {
      primes, sqrt, count, segmentSize := 1, 1, 1, 0;
      isPrime := new bool[0];
      primesVec, multiples, primesResult := [], [], [2];
    }

    /** `new`: a sieve up to `primes`, its bootstrap table all set. */
    constructor New(primes: nat)
      requires primes < UsizeLimit
      ensures this.primes == primes && IsIsqrt(primes, sqrt) && count == 0
      ensures segmentSize == Max(sqrt, L1DCacheSize)
      ensures fresh(isPrime) && isPrime.Length == sqrt + 1
      ensures forall m :: 0 <= m < isPrime.Length ==> isPrime[m]
      ensures primesVec == [] && multiples == [] && primesResult == []
    {
      var root := Isqrt(primes);
      this.primes := primes;
      sqrt := root;
      count := 0;
      segmentSize := Max(root, L1DCacheSize);
      isPrime := new bool[root + 1](_ => true);
      primesVec, multiples, primesResult := [], [], [];
    }

    /** `new_n`: a sieve up to the approximate limit for the first `n` primes. */
    constructor NewN(n: nat)
      requires ApproximatePrimes(n) < UsizeLimit
      ensures primes == ApproximatePrimes(n) && IsIsqrt(primes, sqrt) && count == 0
      ensures segmentSize == Max(sqrt, L1DCacheSize)
      ensures fresh(isPrime) && isPrime.Length == sqrt + 1
      ensures forall m :: 0 <= m < isPrime.Length ==> isPrime[m]
      ensures primesVec == [] && multiples == [] && primesResult == []
    {
      var limit := ApproximatePrimes(n);
      var root := Isqrt(limit);
      primes := limit;
      sqrt := root;
      count := 0;
      segmentSize := Max(root, L1DCacheSize);
      isPrime := new bool[root + 1](_ => true);
      primesVec, multiples, primesResult := [], [], [];
    }

    /** The shape the segment loop relies on: the table sized to the root,
        an offset per sieving prime and a count matching the result. Not an
        object invariant: `Empty` and `Single` do not meet it, and the
        by-count functions break the count after `drain`. */
    ghost predicate LoopShape()
      reads this
    {
      && isPrime.Length == sqrt + 1 && IsIsqrt(primes, sqrt)
      && L1DCacheSize <= segmentSize
      && |multiples| == |primesVec| && count == |primesResult|
    }

    /** The sieving primes below `s`, each with the offset of its next struck
        value from `low`. */
    ghost predicate SievingFrom(low: nat, s: nat)
      reads this
    {
      && IsSievingPrimes(primesVec, s)
      && |multiples| == |primesVec|
      && (forall k :: 0 <= k < |primesVec| ==> Offset(low, multiples[k], primesVec[k]))
    }

    /** The state at the start of the segment beginning at `low`, with `i`
        the next bootstrap candidate, `n` the scan cursor and `s` the next
        sieving candidate. */
    ghost predicate SegmentStart(low: nat, i: nat, n: nat, s: nat)
      reads this, isPrime
    {
      && LoopShape()
      && 3 <= i && i % 2 == 1 && Bootstrapped(isPrime, i)
      && n % 2 == 1 && (low <= primes ==> Max(low, 3) <= n <= Max(low, 3) + 1)
      && 3 <= s && s % 2 == 1 && (low <= primes ==> low <= s * s)
      && SievingFrom(low, s)
      && ResultBelow(primesResult, low, primes)
    }

    /** Lines 90-109: extend the bootstrap table and the sieving primes to
        every odd prime whose square is at most `high`. */
    method PrepareSegment(low: nat, high: nat, i: nat, s: nat) returns (i': nat, s': nat)
      modifies this`primesVec, this`multiples, isPrime
      requires isPrime.Length == sqrt + 1 && IsIsqrt(primes, sqrt) && high <= primes
      requires 3 <= i && i % 2 == 1 && Bootstrapped(isPrime, i)
      requires 3 <= s && s % 2 == 1 && low <= s * s && SievingFrom(low, s)
      ensures 3 <= i' && i' % 2 == 1 && Bootstrapped(isPrime, i')
      ensures i <= i' && high < i' * i' && (i' == i || (i' - 2) * (i' - 2) <= high)
      ensures 3 <= s' && s' % 2 == 1 && high < s' * s' && SievingFrom(low, s')
      ensures s <= s' && (s' == s || (s' - 2) * (s' - 2) <= high)
    {
      i' := Bootstrap(isPrime, primes, sqrt, high, i);
      var found, offsets;
      s', found, offsets := CollectSievingPrimes(isPrime, primes, sqrt, i', low, high, s, primesVec, multiples);
      primesVec, multiples := found, offsets;
    }

    /** Lines 112-120: strike every sieving prime's progression from the
        segment and move its offset on to the next segment. */
    method SweepSegment(segment: array<bool>, low: nat)
      modifies segment, this`multiples
      requires segment.Length == segmentSize && |multiples| == |primesVec|
      requires forall k :: 0 <= k < |primesVec| ==> Offset(low, multiples[k], primesVec[k])
      ensures |multiples| == |primesVec|
      ensures forall k :: 0 <= k < |primesVec| ==> Offset(low + segmentSize, multiples[k], primesVec[k])
      ensures forall x :: 0 <= x < segment.Length ==>
        segment[x] == (old(segment[x]) && !Struck(low, x, primesVec, |primesVec|))
    {
      for idx := 0 to |primesVec|
        invariant |multiples| == |primesVec|
        invariant forall k :: 0 <= k < idx ==> Offset(low + segmentSize, multiples[k], primesVec[k])
        invariant forall k :: idx <= k < |primesVec| ==> multiples[k] == old(multiples[k])
        invariant forall x :: 0 <= x < segment.Length ==>
          segment[x] == (old(segment[x]) && !Struck(low, x, primesVec, idx))
      {
        var j := SweepOne(segment, low, multiples[idx], primesVec[idx]);
        multiples := multiples[idx := j - segmentSize];
        forall x | 0 <= x < segment.Length
          ensures segment[x] == (old(segment[x]) && !Struck(low, x, primesVec, idx + 1))
        {
          if Struck(low, x, primesVec, idx + 1) && !Struck(low, x, primesVec, idx) {
            var k :| 0 <= k < idx + 1 && Hit(low + x, primesVec[k]);
            assert k == idx;
          }
        }
      }
    }

    /** Lines 122-128: append every value from the cursor `n` on, in steps
        of 2 up to `high`, whose flag is set; return where the cursor
        stops. */
    method ScanSegment(segment: array<bool>, low: nat, n: nat, high: nat) returns (n': nat)
      modifies this`primesResult, this`count
      requires low <= n && high < low + segment.Length
      ensures high < n' && (n' - n) % 2 == 0 && (n' == n || n' <= high + 2)
      ensures primesResult == old(primesResult) + Survivors(segment[..], low, n, high)
      ensures count == old(count) + |Survivors(segment[..], low, n, high)|
    {
      n' := n;
      while n' <= high
        invariant n <= n' && (n' - n) % 2 == 0 && (n' == n || n' <= high + 2)
        invariant primesResult + Survivors(segment[..], low, n', high) ==
          old(primesResult) + Survivors(segment[..], low, n, high)
        invariant count + |Survivors(segment[..], low, n', high)| ==
          old(count) + |Survivors(segment[..], low, n, high)|
        decreases high + 2 - n'
      {
        ghost var rest := Survivors(segment[..], low, n' + 2, high);
        assert Survivors(segment[..], low, n', high) == (if segment[n' - low] then [n'] else []) + rest;
        if segment[n' - low] {
          assert primesResult + ([n'] + rest) == (primesResult + [n']) + rest;
          primesResult := primesResult + [n'];
          count := count + 1;
        }
        n' := n' + 2;
      }
    }

    /** Lines 84 and 112-128: refill the segment, strike the sieving primes
        from it and append the values left set from the cursor up to
        `high`. */
    method SieveAndScan(low: nat, n: nat, high: nat, ghost s: nat, segment: array<bool>) returns (n': nat)
      modifies this`multiples, this`primesResult, this`count, segment
      requires segment.Length == segmentSize && L1DCacheSize <= segmentSize
      requires high == Min(low + segmentSize - 1, primes) && high < s * s
      requires n % 2 == 1 && Max(low, 3) <= n <= Max(low, 3) + 1
      requires SievingFrom(low, s) && count == |primesResult| && ResultBelow(primesResult, low, primes)
      ensures SievingFrom(low + segmentSize, s)
      ensures count == |primesResult| && ResultBelow(primesResult, low + segmentSize, primes)
      ensures high < n' && n' % 2 == 1 && (n' == n || n' <= high + 2)
    {
      Fill(segment);
      SweepSegment(segment, low);
      ghost var flags := segment[..];
      SegmentFlagsArePrimes(flags, low, high, primesVec, s);
      ghost var before := primesResult;
      n' := ScanSegment(segment, low, n, high);
      ScanResult(before, flags, low, n, high, segmentSize, primes);
    }

    /** `calculate_primes_for_segment`: sieve the segment `[low, high]` and
        append its primes. */
    method CalculatePrimesForSegment(low: nat, i: nat, n: nat, s: nat, segment: array<bool>)
      returns (i': nat, n': nat, s': nat)
      modifies this`primesVec, this`multiples, this`primesResult, this`count, isPrime, segment
      requires SegmentStart(low, i, n, s) && low <= primes
      requires segment.Length == segmentSize && segment != isPrime
      ensures SegmentStart(low + segmentSize, i', n', s')
      ensures var high := Min(low + segmentSize - 1, primes);
        && i <= i' && high < i' * i' && (i' == i || (i' - 2) * (i' - 2) <= high)
        && s <= s' && high < s' * s' && (s' == s || (s' - 2) * (s' - 2) <= high)
        && high < n' && (n' == n || n' <= high + 2)
    {
      var high := Min(low + segmentSize - 1, primes);
      i', s' := PrepareSegment(low, high, i, s);
      n' := SieveAndScan(low, n, high, s', segment);
    }

    /** `sieve_segmented_loop`: walk the segments from 0 while they start at
        or below the limit. */
    method SieveSegmentedLoop()
      modifies this`primesVec, this`multiples, this`primesResult, this`count, isPrime
      requires isPrime.Length == sqrt + 1 && IsIsqrt(primes, sqrt)
      requires segmentSize == Max(sqrt, L1DCacheSize)
      requires forall m :: 0 <= m < isPrime.Length ==> isPrime[m]
      requires primesVec == [] && multiples == [] && primesResult == []
      ensures 2 <= primes ==> primesResult == PrimesUpTo(primes)
      ensures primes < 2 ==> primesResult == [2]
      ensures count == |primesResult|
    {
      var segment := new bool[segmentSize](_ => true);
      primesResult := primesResult + [2];
      count := 1;
      var i, n, s := 3, 3, 3;
      var low := 0;
      assert Bootstrapped(isPrime, 3);
      assert ResultBelow(primesResult, 0, primes) by {
        Primes.BertrandChain();
      }
      while low <= primes
        invariant fresh(segment) && segment.Length == segmentSize
        invariant SegmentStart(low, i, n, s)
        decreases primes + 1 - low
      {
        i, n, s := CalculatePrimesForSegment(low, i, n, s, segment);
        low := low + segmentSize;
      }
      if 2 <= primes {
        ResultComplete(primesResult, low, primes);
      } else {
        SmallPrimes();
        CharacterizePrimesUpTo(primesResult, 2);
      }
    }
  }

  /** `sieve_segmented`: the primes up to `primes`. */
  method SegmentedSieve(primes: nat) returns (r: SieveSegmented)
    requires primes < UsizeLimit
    ensures r.primesResult == PrimesUpTo(primes)
    ensures r.count == |r.primesResult|
  {
    SmallPrimes();
    if primes <= 1 {
      r := new SieveSegmented.Empty();
    } else if primes == 2 {
      r := new SieveSegmented.Single();
    } else {
      r := new SieveSegmented.New(primes);
      r.SieveSegmentedLoop();
    }
  }

  /** Lines 188-189: the sieve up to the approximate limit for `n` primes. */
  method SieveForCount(n: nat) returns (e: SieveSegmented)
    requires 2 <= n && ApproximatePrimes(n) < UsizeLimit
    ensures fresh(e)
    ensures e.primesResult == PrimesUpTo(ApproximatePrimes(n)) && e.count == |e.primesResult|
  {
    e := new SieveSegmented.NewN(n);
    e.SieveSegmentedLoop();
  }

  /** `n_primes_segmented`: the first `n` primes, cut from the sieve up to the
      approximate limit; the cut panics when that sieve found fewer than `n`.
      The count keeps the number found before the cut. */
  method NPrimesSegmented(n: nat) returns (r: Outcome<SieveSegmented>)
    requires ApproximatePrimes(n) < UsizeLimit
    ensures r.Panics? <==> 2 <= n && |PrimesUpTo(ApproximatePrimes(n))| < n
    ensures r.Returns? ==> IsFirstPrimes(r.value.primesResult, n)
    ensures r.Returns? && 2 <= n ==>
      r.value.primesResult == PrimesUpTo(ApproximatePrimes(n))[..n] &&
      r.value.count == |PrimesUpTo(ApproximatePrimes(n))|
  {
    if n == 0 {
      var e := new SieveSegmented.Empty();
      FirstPrimesOfPrefix(0, 0);
      SmallPrimes();
      r := Returns(e);
    } else if n == 1 {
      var e := new SieveSegmented.Single();
      FirstPrimesOfPrefix(2, 1);
      SmallPrimes();
      r := Returns(e);
    } else {
      var e := SieveForCount(n);
      if |e.primesResult| < n {
        r := Panics;
      } else {
        FirstPrimesOfPrefix(ApproximatePrimes(n), n);
        e.primesResult := e.primesResult[..n];
        r := Returns(e);
      }
    }
  }
}
