/** The wheel of Pritchard's sieve and the three helpers that reshape it:
    `extend`, `delete` and `union`. They are written identically in
    prime-sieves/src/pritchard.rs, src/pritchard.rs and src/lib.rs.

    A wheel for `(length, k)` lists, in ascending order, the numbers in
    `1..length` that have no divisor in `2..k-1`. When every prime below `k`
    divides `length`, that property repeats with period `length`, which is
    what lets `extend` roll the wheel forward by copying it. */
module Wheel {
  import opened Primes

  ghost predicate WheelOf(wheel: seq<nat>, length: nat, k: nat) {
    && StrictlyIncreasing(wheel)
    && (forall m: nat :: m in wheel <==> 1 <= m <= length && Rough(m, k))
  }

  /** Every prime below `k` divides `length`. */
  ghost predicate CoversPrimesBelow(length: nat, k: nat) {
    forall q: nat :: IsPrime(q) && q < k ==> length % q == 0
  }

  /** The elements of `wheel` lie in `1..length`. */
  predicate InRange(wheel: seq<nat>, length: nat) {
    forall j :: 0 <= j < |wheel| ==> 1 <= wheel[j] <= length
  }

  // ---------------------------------------------------------------------
  // extend

  /** `w` is `wheel` followed by what `extend` appends: first `length + 1`,
      then `w[j - |wheel|] + length` at each later index `j`, every appended
      value at most `n`. */
  ghost predicate Rolled(wheel: seq<nat>, w: seq<nat>, length: nat, n: nat) {
    && |wheel| <= |w| && w[..|wheel|] == wheel
    && (|wheel| < |w| ==> w[|wheel|] == length + 1)
    && (forall j :: |wheel| < j < |w| ==> w[j] == w[j - |wheel|] + length)
    && (forall j :: |wheel| <= j < |w| ==> w[j] <= n)
  }

  /** The value `extend` compares with `n` once `w` has been built. */
  function NextValue(wheel: seq<nat>, w: seq<nat>, length: nat): nat
    requires |wheel| <= |w| && (|w| == |wheel| || 0 < |wheel|)
  {
    if |w| == |wheel| then length + 1 else w[|w| - |wheel|] + length
  }

  predicate Adjacent(s: seq<nat>) {
    forall j :: 0 < j < |s| ==> s[j - 1] < s[j]
  }

  /** `extend`: append `length + 1`, then keep appending `wheel[i] + length`
      for `i = 1, 2, ...` (reading the vector as it grows) while the value
      stays `<= n`; return `n` as the new length. The loop only terminates
      for an ascending wheel inside `1..length`, and it indexes past the end
      of an empty wheel unless it appends nothing. */
  method Extend(wheel: seq<nat>, length: nat, n: nat) returns (w: seq<nat>, r: nat)
    requires StrictlyIncreasing(wheel) && InRange(wheel, length)
    requires wheel != [] || n <= length
    ensures r == n
    ensures Rolled(wheel, w, length, n)
    ensures |w| == |wheel| || 0 < |wheel|
    ensures n < NextValue(wheel, w, length)
    ensures StrictlyIncreasing(w)
  {
    var k := |wheel|;
    w := wheel;
    var i := 1;
    var x := length + 1;
    assert Adjacent(w);
    while x <= n
      invariant Rolled(wheel, w, length, n)
      invariant i == |w| - k + 1
      invariant |w| == k || 0 < k
      invariant x == NextValue(wheel, w, length)
      invariant Adjacent(w)
      invariant 0 < |w| ==> w[|w| - 1] < x
      decreases n + 1 - x
    {
      RolledPush(wheel, w, length, n);
      AdjacentPush(w, x);
      w := w + [x];
      var next := w[i];
      assert 1 <= wheel[0];
      assert x < next + length;
      x := next + length;
      i := i + 1;
    }
    AdjacentIncreasing(w);
    r := n;
  }

  lemma RolledPush(wheel: seq<nat>, w: seq<nat>, length: nat, n: nat)
    requires Rolled(wheel, w, length, n)
    requires |w| == |wheel| || 0 < |wheel|
    requires NextValue(wheel, w, length) <= n
    ensures Rolled(wheel, w + [NextValue(wheel, w, length)], length, n)
  {
    var w1 := w + [NextValue(wheel, w, length)];
    assert w1[..|wheel|] == w[..|wheel|];
  }

  lemma AdjacentPush(s: seq<nat>, x: nat)
    requires Adjacent(s) && (0 < |s| ==> s[|s| - 1] < x)
    ensures Adjacent(s + [x])
  {
  }

  lemma {:induction false} AdjacentChain(s: seq<nat>, a: nat, b: nat)
    requires Adjacent(s)
    requires a < b < |s|
    ensures s[a] < s[b]
    decreases b - a
  {
    if a + 1 < b {
      AdjacentChain(s, a, b - 1);
    }
  }

  lemma AdjacentIncreasing(s: seq<nat>)
    requires Adjacent(s)
    ensures StrictlyIncreasing(s)
  {
    forall a, b | 0 <= a < b < |s|
      ensures s[a] < s[b]
    {
      AdjacentChain(s, a, b);
    }
  }

  /** `extend` turns a wheel for `(length, k)` into one for `(n, k)` when
      every prime below `k` divides `length`. */
  lemma ExtendedWheel(wheel: seq<nat>, length: nat, n: nat, k: nat, w: seq<nat>)
    requires WheelOf(wheel, length, k) && CoversPrimesBelow(length, k)
    requires 1 <= length <= n && 2 <= k
    requires Rolled(wheel, w, length, n)
    requires |w| == |wheel| || 0 < |wheel|
    requires n < NextValue(wheel, w, length)
    requires StrictlyIncreasing(w)
    ensures WheelOf(w, n, k)
  {
    var K := |wheel|;
    OneInWheel(wheel, length, k);
    assert forall j :: K <= j < |w| ==> w[j] == w[j - K] + length by {
      forall j | K <= j < |w|
        ensures w[j] == w[j - K] + length
      {
        if j == K {
          assert w[0] == wheel[0] == 1;
        }
      }
    }
    forall m: nat
      ensures m in w <==> 1 <= m <= n && Rough(m, k)
    {
      if m in w {
        var j :| 0 <= j < |w| && w[j] == m;
        InWheelIsRough(wheel, length, n, k, w, j);
      }
      if 1 <= m <= n && Rough(m, k) {
        RoughIsInWheel(wheel, length, n, k, w, m);
      }
    }
  }

  lemma OneInWheel(wheel: seq<nat>, length: nat, k: nat)
    requires WheelOf(wheel, length, k) && 1 <= length
    ensures |wheel| > 0 && wheel[0] == 1
  {
    assert Rough(1, k);
    assert 1 in wheel;
    HeadIsLeast(wheel, 1);
    assert wheel[0] in wheel;
  }

  lemma {:induction false} InWheelIsRough(wheel: seq<nat>, length: nat, n: nat, k: nat, w: seq<nat>, j: nat)
    requires WheelOf(wheel, length, k) && CoversPrimesBelow(length, k)
    requires 1 <= length <= n
    requires |wheel| <= |w| && w[..|wheel|] == wheel
    requires forall i :: |wheel| <= i < |w| ==> w[i] == w[i - |wheel|] + length
    requires forall i :: |wheel| <= i < |w| ==> w[i] <= n
    requires j < |w|
    ensures 1 <= w[j] <= n && Rough(w[j], k)
    decreases j
  {
    if j < |wheel| {
      assert w[j] == wheel[j] && wheel[j] in wheel;
    } else {
      InWheelIsRough(wheel, length, n, k, w, j - |wheel|);
      RoughShift(w[j - |wheel|], length, k);
    }
  }

  lemma {:induction false} RoughIsInWheel(wheel: seq<nat>, length: nat, n: nat, k: nat, w: seq<nat>, m: nat)
    requires WheelOf(wheel, length, k) && CoversPrimesBelow(length, k)
    requires 1 <= length <= n
    requires |wheel| <= |w| && w[..|wheel|] == wheel
    requires forall i :: |wheel| <= i < |w| ==> w[i] == w[i - |wheel|] + length
    requires |w| == |wheel| ==> n < length + 1
    requires |w| > |wheel| ==> 0 < |wheel| && n < w[|w| - |wheel|] + length
    requires StrictlyIncreasing(w)
    requires 1 <= m <= n && Rough(m, k)
    ensures m in w
    decreases m
  {
    var K := |wheel|;
    if m <= length {
      assert m in wheel;
      var j :| 0 <= j < K && wheel[j] == m;
      assert w[j] == m;
    } else {
      RoughShift(m - length, length, k);
      RoughIsInWheel(wheel, length, n, k, w, m - length);
      var j :| 0 <= j < |w| && w[j] == m - length;
      assert |w| > K;
      assert j + K < |w|;
      assert w[j + K] == m;
    }
  }

  lemma ModOfShift(m: nat, length: nat, q: nat)
    requires 0 < q && length % q == 0
    ensures (m + length) % q == m % q
  {
    DivModUnique(m + length, q, m / q + length / q, m % q);
  }

  /** `Rough(., k)` has period `length` when every prime below `k` divides it. */
  lemma RoughShift(m: nat, length: nat, k: nat)
    requires CoversPrimesBelow(length, k)
    ensures Rough(m + length, k) <==> Rough(m, k)
  {
    forall q: nat | IsPrime(q) && q < k
      ensures (m + length) % q == m % q
    {
      ModOfShift(m, length, q);
    }
    if Rough(m, k) {
      RoughFromPrimes(m + length, k);
    }
    if Rough(m + length, k) {
      RoughFromPrimes(m, k);
    }
  }

  // ---------------------------------------------------------------------
  // delete

  /** `delete`: keep the elements not divisible by `p`, in their order. */
  function Delete(wheel: seq<nat>, p: nat): (r: seq<nat>)
    requires p != 0
    ensures forall m :: m in r <==> m in wheel && m % p != 0
    ensures StrictlyIncreasing(wheel) ==> StrictlyIncreasing(r)
    ensures |r| <= |wheel|
  {
    if wheel == [] then []
    else
      var rest := Delete(wheel[1..], p);
      assert forall m :: m in wheel[1..] ==> m in wheel;
      assert StrictlyIncreasing(wheel) ==> forall m :: m in wheel[1..] ==> wheel[0] < m;
      assert forall i :: 0 <= i < |rest| ==> rest[i] in rest;
      if wheel[0] % p != 0 then [wheel[0]] + rest else rest
  }

  /** Striking the multiples of the prime `p` from a wheel for `(length, p)`
      leaves the wheel for `(length, p + 1)`. */
  lemma DeletedWheel(wheel: seq<nat>, length: nat, p: nat)
    requires WheelOf(wheel, length, p) && 2 <= p
    ensures WheelOf(Delete(wheel, p), length, p + 1)
  {
  }

  // ---------------------------------------------------------------------
  // union

  /** `union`: append every wheel element but the leading 1 to `prk`.
      Slicing `wheel[1..]` panics on an empty wheel. */
  method Union(prk: seq<nat>, wheel: seq<nat>) returns (r: seq<nat>)
    requires 1 <= |wheel|
    ensures r == prk + wheel[1..]
  {
    r := prk;
    for i := 1 to |wheel|
      invariant r == prk + wheel[1..i]
    {
      r := r + [wheel[i]];
    }
  }

  // ---------------------------------------------------------------------
  // The next sieving prime

  /** The second element of a wheel for `(length, k)` is the least prime
      `>= k`, and the wheel is also the wheel for that prime. */
  lemma WheelSecond(wheel: seq<nat>, length: nat, k: nat)
    requires WheelOf(wheel, length, k) && 2 <= k && 2 <= |wheel|
    ensures wheel[0] == 1
    ensures IsPrime(wheel[1]) && k <= wheel[1] <= length
    ensures forall q: nat :: IsPrime(q) && q < wheel[1] ==> q < k
    ensures WheelOf(wheel, length, wheel[1])
  {
    assert wheel[0] in wheel && wheel[1] in wheel;
    OneInWheel(wheel, length, k);
    var p := wheel[1];
    if !IsPrime(p) {
      var e := SmallPrimeFactorOfComposite(p);
      RoughDivisor(p, e, k);
      assert false;
    }
    PrimeRoughness(p, k);
    forall q: nat | IsPrime(q) && q < p
      ensures q < k
    {
      if k <= q {
        PrimeRoughness(q, k);
        assert false;
      }
    }
    forall m: nat
      ensures m in wheel <==> 1 <= m <= length && Rough(m, p)
    {
      if Rough(m, k) && !Rough(m, p) {
        var d :| 2 <= d < p && m % d == 0;
        var e := PrimeFactorOf(d);
        DividesTransitive(m, d, e);
        assert false;
      }
    }
  }

  /** A divisor `e >= 2` of a number with no divisor in `2..k-1` has none either. */
  lemma RoughDivisor(m: nat, e: nat, k: nat)
    requires Rough(m, k) && 2 <= e && m % e == 0
    ensures Rough(e, k)
  {
    forall d | 2 <= d < k
      ensures e % d != 0
    {
      if e % d == 0 {
        DividesTransitive(m, e, d);
      }
    }
  }

  /** After striking `p`, the length `p * length` is divisible by every prime
      below the next sieving prime. */
  lemma CoversNext(length: nat, p: nat, next: nat)
    requires CoversPrimesBelow(length, p) && IsPrime(p) && 1 <= length
    requires forall q: nat :: IsPrime(q) && q < next ==> q < p + 1
    ensures CoversPrimesBelow(p * length, next)
  {
    forall q: nat | IsPrime(q) && q < next
      ensures (p * length) % q == 0
    {
      if q == p {
        MultipleMod(p, length);
      } else {
        MultipleMod(length, p);
        assert p * length == length * p;
        DividesTransitive(p * length, length, q);
      }
    }
  }
}
