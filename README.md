# wheel_primes_rust, modelled in Dafny

The model covers the prime sieves of `wheel_primes_rust` and proves that they return the primes they promise. The sieves are:

- Pritchard's wheel sieve (`sieve_pritchard`, `n_primes_pritchard` and the helpers `extend`, `delete` and `union`) in its canonical form, prime-sieves/src/pritchard.rs. The file src/pritchard.rs holds the same code.
- The older wheel sieve of src/lib.rs, which seeds its result with `[1, 2, 3]`.
- The segmented sieve of Eratosthenes, `SieveSegmented`, in two versions:
  - the canonical bit-packed one, prime-sieves/src/segmented.rs;
  - the `Vec<bool>` draft, src/segmented.rs.
- The integer helpers `isqrt` and `approximate_primes` (prime-sieves/src/utils.rs).

`usize` is modelled as `nat`. The entry points are bounded by preconditions (see "Left out"). Every specification is stated against one definition of primality:

- `Primes.IsPrime` defines primality.
- `Primes.PrimesUpTo(n)` is the ascending list of the primes `<= n`.
- `Primes.IsFirstPrimes(r, n)` says that `r` holds exactly the first `n` primes.

Files and modules:

| file | module | what it holds |
|---|---|---|
| Primes.dfy | `Primes` | primality, `PrimesUpTo`, sorted-sequence facts, divisibility lemmas, Bertrand's postulate below 9973 |
| Utils.dfy | `Utils` | `Isqrt` (the digit-by-digit loop), `ApproximatePrimes`, the input bounds, `Outcome` |
| Wheel.dfy | `Wheel` | the wheel invariant, `Extend`, `Delete`, `Union` and what they preserve |
| Pritchard.dfy | `Pritchard` | `sieve_pritchard` and `n_primes_pritchard` of prime-sieves/src/pritchard.rs |
| PritchardDraft.dfy | `PritchardDraft` | `sieve_pritchard` and `n_primes_pritchard` of src/lib.rs |
| SegmentedCommon.dfy | `SegmentedCommon` | the bootstrap sieve and the collection of sieving primes, which both segmented versions share, and the arithmetic of the progression every sieving prime strikes |
| Segmented.dfy | `Segmented` | class `SieveSegmented` of prime-sieves/src/segmented.rs, with its bit mapping `low + 2b + 1` |
| SegmentedDraft.dfy | `SegmentedDraft` | class `SieveSegmented` of src/segmented.rs, with its flag mapping `low + x` and the scan cursor `n` |

Both segmented sieves are classes. Their fields are the struct's fields:

- `isPrime` and the segment are arrays.
- `primesVec`, `multiples` and `primesResult` are sequences that the methods reassign.

The methods follow the Rust methods phase by phase: bootstrap, collection of sieving primes, sweep, scan, reset. The per-segment invariant `SegmentStart` is what carries the sieve from one segment to the next. It states that:

- the bootstrap table is exact up to the next candidate;
- the sieving primes are exactly the odd primes below `s`;
- each carried offset is the first struck offset at or after the segment start;
- the result list holds exactly the primes below the segment start.

## Model

| member | source | states |
|---|---|---|
| Utils.StartingPowerOfFour | prime-sieves/src/utils.rs:9-13 | for `n > 0` the first loop stops at a power of four `d` with `d <= n < 4d`; for `n == 0` it shifts `d` down to 0 |
| Utils.DigitStep | prime-sieves/src/utils.rs:16-25 | one iteration of the main loop keeps the remainder and the partial root consistent with `n`; the subtraction `x - (c + d)` is taken only when `x >= c + d` |
| Utils.Isqrt | prime-sieves/src/utils.rs:1-28 | the result `c` is the integer square root: `c*c <= n < (c+1)*(c+1)` (so 0 for 0); the same code is at src/lib.rs:78-106 |
| Utils.IsqrtIsLargestSquareRoot | prime-sieves/src/utils.rs:1-28 | `a <= isqrt(n)` exactly when `a*a <= n`, which is how the sieves use the root |
| Utils.IsqrtUnique | prime-sieves/src/utils.rs:1-28 | the square root is unique, so any two computations of it agree |
| Utils.BitLengthBounds | prime-sieves/src/utils.rs:31 | `usize::BITS - leading_zeros(n)` is the number of binary digits: `2^(b-1) <= n < 2^b` |
| Utils.ApproximatePrimes | prime-sieves/src/utils.rs:30-33 | `approximate_primes(0) == 0` and `approximate_primes(n) >= n` for `n >= 1` |
| Utils.ApproximatePrimesMonotone | prime-sieves/src/utils.rs:30-33 | a larger count never gives a smaller limit |
| Utils.ApproximatePrimesOfOne | prime-sieves/src/utils.rs:30-33 | `approximate_primes(1) == 1` |
| Utils.ApproximatePrimesOfMaxCount | fuzz/lib/types.rs:22 | the largest fuzzed count 1,270,607 leads to the limit 26,682,747, which fits in a `usize` |
| Wheel.Extend | prime-sieves/src/pritchard.rs:60-71 | returns `n`; keeps the old wheel as a prefix; appends `length + 1` and then, at each later position, the entry one old-wheel-size earlier plus `length`, each at most `n`, and stops at the first value above `n`; the result stays ascending; the same code is at src/pritchard.rs:60-71, src/lib.rs:61-72 |
| Wheel.ExtendedWheel | prime-sieves/src/pritchard.rs:60-71 | when every prime below `k` divides `length`, extending the wheel for `(length, k)` to `n` gives exactly the wheel for `(n, k)` |
| Wheel.Delete | prime-sieves/src/pritchard.rs:73-75 | keeps exactly the elements not divisible by `p`; keeps an ascending wheel ascending; never grows; the same code is at src/lib.rs:74-76 |
| Wheel.DeletedWheel | prime-sieves/src/pritchard.rs:73-75 | deleting the multiples of `p` from the wheel for `(length, p)` gives the wheel for `(length, p + 1)` |
| Wheel.Union | prime-sieves/src/pritchard.rs:77-81 | the accumulator becomes its old contents followed by `wheel[1..]`; the same code is at src/lib.rs:108-112 |
| Wheel.WheelSecond | prime-sieves/src/pritchard.rs:36 | the second wheel element exists, is prime, is the least prime `>= k`, and is at most `length` |
| Wheel.CoversNext | prime-sieves/src/pritchard.rs:32 | after a round, the new length is divisible by every prime below the next sieving prime |
| Pritchard.InitialWheel | prime-sieves/src/pritchard.rs:24-28 | `[1, 5]` is the wheel for length 5 or 6 with 2 and 3 struck |
| Pritchard.SievingPrimeBound | prime-sieves/src/pritchard.rs:30 | under the input bound every sieving prime is below 9973 |
| Pritchard.SecondElementExists | prime-sieves/src/pritchard.rs:36 | after `delete`, `wheel[1]` is in range |
| Pritchard.PrimesUpToNext | prime-sieves/src/pritchard.rs:35-36 | pushing `p` and moving to the next prime keeps the accumulator equal to the primes below the sieving prime |
| Pritchard.FinalWheel | prime-sieves/src/pritchard.rs:38-41 | once `p*p` exceeds the limit, the wheel after its 1 is exactly the primes in `p..limit` |
| Pritchard.RollForward | prime-sieves/src/pritchard.rs:31-33 | the wheel is extended to `min(primes, p * length)` only when `length < primes` and is left alone otherwise |
| Pritchard.StrikeAndNext | prime-sieves/src/pritchard.rs:34-36 | after the strike, `wheel[1]` exists and is the least prime above `p`, and the round invariant holds |
| Pritchard.Round | prime-sieves/src/pritchard.rs:30-37 | one round keeps the wheel invariant (ascending, starts at 1, exactly the numbers in `1..length` with no prime factor below `p`) and moves to the next prime; the new length is `min(primes, p * length)` when `length < primes` and unchanged otherwise, which fixes the new wheel |
| Pritchard.FinalRoll | prime-sieves/src/pritchard.rs:38-40 | the final `extend` rolls the wheel out to the limit |
| Pritchard.WheelLoop | prime-sieves/src/pritchard.rs:23-43 | for limits from 5, `[2, 3]` followed by what the loop appends is exactly the primes up to the limit |
| Pritchard.Finish | prime-sieves/src/pritchard.rs:38-42 | the final roll and `union` complete the primes up to the limit |
| Pritchard.SievePritchard | prime-sieves/src/pritchard.rs:11-45 | the result is exactly the ascending primes `<= primes`; this covers the small cases `[]`, `[2]` and `[2, 3]`; the same code is at src/pritchard.rs:11-45 |
| Pritchard.NPrimesPritchard | prime-sieves/src/pritchard.rs:52-58 | panics exactly when the sieve up to `approximate_primes(n)` finds fewer than `n` primes; otherwise returns that sieve's first `n` entries, which are the first `n` primes; the same code is at src/pritchard.rs:52-58 |
| Pritchard.CountOneFindsNoPrime | prime-sieves/src/pritchard.rs:52-58 | for `n == 1` the sieve finds no prime, so `drain(1..)` panics |
| Pritchard.CountsTwoAndThreeFindEnough | prime-sieves/src/pritchard.rs:104-111 | the count 3 of the unit test (and the count 2) give the limits 6 and 4, whose primes are `[2, 3, 5]` and `[2, 3]`, so `n_primes_pritchard` returns the first primes for them instead of panicking |
| Pritchard.NPrimesPritchardCorrected | prime-sieves/src/pritchard.rs:52-58 | with count 1 answered by `[2]`, the function returns the first `n` primes and panics only where the bound is too small for `n >= 2` |
| PritchardDraft.LastIndexBelow | src/lib.rs:9-11 | the reverse search returns the last index whose element is below the bound, or 0 when there is none |
| PritchardDraft.SmallLimitIndex | src/lib.rs:8-12 | over `[1, 2, 3]`, the index is 0 for limits up to 2, 1 for 3 and 2 for 4 |
| PritchardDraft.SievePritchardDraft | src/lib.rs:6-33 | gives `[]` up to 2, `[1]` for 3 and `[1, 2]` for 4; from 5 on gives 1 followed by exactly the primes up to the limit |
| PritchardDraft.EuclidSurvivor | src/lib.rs:47-51 | `p * length - 1` survives the strike, so `wheel[1]` is in range in the by-count loop |
| PritchardDraft.DraftRound | src/lib.rs:47-51 | the unclipped round keeps the wheel invariant, multiplies `length` by `p` and moves to the next prime |
| PritchardDraft.DraftResult | src/lib.rs:53-57 | once the loop exits, `[..n]` of the union is in range, ascending, starts with 1 and misses no prime up to its last entry |
| PritchardDraft.NPrimesPritchardDraft | src/lib.rs:36-59 | `[1, 2, 3][..n]` for `n <= 3`; otherwise exactly `n` ascending entries, 1 first and the rest at least 2, missing no prime up to the last |
| SegmentedCommon.BootstrapRoughIsPrime | prime-sieves/src/segmented.rs:93-102 | below the square of the next candidate, the bootstrap table is true on an odd number exactly when it is prime |
| SegmentedCommon.StrikeMultiples | prime-sieves/src/segmented.rs:94-100 | handling candidate `i` leaves the table cleared exactly at the odd-candidate multiples from `i*i`; every `is_prime` index is at most `sqrt`; the same code is at src/segmented.rs:91-97 |
| SegmentedCommon.Bootstrap | prime-sieves/src/segmented.rs:93-102 | the loop stops at the first odd `i` from its start with `high < i*i` (the one before it, if any, has its square at most `high`), and the table is exact for every candidate below it; the same code is at src/segmented.rs:90-99 |
| SegmentedCommon.SievingPrimesStep | prime-sieves/src/segmented.rs:107-111 | passing an odd candidate appends it exactly when it is prime, so `primes_vec` stays the ascending odd primes below the cursor |
| SegmentedCommon.CollectSievingPrimes | prime-sieves/src/segmented.rs:105-112 | stops at the first odd `s` from its start with `high < s*s` and appends exactly the odd primes it passes, so the list becomes the odd primes below that `s`, each with offset `s*s - low`; keeps the old entries; every offset is the first struck offset at or above `low`; the same code is at src/segmented.rs:102-109 |
| SegmentedCommon.HitIsOddMultiple | prime-sieves/src/segmented.rs:117-126 | for odd `p` and odd `v`, `v` is on the progression `p*p, p*p + 2p, ...` exactly when `p*p <= v` and `p` divides `v` |
| SegmentedCommon.OffsetProgression | prime-sieves/src/segmented.rs:116-128 | from the carried offset `j0`, the struck offsets are exactly `j0, j0 + 2p, ...` |
| SegmentedCommon.SievedIsPrime | prime-sieves/src/segmented.rs:115-129 | an odd number from 3 below `s*s` is prime exactly when no sieving prime strikes it |
| SegmentedCommon.ResultComplete | prime-sieves/src/segmented.rs:165 | once the segments reach past the limit, the result list is exactly the primes up to the limit |
| Segmented.SurvivorsMembers | prime-sieves/src/segmented.rs:131-137 | the scan emits, in ascending order, exactly the values `low + 2b + 1` of the set bits `b <= diff` |
| Segmented.SweepStep | prime-sieves/src/segmented.rs:118-126 | clearing bit `j/2` for odd `j` removes exactly the value `low + j`; even offsets change nothing |
| Segmented.SweepOne | prime-sieves/src/segmented.rs:116-128 | clears exactly the struck odd offsets inside the segment; every write index is below `segment_size`; the carried offset `j - segment_size` is the first struck offset of the next segment |
| Segmented.SegmentBitsArePrimes | prime-sieves/src/segmented.rs:115-137 | after the sweep, bit `b <= diff` is set exactly when `low + 2b + 1` is prime; the 1 is never emitted, because bit 0 is cleared before segment 0 |
| Segmented.ScanResult | prime-sieves/src/segmented.rs:131-137 | appending the survivors extends the result from the primes below `low` to those below the next segment, never past the limit |
| Segmented.SieveSegmented.Empty | prime-sieves/src/segmented.rs:28-39 | every field is zero or empty |
| Segmented.SieveSegmented.Single | prime-sieves/src/segmented.rs:41-52 | holds `[2]` with count 1 |
| Segmented.SieveSegmented.New | prime-sieves/src/segmented.rs:69-82 | `sqrt` is the integer root of the limit; the segment size is `max(sqrt, L1D_CACHE_SIZE)`; the table has `sqrt + 1` entries, all true |
| Segmented.SieveSegmented.NewN | prime-sieves/src/segmented.rs:54-67 | the same, for the limit `approximate_primes(n)` |
| Segmented.SieveSegmented.SweepSegment | prime-sieves/src/segmented.rs:115-129 | clears exactly the bits struck by some sieving prime; every carried offset becomes the first struck offset of the next segment |
| Segmented.SieveSegmented.ScanSegment | prime-sieves/src/segmented.rs:131-137 | appends the survivors up to `diff` and raises `count` by their number |
| Segmented.SieveSegmented.PrepareSegment | prime-sieves/src/segmented.rs:90-112 | both cursors stop at the first odd candidate whose square exceeds `high`; the bootstrap table is exact below the new `i` and the sieving primes are exactly the odd primes below the new `s`, with their offsets |
| Segmented.SieveSegmented.SieveAndScan | prime-sieves/src/segmented.rs:115-139 | after sweep, scan and `fill(true)`, the result is exactly 2 and the primes below the next segment (capped at the limit), `count` equals its length, and the bitset is all ones |
| Segmented.SieveSegmented.CalculatePrimesForSegment | prime-sieves/src/segmented.rs:84-144 | moves the per-segment invariant from `low` to `low + segment_size` and leaves the bitset all ones; the returned `(i, s)` are the first odd candidates from the old ones whose squares exceed `high` |
| Segmented.SieveSegmented.SieveSegmentedLoop | prime-sieves/src/segmented.rs:146-171 | when the segment size is a multiple of 64 (the length check at line 149), the loop leaves exactly the primes up to the limit (or `[2]` below 2) with `count == primes_result.len()` |
| Segmented.SegmentedSieve | prime-sieves/src/segmented.rs:181-209 | the result is exactly the ascending primes `<= primes`, with count equal to its length; this covers `[]` for 0 and 1 and `[2]` for 2 |
| Segmented.NPrimesSegmented | prime-sieves/src/segmented.rs:219-233 | 0 gives `[]`, 1 gives `[2]`; from 2 on it panics exactly when the sieve finds fewer than `n` primes, and otherwise returns the first `n` primes with the stale count from before `drain` |
| SegmentedDraft.SurvivorsMember | src/segmented.rs:122-128 | the cursor scan emits `v` exactly when `n <= v <= high`, `v` has the parity of `n`, and its flag is set |
| SegmentedDraft.SurvivorsMembers | src/segmented.rs:122-128 | the emitted values are ascending, and each is at most `high` |
| SegmentedDraft.SweepStep | src/segmented.rs:115-117 | clearing `sieve_segment[j]` removes exactly the value `low + j` |
| SegmentedDraft.SweepOne | src/segmented.rs:113-119 | clears exactly the struck offsets inside the segment; every write index is below `segment_size`; the carried offset is the first struck offset of the next segment |
| SegmentedDraft.SegmentFlagsArePrimes | src/segmented.rs:112-120 | after the sweep, the flag of every odd value from 3 up to `high` is set exactly when the value is prime |
| SegmentedDraft.ScanResult | src/segmented.rs:122-128 | scanning from the carried cursor extends the result from the primes below `low` to those below the next segment, never past the limit |
| SegmentedDraft.Fill | src/segmented.rs:84 | the segment is all true at the start of every segment |
| SegmentedDraft.SieveSegmented.Empty | src/segmented.rs:24-35 | every field is zero or empty |
| SegmentedDraft.SieveSegmented.Single | src/segmented.rs:37-48 | holds `[2]` with count 1 |
| SegmentedDraft.SieveSegmented.New | src/segmented.rs:65-78 | `sqrt` is the integer root of the limit; the segment size is `max(sqrt, L1D_CACHE_SIZE)`; the table is all true |
| SegmentedDraft.SieveSegmented.NewN | src/segmented.rs:50-63 | the same, for the limit `approximate_primes(n)` |
| SegmentedDraft.SieveSegmented.PrepareSegment | src/segmented.rs:87-109 | both cursors stop at the first odd candidate whose square exceeds `high`; the bootstrap table is exact below the new `i` and the sieving primes are exactly the odd primes below the new `s`, with their offsets |
| SegmentedDraft.SieveSegmented.SweepSegment | src/segmented.rs:112-120 | clears exactly the flags struck by some sieving prime and carries every offset into the next segment |
| SegmentedDraft.SieveSegmented.ScanSegment | src/segmented.rs:122-128 | appends the survivors from the cursor to `high`, raises `count` by their number, and returns the odd cursor just past `high` |
| SegmentedDraft.SieveSegmented.SieveAndScan | src/segmented.rs:84-128 | after fill, sweep and scan, the result is exactly 2 and the primes below the next segment (capped at the limit), and `count` equals its length |
| SegmentedDraft.SieveSegmented.CalculatePrimesForSegment | src/segmented.rs:80-133 | moves the per-segment invariant, including the odd cursor `n`, from `low` to `low + segment_size`; the returned `i` and `s` are the first odd candidates from the old ones whose squares exceed `high`, and `n` is the odd cursor just past `high` |
| SegmentedDraft.SieveSegmented.SieveSegmentedLoop | src/segmented.rs:135-153 | walking the segments while `low <= primes` leaves exactly the primes up to the limit (or `[2]` below 2), with `count == primes_result.len()` |
| SegmentedDraft.SegmentedSieve | src/segmented.rs:163-173 | the result is exactly the ascending primes `<= primes`, with count equal to its length |
| SegmentedDraft.NPrimesSegmented | src/segmented.rs:183-197 | 0 gives `[]`, 1 gives `[2]`; from 2 on it panics exactly when the sieve finds fewer than `n` primes, and otherwise returns the first `n` primes with the stale count |

## Left out

- The `wasm_bindgen` wrappers (`*_w`) and `JsValue::from_serde` are foreign serialisation. The model returns the vectors they wrap.
- src/pritchard.rs is the same code as prime-sieves/src/pritchard.rs. It is modelled by the same members, cited for both files.
- The `isqrt` of src/lib.rs is the same algorithm as `Utils.Isqrt`. It is modelled by that member.
- `bitvec` internals (`BitVec::from_vec`, `iter_ones`, `replace_unchecked`, `fill`) are left out. The bitset is an `array<bool>` whose bit `b` stands for `low + 2b + 1`.
- Capacity hints (`with_capacity`) are left out. They do not affect results.
- `Vec` arguments passed as `&mut` are modelled as sequences passed in and returned, or as `seq` fields of the classes that the methods reassign.
- `Wheel.Delete`: `retain` is modelled as a function on the sequence rather than an in-place filter. For an ascending wheel, which every caller passes, its contract states the kept elements and their order; for other input it states only which elements are kept.
- `usize` overflow is not modelled. Inputs are bounded instead:
  - `MaxLimit = 26,682,747` for the wheel sieves. This is `approximate_primes(1,270,607)`, the largest fuzzed count, and it is above the fuzzed limit cap of 20,000,000. No intermediate value of the by-limit wheel sieves overflows below it. The by-count loop of src/lib.rs is not bounded; see `PritchardDraft.NPrimesPritchardDraft` below.
  - `SegmentedLimit = 524289²` for the canonical segmented sieve. No intermediate value overflows below it.
  - `2^64` for the draft segmented sieve. This bound does not rule out overflow; the overflows it leaves are listed under `SegmentedDraft.SegmentedSieve` below.
- `Pritchard.SievePritchard`: requires `primes <= MaxLimit`. `wheel[1]` exists because Bertrand's postulate says a prime lies between `p` and `2p`. That is proved here, by explicit primes, only for `p < 9973`, which covers every sieving prime under that bound.
- `Pritchard.NPrimesPritchard`: requires `n <= MaxCount` for the same reason. It keeps the panic branch, because the adequacy of `n * bit_length(n)` as a bound on the n-th prime is not proved. The contract states exactly when the panic happens rather than ruling it out.
- `Segmented.NPrimesSegmented`: keeps the panic branch for the same reason.
- `SegmentedDraft.NPrimesSegmented`: keeps the panic branch for the same reason.
- `Segmented.SegmentedSieve`: requires `primes < SegmentedLimit`.
  - Below it, `sqrt <= 524288`, so the segment size is `L1D_CACHE_SIZE = 524288`, a multiple of 64, and the length check at prime-sieves/src/segmented.rs:149 passes.
  - Larger limits make the segment size `sqrt`. The bitset is then built from `sqrt / 64` whole words, so the check fails unless `sqrt` is a multiple of 64 (for example it passes for `primes = 524352²`, where `sqrt = 64 * 8193`, and the source then returns the primes). Those limits are excluded as well: neither the panic nor the larger limits on which the sieve succeeds are modelled.
- `SegmentedDraft.SegmentedSieve`: requires `primes < 2^64`, which does not keep every intermediate value below `2^64`. The model computes on unbounded integers and does not capture these overflows of the source:
  - `i * i` and `s * s` in the loop guards at src/segmented.rs:90 and :102 overflow once a candidate reaches `2^32`, which happens when `primes >= (2^32 - 1)²`;
  - `low + self.segment_size - 1` at src/segmented.rs:87 overflows on the last segment when `primes` is within one segment of `usize::MAX`;
  - `low += self.segment_size` at src/segmented.rs:150 wraps there as well, so `low <= primes` can hold again.
- `Wheel.Extend`: requires an ascending wheel inside `1..length`, and a non-empty wheel unless nothing is appended. Without these the source loop does not terminate or indexes past the end. Every caller meets them.
- `PritchardDraft.NPrimesPritchardDraft`: takes any count and computes on unbounded integers. The source's `p * length` at src/lib.rs:47 grows as the primorial of `p` and first exceeds `2^64` in the round for 53 (`53#` is about `3.26 * 10^19`). That `usize` overflow is not modelled. It cannot happen in practice: the wheel before that round already holds `φ(47#)` entries, far more than memory can hold.
- `PritchardDraft.NPrimesPritchardDraft`: does not claim that the entries after the 1 are prime. The by-count loop of src/lib.rs stops once the accumulator and the wheel together hold `n + 1` entries, whether or not `p*p` has passed the wheel's length. Its tail can then hold composites such as 121 after the round for 7. The contract states what does hold: the length, ascending order, the leading 1, every entry after it at least 2, and no prime skipped up to the last entry.
- `Segmented.NPrimesSegmented`: the count kept after `drain` is the number of primes found before the cut, not the length of the result. The contract states exactly that.
- The unit tests and fuzz targets are not modelled. They run against an external prime oracle; their assertions are the contracts above.
- The test at src/segmented.rs:229 compares the primes up to 5 with the first six primes. The draft sieve returns `[2, 3, 5]`, which the contract of `SegmentedDraft.SegmentedSieve` states. The test's expectation is not encoded.
- prime-scripts (file and JSON I/O) and the benchmarks (timing, random numbers) are not part of this model.

## Findings

| source | as written | input that shows it | evidently intended | confidence | as-written member | corrected member |
|---|---|---|---|---|---|---|
| prime-sieves/src/pritchard.rs:52-58 | `n_primes_pritchard(n)` sieves up to `approximate_primes(n)` and calls `drain(n..)`. For `n == 1` the bound is `1 * 1 == 1`, the sieve up to 1 is empty, and `drain(1..)` on an empty vector panics (the same code is at src/pritchard.rs:52-58) | `n = 1` | return `[2]`, as `n_primes_segmented` does with its own case for 1 | not executed | Pritchard.NPrimesPritchard, Pritchard.CountOneFindsNoPrime | Pritchard.NPrimesPritchardCorrected |
