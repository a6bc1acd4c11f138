# Heavy-hitter sketches in Dafny

This project models three stream-frequency summaries from the
`heavy_hitters` repository and proves, for every run, the guarantees
they make. Each summary is fed a stream of 64-bit keys one `Add` at a time
and answers `Estimate(x)`, `HeavyHitters(phi)` and `Size()`.

- **Misra-Gries** (`MisraGriesSketch.MisraGries`). It keeps at most `k - 1`
  counters. `Add` does one of three things:
  - it bumps a tracked key;
  - it tracks a new key while there is room;
  - otherwise it runs a decrement pass, which lowers every counter and drops
    the counters that reach zero.

  The model proves that the table always fits and that its counters stay
  positive. It also proves the counting identity
  `m == sum of counters + k * passes`. From these it follows that an
  estimate never exceeds the true frequency and falls short of it by at
  most `m / k`.
- **Count-Min Sketch** (`CountMin.CountMinSketch`). This is a `t x k` table
  of unsigned counters. `Add` bumps one cell per row, chosen by an affine
  hash. `Estimate` is the least of the key's cells.

  The model proves these facts:
  - every cell equals the number of stream elements its row hashed to it;
  - each row sums to `m`;
  - the estimate never underestimates and is at most `m`;
  - `HeavyHitters` reports exactly the candidates whose estimate reaches the
    threshold, in non-increasing order.
- **Count Sketch** (`CountSketching.CountSketch`). This is a `t x k` table
  of signed counters. `Add` adds a `+1`/`-1` sign to one cell per row.
  `Estimate` is the median, the `t / 2`-th smallest, of the sign-corrected
  readings, clamped at 0. That median is computed in place by a selection
  algorithm (`OrderStatistic.NthElement`).

  The model proves these facts:
  - every cell is the signed count of the stream elements hashed to it;
  - no cell, and no row's sum of absolute values, exceeds `m`;
  - the estimate lies in `0..m`;
  - the estimate is exact for a stream made of a single key;
  - `HeavyHitters` is specified as for Count-Min.

The hash functions are modelled literally, on unbounded naturals
(`HashFamily`):
- `u = a * x + b` is taken modulo 2^128;
- `h = (u & p) + (u >> 89)`;
- the bucket is `h & (k - 1)`;
- the sign is `(h & 1) * 2 - 1`, converted to `int8_t`.

`&` is defined on binary digits. The model proves that the constructors'
test `(k & (k - 1)) == 0 && k > 0` accepts exactly the powers of two, and
that for those `h & (k - 1)` is `h % k`.

The modules are:
- `Keys`: keys, 64-bit ranges and true frequencies.
- `Arithmetic`: small division facts.
- `HashFamily`: the hashes.
- `TableLayout`: per-column hit counts of a row.
- `Ranking`: the `std::multimap<count, key, std::greater>` result as a
  non-increasing sequence of entries.
- `OrderStatistic`: `std::nth_element` and the order statistic it finds.
- `MisraGriesSketch`, `CountMin`, `CountSketching`: the three summaries.

Tables are `array2` fields updated in place. `m` and the candidate set
`seen` are fields the methods reassign. The stream added so far is a
ghost field that the contracts measure the counters against.

## Model

| member | source | states |
|---|---|---|
| MisraGriesSketch.MisraGries.constructor | sketching/misra_gries.cpp:3 | A new summary has capacity parameter `k`, no counters and `m == 0`, and satisfies the invariant |
| MisraGriesSketch.MisraGries.Add | sketching/misra_gries.cpp:5-21 | The new table is the three-branch step (bump, insert with counter 1, or decrement pass) applied to the old one; `m` grows by exactly one; the invariant is kept |
| MisraGriesSketch.MisraGries.DecrementAll | sketching/misra_gries.cpp:11-17 | The erase-while-iterating loop leaves every counter above 1 lowered by one and removes exactly the counters that were 1 |
| MisraGriesSketch.StepKeepsCapacity | sketching/misra_gries.cpp:8-18 | A table holding at most `k - 1` keys still holds at most `k - 1` after `Add` |
| MisraGriesSketch.StepKeepsPositive | sketching/misra_gries.cpp:9-13 | If every tracked counter is positive before `Add`, it still is afterwards |
| MisraGriesSketch.StepOnTracked | sketching/misra_gries.cpp:6-7 | Adding a tracked key raises only its counter, by one; the tracked keys and all other counters are unchanged |
| MisraGriesSketch.StepOnRoom | sketching/misra_gries.cpp:8-9 | Adding an untracked key while there is room tracks it with counter 1 and changes nothing else |
| MisraGriesSketch.StepOnFull | sketching/misra_gries.cpp:10-18 | Adding an untracked key to a full table does not track it; every counter drops by exactly one, and exactly the keys whose counter was 1 disappear |
| MisraGriesSketch.DecrementedTotal | sketching/misra_gries.cpp:11-17 | A decrement pass lowers the sum of the counters by exactly the number of tracked keys |
| MisraGriesSketch.StepTotal | sketching/misra_gries.cpp:5-18 | `Add` raises the sum of the counters by one, except that a decrement pass lowers it by the capacity, so the pass absorbs `k` stream elements |
| MisraGriesSketch.StepKeepsCount | sketching/misra_gries.cpp:5-21 | The identity `m == sum of counters + k * passes` survives `Add`, counting a decrement pass as one more pass |
| MisraGriesSketch.StepKeepsBracket | sketching/misra_gries.cpp:5-21 | After `Add`, each key's counter still lies between its true frequency minus the number of passes and its true frequency |
| MisraGriesSketch.StepKeepsInvariant | sketching/misra_gries.cpp:5-21 | `Add` preserves the whole invariant: capacity, positivity, `m` is the stream length, the counting identity and the bracket |
| MisraGriesSketch.MisraGries.Estimate | sketching/misra_gries.cpp:23-26 | The estimate never exceeds the true frequency and falls short of it by at most `m / k`; it is 0 for an untracked key; a key more frequent than `m / k` is tracked |
| MisraGriesSketch.MisraGries.HeavyHitters | sketching/misra_gries.cpp:28-39 | The result is in non-increasing count order and holds exactly the `(count, key)` pairs of the tracked keys whose count is strictly above the threshold; it is empty before any `Add` |
| MisraGriesSketch.MisraGries.Size | sketching/misra_gries.cpp:41-43 | The size is at least the object size and at most the object size plus 16 bytes for each key the table can hold |
| HashFamily.PowerOfTwoTest | sketching/count_min_sketch.cpp:9 | The test `(k & (k - 1)) == 0 && k > 0` holds exactly when `k` is a power of two |
| HashFamily.BucketIsRemainder | sketching/count_min_sketch.cpp:57 | For a power of two `k`, masking with `k - 1` is the remainder modulo `k` |
| HashFamily.Sign | sketching/count_sketch.cpp:91 | `(h & 1) * 2 - 1` as an `int8_t` is `+1` for odd `h` and `-1` for even `h`, never anything else |
| HashFamily.RowBucket | sketching/count_min_sketch.cpp:42-59 | The bucket of a key is below `k`, and it is the mixed hash modulo `k` |
| HashFamily.RowSign | sketching/count_sketch.cpp:76-91 | The sign of a key is `+1` or `-1`, and it is `+1` exactly when the mixed hash is odd |
| TableLayout.OccurrencesAtMostHits | sketching/count_min_sketch.cpp:63-66 | A key's own bucket in a row is hit at least as often as the key occurs in the stream |
| TableLayout.HitsCoverStream | sketching/count_min_sketch.cpp:63-66 | Summed over the `k` buckets of a row, the hits count every stream element exactly once |
| CountMin.CountMinSketch.constructor | sketching/count_min_sketch.cpp:7-27 | For a power-of-two `k` and drawn coefficients, the new sketch stores row `i`'s coefficients as `(a, b)`; its counters are zero, `m == 0` and `seen` is empty |
| CountMin.CountMinSketch.BucketHash | sketching/count_min_sketch.cpp:37-60 | A row's bucket for `x` is below `k` and equals the row's mixed hash of `x` modulo `k` |
| CountMin.CountMinSketch.BumpRows | sketching/count_min_sketch.cpp:63-66 | Each row's cell `BucketHash(x, row)` goes up by one and no other cell changes, so every cell again counts the hits of the extended stream |
| CountMin.CountMinSketch.Admit | sketching/count_min_sketch.cpp:70-73 | `x` joins `seen` exactly when the admission test passes on its estimate and `m`; nothing leaves `seen`, and `seen` keeps holding only added keys |
| CountMin.CountMinSketch.Add | sketching/count_min_sketch.cpp:62-74 | One cell per row goes up by one and every other cell is unchanged; `m` grows by one; `seen` gains `x` exactly when the test passes; `Size` never decreases; the invariant is kept |
| CountMin.CountMinSketch.RowTotalIsCount | sketching/count_min_sketch.cpp:62-68 | Every row's counters sum to `m` |
| CountMin.CountMinSketch.RowTotalIsHits | sketching/count_min_sketch.cpp:63-66 | The first `n` counters of a row sum to the number of stream elements hashed below column `n` |
| CountMin.CountMinSketch.Estimate | sketching/count_min_sketch.cpp:77-84 | The loop with a running minimum started at `UINT64_MAX` returns the minimum of the key's cells over the `t` rows |
| CountMin.CountMinSketch.RowMinimumIsLeast | sketching/count_min_sketch.cpp:78-83 | That minimum is at most each of the key's cells, and for `t > 0` it is one of them |
| CountMin.CountMinSketch.NeverUnderestimates | sketching/count_min_sketch.cpp:62-84 | The estimate is at least the key's true frequency |
| CountMin.CountMinSketch.EstimateAtMostCount | sketching/count_min_sketch.cpp:77-84 | With at least one row, the estimate is at most `m` |
| CountMin.CountMinSketch.HeavyHitters | sketching/count_min_sketch.cpp:86-98 | The result is in non-increasing order and holds exactly the pairs `(Estimate(x), x)` for `x` in `seen` with `Estimate(x) >= threshold`; it is empty before any `Add` |
| CountMin.CountMinSketch.Size | sketching/count_min_sketch.cpp:100-102 | The size is at least the object size plus 8 bytes for each of `3 + t*k + k*2` words, and at most that plus 8 bytes for each of the `m` keys added |
| CountSketching.SignedHitsBounded | sketching/count_sketch.cpp:95-99 | A signed counter's magnitude never exceeds the number of stream elements hashed to its cell |
| CountSketching.SignedHitsOfConstant | sketching/count_sketch.cpp:95-99 | On a stream of copies of `x`, the cell of `x` holds the stream length times the row's sign of `x` |
| CountSketching.CountSketch.constructor | sketching/count_sketch.cpp:4-36 | For `t >= 1`, a power-of-two `k` and drawn coefficients, the new sketch stores row `i`'s coefficients as `(a1, b1, a2, b2)`; its counters are zero, `m == 0` and `seen` is empty |
| CountSketching.CountSketch.BucketHash | sketching/count_sketch.cpp:46-69 | A row's bucket for `x` is below `k` and equals the row's first mixed hash of `x` modulo `k` |
| CountSketching.CountSketch.UpdateHash | sketching/count_sketch.cpp:71-92 | The update is `+1` or `-1`, and it is `+1` exactly when the row's second mixed hash of `x` is odd |
| CountSketching.CountSketch.UpdateRows | sketching/count_sketch.cpp:95-99 | Each row's cell `BucketHash(x, row)` changes by `UpdateHash(x, row)` and no other cell changes, so every cell again holds the signed count of the extended stream |
| CountSketching.CountSketch.Admit | sketching/count_sketch.cpp:103-106 | `x` joins `seen` exactly when the admission test passes on its estimate and `m`; nothing leaves `seen`, and `seen` keeps holding only added keys |
| CountSketching.CountSketch.Add | sketching/count_sketch.cpp:94-107 | One cell per row moves by the row's sign and every other cell is unchanged; `m` grows by one; `seen` gains `x` exactly when the test passes; `Size` never decreases; the invariant is kept |
| CountSketching.CountSketch.CellBound | sketching/count_sketch.cpp:94-101 | Every counter lies between `-m` and `m` |
| CountSketching.CountSketch.RowMagnitudeBound | sketching/count_sketch.cpp:94-101 | The absolute values of a row's counters sum to at most `m` |
| CountSketching.CountSketch.ReadingBounded | sketching/count_sketch.cpp:112-117 | Each sign-corrected reading lies between minus the stream length and the stream length |
| CountSketching.CountSketch.ReadAll | sketching/count_sketch.cpp:110-117 | The filled vector holds, row by row, the row's sign times the key's cell |
| CountSketching.CountSketch.Estimate | sketching/count_sketch.cpp:109-122 | The result is the `t / 2`-th smallest sign-corrected reading, or 0 when that is negative |
| CountSketching.CountSketch.EstimateBounded | sketching/count_sketch.cpp:119-121 | The estimate never exceeds `m` |
| CountSketching.CountSketch.SingleKeyExact | sketching/count_sketch.cpp:94-122 | When every added key is `x`, the estimate of `x` is exactly `m` |
| CountSketching.CountSketch.Report | sketching/count_sketch.cpp:129-132 | One loop iteration keeps the result ordered and adds the entry `(Estimate(y), y)` exactly when the estimate reaches the threshold |
| CountSketching.CountSketch.HeavyHitters | sketching/count_sketch.cpp:124-136 | The result is in non-increasing order and holds exactly the pairs `(Estimate(x), x)` for `x` in `seen` with `Estimate(x) >= threshold`; it is empty before any `Add` |
| CountSketching.CountSketch.Size | sketching/count_sketch.cpp:138-140 | The size is at least the object size plus 8 bytes for each of `3 + t*k + k*4` words, and at most that plus 8 bytes for each of the `m` keys added |
| OrderStatistic.NthElement | sketching/count_sketch.cpp:120 | The array is permuted so that nothing before position `n` is larger than the element at `n` and nothing after it is smaller |
| OrderStatistic.SelectInPlace | sketching/count_sketch.cpp:120-121 | The element left at position `n` is the `n`-th smallest of the original contents, and the contents are only permuted |
| OrderStatistic.SelectionFound | sketching/count_sketch.cpp:120 | Any permutation partitioned around position `n` has the `n`-th smallest element of the original there |
| OrderStatistic.OrderStatisticUnique | sketching/count_sketch.cpp:120 | A sequence has only one `n`-th smallest value |
| OrderStatistic.OrderStatisticOfPermutation | sketching/count_sketch.cpp:120 | Permuting a sequence does not change its `n`-th smallest value |
| OrderStatistic.SelectOfConstant | sketching/count_sketch.cpp:120-121 | The `n`-th smallest of a constant sequence is that constant |
| Ranking.Insert | sketching/count_min_sketch.cpp:93 | Inserting into the count-descending multimap keeps it in non-increasing order and adds exactly the one entry |
| Ranking.QualifyingMembers | sketching/count_min_sketch.cpp:90-95 | An entry is reported exactly when its key is a candidate and it carries that key's estimate, which reaches the threshold |
| Ranking.QualifyingVisit | sketching/count_min_sketch.cpp:90-95 | Visiting one more candidate adds its entry to the reported set exactly when its estimate reaches the threshold |

## Left out

- Random coefficient generation (`std::random_device`, `std::mt19937_64`) is not modelled. The coefficients are constructor parameters constrained as they are drawn: `0 < a < LARGE_PRIME` and `0 <= b < LARGE_PRIME`.
- `LARGE_PRIME` and `MIN_PHI` are defined in `hashutil.h`, which is not part of this model. `LARGE_PRIME` is the constructor parameter `prime`. It is a 64-bit value, because the coefficients are drawn as `uint64_t` below it.
- The test `Estimate(x) >= m * MIN_PHI` is floating point. It is the constructor parameter `admit`, applied to the estimate and `m`.
- `phi * m` truncated to `uint64_t` is floating point. `HeavyHitters` takes the truncated `threshold` as a natural number instead of `phi`.
- The source comment says that `hi + lo` is congruent to `u` modulo `LARGE_PRIME`. That holds only for the Mersenne modulus 2^89 - 1, so it is not claimed. The hashes are modelled as the bit operations the code performs.
- Pairwise independence, unbiasedness and the error-probability bounds of the two random sketches are statistical claims about the coefficient draw, not per-run facts, so they are not modelled.
- `malloc`, `free` and the destructors are not modelled. Dafny arrays are garbage-collected.
- The tables are `malloc`'d without being cleared. The model starts them at zero, which is what every estimate guarantee assumes.
- `MisraGries` never initialises `m`. The model starts it at 0.
- The flat `row * k + col` buffers are two-dimensional arrays indexed `[row, col]`. The coefficient buffers are `t x 2` and `t x 4` arrays.
- `sizeof(*this)` is the `objectBytes` parameter of each `Size`. The coefficient term of `Size` uses `k * 2` and `k * 4` words, as the code has it, although the buffers hold `t * 2` and `t * 4`.
- The iteration order of `std::unordered_map` and `std::unordered_set`, and the order of equal counts in the `multimap`, are unspecified. Each `HeavyHitters` result is therefore specified as a multiset of entries in non-increasing count order.
- `std::nth_element` is library code whose algorithm is unspecified. It is modelled by a partial selection sort with the same guarantee: the array is permuted and partitioned around position `n`.
- MisraGriesSketch.MisraGries.Add: `m` and the counters are unbounded naturals, so the 64-bit wrap of `m++` after 2^64 calls is not modelled.
- MisraGriesSketch.MisraGries.constructor: `k == 0` is accepted, as in the code. The capacity `k - 1` then wraps to `UINT64_MAX`, and the bound `m / k` is read as `m / 2^64`.
- CountMin.CountMinSketch.Add: requires `m < UINT64_MAX`, so no 64-bit counter wraps. The code would wrap silently.
- CountSketching.CountSketch.Add: requires `m < INT64_MAX`, so no signed 64-bit counter overflows. The code has undefined behaviour there.
- CountSketching.CountSketch.constructor: requires `t >= 1`. With no rows, `Estimate` would read `counters[0]` of an empty vector.
- CountMin.CountMinSketch.EstimateAtMostCount: stated for `t > 0`. With no rows, the estimate is the `UINT64_MAX` sentinel.
- MisraGriesSketch.MisraGries.Size, CountMin.CountMinSketch.Size, CountSketching.CountSketch.Size: state bounds rather than the exact formula. The bounds are the ones that matter to a caller.
- `sketching/sketch.hpp` (declarations only) and `test.cc` (the benchmark driver, with timing, Zipf input and precision/recall in floating point) are not part of this model.
