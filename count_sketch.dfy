/**
  The Count Sketch: `t` rows of `k` signed counters. In every row `Add(x)`
  adds the row's sign of `x` (+1 or -1) to the counter of the bucket the
  row hashes `x` to. `Estimate(x)` multiplies each row's counter of `x` by
  that row's sign of `x`, takes the middle one of the `t` readings (the
  `t / 2`-th smallest, counting from 0) and clamps it at 0.

  Like the Count-Min Sketch it keeps `seen`, the keys admitted as
  heavy-hitter candidates right after being added.
 */
module CountSketching {
  import opened Keys
  import opened HashFamily
  import opened TableLayout
  import opened Ranking
  import opened OrderStatistic

  /**
    The sum of the signs, under sign coefficients `d`, of the elements of
    `s` that bucket coefficients `c` send to column `col`: what a Count
    Sketch counter holds.
   */
  function SignedHits(c: Affine, d: Affine, prime: U64, k: U64, s: seq<Key>, col: nat): int
    requires IsPowerOfTwo(k)
  {
    if s == [] then 0
    else
      var x := s[|s| - 1];
      SignedHits(c, d, prime, k, s[..|s| - 1], col) + (if RowBucket(c, prime, k, x) == col then RowSign(d, prime, x) else 0)
  }

  /** A counter's magnitude never exceeds the number of elements its row sent to it. */
  lemma {:induction false} SignedHitsBounded(c: Affine, d: Affine, prime: U64, k: U64, s: seq<Key>, col: nat)
    requires IsPowerOfTwo(k)
    ensures -(Hits(c, prime, k, s, col) as int) <= SignedHits(c, d, prime, k, s, col) <= Hits(c, prime, k, s, col)
  {
    if s != [] {
      SignedHitsBounded(c, d, prime, k, s[..|s| - 1], col);
    }
  }

  /** Adding `x` changes only the counter of its bucket, by its sign. */
  lemma SignedHitsSnoc(c: Affine, d: Affine, prime: U64, k: U64, s: seq<Key>, x: Key, col: nat)
    requires IsPowerOfTwo(k)
    ensures SignedHits(c, d, prime, k, s + [x], col) ==
            SignedHits(c, d, prime, k, s, col) + (if RowBucket(c, prime, k, x) == col then RowSign(d, prime, x) else 0)
  {
    assert (s + [x])[..|s|] == s;
  }

  /** On a stream of copies of `x`, the counter of the bucket of `x` is the stream length times the sign of `x`. */
  lemma {:induction false} SignedHitsOfConstant(c: Affine, d: Affine, prime: U64, k: U64, s: seq<Key>, x: Key)
    requires IsPowerOfTwo(k)
    requires forall i :: 0 <= i < |s| ==> s[i] == x
    ensures SignedHits(c, d, prime, k, s, RowBucket(c, prime, k, x)) == if RowSign(d, prime, x) == 1 then |s| else -(|s| as int)
  {
    if s != [] {
      SignedHitsOfConstant(c, d, prime, k, s[..|s| - 1], x);
    }
  }

  class CountSketch {
    /** Number of rows (pairs of hash functions). */
    const t: U64
    /** Number of counters per row, a power of two. */
    const k: U64
    /** The modulus the coefficients are drawn below (`LARGE_PRIME`). */
    const prime: U64
    /** The admission test `estimate >= m * MIN_PHI` that puts a key into `seen`. */
    const admit: (nat, nat) -> bool
    /** The signed 64-bit counters: row `row`, column `col` is `table[row, col]`. */
    const table: array2<I64>
    /**
      The coefficients of row `row`: `a1, b1` of the bucket hash at columns
      0 and 1, `a2, b2` of the sign hash at columns 2 and 3.
     */
    const hashCoeffs: array2<U64>
    /** Number of `Add` calls so far. */
    var m: nat
    /** Heavy-hitter candidates. */
    var seen: set<Key>
    /** The keys added so far, in order. */
    ghost var stream: seq<Key>

    /** At least one row, and buffers of the sizes the constructor allocates. */
    ghost predicate Shaped()
    {
      && t >= 1
      && IsPowerOfTwo(k)
      && table.Length0 == t && table.Length1 == k
      && hashCoeffs.Length0 == t && hashCoeffs.Length1 == 4
    }

    /** The bucket hash coefficients of row `row`. */
    function BucketCoeffs(row: nat): Affine
      reads hashCoeffs
      requires hashCoeffs.Length0 == t && hashCoeffs.Length1 == 4 && row < t
    {
      Affine(hashCoeffs[row, 0], hashCoeffs[row, 1])
    }

    /** The sign hash coefficients of row `row`. */
    function SignCoeffs(row: nat): Affine
      reads hashCoeffs
      requires hashCoeffs.Length0 == t && hashCoeffs.Length1 == 4 && row < t
    {
      Affine(hashCoeffs[row, 2], hashCoeffs[row, 3])
    }

    /**
      Every counter holds the signed hits of its column, and the stream is
      short enough for every counter to fit in 64 bits.
     */
    ghost predicate Counts()
      reads this`stream, table, hashCoeffs
    {
      && Shaped()
      && |stream| <= INT64_MAX
      && forall row: nat, col: nat :: row < t && col < k ==>
           table[row, col] == SignedHits(BucketCoeffs(row), SignCoeffs(row), prime, k, stream, col)
    }

    /** `m` counts the stream and `seen` holds only added keys. */
    ghost predicate Candidates()
      reads this
    {
      m == |stream| && forall y :: y in seen ==> y in stream
    }

    /** The counters match the stream, the coefficients are as drawn, and the candidates are added keys. */
    ghost predicate Valid()
      reads this, table, hashCoeffs
    {
      && Counts()
      && (forall row: nat :: row < t ==> Drawn(BucketCoeffs(row), prime) && Drawn(SignCoeffs(row), prime))
      && Candidates()
    }

    /**
      An empty sketch whose row `i` uses the bucket coefficients
      `bucketCoeffs[i]` and the sign coefficients `signCoeffs[i]`. The
      counters start at zero.
     */
    constructor (t: U64, k: U64, prime: U64, bucketCoeffs: seq<Affine>, signCoeffs: seq<Affine>, admit: (nat, nat) -> bool)
      requires t >= 1 && IsPowerOfTwo(k)
      requires |bucketCoeffs| == t && |signCoeffs| == t
      requires forall i :: 0 <= i < t ==> Drawn(bucketCoeffs[i], prime) && Drawn(signCoeffs[i], prime)
      ensures Valid()
      ensures this.t == t && this.k == k && this.prime == prime && this.admit == admit
      ensures forall row: nat :: row < t ==> BucketCoeffs(row) == bucketCoeffs[row] && SignCoeffs(row) == signCoeffs[row]
      ensures forall row: nat, col: nat :: row < t && col < k ==> table[row, col] == 0
      ensures m == 0 && seen == {} && stream == []
      ensures fresh(table) && fresh(hashCoeffs)
    {
      this.t := t;
      this.k := k;
      this.prime := prime;
      this.admit := admit;
      table := new I64[t, k]((_, _) => 0);
      var layout := new U64[t, 4];
      for row := 0 to t
        modifies layout
        invariant forall r: nat :: r < row ==>
                    && layout[r, 0] == bucketCoeffs[r].a && layout[r, 1] == bucketCoeffs[r].b
                    && layout[r, 2] == signCoeffs[r].a && layout[r, 3] == signCoeffs[r].b
      {
        layout[row, 0] := bucketCoeffs[row].a;
        layout[row, 1] := bucketCoeffs[row].b;
        layout[row, 2] := signCoeffs[row].a;
        layout[row, 3] := signCoeffs[row].b;
      }
      hashCoeffs := layout;
      m := 0;
      seen := {};
      stream := [];
    }

    /** The bucket row `row` hashes `x` to. */
    function BucketHash(x: Key, row: nat): (r: nat)
      reads hashCoeffs
      requires IsPowerOfTwo(k) && hashCoeffs.Length0 == t && hashCoeffs.Length1 == 4 && row < t
      ensures r < k
      ensures r == Mix(BucketCoeffs(row).a, BucketCoeffs(row).b, prime, x) % k
    {
      RowBucket(BucketCoeffs(row), prime, k, x)
    }

    /** The sign row `row` gives `x`: +1 when the mixed sign hash is odd, -1 when it is even. */
    function UpdateHash(x: Key, row: nat): (r: int)
      reads hashCoeffs
      requires hashCoeffs.Length0 == t && hashCoeffs.Length1 == 4 && row < t
      ensures r == 1 || r == -1
      ensures r == 1 <==> Mix(SignCoeffs(row).a, SignCoeffs(row).b, prime, x) % 2 == 1
    {
      RowSign(SignCoeffs(row), prime, x)
    }

    /** Counts one occurrence of `x`, then admits `x` as a candidate if its new estimate passes the test. */
    method Add(x: Key)
      requires Valid()
      requires m < INT64_MAX
      modifies this, table
      ensures Valid()
      ensures m == old(m) + 1 && stream == old(stream) + [x]
      ensures forall row: nat, col: nat :: row < t && col < k ==>
                table[row, col] == old(table[row, col]) + (if col == BucketHash(x, row) then UpdateHash(x, row) else 0)
      ensures seen == old(seen) + (if admit(EstimateOf(x), m) then {x} else {})
      ensures forall objectBytes: nat :: old(Size(objectBytes)) <= Size(objectBytes)
    {
      UpdateRows(x);
      m := m + 1;
      stream := stream + [x];
      Admit(x);
    }

    /** The end of `Add`: `x` becomes a candidate when its estimate passes the admission test. */
    method Admit(x: Key)
      requires Shaped() && Candidates() && x in stream
      modifies this`seen
      ensures Candidates()
      ensures seen == old(seen) + (if admit(EstimateOf(x), m) then {x} else {})
      ensures |old(seen)| <= |seen|
    {
      var estimate := Estimate(x);
      if admit(estimate, m) {
        InsertGrows(seen, x);
        seen := seen + {x};
      }
    }

    /** The row loop of `Add`: in every row the counter that `x` hashes to moves by the sign of `x`. */
    method UpdateRows(x: Key)
      requires Counts() && |stream| < INT64_MAX
      modifies table
      ensures forall row: nat, col: nat :: row < t && col < k ==>
                table[row, col] == old(table[row, col]) + (if col == BucketHash(x, row) then UpdateHash(x, row) else 0)
      ensures forall row: nat, col: nat :: row < t && col < k ==>
                table[row, col] == SignedHits(BucketCoeffs(row), SignCoeffs(row), prime, k, stream + [x], col)
    {
      for row := 0 to t
        invariant forall r: nat, c: nat :: r < t && c < k ==>
                    table[r, c] == old(table[r, c]) + (if r < row && c == BucketHash(x, r) then UpdateHash(x, r) else 0)
      {
        var bucket := BucketHash(x, row);
        var update := UpdateHash(x, row);
        assert table[row, bucket] == old(table[row, bucket]);
        SignedHitsBounded(BucketCoeffs(row), SignCoeffs(row), prime, k, stream, bucket);
        table[row, bucket] := table[row, bucket] + update;
      }
      forall row: nat, col: nat | row < t && col < k
        ensures table[row, col] == SignedHits(BucketCoeffs(row), SignCoeffs(row), prime, k, stream + [x], col)
      {
        SignedHitsSnoc(BucketCoeffs(row), SignCoeffs(row), prime, k, stream, x, col);
      }
    }

    /** Row `row`'s reading of `x`: its counter of `x` times its sign of `x`. */
    function Reading(x: Key, row: nat): int
      reads table, hashCoeffs
      requires Shaped() && row < t
    {
      var count: int := table[row, BucketHash(x, row)];
      if UpdateHash(x, row) == 1 then count else -count
    }

    /** The readings of `x` in rows `0 .. n - 1`, in row order. */
    function Readings(x: Key, n: nat): (r: seq<int>)
      reads table, hashCoeffs
      requires Shaped() && n <= t
      ensures |r| == n
    {
      if n == 0 then [] else Readings(x, n - 1) + [Reading(x, n - 1)]
    }

    /** Position `row` of the readings is the reading of row `row`. */
    lemma {:induction false} ReadingsAt(x: Key, n: nat)
      requires Shaped() && n <= t
      ensures forall row :: 0 <= row < n ==> Readings(x, n)[row] == Reading(x, row)
    {
      if n > 0 {
        ReadingsAt(x, n - 1);
      }
    }

    /** No reading is further from 0 than the stream is long. */
    lemma ReadingBounded(x: Key, row: nat)
      requires Counts() && row < t
      ensures -(|stream| as int) <= Reading(x, row) <= |stream|
    {
      SignedHitsBounded(BucketCoeffs(row), SignCoeffs(row), prime, k, stream, BucketHash(x, row));
    }

    /** The estimate of `x`: the `t / 2`-th smallest reading, or 0 if that is negative. */
    ghost function EstimateOf(x: Key): nat
      reads table, hashCoeffs
      requires Shaped()
    {
      var median := Select(Readings(x, t), t / 2);
      if median > 0 then median else 0
    }

    /** An estimate never exceeds the number of elements added. */
    lemma EstimateBounded(x: Key)
      requires Valid()
      ensures EstimateOf(x) <= m
    {
      var readings := Readings(x, t);
      var median := Select(readings, t / 2);
      SelectIsOrderStatistic(readings, t / 2);
      ReadingsAt(x, t);
      var row :| 0 <= row < |readings| && readings[row] == median;
      ReadingBounded(x, row);
    }

    /** The row loop of `Estimate`: a fresh vector holding the reading of `x` in every row. */
    method ReadAll(x: Key) returns (counters: array<int>)
      requires Shaped()
      ensures fresh(counters)
      ensures counters[..] == Readings(x, t)
    {
      counters := new int[t];
      for row := 0 to t
        modifies counters
        invariant forall r :: 0 <= r < row ==> counters[r] == Reading(x, r)
      {
        var bucket := BucketHash(x, row);
        var sign := UpdateHash(x, row);
        var cell: int := table[row, bucket];
        counters[row] := if sign == 1 then cell else -cell;
      }
      ReadingsAt(x, t);
    }

    /**
      `Estimate(x)`: the readings go into a fresh vector, `nth_element`
      brings the `t / 2`-th smallest to the middle, and negative values are
      clamped to 0.
     */
    method Estimate(x: Key) returns (r: nat)
      requires Shaped()
      ensures r == EstimateOf(x)
    {
      var counters := ReadAll(x);
      var middle := SelectInPlace(counters, t / 2);
      r := if middle > 0 then middle else 0;
    }

    /** If every element added so far is `x`, the estimate of `x` is exact: every reading is `m`. */
    lemma SingleKeyExact(x: Key)
      requires Valid()
      requires forall i :: 0 <= i < |stream| ==> stream[i] == x
      ensures EstimateOf(x) == m
    {
      var readings := Readings(x, t);
      ReadingsAt(x, t);
      forall row | 0 <= row < t
        ensures readings[row] == m
      {
        SignedHitsOfConstant(BucketCoeffs(row), SignCoeffs(row), prime, k, stream, x);
      }
      SelectOfConstant(readings, t / 2, m);
    }

    /** Every counter lies between `-m` and `m`. */
    lemma CellBound(row: nat, col: nat)
      requires Valid() && row < t && col < k
      ensures -(m as int) <= table[row, col] <= m
    {
      SignedHitsBounded(BucketCoeffs(row), SignCoeffs(row), prime, k, stream, col);
    }

    /** The magnitudes of one row's counters, columns `0 .. n - 1`, added up. */
    function RowMagnitude(row: nat, n: nat): nat
      reads table
      requires table.Length0 == t && table.Length1 == k && row < t && n <= k
    {
      if n == 0 then 0
      else
        var count: int := table[row, n - 1];
        RowMagnitude(row, n - 1) + (if count < 0 then -count else count)
    }

    /** The magnitudes of each row's counters add up to at most `m`. */
    lemma RowMagnitudeBound(row: nat)
      requires Valid() && row < t
      ensures RowMagnitude(row, k) <= m
    {
      RowMagnitudeBelowHits(row, k);
      HitsCoverStream(BucketCoeffs(row), prime, k, stream);
    }

    lemma {:induction false} RowMagnitudeBelowHits(row: nat, n: nat)
      requires Valid() && row < t && n <= k
      ensures RowMagnitude(row, n) <= HitsBelow(BucketCoeffs(row), prime, k, stream, n)
    {
      if n > 0 {
        RowMagnitudeBelowHits(row, n - 1);
        SignedHitsBounded(BucketCoeffs(row), SignCoeffs(row), prime, k, stream, n - 1);
      }
    }

    /** The estimates of the candidate keys. */
    ghost function Estimates(): map<Key, nat>
      reads this`seen, table, hashCoeffs
      requires Shaped()
    {
      map y | y in seen :: EstimateOf(y)
    }

    /** The `(estimate, key)` pairs of the candidates whose estimate reaches `threshold`, highest estimate first. */
    method HeavyHitters(threshold: nat) returns (hh: seq<Entry>)
      requires Shaped() && Candidates()
      ensures NonIncreasing(hh)
      ensures multiset(hh) == multiset(Qualifying(Estimates(), seen, threshold))
      ensures m == 0 ==> hh == []
    {
      hh := [];
      ghost var estimates := Estimates();
      var pending := seen;
      while pending != {}
        invariant pending <= seen && unchanged(this, table, hashCoeffs)
        invariant NonIncreasing(hh)
        invariant multiset(hh) == multiset(Qualifying(estimates, seen - pending, threshold))
        decreases pending
      {
        var y :| y in pending;
        QualifyingVisit(estimates, seen, pending, y, threshold);
        hh := Report(hh, y, threshold, estimates[y]);
        pending := pending - {y};
      }
      assert seen - pending == seen;
      if m == 0 {
        assert seen == {};
      }
    }

    /** One step of `HeavyHitters`: `y` is ranked into `hh` when its estimate reaches `threshold`. */
    method Report(hh: seq<Entry>, y: Key, threshold: nat, ghost estimate: nat) returns (ranked: seq<Entry>)
      requires Shaped() && NonIncreasing(hh) && estimate == EstimateOf(y)
      ensures NonIncreasing(ranked)
      ensures multiset(ranked) == multiset(hh) + if estimate >= threshold then multiset{Entry(estimate, y)} else multiset{}
    {
      ranked := hh;
      var count := Estimate(y);
      if count >= threshold {
        ranked := Insert(hh, Entry(count, y));
      }
    }

    /**
      Bytes used: the object, three words, the table, `4 * k` coefficient
      words and one word per candidate; there are never more candidates
      than elements added.
     */
    function Size(objectBytes: nat): (r: nat)
      reads this
      requires Candidates()
      ensures objectBytes + 8 * (3 + t * k + 4 * k) <= r <= objectBytes + 8 * (3 + t * k + 4 * k + m)
    {
      DrawnKeysBound(seen, stream);
      objectBytes + (3 + t * k + k * 4 + |seen|) * 8
    }
  }
}
