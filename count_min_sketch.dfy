/**
  The Count-Min Sketch: `t` rows of `k` unsigned counters. `Add(x)` bumps,
  in every row, the counter of the bucket that row hashes `x` to;
  `Estimate(x)` is the least of those `t` counters. Because every
  occurrence of `x` bumps each of its counters, the estimate never falls
  below the true frequency.

  The sketch also keeps `seen`, the keys whose estimate passed an admission
  test right after they were added; `HeavyHitters` reports from those keys.
 */
module CountMin {
  import opened Keys
  import opened HashFamily
  import opened TableLayout
  import opened Ranking

  class CountMinSketch {
    /** Number of rows (hash functions). */
    const t: U64
    /** Number of counters per row, a power of two. */
    const k: U64
    /** The modulus the coefficients are drawn below (`LARGE_PRIME`). */
    const prime: U64
    /** The admission test `estimate >= m * MIN_PHI` that puts a key into `seen`. */
    const admit: (nat, nat) -> bool
    /** The counters: row `row`, column `col` is `table[row, col]`. */
    const table: array2<U64>
    /** The coefficients of row `row`: `a` is `hashCoeffs[row, 0]`, `b` is `hashCoeffs[row, 1]`. */
    const hashCoeffs: array2<U64>
    /** Number of `Add` calls so far. */
    var m: nat
    /** Heavy-hitter candidates. */
    var seen: set<Key>
    /** The keys added so far, in order. */
    ghost var stream: seq<Key>

    /** The table and coefficient buffers have the sizes the constructor allocates. */
    ghost predicate Shaped()
    {
      && IsPowerOfTwo(k)
      && table.Length0 == t && table.Length1 == k
      && hashCoeffs.Length0 == t && hashCoeffs.Length1 == 2
      && table != hashCoeffs
    }

    /** The coefficients of row `row`. */
    function Coeffs(row: nat): Affine
      reads hashCoeffs
      requires hashCoeffs.Length0 == t && hashCoeffs.Length1 == 2 && row < t
    {
      Affine(hashCoeffs[row, 0], hashCoeffs[row, 1])
    }

    /**
      Every counter holds the number of stream elements its row hashed to it,
      and the stream is short enough for every counter to fit in 64 bits.
     */
    ghost predicate Counts()
      reads this`stream, table, hashCoeffs
    {
      && Shaped()
      && |stream| <= UINT64_MAX
      && forall row: nat, col: nat :: row < t && col < k ==> table[row, col] == Hits(Coeffs(row), prime, k, stream, col)
    }

    /**
      The counters match the stream, the coefficients are as drawn, `m`
      counts the stream and `seen` holds only added keys.
     */
    ghost predicate Valid()
      reads this, table, hashCoeffs
    {
      && Counts()
      && (forall row: nat :: row < t ==> Drawn(Coeffs(row), prime))
      && Candidates()
    }

    /** `m` counts the stream and `seen` holds only added keys. */
    ghost predicate Candidates()
      reads this
    {
      m == |stream| && forall y :: y in seen ==> y in stream
    }

    /**
      An empty sketch whose row `i` uses the coefficients `coeffs[i]`, laid
      out as `a` then `b` for each row. The counters start at zero.
     */
    constructor (t: U64, k: U64, prime: U64, coeffs: seq<Affine>, admit: (nat, nat) -> bool)
      requires IsPowerOfTwo(k)
      requires |coeffs| == t
      requires forall i :: 0 <= i < |coeffs| ==> Drawn(coeffs[i], prime)
      ensures Valid()
      ensures this.t == t && this.k == k && this.prime == prime && this.admit == admit
      ensures forall row: nat :: row < t ==> Coeffs(row) == coeffs[row]
      ensures forall row: nat, col: nat :: row < t && col < k ==> table[row, col] == 0
      ensures m == 0 && seen == {} && stream == []
      ensures fresh(table) && fresh(hashCoeffs)
    {
      this.t := t;
      this.k := k;
      this.prime := prime;
      this.admit := admit;
      table := new U64[t, k]((_, _) => 0);
      var layout := new U64[t, 2];
      for row := 0 to t
        modifies layout
        invariant forall r: nat :: r < row ==> layout[r, 0] == coeffs[r].a && layout[r, 1] == coeffs[r].b
      {
        layout[row, 0] := coeffs[row].a;
        layout[row, 1] := coeffs[row].b;
      }
      hashCoeffs := layout;
      m := 0;
      seen := {};
      stream := [];
      new;
    }

    /** The bucket row `row` hashes `x` to. */
    function BucketHash(x: Key, row: nat): (r: nat)
      reads hashCoeffs
      requires IsPowerOfTwo(k) && hashCoeffs.Length0 == t && hashCoeffs.Length1 == 2 && row < t
      ensures r < k
      ensures r == Mix(Coeffs(row).a, Coeffs(row).b, prime, x) % k
    {
      RowBucket(Coeffs(row), prime, k, x)
    }

    /** Counts one occurrence of `x`, then admits `x` as a candidate if its new estimate passes the test. */
    method Add(x: Key)
      requires Valid()
      requires m < UINT64_MAX
      modifies this, table
      ensures Valid()
      ensures m == old(m) + 1 && stream == old(stream) + [x]
      ensures forall row: nat, col: nat :: row < t && col < k ==>
                table[row, col] == old(table[row, col]) + (if col == BucketHash(x, row) then 1 else 0)
      ensures seen == old(seen) + (if admit(RowMinimum(x, t), m) then {x} else {})
      ensures forall objectBytes: nat :: old(Size(objectBytes)) <= Size(objectBytes)
    {
      BumpRows(x);
      m := m + 1;
      stream := stream + [x];
      Admit(x);
    }

    /** The end of `Add`: `x` becomes a candidate when its estimate passes the admission test. */
    method Admit(x: Key)
      requires Shaped() && Candidates() && x in stream
      modifies this`seen
      ensures Candidates()
      ensures seen == old(seen) + (if admit(RowMinimum(x, t), m) then {x} else {})
      ensures |old(seen)| <= |seen|
    {
      var estimate := Estimate(x);
      if admit(estimate, m) {
        InsertGrows(seen, x);
        seen := seen + {x};
      }
    }

    /** The row loop of `Add`: in every row the counter that `x` hashes to goes up by one. */
    method BumpRows(x: Key)
      requires Counts() && |stream| < UINT64_MAX
      modifies table
      ensures forall row: nat, col: nat :: row < t && col < k ==>
                table[row, col] == old(table[row, col]) + (if col == BucketHash(x, row) then 1 else 0)
      ensures forall row: nat, col: nat :: row < t && col < k ==>
                table[row, col] == Hits(Coeffs(row), prime, k, stream + [x], col)
    {
      for row := 0 to t
        invariant forall r: nat, c: nat :: r < t && c < k ==>
                    table[r, c] == old(table[r, c]) + (if r < row && c == BucketHash(x, r) then 1 else 0)
      {
        var bucket := BucketHash(x, row);
        assert table[row, bucket] == old(table[row, bucket]) <= |stream|;
        table[row, bucket] := table[row, bucket] + 1;
      }
      forall row: nat, col: nat | row < t && col < k
        ensures table[row, col] == Hits(Coeffs(row), prime, k, stream + [x], col)
      {
        HitsSnoc(Coeffs(row), prime, k, stream, x, col);
      }
    }

    /** The least of the counters of `x` in rows `0 .. n - 1`, starting from `UINT64_MAX`. */
    function RowMinimum(x: Key, n: nat): U64
      reads table, hashCoeffs
      requires Shaped() && n <= t
    {
      if n == 0 then UINT64_MAX
      else
        var rest := RowMinimum(x, n - 1);
        var here := table[n - 1, BucketHash(x, n - 1)];
        if here < rest then here else rest
    }

    /**
      The minimum lies at or below every counter of `x` in rows
      `0 .. n - 1`, and when `n > 0` it is one of them.
     */
    lemma {:induction false} RowMinimumIsLeast(x: Key, n: nat)
      requires Shaped() && n <= t
      ensures forall row: nat :: row < n ==> RowMinimum(x, n) <= table[row, BucketHash(x, row)]
      ensures n > 0 ==> exists row: nat :: row < n && RowMinimum(x, n) == table[row, BucketHash(x, row)]
    {
      if n > 0 {
        RowMinimumIsLeast(x, n - 1);
        var here := table[n - 1, BucketHash(x, n - 1)];
        if here < RowMinimum(x, n - 1) || n == 1 {
          assert RowMinimum(x, n) == here;
        } else {
          var row: nat :| row < n - 1 && RowMinimum(x, n - 1) == table[row, BucketHash(x, row)];
          assert RowMinimum(x, n) == table[row, BucketHash(x, row)];
        }
      }
    }

    /** The Count-Min guarantee: no estimate falls below the true frequency of its key. */
    lemma {:induction false} NeverUnderestimates(x: Key, n: nat)
      requires Counts() && n <= t
      ensures Occurrences(stream, x) <= RowMinimum(x, n)
    {
      if n > 0 {
        NeverUnderestimates(x, n - 1);
        OccurrencesAtMostHits(Coeffs(n - 1), prime, k, stream, x);
      }
    }

    /** With at least one row, no estimate exceeds the number of elements added. */
    lemma EstimateAtMostCount(x: Key)
      requires Valid() && t > 0
      ensures RowMinimum(x, t) <= m
    {
      RowMinimumIsLeast(x, t);
      assert table[0, BucketHash(x, 0)] == Hits(Coeffs(0), prime, k, stream, BucketHash(x, 0));
    }

    /** The estimated frequency of `x`: the least of its `t` counters. */
    method Estimate(x: Key) returns (r: U64)
      requires Shaped()
      ensures r == RowMinimum(x, t)
    {
      r := UINT64_MAX;
      for row := 0 to t
        invariant r == RowMinimum(x, row)
      {
        var bucket := BucketHash(x, row);
        var count := table[row, bucket];
        if count < r {
          r := count;
        }
      }
    }

    /** The estimates of the candidate keys. */
    ghost function Estimates(): map<Key, nat>
      reads this`seen, table, hashCoeffs
      requires Shaped()
    {
      map y | y in seen :: RowMinimum(y, t)
    }

    /**
      The `(estimate, key)` pairs of the candidates whose estimate reaches
      `threshold`, highest estimate first; nothing before the first `Add`.
     */
    method HeavyHitters(threshold: nat) returns (hh: seq<Entry>)
      requires Valid()
      ensures NonIncreasing(hh)
      ensures multiset(hh) == multiset(Qualifying(Estimates(), seen, threshold))
      ensures m == 0 ==> hh == []
    {
      hh := [];
      ghost var estimates := Estimates();
      var pending := seen;
      while pending != {}
        invariant pending <= seen
        invariant NonIncreasing(hh)
        invariant multiset(hh) == multiset(Qualifying(estimates, seen - pending, threshold))
        decreases pending
      {
        var y :| y in pending;
        QualifyingVisit(estimates, seen, pending, y, threshold);
        var count := Estimate(y);
        assert count == estimates[y];
        if count >= threshold {
          hh := Insert(hh, Entry(count, y));
        }
        pending := pending - {y};
      }
      assert seen - pending == seen;
      if m == 0 {
        assert seen == {};
      }
    }

    /**
      Bytes used: the object, three words, the table, `2 * k` coefficient
      words and one word per candidate; there are never more candidates
      than elements added.
     */
    function Size(objectBytes: nat): (r: nat)
      reads this
      requires Candidates()
      ensures objectBytes + 8 * (3 + t * k + 2 * k) <= r <= objectBytes + 8 * (3 + t * k + 2 * k + m)
    {
      DrawnKeysBound(seen, stream);
      objectBytes + (3 + t * k + k * 2 + |seen|) * 8
    }

    /** The counters of one row, columns `0 .. n - 1`, added up. */
    function RowTotal(row: nat, n: nat): nat
      reads table
      requires table.Length0 == t && table.Length1 == k && row < t && n <= k
    {
      if n == 0 then 0 else RowTotal(row, n - 1) + table[row, n - 1]
    }

    /** Each row's counters add up to the number of elements added. */
    lemma RowTotalIsCount(row: nat)
      requires Valid() && row < t
      ensures RowTotal(row, k) == m
    {
      RowTotalIsHits(row, k);
      HitsCoverStream(Coeffs(row), prime, k, stream);
    }

    lemma {:induction false} RowTotalIsHits(row: nat, n: nat)
      requires Valid() && row < t && n <= k
      ensures RowTotal(row, n) == HitsBelow(Coeffs(row), prime, k, stream, n)
    {
      if n > 0 {
        RowTotalIsHits(row, n - 1);
      }
    }
  }
}
