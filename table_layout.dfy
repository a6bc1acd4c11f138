/**
  The counting tables of both probabilistic sketches have `t` rows of `k`
  counters. Row `row` of a table hashes every added key to one of its `k` columns.
  `Hits` counts the stream elements a row sends to a column: that count
  is what a Count-Min cell holds, and it bounds a Count Sketch cell.
 */
module TableLayout {
  import opened Keys
  import opened HashFamily

  /** The number of elements of `s` that the row with coefficients `c` sends to column `col`. */
  function Hits(c: Affine, prime: U64, k: U64, s: seq<Key>, col: nat): (n: nat)
    requires IsPowerOfTwo(k)
    ensures n <= |s|
  {
    if s == [] then 0
    else Hits(c, prime, k, s[..|s| - 1], col) + (if RowBucket(c, prime, k, s[|s| - 1]) == col then 1 else 0)
  }

  /** Adding `x` to the stream adds one hit to the column of `x` and to no other. */
  lemma HitsSnoc(c: Affine, prime: U64, k: U64, s: seq<Key>, x: Key, col: nat)
    requires IsPowerOfTwo(k)
    ensures Hits(c, prime, k, s + [x], col) == Hits(c, prime, k, s, col) + (if RowBucket(c, prime, k, x) == col then 1 else 0)
  {
    assert (s + [x])[..|s|] == s;
  }

  /** Every occurrence of `x` is a hit on the column of `x`. */
  lemma {:induction false} OccurrencesAtMostHits(c: Affine, prime: U64, k: U64, s: seq<Key>, x: Key)
    requires IsPowerOfTwo(k)
    ensures Occurrences(s, x) <= Hits(c, prime, k, s, RowBucket(c, prime, k, x))
  {
    if s != [] {
      OccurrencesAtMostHits(c, prime, k, s[..|s| - 1], x);
    }
  }

  /** The hits on columns `0 .. n - 1` of one row together. */
  function HitsBelow(c: Affine, prime: U64, k: U64, s: seq<Key>, n: nat): nat
    requires IsPowerOfTwo(k)
  {
    if n == 0 then 0 else HitsBelow(c, prime, k, s, n - 1) + Hits(c, prime, k, s, n - 1)
  }

  /** Every stream element lands in exactly one column, so a row's hits add up to the stream length. */
  lemma {:induction false} HitsCoverStream(c: Affine, prime: U64, k: U64, s: seq<Key>)
    requires IsPowerOfTwo(k)
    ensures HitsBelow(c, prime, k, s, k) == |s|
  {
    if s == [] {
      HitsBelowEmpty(c, prime, k, k);
    } else {
      var init := s[..|s| - 1];
      assert s == init + [s[|s| - 1]];
      HitsCoverStream(c, prime, k, init);
      HitsBelowSnoc(c, prime, k, init, s[|s| - 1], k);
    }
  }

  lemma {:induction false} HitsBelowEmpty(c: Affine, prime: U64, k: U64, n: nat)
    requires IsPowerOfTwo(k)
    ensures HitsBelow(c, prime, k, [], n) == 0
  {
    if n > 0 {
      HitsBelowEmpty(c, prime, k, n - 1);
    }
  }

  lemma {:induction false} HitsBelowSnoc(c: Affine, prime: U64, k: U64, s: seq<Key>, x: Key, n: nat)
    requires IsPowerOfTwo(k)
    ensures HitsBelow(c, prime, k, s + [x], n) ==
            HitsBelow(c, prime, k, s, n) + (if RowBucket(c, prime, k, x) < n then 1 else 0)
  {
    if n > 0 {
      HitsBelowSnoc(c, prime, k, s, x, n - 1);
      HitsSnoc(c, prime, k, s, x, n - 1);
    }
  }
}
