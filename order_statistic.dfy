/**
  The median read of the Count Sketch: `std::nth_element` followed by a
  look at the middle position.

  `IsOrderStatistic(s, j, v)` says that `v` is the `j`-th smallest element
  of `s` (counting from 0): at most `j` elements lie strictly below `v` and
  more than `j` lie at or below it. `NthElement` is the in-place selection
  that the source obtains from the standard library, specified by the
  standard's contract for it.
 */
module OrderStatistic {

  /** Number of elements of `s` strictly below `v`. */
  function CountBelow(s: seq<int>, v: int): (n: nat)
    ensures n <= |s|
  {
    if s == [] then 0
    else CountBelow(s[..|s| - 1], v) + (if s[|s| - 1] < v then 1 else 0)
  }

  /** Number of elements of `s` at or below `v`. */
  function CountAtMost(s: seq<int>, v: int): (n: nat)
    ensures n <= |s|
  {
    if s == [] then 0
    else CountAtMost(s[..|s| - 1], v) + (if s[|s| - 1] <= v then 1 else 0)
  }

  /** `v` is the `j`-th smallest element of `s`, counting from 0. */
  ghost predicate IsOrderStatistic(s: seq<int>, j: nat, v: int)
  {
    v in s && CountBelow(s, v) <= j < CountAtMost(s, v)
  }

  /** The `j`-th smallest element of `s`. */
  ghost function Select(s: seq<int>, j: nat): int
    requires j < |s|
  {
    OrderStatisticExists(s, j);
    var v :| IsOrderStatistic(s, j, v);
    v
  }

  /** `Select` picks an order statistic. */
  lemma SelectIsOrderStatistic(s: seq<int>, j: nat)
    requires j < |s|
    ensures IsOrderStatistic(s, j, Select(s, j))
  {
  }

  /** Every position of a non-empty sequence has an order statistic. */
  lemma {:induction false} OrderStatisticExists(s: seq<int>, j: nat)
    requires j < |s|
    ensures exists v :: IsOrderStatistic(s, j, v)
  {
    var i := IndexOfLeast(s);
    var least := s[i];
    var rest := Without(s, i);
    LeastOfRest(s, i);
    if j == 0 {
      CountsOfRemoval(s, i, least);
      CountBelowNone(rest, least);
      assert IsOrderStatistic(s, 0, least);
    } else {
      OrderStatisticExists(rest, j - 1);
      var v :| IsOrderStatistic(rest, j - 1, v);
      var p :| 0 <= p < |rest| && rest[p] == v;
      assert v in s by {
        assert rest[p] == if p < i then s[p] else s[p + 1];
      }
      CountsOfRemoval(s, i, v);
      assert IsOrderStatistic(s, j, v);
    }
  }

  /** `s` with the element at position `i` taken out. */
  function Without(s: seq<int>, i: nat): (r: seq<int>)
    requires i < |s|
    ensures |r| == |s| - 1
    ensures forall p :: 0 <= p < |r| ==> r[p] == if p < i then s[p] else s[p + 1]
  {
    s[..i] + s[i + 1..]
  }

  /** Taking out a least element leaves only elements at or above it. */
  lemma LeastOfRest(s: seq<int>, i: nat)
    requires i < |s|
    requires forall p :: 0 <= p < |s| ==> s[i] <= s[p]
    ensures forall p :: 0 <= p < |Without(s, i)| ==> s[i] <= Without(s, i)[p]
  {
  }

  /** Taking out one element lowers each count by whether that element is counted. */
  lemma CountsOfRemoval(s: seq<int>, i: nat, v: int)
    requires i < |s|
    ensures CountBelow(s, v) == CountBelow(Without(s, i), v) + (if s[i] < v then 1 else 0)
    ensures CountAtMost(s, v) == CountAtMost(Without(s, i), v) + (if s[i] <= v then 1 else 0)
  {
    assert s == s[..i] + [s[i]] + s[i + 1..];
    CountsOfConcat(s[..i] + [s[i]], s[i + 1..], v);
    CountsOfConcat(s[..i], [s[i]], v);
    CountsOfConcat(s[..i], s[i + 1..], v);
    assert CountBelow([s[i]], v) == (if s[i] < v then 1 else 0) by {
      assert [s[i]][..0] == [];
    }
    assert CountAtMost([s[i]], v) == (if s[i] <= v then 1 else 0) by {
      assert [s[i]][..0] == [];
    }
  }

  /** Taking out one element removes one copy of it from the multiset. */
  lemma MultisetOfRemoval(s: seq<int>, i: nat)
    requires i < |s|
    ensures multiset(Without(s, i)) == multiset(s) - multiset{s[i]}
  {
    assert s == s[..i] + [s[i]] + s[i + 1..];
    assert multiset(s) == multiset(s[..i]) + multiset{s[i]} + multiset(s[i + 1..]);
  }

  /** The `j`-th smallest element is unique. */
  lemma OrderStatisticUnique(s: seq<int>, j: nat, v: int, w: int)
    requires IsOrderStatistic(s, j, v) && IsOrderStatistic(s, j, w)
    ensures v == w
  {
    if v < w {
      CountsMonotone(s, v, w);
    } else if w < v {
      CountsMonotone(s, w, v);
    }
  }

  /** Reordering the elements does not change any order statistic. */
  lemma OrderStatisticOfPermutation(a: seq<int>, b: seq<int>, j: nat, v: int)
    requires multiset(a) == multiset(b)
    requires IsOrderStatistic(a, j, v)
    ensures IsOrderStatistic(b, j, v)
  {
    CountsOfPermutation(a, b, v);
    assert v in multiset(b);
  }

  /**
    After the partition that `nth_element` promises, the element at
    position `n` is the `n`-th smallest.
   */
  lemma PartitionSelects(a: seq<int>, n: nat)
    requires n < |a|
    requires forall i :: 0 <= i < n ==> a[i] <= a[n]
    requires forall i :: n < i < |a| ==> a[n] <= a[i]
    ensures IsOrderStatistic(a, n, a[n])
  {
    FewBelowPartition(a, n);
    ManyAtMostPartition(a, n);
  }

  lemma FewBelowPartition(a: seq<int>, n: nat)
    requires n < |a|
    requires forall i :: n < i < |a| ==> a[n] <= a[i]
    ensures CountBelow(a, a[n]) <= n
  {
    var lo, hi := a[..n], a[n..];
    assert a == lo + hi;
    assert forall i :: 0 <= i < |hi| ==> a[n] <= hi[i] by {
      forall i | 0 <= i < |hi|
        ensures a[n] <= hi[i]
      {
        assert hi[i] == a[n + i];
      }
    }
    CountBelowNone(hi, a[n]);
    CountsOfConcat(lo, hi, a[n]);
  }

  lemma ManyAtMostPartition(a: seq<int>, n: nat)
    requires n < |a|
    requires forall i :: 0 <= i < n ==> a[i] <= a[n]
    ensures n < CountAtMost(a, a[n])
  {
    var lo, hi := a[..n + 1], a[n + 1..];
    assert a == lo + hi;
    assert forall i :: 0 <= i < |lo| ==> lo[i] <= a[n] by {
      forall i | 0 <= i < |lo|
        ensures lo[i] <= a[n]
      {
        assert lo[i] == a[i];
      }
    }
    CountAtMostAll(lo, a[n]);
    CountsOfConcat(lo, hi, a[n]);
  }

  /**
    After a reordering of `s` into `a` that leaves no greater element
    before position `n` and no smaller one after it, position `n` holds the
    `n`-th smallest element of `s`.
   */
  lemma SelectionFound(s: seq<int>, a: seq<int>, n: nat)
    requires n < |a|
    requires multiset(a) == multiset(s)
    requires forall i :: 0 <= i < n ==> a[i] <= a[n]
    requires forall i :: n < i < |a| ==> a[n] <= a[i]
    ensures |s| == |a| && a[n] == Select(s, n)
  {
    assert |s| == |multiset(s)| == |a|;
    PartitionSelects(a, n);
    OrderStatisticOfPermutation(a, s, n, a[n]);
    SelectIsOrderStatistic(s, n);
    OrderStatisticUnique(s, n, a[n], Select(s, n));
  }

  /** If every element equals `v`, the `j`-th smallest is `v`. */
  lemma SelectOfConstant(s: seq<int>, j: nat, v: int)
    requires j < |s|
    requires forall i :: 0 <= i < |s| ==> s[i] == v
    ensures Select(s, j) == v
  {
    SelectIsOrderStatistic(s, j);
  }

  /**
    `std::nth_element(a.begin(), a.begin() + n, a.end())`: a permutation of
    `a` in which no element before position `n` is greater than `a[n]` and
    none after it is smaller. It is carried out here by selecting the
    least remaining element `n + 1` times.
   */
  method NthElement(a: array<int>, n: nat)
    requires n < a.Length
    modifies a
    ensures multiset(a[..]) == multiset(old(a[..]))
    ensures forall i :: 0 <= i < n ==> a[i] <= a[n]
    ensures forall i :: n < i < a.Length ==> a[n] <= a[i]
  {
    var i := 0;
    while i <= n
      invariant 0 <= i <= n + 1
      invariant multiset(a[..]) == multiset(old(a[..]))
      invariant SortedBelow(a[..], i) && Partitioned(a[..], i)
    {
      PlaceLeast(a, i);
      i := i + 1;
    }
    assert forall p :: 0 <= p < n ==> a[..][p] <= a[..][n];
    assert forall q :: n < q < a.Length ==> a[..][n] <= a[..][q];
  }

  /** `nth_element` at position `n` followed by a read of that position: the `n`-th smallest of the original contents. */
  method SelectInPlace(a: array<int>, n: nat) returns (v: int)
    requires n < a.Length
    modifies a
    ensures v == Select(old(a[..]), n)
    ensures multiset(a[..]) == multiset(old(a[..]))
  {
    ghost var before := a[..];
    NthElement(a, n);
    SelectionFound(before, a[..], n);
    v := a[n];
  }

  /** One selection step: a least element of `a[i..]` is swapped into position `i`. */
  method PlaceLeast(a: array<int>, i: nat)
    requires i < a.Length
    requires SortedBelow(a[..], i) && Partitioned(a[..], i)
    modifies a
    ensures multiset(a[..]) == multiset(old(a[..]))
    ensures SortedBelow(a[..], i + 1) && Partitioned(a[..], i + 1)
  {
    var least := IndexOfMin(a, i);
    ghost var before := a[..];
    a[i], a[least] := a[least], a[i];
    assert a[..] == Swapped(before, i, least);
    SwapKeepsMultiset(before, i, least);
    SelectionStep(before, i, least);
  }

  /** The first `i` elements are in order. */
  ghost predicate SortedBelow(s: seq<int>, i: nat)
  {
    forall p, q :: 0 <= p < q < i && q < |s| ==> s[p] <= s[q]
  }

  /** No element before position `i` is greater than an element from `i` on. */
  ghost predicate Partitioned(s: seq<int>, i: nat)
  {
    forall p, q :: 0 <= p < i <= q < |s| ==> s[p] <= s[q]
  }

  /** `s` with the elements at positions `i` and `j` exchanged. */
  function Swapped(s: seq<int>, i: nat, j: nat): seq<int>
    requires i < |s| && j < |s|
  {
    s[i := s[j]][j := s[i]]
  }

  lemma SwapKeepsMultiset(s: seq<int>, i: nat, j: nat)
    requires i < |s| && j < |s|
    ensures multiset(Swapped(s, i, j)) == multiset(s)
  {
  }

  /** Moving a least element of `s[i..]` to position `i` extends the sorted, partitioned prefix by one. */
  lemma SelectionStep(s: seq<int>, i: nat, least: nat)
    requires i <= least < |s|
    requires SortedBelow(s, i) && Partitioned(s, i)
    requires forall q :: i <= q < |s| ==> s[least] <= s[q]
    ensures SortedBelow(Swapped(s, i, least), i + 1) && Partitioned(Swapped(s, i, least), i + 1)
  {
    var r := Swapped(s, i, least);
    assert forall q :: i < q < |s| ==> r[q] == s[q] || r[q] == s[i];
  }

  /** The position of a least element of `a[lo..]`. */
  method IndexOfMin(a: array<int>, lo: nat) returns (m: nat)
    requires lo < a.Length
    ensures lo <= m < a.Length
    ensures forall q :: lo <= q < a.Length ==> a[m] <= a[q]
  {
    m := lo;
    var q := lo + 1;
    while q < a.Length
      invariant lo <= m < q <= a.Length
      invariant forall p :: lo <= p < q ==> a[m] <= a[p]
    {
      if a[q] < a[m] {
        m := q;
      }
      q := q + 1;
    }
  }

  function IndexOfLeast(s: seq<int>): (i: nat)
    requires |s| > 0
    ensures i < |s|
    ensures forall p :: 0 <= p < |s| ==> s[i] <= s[p]
  {
    if |s| == 1 then 0
    else
      var i := IndexOfLeast(s[..|s| - 1]);
      if s[|s| - 1] < s[i] then |s| - 1 else i
  }

  lemma {:induction false} CountsOfConcat(a: seq<int>, b: seq<int>, v: int)
    ensures CountBelow(a + b, v) == CountBelow(a, v) + CountBelow(b, v)
    ensures CountAtMost(a + b, v) == CountAtMost(a, v) + CountAtMost(b, v)
  {
    if b == [] {
      assert a + b == a;
    } else {
      assert (a + b)[..|a + b| - 1] == a + b[..|b| - 1];
      CountsOfConcat(a, b[..|b| - 1], v);
    }
  }

  lemma {:induction false} CountsOfPermutation(a: seq<int>, b: seq<int>, v: int)
    requires multiset(a) == multiset(b)
    ensures CountBelow(a, v) == CountBelow(b, v)
    ensures CountAtMost(a, v) == CountAtMost(b, v)
    decreases |a|
  {
    assert |a| == |multiset(a)| == |b|;
    if a != [] {
      var last := |a| - 1;
      assert a[last] in multiset(b);
      var i :| 0 <= i < |b| && b[i] == a[last];
      MultisetOfRemoval(a, last);
      MultisetOfRemoval(b, i);
      CountsOfPermutation(Without(a, last), Without(b, i), v);
      CountsOfRemoval(a, last, v);
      CountsOfRemoval(b, i, v);
    }
  }

  lemma {:induction false} CountsMonotone(s: seq<int>, v: int, w: int)
    requires v < w
    ensures CountAtMost(s, v) <= CountBelow(s, w)
  {
    if s != [] {
      CountsMonotone(s[..|s| - 1], v, w);
    }
  }

  lemma {:induction false} CountBelowNone(s: seq<int>, v: int)
    requires forall i :: 0 <= i < |s| ==> v <= s[i]
    ensures CountBelow(s, v) == 0
  {
    if s != [] {
      CountBelowNone(s[..|s| - 1], v);
    }
  }

  lemma {:induction false} CountAtMostAll(s: seq<int>, v: int)
    requires forall i :: 0 <= i < |s| ==> s[i] <= v
    ensures CountAtMost(s, v) == |s|
  {
    if s != [] {
      CountAtMostAll(s[..|s| - 1], v);
    }
  }
}
