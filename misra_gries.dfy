/**
  The Misra-Gries summary: a table of at most `k - 1` tracked keys with
  positive counters.

  `Add(x)` bumps a tracked key, tracks a new key while there is room, and
  otherwise lowers every counter by one and drops the counters that reach
  zero (a decrement pass), without tracking `x`. Every call counts one more
  stream element in `m`.

  The deterministic guarantee rests on the invariant
    m == (sum of the tracked counters) + k * (number of decrement passes)
  together with the fact that a key's counter falls short of its true
  frequency by at most the number of passes. Hence an estimate never
  exceeds the true frequency and misses it by at most m / k.
 */
module MisraGriesSketch {
  import opened Keys
  import opened Ranking
  import opened Arithmetic

  /** `k - 1` computed in `uint64_t`: the most keys the table holds (it wraps to UINT64_MAX when `k` is 0). */
  function Capacity(k: U64): nat
  {
    if k == 0 then UINT64_MAX else k - 1
  }

  /** The number of stream elements one decrement pass accounts for: a full table plus the untracked key. */
  function Width(k: U64): (w: nat)
    ensures w > 0
    ensures k > 0 ==> w == k
  {
    Capacity(k) + 1
  }

  /** The counter of `x`, 0 when `x` is not tracked. */
  function Lookup(c: map<Key, nat>, x: Key): nat
  {
    if x in c then c[x] else 0
  }

  /** Every tracked counter is positive. */
  ghost predicate Positive(c: map<Key, nat>)
  {
    forall y :: y in c ==> c[y] > 0
  }

  /** The sum of the tracked counters. */
  ghost function Total(c: map<Key, nat>): nat
    decreases |c|
  {
    if c == map[] then 0
    else
      var y :| y in c;
      assert |c - {y}| < |c| by {
        assert c.Keys == (c - {y}).Keys + {y};
      }
      c[y] + Total(c - {y})
  }

  /** A decrement pass: every counter drops by one and the ones that reach zero go. */
  function Decremented(c: map<Key, nat>): map<Key, nat>
  {
    map y | y in c && c[y] > 1 :: c[y] - 1
  }

  /** The table after `Add(x)` on a table of capacity `cap`. */
  function Step(cap: nat, c: map<Key, nat>, x: Key): map<Key, nat>
  {
    if x in c then c[x := c[x] + 1]
    else if |c| < cap then c[x := 1]
    else Decremented(c)
  }

  /** Whether `Add(x)` takes the decrement branch. */
  predicate IsPass(cap: nat, c: map<Key, nat>, x: Key)
  {
    x !in c && |c| >= cap
  }

  /** No `Add` lets the table grow past its capacity. */
  lemma StepKeepsCapacity(cap: nat, c: map<Key, nat>, x: Key)
    requires |c| <= cap
    ensures |Step(cap, c, x)| <= cap
  {
    if IsPass(cap, c, x) {
      DecrementedShrinks(c);
    } else if x !in c {
      assert Step(cap, c, x).Keys == c.Keys + {x};
    } else {
      assert Step(cap, c, x).Keys == c.Keys;
    }
  }

  /** New keys start at 1 and keys whose counter reaches 0 are dropped, so counters stay positive. */
  lemma StepKeepsPositive(cap: nat, c: map<Key, nat>, x: Key)
    requires Positive(c)
    ensures Positive(Step(cap, c, x))
  {
  }

  /** Adding a tracked key raises its counter by one and changes nothing else. */
  lemma StepOnTracked(cap: nat, c: map<Key, nat>, x: Key)
    requires x in c
    ensures Step(cap, c, x).Keys == c.Keys
    ensures Lookup(Step(cap, c, x), x) == c[x] + 1
    ensures forall y :: y != x ==> Lookup(Step(cap, c, x), y) == Lookup(c, y)
  {
  }

  /** Adding an untracked key while there is room tracks it with counter 1 and changes nothing else. */
  lemma StepOnRoom(cap: nat, c: map<Key, nat>, x: Key)
    requires x !in c && |c| < cap
    ensures Step(cap, c, x).Keys == c.Keys + {x}
    ensures Lookup(Step(cap, c, x), x) == 1
    ensures forall y :: y != x ==> Lookup(Step(cap, c, x), y) == Lookup(c, y)
  {
  }

  /**
    Adding an untracked key to a full table does not track it; every
    tracked counter drops by exactly one and exactly the zeros are removed.
   */
  lemma StepOnFull(cap: nat, c: map<Key, nat>, x: Key)
    requires Positive(c)
    requires x !in c && |c| >= cap
    ensures x !in Step(cap, c, x)
    ensures forall y :: y in Step(cap, c, x) <==> y in c && c[y] > 1
    ensures forall y :: y in c ==> Lookup(Step(cap, c, x), y) == c[y] - 1
  {
  }

  /**
    The counting invariant across one `Add`: the counters gain one, except
    in a pass, where a full table of `cap` counters each lose one.
   */
  lemma StepTotal(cap: nat, c: map<Key, nat>, x: Key)
    requires Positive(c) && |c| <= cap
    ensures Total(Step(cap, c, x)) + (if IsPass(cap, c, x) then cap + 1 else 0) == Total(c) + 1
  {
    if x in c {
      TotalUpdate(c, x, c[x] + 1);
    } else if |c| < cap {
      TotalUpdate(c, x, 1);
    } else {
      DecrementedTotal(c);
    }
  }

  /** Summing the counters: any tracked key can be taken out first. */
  lemma {:induction false} TotalRemove(c: map<Key, nat>, y: Key)
    requires y in c
    ensures Total(c) == c[y] + Total(c - {y})
    decreases |c|
  {
    var z :| z in c && Total(c) == c[z] + Total(c - {z});
    if z != y {
      assert |c - {z}| < |c| by {
        assert c.Keys == (c - {z}).Keys + {z};
      }
      TotalRemove(c - {z}, y);
      assert |c - {y}| < |c| by {
        assert c.Keys == (c - {y}).Keys + {y};
      }
      TotalRemove(c - {y}, z);
      assert c - {z} - {y} == c - {y} - {z};
    }
  }

  /** Setting the counter of `x` to `v` changes the sum by the difference. */
  lemma TotalUpdate(c: map<Key, nat>, x: Key, v: nat)
    ensures Total(c[x := v]) + Lookup(c, x) == Total(c) + v
  {
    var c' := c[x := v];
    TotalRemove(c', x);
    if x in c {
      TotalRemove(c, x);
      assert c' - {x} == c - {x};
    } else {
      assert c' - {x} == c;
    }
  }

  /** A decrement pass lowers the sum by the number of tracked keys. */
  lemma {:induction false} DecrementedTotal(c: map<Key, nat>)
    requires Positive(c)
    ensures Total(Decremented(c)) + |c| == Total(c)
    decreases |c|
  {
    if c != map[] {
      var y :| y in c;
      var rest := c - {y};
      assert |rest| == |c| - 1 by {
        assert c.Keys == rest.Keys + {y};
      }
      DecrementedTotal(rest);
      TotalRemove(c, y);
      if c[y] > 1 {
        TotalRemove(Decremented(c), y);
        assert Decremented(c) - {y} == Decremented(rest);
      } else {
        assert Decremented(c) == Decremented(rest);
      }
    }
  }

  lemma DecrementedShrinks(c: map<Key, nat>)
    ensures |Decremented(c)| <= |c|
  {
    assert Decremented(c).Keys <= c.Keys;
    SubsetCardinality(Decremented(c).Keys, c.Keys);
  }

  lemma {:induction false} SubsetCardinality(a: set<Key>, b: set<Key>)
    requires a <= b
    ensures |a| <= |b|
    decreases b
  {
    if a != {} {
      var y :| y in a;
      SubsetCardinality(a - {y}, b - {y});
    }
  }

  /** Counters that are all positive and sum to 0: no key is tracked. */
  lemma EmptyWhenTotalZero(c: map<Key, nat>)
    requires Positive(c) && Total(c) == 0
    ensures c == map[]
  {
  }

  /**
    The summary's invariant after the stream `s`, with `p` decrement passes:
    the table fits, its counters are positive, the counting identity holds,
    and each counter lies between the key's true frequency minus `p` and
    the true frequency.
   */
  ghost predicate Invariant(k: U64, c: map<Key, nat>, m: nat, s: seq<Key>, p: nat)
  {
    && |c| <= Capacity(k)
    && Positive(c)
    && m == |s|
    && m == Total(c) + Width(k) * p
    && Bracketed(c, s, p)
  }

  /** Every counter is at most the key's true frequency and at least that frequency minus `p`. */
  ghost predicate Bracketed(c: map<Key, nat>, s: seq<Key>, p: nat)
  {
    forall y :: Lookup(c, y) <= Occurrences(s, y) <= Lookup(c, y) + p
  }

  /** `Add(x)` keeps the invariant; a decrement pass counts as one more pass. */
  lemma StepKeepsInvariant(k: U64, c: map<Key, nat>, m: nat, s: seq<Key>, p: nat, x: Key)
    requires Invariant(k, c, m, s, p)
    ensures Invariant(k, Step(Capacity(k), c, x), m + 1, s + [x], if IsPass(Capacity(k), c, x) then p + 1 else p)
  {
    var cap := Capacity(k);
    StepKeepsCapacity(cap, c, x);
    StepKeepsPositive(cap, c, x);
    StepKeepsCount(k, c, m, p, x);
    StepKeepsBracket(cap, c, s, p, x);
  }

  /** `Add(x)` keeps the counting identity: a pass accounts for `k` elements, the new one included. */
  lemma StepKeepsCount(k: U64, c: map<Key, nat>, m: nat, p: nat, x: Key)
    requires Positive(c) && |c| <= Capacity(k)
    requires m == Total(c) + Width(k) * p
    ensures m + 1 == Total(Step(Capacity(k), c, x)) + Width(k) * (if IsPass(Capacity(k), c, x) then p + 1 else p)
  {
    StepTotal(Capacity(k), c, x);
    if IsPass(Capacity(k), c, x) {
      assert Width(k) * (p + 1) == Width(k) * p + Width(k);
    }
  }

  /** `Add(x)` keeps every counter within the passes of its key's true frequency. */
  lemma StepKeepsBracket(cap: nat, c: map<Key, nat>, s: seq<Key>, p: nat, x: Key)
    requires Positive(c) && Bracketed(c, s, p)
    ensures Bracketed(Step(cap, c, x), s + [x], if IsPass(cap, c, x) then p + 1 else p)
  {
    var c' := Step(cap, c, x);
    var p' := if IsPass(cap, c, x) then p + 1 else p;
    forall y
      ensures Lookup(c', y) <= Occurrences(s + [x], y) <= Lookup(c', y) + p'
    {
      OccurrencesSnoc(s, x, y);
      if x in c {
        StepOnTracked(cap, c, x);
      } else if |c| < cap {
        StepOnRoom(cap, c, x);
      } else {
        StepOnFull(cap, c, x);
      }
    }
  }

  /**
    The entries `HeavyHitters(threshold)` reports: the tracked keys whose
    counter is strictly above the threshold, that is, at least `threshold + 1`.
   */
  function Above(c: map<Key, nat>, threshold: nat): set<Entry>
  {
    Qualifying(c, c.Keys, threshold + 1)
  }

  class MisraGries {
    /** The capacity parameter: at most `k - 1` keys are tracked. */
    const k: U64
    /** Tracked key -> counter (`std::unordered_map`). */
    var counters: map<Key, nat>
    /** Number of `Add` calls so far. */
    var m: nat
    /** The keys added so far, in order. */
    ghost var stream: seq<Key>
    /** Number of decrement passes so far. */
    ghost var passes: nat

    ghost predicate Valid()
      reads this
    {
      Invariant(k, counters, m, stream, passes)
    }

    /** An empty summary. `m` starts at 0. */
    constructor (k: U64)
      ensures Valid()
      ensures this.k == k && counters == map[] && m == 0 && stream == []
    {
      this.k := k;
      counters := map[];
      m := 0;
      stream := [];
      passes := 0;
    }

    /** Counts one occurrence of `x`. */
    method Add(x: Key)
      requires Valid()
      modifies this
      ensures Valid()
      ensures counters == Step(Capacity(k), old(counters), x)
      ensures m == old(m) + 1 && stream == old(stream) + [x]
    {
      StepKeepsInvariant(k, counters, m, stream, passes, x);
      if x in counters {
        counters := counters[x := counters[x] + 1];
      } else if |counters| < Capacity(k) {
        counters := counters[x := 1];
      } else {
        DecrementAll();
        passes := passes + 1;
      }
      m := m + 1;
      stream := stream + [x];
    }

    /** The decrement pass: an erase-while-iterating walk over the table. */
    method DecrementAll()
      requires Positive(counters)
      modifies this`counters
      ensures counters == Decremented(old(counters))
    {
      var pending := counters.Keys;
      while pending != {}
        invariant pending <= old(counters).Keys
        invariant counters.Keys <= old(counters).Keys
        invariant forall y :: y in pending ==> y in counters && counters[y] == old(counters)[y]
        invariant forall y :: y in old(counters) && y !in pending ==>
                    (y in counters <==> old(counters)[y] > 1) &&
                    (y in counters ==> counters[y] == old(counters)[y] - 1)
        decreases pending
      {
        var y :| y in pending;
        var count := counters[y] - 1;
        if count == 0 {
          counters := counters - {y};
        } else {
          counters := counters[y := count];
        }
        pending := pending - {y};
      }
    }

    /**
      The counter of `x`: never above its true frequency, below it by at
      most m / k, and a key more frequent than m / k is always tracked.
     */
    function Estimate(x: Key): (r: nat)
      reads this
      requires Valid()
      ensures r <= Occurrences(stream, x)
      ensures Occurrences(stream, x) - r <= m / Width(k)
      ensures Occurrences(stream, x) > m / Width(k) ==> x in counters
      ensures x !in counters ==> r == 0
    {
      QuotientBound(Width(k), passes, m);
      Lookup(counters, x)
    }

    /** The tracked `(count, key)` pairs whose count exceeds `threshold`, highest count first. */
    method HeavyHitters(threshold: nat) returns (hh: seq<Entry>)
      requires Valid()
      ensures NonIncreasing(hh)
      ensures multiset(hh) == multiset(Above(counters, threshold))
      ensures m == 0 ==> hh == []
    {
      hh := [];
      var pending := counters.Keys;
      while pending != {}
        invariant pending <= counters.Keys
        invariant NonIncreasing(hh)
        invariant multiset(hh) == multiset(Qualifying(counters, counters.Keys - pending, threshold + 1))
        decreases pending
      {
        var y :| y in pending;
        QualifyingVisit(counters, counters.Keys, pending, y, threshold + 1);
        var count := counters[y];
        if count > threshold {
          hh := Insert(hh, Entry(count, y));
        }
        pending := pending - {y};
      }
      assert counters.Keys - pending == counters.Keys;
      if m == 0 {
        EmptyWhenTotalZero(counters);
      }
    }

    /** Bytes used: the object plus two 8-byte words per tracked key, at most `k - 1` of them. */
    function Size(objectBytes: nat): (r: nat)
      reads this
      requires Valid()
      ensures objectBytes <= r <= objectBytes + 16 * Capacity(k)
    {
      objectBytes + |counters| * 16
    }
  }
}
