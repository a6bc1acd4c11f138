/**
  The result of `HeavyHitters`: a `std::multimap<uint64_t, uint64_t,
  std::greater<uint64_t>>` from count to key, modelled as the sequence of
  its `(count, key)` entries in iteration order.
 */
module Ranking {
  import opened Keys

  datatype Entry = Entry(count: nat, key: Key)

  /** The multimap's iteration order: counts never increase. */
  predicate NonIncreasing(s: seq<Entry>)
  {
    forall i, j :: 0 <= i < j < |s| ==> s[i].count >= s[j].count
  }

  /**
    `multimap::insert`: the entry goes in after every entry whose count is
    at least its own, so the order is kept and nothing is lost.
   */
  function Insert(s: seq<Entry>, e: Entry): (r: seq<Entry>)
    requires NonIncreasing(s)
    ensures NonIncreasing(r)
    ensures multiset(r) == multiset(s) + multiset{e}
  {
    if s == [] || s[0].count < e.count then
      ConsKeepsOrder(e, s);
      [e] + s
    else
      var rest := Insert(s[1..], e);
      assert s == [s[0]] + s[1..];
      PermutationKeepsBound(s[1..] + [e], rest, s[0].count);
      ConsKeepsOrder(s[0], rest);
      [s[0]] + rest
  }

  /** A head counting at least as much as every entry of an ordered tail keeps the order. */
  lemma ConsKeepsOrder(h: Entry, s: seq<Entry>)
    requires NonIncreasing(s)
    requires forall i :: 0 <= i < |s| ==> s[i].count <= h.count
    ensures NonIncreasing([h] + s)
  {
  }

  /** No entry of `a` counts more than `c`, so no entry of a reordering of `a` does either. */
  lemma PermutationKeepsBound(a: seq<Entry>, b: seq<Entry>, c: nat)
    requires multiset(a) == multiset(b)
    requires forall i :: 0 <= i < |a| ==> a[i].count <= c
    ensures forall i :: 0 <= i < |b| ==> b[i].count <= c
  {
    forall i | 0 <= i < |b|
      ensures b[i].count <= c
    {
      assert b[i] in multiset(a);
    }
  }

  /** The `(count, key)` entries for the keys in `keys` whose count in `counts` is at least `floor`. */
  function Qualifying(counts: map<Key, nat>, keys: set<Key>, floor: nat): set<Entry>
  {
    set y | y in keys && y in counts && counts[y] >= floor :: Entry(counts[y], y)
  }

  /** An entry qualifies exactly when its key is among `keys` and it carries that key's count, at least `floor`. */
  lemma QualifyingMembers(counts: map<Key, nat>, keys: set<Key>, floor: nat, e: Entry)
    ensures e in Qualifying(counts, keys, floor) <==>
            e.key in keys && e.key in counts && e.count == counts[e.key] && e.count >= floor
  {
    if e.key in keys && e.key in counts && e.count == counts[e.key] && e.count >= floor {
      assert e == Entry(counts[e.key], e.key);
    }
  }

  /**
    Moving the key `y` from the keys still to visit, `pending`, to the keys
    visited adds its entry exactly when its count reaches `floor`.
   */
  lemma QualifyingVisit(counts: map<Key, nat>, keys: set<Key>, pending: set<Key>, y: Key, floor: nat)
    requires pending <= keys <= counts.Keys && y in pending
    ensures multiset(Qualifying(counts, keys - (pending - {y}), floor)) ==
            multiset(Qualifying(counts, keys - pending, floor)) + (if counts[y] >= floor then multiset{Entry(counts[y], y)} else multiset{})
  {
    var before, after := Qualifying(counts, keys - pending, floor), Qualifying(counts, keys - (pending - {y}), floor);
    assert keys - (pending - {y}) == (keys - pending) + {y};
    if counts[y] >= floor {
      assert after == before + {Entry(counts[y], y)};
      assert Entry(counts[y], y) !in before;
    } else {
      assert after == before;
    }
  }
}
