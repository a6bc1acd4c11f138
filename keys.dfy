/**
  Stream keys and the ground truth the sketches are measured against.

  Keys are the C++ `uint64_t` values passed to `Add` and `Estimate`; the
  true frequency of a key is the number of times it occurs in the stream
  of keys added so far.
 */
module Keys {

  /** 2^64: the number of distinct `uint64_t` values. */
  const U64_MODULUS: nat := 0x1_0000_0000_0000_0000

  /** `UINT64_MAX`. */
  const UINT64_MAX: nat := U64_MODULUS - 1

  /** An unsigned 64-bit integer. */
  type U64 = x: nat | x < U64_MODULUS

  /** 2^63 - 1: `INT64_MAX`. */
  const INT64_MAX: int := 0x7FFF_FFFF_FFFF_FFFF

  /** A signed 64-bit integer. */
  type I64 = x: int | -INT64_MAX - 1 <= x <= INT64_MAX

  /** A stream key. */
  type Key = U64

  /** The true frequency of `x` in the stream `s`. */
  function Occurrences(s: seq<Key>, x: Key): (n: nat)
    ensures n <= |s|
    ensures n == 0 <==> forall i :: 0 <= i < |s| ==> s[i] != x
  {
    if s == [] then 0
    else Occurrences(s[..|s| - 1], x) + (if s[|s| - 1] == x then 1 else 0)
  }

  /** Appending `y` to the stream raises the frequency of `y` by one and of no other key. */
  lemma OccurrencesSnoc(s: seq<Key>, y: Key, x: Key)
    ensures Occurrences(s + [y], x) == Occurrences(s, x) + (if x == y then 1 else 0)
  {
    assert (s + [y])[..|s|] == s;
  }

  /** A set of keys drawn from a stream has no more members than the stream has elements. */
  lemma {:induction false} DrawnKeysBound(keys: set<Key>, s: seq<Key>)
    requires forall y :: y in keys ==> y in s
    ensures |keys| <= |s|
  {
    if s != [] {
      var last := s[|s| - 1];
      var init := s[..|s| - 1];
      assert s == init + [last];
      var rest := keys - {last};
      assert forall y :: y in rest ==> y in init by {
        forall y | y in rest ensures y in init {
          var i :| 0 <= i < |s| && s[i] == y;
          assert i < |s| - 1;
          assert init[i] == y;
        }
      }
      DrawnKeysBound(rest, init);
    } else {
      assert keys == {};
    }
  }

  /** Adding a key to a set never makes it smaller. */
  lemma InsertGrows(keys: set<Key>, x: Key)
    ensures |keys| <= |keys + {x}|
  {
    if x in keys {
      assert keys + {x} == keys;
    }
  }

  /** A stream made of `n` copies of `x` contains `x` exactly `n` times. */
  lemma {:induction false} OccurrencesOfConstant(s: seq<Key>, x: Key)
    requires forall i :: 0 <= i < |s| ==> s[i] == x
    ensures Occurrences(s, x) == |s|
  {
    if s != [] {
      OccurrencesOfConstant(s[..|s| - 1], x);
    }
  }
}
