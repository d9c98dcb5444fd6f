/**
 * `itertools.combinations(v, 2)`: every unordered pair of positions i < j of
 * the input, in lexicographic order of (i, j), yielding (v[i], v[j]).
 */
module Combinations {

  /** Lexicographic order on index pairs. */
  predicate LexLess(p: (nat, nat), q: (nat, nat))
  {
    p.0 < q.0 || (p.0 == q.0 && p.1 < q.1)
  }

  /** The index pairs whose first index is i or more, in the order combinations produces them. */
  function IndexPairsFrom(k: nat, i: nat): (r: seq<(nat, nat)>)
    requires i <= k
    ensures forall m :: 0 <= m < |r| ==> i <= r[m].0 < r[m].1 < k
    decreases k - i
  {
    if i == k then []
    else seq(k - i - 1, d requires 0 <= d < k - i - 1 => (i, i + 1 + d)) + IndexPairsFrom(k, i + 1)
  }

  function IndexPairs(k: nat): seq<(nat, nat)>
  {
    IndexPairsFrom(k, 0)
  }

  lemma {:induction false} IndexPairsFromComplete(k: nat, i: nat)
    requires i <= k
    ensures forall a, b :: i <= a < b < k ==> (a, b) in IndexPairsFrom(k, i)
    decreases k - i
  {
    if i < k {
      IndexPairsFromComplete(k, i + 1);
      var row := seq(k - i - 1, d requires 0 <= d < k - i - 1 => (i, i + 1 + d));
      assert IndexPairsFrom(k, i) == row + IndexPairsFrom(k, i + 1);
      forall a, b | i <= a < b < k
        ensures (a, b) in IndexPairsFrom(k, i)
      {
        if a == i {
          assert row[b - i - 1] == (a, b);
        }
      }
    }
  }

  lemma {:induction false} IndexPairsFromSorted(k: nat, i: nat)
    requires i <= k
    ensures forall m, m' :: 0 <= m < m' < |IndexPairsFrom(k, i)| ==>
              LexLess(IndexPairsFrom(k, i)[m], IndexPairsFrom(k, i)[m'])
    decreases k - i
  {
    if i < k {
      IndexPairsFromSorted(k, i + 1);
      var row := seq(k - i - 1, d requires 0 <= d < k - i - 1 => (i, i + 1 + d));
      var rest := IndexPairsFrom(k, i + 1);
      var r := IndexPairsFrom(k, i);
      assert r == row + rest;
      forall m, m' | 0 <= m < m' < |r|
        ensures LexLess(r[m], r[m'])
      {
        if m' >= |row| && m >= |row| {
          assert r[m] == rest[m - |row|] && r[m'] == rest[m' - |row|];
        } else if m' >= |row| {
          assert r[m'] == rest[m' - |row|];
        }
      }
    }
  }

  lemma {:induction false} IndexPairsFromCount(k: nat, i: nat)
    requires i <= k
    ensures 2 * |IndexPairsFrom(k, i)| == (k - i) * (k - i - 1)
    decreases k - i
  {
    if i < k {
      IndexPairsFromCount(k, i + 1);
      var t := k - i - 1;
      assert 2 * t + t * (t - 1) == (t + 1) * t;
    }
  }

  /**
   * The index pairs of combinations of k items are exactly the pairs i < j < k,
   * each once, in strictly increasing lexicographic order; there are k(k-1)/2.
   */
  lemma IndexPairsSpec(k: nat)
    ensures forall m :: 0 <= m < |IndexPairs(k)| ==> IndexPairs(k)[m].0 < IndexPairs(k)[m].1 < k
    ensures forall a, b :: 0 <= a < b < k ==> (a, b) in IndexPairs(k)
    ensures forall m, m' :: 0 <= m < m' < |IndexPairs(k)| ==> LexLess(IndexPairs(k)[m], IndexPairs(k)[m'])
    ensures 2 * |IndexPairs(k)| == k * (k - 1)
  {
    IndexPairsFromComplete(k, 0);
    IndexPairsFromSorted(k, 0);
    IndexPairsFromCount(k, 0);
  }

  /** `combinations(v, 2)`: the earlier element of each pair comes first. */
  function Pairs<T>(v: seq<T>): (r: seq<(T, T)>)
    ensures |r| == |IndexPairs(|v|)|
    ensures forall m :: 0 <= m < |r| ==>
              r[m] == (v[IndexPairs(|v|)[m].0], v[IndexPairs(|v|)[m].1]) && r[m].0 in v && r[m].1 in v
  {
    var ps := IndexPairs(|v|);
    seq(|ps|, m requires 0 <= m < |ps| => (v[ps[m].0], v[ps[m].1]))
  }

  /** Fewer than two items give no pair. */
  lemma NoPairsBelowTwo<T>(v: seq<T>)
    requires |v| < 2
    ensures Pairs(v) == []
  {
    IndexPairsFromCount(|v|, 0);
  }
}
