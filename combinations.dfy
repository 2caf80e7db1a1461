/**
 * `records.iter().combinations(2)` (src/main.rs:41-43), observed through the
 * positions of the two records it pairs: the pair `(i, j)` stands for
 * `[&records[i], &records[j]]`.
 */
module Combinations {
  import opened Seqs

  type IndexPair = (nat, nat)

  /** Lexicographic order on index pairs, the order in which the pairs are produced. */
  predicate LexLess(p: IndexPair, q: IndexPair) {
    p.0 < q.0 || (p.0 == q.0 && p.1 < q.1)
  }

  /** The pairs `(i, j)`, `(i, j + 1)`, ..., `(i, n - 1)`. */
  function Row(i: nat, j: nat, n: nat): (r: seq<IndexPair>)
    decreases n - j
    ensures |r| == n - j || (j > n && r == [])
    ensures forall k :: 0 <= k < |r| ==> r[k] == (i, j + k)
  {
    if j >= n then [] else [(i, j)] + Row(i, j + 1, n)
  }

  /** All pairs `(a, b)` with `i <= a < b < n`, first index outer, second inner. */
  function PairsFrom(i: nat, n: nat): (r: seq<IndexPair>)
    decreases n - i
    ensures forall k :: 0 <= k < |r| ==> i <= r[k].0 < r[k].1 < n
  {
    if i >= n then [] else Row(i, i + 1, n) + PairsFrom(i + 1, n)
  }

  /** The 2-combinations of `n` items, by position. */
  function Pairs(n: nat): (r: seq<IndexPair>)
    ensures forall k :: 0 <= k < |r| ==> r[k].0 < r[k].1 < n
  {
    PairsFrom(0, n)
  }

  /** Every pair `(a, b)` with `i <= a < b < n` is produced from position `i` on. */
  lemma {:induction false} PairsFromMembers(i: nat, n: nat)
    ensures forall a: nat, b: nat :: i <= a < b < n ==> (a, b) in PairsFrom(i, n)
    decreases n - i
  {
    if i < n {
      var row, rest := Row(i, i + 1, n), PairsFrom(i + 1, n);
      PairsFromMembers(i + 1, n);
      forall a: nat, b: nat | i <= a < b < n ensures (a, b) in row + rest {
        if a == i {
          assert row[b - i - 1] == (a, b);
        } else {
          assert (a, b) in rest;
        }
      }
    }
  }

  /** The pairs come out in strictly increasing lexicographic order. */
  lemma {:induction false} PairsFromSorted(i: nat, n: nat)
    ensures SortedBy(PairsFrom(i, n), LexLess)
    decreases n - i
  {
    if i < n {
      var row, rest := Row(i, i + 1, n), PairsFrom(i + 1, n);
      var r := row + rest;
      PairsFromSorted(i + 1, n);
      PairsFromMembers(i + 1, n);
      forall k, l | 0 <= k < l < |r| ensures LexLess(r[k], r[l]) {
        if l < |row| {
        } else if k < |row| {
          assert r[l] == rest[l - |row|];
        } else {
          assert r[k] == rest[k - |row|] && r[l] == rest[l - |row|];
        }
      }
    }
  }

  /** Twice the number of pairs from position `i` on is `m * (m - 1)` for `m = n - i`. */
  lemma {:induction false} PairsFromCount(i: nat, n: nat)
    requires i <= n
    ensures 2 * |PairsFrom(i, n)| == (n - i) * (n - i - 1)
    decreases n - i
  {
    if i < n {
      PairsFromCount(i + 1, n);
      var m := n - i;
      assert 2 * |PairsFrom(i, n)| == 2 * (m - 1) + (m - 1) * (m - 2);
      assert 2 * (m - 1) + (m - 1) * (m - 2) == (m - 1) * m;
    }
  }

  /**
   * `combinations(2)` over `n` items yields `n * (n - 1) / 2` pairs; exactly the
   * pairs `(i, j)` with `i < j < n`, each once, in lexicographic order; and none
   * when `n <= 1`.
   */
  lemma PairsSpec(n: nat)
    ensures |Pairs(n)| == n * (n - 1) / 2
    ensures n <= 1 ==> Pairs(n) == []
    ensures forall k :: 0 <= k < |Pairs(n)| ==> Pairs(n)[k].0 < Pairs(n)[k].1 < n
    ensures forall i: nat, j: nat :: i < j < n ==> (i, j) in Pairs(n)
    ensures SortedBy(Pairs(n), LexLess)
    ensures forall k, l :: 0 <= k < l < |Pairs(n)| ==> Pairs(n)[k] != Pairs(n)[l]
  {
    PairsFromCount(0, n);
    PairsFromMembers(0, n);
    PairsFromSorted(0, n);
  }
}
