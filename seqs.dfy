/**
 * Sequence combinators standing for the iterator adaptors that the tool's
 * pipelines are built from: `zip`, `filter` (followed by `count`) and the
 * order in which a filtered iterator yields its items.
 */
module Seqs {

  function Min(x: nat, y: nat): nat {
    if x <= y then x else y
  }

  /** `xs.iter().zip(ys.iter())`: pairs items by position and stops at the shorter input. */
  function Zip<A, B>(xs: seq<A>, ys: seq<B>): (r: seq<(A, B)>)
    ensures |r| == Min(|xs|, |ys|)
    ensures forall k :: 0 <= k < |r| ==> r[k] == (xs[k], ys[k])
  {
    if xs == [] || ys == [] then []
    else [(xs[0], ys[0])] + Zip(xs[1..], ys[1..])
  }

  /** `r` can be obtained from `xs` by deleting items, keeping the order of the rest. */
  predicate IsSubsequence<T(==)>(r: seq<T>, xs: seq<T>)
    decreases |xs|
  {
    || r == []
    || (&& xs != []
        && ((r[0] == xs[0] && IsSubsequence(r[1..], xs[1..])) || IsSubsequence(r, xs[1..])))
  }

  /** `.filter(p)`: the items of `xs` that satisfy `p`, in their original order. */
  function Filter<T(==)>(xs: seq<T>, p: T -> bool): (r: seq<T>)
    ensures |r| <= |xs|
    ensures forall k :: 0 <= k < |r| ==> r[k] in xs && p(r[k])
    ensures forall k :: 0 <= k < |xs| && p(xs[k]) ==> xs[k] in r
    ensures IsSubsequence(r, xs)
  {
    if xs == [] then []
    else if p(xs[0]) then [xs[0]] + Filter(xs[1..], p)
    else Filter(xs[1..], p)
  }

  /** Filtering a sequence that starts with `x` decides `x` first and then filters the rest. */
  lemma FilterCons<T>(x: T, ys: seq<T>, p: T -> bool)
    ensures Filter([x] + ys, p) == (if p(x) then [x] else []) + Filter(ys, p)
  {
  }

  /** Filtering distributes over concatenation. */
  lemma {:induction false} FilterAppend<T>(xs: seq<T>, ys: seq<T>, p: T -> bool)
    ensures Filter(xs + ys, p) == Filter(xs, p) + Filter(ys, p)
  {
    if xs == [] {
      assert xs + ys == ys;
    } else {
      var x, rest := xs[0], xs[1..];
      var head := if p(x) then [x] else [];
      assert xs == [x] + rest;
      assert xs + ys == [x] + (rest + ys);
      calc {
        Filter(xs + ys, p);
        { FilterCons(x, rest + ys, p); }
        head + Filter(rest + ys, p);
        { FilterAppend(rest, ys, p); }
        head + (Filter(rest, p) + Filter(ys, p));
        (head + Filter(rest, p)) + Filter(ys, p);
        { FilterCons(x, rest, p); }
        Filter(xs, p) + Filter(ys, p);
      }
    }
  }

  /** The positions of `xs` whose items satisfy `p`. */
  function Passing<T>(xs: seq<T>, p: T -> bool): set<nat> {
    set k: nat | k < |xs| && p(xs[k])
  }

  /** Every member of `s` plus one. */
  function Shift(s: set<nat>): set<nat> {
    set k: nat | k in s :: k + 1
  }

  /** Adding 1 to every member of a set of naturals keeps its size. */
  lemma {:induction false} ShiftCard(s: set<nat>)
    ensures |Shift(s)| == |s|
    decreases |s|
  {
    if s != {} {
      var x :| x in s;
      ShiftCard(s - {x});
      var big, small := Shift(s), Shift(s - {x});
      forall y | y in big ensures y in small + {x + 1} {
        var k: nat :| k in s && y == k + 1;
        if k != x { assert k in s - {x}; }
      }
      forall y | y in small + {x + 1} ensures y in big {
        if y == x + 1 {
          assert x in s;
        } else {
          var k: nat :| k in s - {x} && y == k + 1;
          assert k in s;
        }
      }
      assert big == small + {x + 1};
      assert x + 1 !in small;
    }
  }

  /** The passing positions of a non-empty sequence: possibly 0, then those of its tail shifted by one. */
  lemma PassingCons<T>(xs: seq<T>, p: T -> bool)
    requires xs != []
    ensures Passing(xs, p) == (if p(xs[0]) then {0} else {}) + Shift(Passing(xs[1..], p))
  {
    var tail := Passing(xs[1..], p);
    forall k: nat | k in Passing(xs, p) && k > 0 ensures k in Shift(tail) {
      assert xs[k] == xs[1..][k - 1];
      assert (k - 1) in tail;
    }
  }

  /**
   * `.filter(p).count()` is the number of positions whose items pass: every
   * passing item is kept once for each time it occurs.
   */
  lemma {:induction false} FilterLength<T>(xs: seq<T>, p: T -> bool)
    ensures |Filter(xs, p)| == |Passing(xs, p)|
  {
    if xs != [] {
      var shifted := Shift(Passing(xs[1..], p));
      FilterLength(xs[1..], p);
      PassingCons(xs, p);
      ShiftCard(Passing(xs[1..], p));
      assert 0 !in shifted;
      if p(xs[0]) {
        assert |{0} + shifted| == 1 + |shifted|;
      } else {
        assert Passing(xs, p) == shifted;
      }
    }
  }

  /** Filtering by `p` and then by `q` is filtering once by their conjunction `r`. */
  lemma {:induction false} FilterFilter<T>(xs: seq<T>, p: T -> bool, q: T -> bool, r: T -> bool)
    requires forall x :: r(x) == (p(x) && q(x))
    ensures Filter(Filter(xs, p), q) == Filter(xs, r)
  {
    if xs != [] {
      FilterFilter(xs[1..], p, q, r);
      if p(xs[0]) {
        FilterCons(xs[0], Filter(xs[1..], p), q);
      }
    }
  }

  /** `.filter(p).count()` is 0 exactly when no item passes. */
  lemma FilterEmptyIff<T>(xs: seq<T>, p: T -> bool)
    ensures Filter(xs, p) == [] <==> forall k :: 0 <= k < |xs| ==> !p(xs[k])
  {
  }

  /** `.filter(p).count()` equals the length of the input exactly when every item passes. */
  lemma {:induction false} FilterKeepsAllIff<T>(xs: seq<T>, p: T -> bool)
    ensures |Filter(xs, p)| == |xs| <==> forall k :: 0 <= k < |xs| ==> p(xs[k])
  {
    if xs != [] {
      FilterKeepsAllIff(xs[1..], p);
      if !p(xs[0]) {
        assert |Filter(xs, p)| < |xs|;
      } else if forall k :: 0 <= k < |xs| - 1 ==> p(xs[1..][k]) {
        assert forall k :: 0 <= k < |xs| ==> p(xs[k]) by {
          forall k | 0 <= k < |xs| ensures p(xs[k]) {
            if k > 0 { assert xs[k] == xs[1..][k - 1]; }
          }
        }
      } else {
        var k :| 0 <= k < |xs| - 1 && !p(xs[1..][k]);
        assert !p(xs[k + 1]);
      }
    }
  }

  /** The items of a subsequence are items of the sequence it was taken from. */
  lemma {:induction false} SubsequenceMembers<T>(r: seq<T>, xs: seq<T>)
    requires IsSubsequence(r, xs)
    ensures forall k :: 0 <= k < |r| ==> r[k] in xs
    decreases |xs|
  {
    if r != [] {
      if r[0] == xs[0] && IsSubsequence(r[1..], xs[1..]) {
        SubsequenceMembers(r[1..], xs[1..]);
        assert r == [r[0]] + r[1..];
      } else {
        SubsequenceMembers(r, xs[1..]);
      }
    }
  }

  /** Every earlier item stands in relation `lt` to every later one. */
  ghost predicate SortedBy<T>(xs: seq<T>, lt: (T, T) -> bool) {
    forall k, l :: 0 <= k < l < |xs| ==> lt(xs[k], xs[l])
  }

  /** Deleting items keeps a sequence ordered: a filter never reorders. */
  lemma {:induction false} SubsequenceKeepsOrder<T>(r: seq<T>, xs: seq<T>, lt: (T, T) -> bool)
    requires IsSubsequence(r, xs)
    requires SortedBy(xs, lt)
    ensures SortedBy(r, lt)
    decreases |xs|
  {
    if r != [] {
      assert SortedBy(xs[1..], lt);
      if r[0] == xs[0] && IsSubsequence(r[1..], xs[1..]) {
        SubsequenceKeepsOrder(r[1..], xs[1..], lt);
        SubsequenceMembers(r[1..], xs[1..]);
        forall k, l | 0 <= k < l < |r| ensures lt(r[k], r[l]) {
          if k == 0 {
            assert r[l] == r[1..][l - 1];
            var m :| 0 <= m < |xs| - 1 && xs[1..][m] == r[l];
            assert xs[m + 1] == r[l];
          } else {
            assert r[k] == r[1..][k - 1] && r[l] == r[1..][l - 1];
          }
        }
      } else {
        SubsequenceKeepsOrder(r, xs[1..], lt);
      }
    }
  }
}
