/**
 * `main` (src/main.rs:40-55): every 2-combination of the records, in
 * enumeration order, is scored with its distance; the triples whose distance
 * is below the threshold are printed in that order. The threshold comparison
 * `distance < 0.04` is the parameter `below` and the distance transform the
 * parameter `jc`, so the floating-point arithmetic stays outside the model.
 */
module Pipeline {
  import opened Seqs
  import opened Records
  import opened Combinations
  import opened Ingest

  /** One scored pair, the triple `(record1, record2, distance)` that `main` prints. */
  datatype Line<D> = Line(first: Record, second: Record, distance: D)

  /** Every pair in `ps` names two records of `rs`. */
  predicate InRange(rs: seq<Record>, ps: seq<IndexPair>) {
    forall k :: 0 <= k < |ps| ==> ps[k].0 < |rs| && ps[k].1 < |rs|
  }

  /** The closure of lines 44-50 applied to one pair. */
  function Score<D>(rs: seq<Record>, p: IndexPair, jc: Ratio -> D): Line<D>
    requires p.0 < |rs| && p.1 < |rs|
  {
    Line(rs[p.0], rs[p.1], Distance(rs[p.0], rs[p.1], jc))
  }

  /** `.map(...)` over the pairs: one scored line per pair, in the same order. */
  function Scored<D>(rs: seq<Record>, ps: seq<IndexPair>, jc: Ratio -> D): (r: seq<Line<D>>)
    requires InRange(rs, ps)
    ensures |r| == |ps|
    ensures forall k :: 0 <= k < |r| ==> r[k] == Score(rs, ps[k], jc)
  {
    if ps == [] then [] else [Score(rs, ps[0], jc)] + Scored(rs, ps[1..], jc)
  }

  /** The predicate of `.filter` at line 51, on a scored line. */
  function KeepLine<D>(below: D -> bool): Line<D> -> bool {
    (l: Line<D>) => below(l.distance)
  }

  /** The same predicate, on the pair of positions the line was scored from. */
  function KeepPair<D>(rs: seq<Record>, jc: Ratio -> D, below: D -> bool): IndexPair -> bool {
    (p: IndexPair) => p.0 < |rs| && p.1 < |rs| && below(Distance(rs[p.0], rs[p.1], jc))
  }

  /** The lines `main` prints for the records `rs`, in the order it prints them. */
  function Report<D(==)>(rs: seq<Record>, jc: Ratio -> D, below: D -> bool): seq<Line<D>> {
    Filter(Scored(rs, Pairs(|rs|), jc), KeepLine(below))
  }

  /** The positions of the reported pairs. */
  function Selected<D>(rs: seq<Record>, jc: Ratio -> D, below: D -> bool): seq<IndexPair> {
    Filter(Pairs(|rs|), KeepPair(rs, jc, below))
  }

  /** The whole program on the lines of its input. */
  function Run<D(==)>(lines: seq<string>, jc: Ratio -> D, below: D -> bool): seq<Line<D>> {
    Report(ReadRecords(lines), jc, below)
  }

  /** Filtering pairs that name records of `rs` keeps pairs that name records of `rs`. */
  lemma FilterInRange(rs: seq<Record>, ps: seq<IndexPair>, keep: IndexPair -> bool)
    requires InRange(rs, ps)
    ensures InRange(rs, Filter(ps, keep))
  {
  }

  /** Scoring a sequence of pairs that starts with `p` scores `p` first. */
  lemma ScoredCons<D>(rs: seq<Record>, p: IndexPair, rest: seq<IndexPair>, jc: Ratio -> D)
    requires p.0 < |rs| && p.1 < |rs| && InRange(rs, rest)
    ensures InRange(rs, [p] + rest)
    ensures Scored(rs, [p] + rest, jc) == [Score(rs, p, jc)] + Scored(rs, rest, jc)
  {
  }

  /** Scoring and then filtering on the distance is filtering the pairs and then scoring them. */
  lemma {:induction false} FilterScored<D>(rs: seq<Record>, ps: seq<IndexPair>, jc: Ratio -> D, below: D -> bool)
    requires InRange(rs, ps)
    ensures InRange(rs, Filter(ps, KeepPair(rs, jc, below)))
    ensures Filter(Scored(rs, ps, jc), KeepLine(below))
            == Scored(rs, Filter(ps, KeepPair(rs, jc, below)), jc)
  {
    var keep := KeepPair(rs, jc, below);
    FilterInRange(rs, ps, keep);
    if ps != [] {
      var p, rest := ps[0], ps[1..];
      var line := Score(rs, p, jc);
      assert ps == [p] + rest;
      assert InRange(rs, rest);
      FilterScored(rs, rest, jc, below);
      ScoredCons(rs, p, rest, jc);
      FilterCons(line, Scored(rs, rest, jc), KeepLine(below));
      FilterCons(p, rest, keep);
      assert KeepLine(below)(line) == keep(p);
      if keep(p) {
        ScoredCons(rs, p, Filter(rest, keep), jc);
      }
    }
  }

  /** A pair `(i, j)` is selected exactly when `i < j` and its distance passes the threshold. */
  lemma SelectedMembers<D>(rs: seq<Record>, jc: Ratio -> D, below: D -> bool)
    ensures forall i: nat, j: nat :: (i, j) in Selected(rs, jc, below)
              <==> i < j < |rs| && below(Distance(rs[i], rs[j], jc))
  {
    var n := |rs|;
    var keep := KeepPair(rs, jc, below);
    var s := Selected(rs, jc, below);
    PairsSpec(n);
    forall i: nat, j: nat | (i, j) in s ensures i < j < n && below(Distance(rs[i], rs[j], jc)) {
      var k :| 0 <= k < |s| && s[k] == (i, j);
      assert keep(s[k]);
    }
    forall i: nat, j: nat | i < j < n && below(Distance(rs[i], rs[j], jc)) ensures (i, j) in s {
      var m :| 0 <= m < |Pairs(n)| && Pairs(n)[m] == (i, j);
      assert keep(Pairs(n)[m]);
    }
  }

  /**
   * What `main` prints: the records of the selected pairs, in order. The
   * selected pairs keep the order of the enumeration, which is lexicographic,
   * so each appears once; at most `n * (n - 1) / 2` lines are printed, and
   * none for fewer than two records.
   */
  lemma ReportSpec<D>(rs: seq<Record>, jc: Ratio -> D, below: D -> bool)
    ensures InRange(rs, Selected(rs, jc, below))
    ensures Report(rs, jc, below) == Scored(rs, Selected(rs, jc, below), jc)
    ensures IsSubsequence(Selected(rs, jc, below), Pairs(|rs|))
    ensures SortedBy(Selected(rs, jc, below), LexLess)
    ensures |Report(rs, jc, below)| <= |rs| * (|rs| - 1) / 2
    ensures |rs| <= 1 ==> Report(rs, jc, below) == []
  {
    var n := |rs|;
    var s := Selected(rs, jc, below);
    PairsSpec(n);
    FilterScored(rs, Pairs(n), jc, below);
    SubsequenceKeepsOrder(s, Pairs(n), LexLess);
  }

  /**
   * A pair with no informative site has `len == 0`; if the threshold test
   * fails for every ratio with `len == 0` (as it does for the not-a-number
   * quotient `diff / 0`), such a pair is never reported.
   */
  lemma UninformativePairsNeverReported<D>(rs: seq<Record>, jc: Ratio -> D, below: D -> bool)
    requires forall d: nat :: !below(jc(Ratio(d, 0)))
    ensures forall i: nat, j: nat :: (i, j) in Selected(rs, jc, below)
              ==> InformativeCount(rs[i].sequence, rs[j].sequence) > 0
  {
    var s := Selected(rs, jc, below);
    forall i: nat, j: nat | (i, j) in s ensures InformativeCount(rs[i].sequence, rs[j].sequence) > 0 {
      var k :| 0 <= k < |s| && s[k] == (i, j);
      assert KeepPair(rs, jc, below)(s[k]);
      var r := PercentDifference(rs[i], rs[j]);
      assert Distance(rs[i], rs[j], jc) == jc(r);
      assert !below(jc(Ratio(r.diff, 0)));
      assert r != Ratio(r.diff, 0);
    }
  }
}
