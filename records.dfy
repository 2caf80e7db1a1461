/**
 * The `Record` struct and its associated functions (src/main.rs:5-38): the
 * nucleotide classifier and the two site counts from which the Jukes-Cantor
 * distance of two records is derived.
 */
module Records {
  import opened Seqs

  /** A Rust `u8`. */
  type byte = b: int | 0 <= b < 256

  /** One input record: `name` is the struct's `label` field (`label` is a Dafny keyword). */
  datatype Record = Record(name: string, sequence: seq<byte>)

  /** The byte values of the four canonical bases, the contents of the `HashSet` in `is_nucleotide`. */
  const Canonical: set<byte> := {65, 67, 71, 84}

  /** `Record::is_nucleotide`. */
  predicate IsNucleotide(c: byte) {
    c in Canonical
  }

  /** A canonical base letter, as a character. */
  predicate IsBaseChar(c: char) {
    c == 'A' || c == 'C' || c == 'G' || c == 'T'
  }

  /** Every byte of `s` is a base. */
  predicate AllBases(s: seq<byte>) {
    forall k :: 0 <= k < |s| ==> IsNucleotide(s[k])
  }

  /** A position of the zipped sequences that passes the first filter: both bytes are bases. */
  predicate Informative(site: (byte, byte)) {
    IsNucleotide(site.0) && IsNucleotide(site.1)
  }

  /** A position that passes the second filter: the two bytes differ. */
  predicate Mismatched(site: (byte, byte)) {
    site.0 != site.1
  }

  /** The informative sites of `a` against `b`, in order (the zip and first filter of lines 25-29). */
  function InformativeSites(a: seq<byte>, b: seq<byte>): seq<(byte, byte)> {
    Filter(Zip(a, b), Informative)
  }

  /** `len` of `percent_difference_of_nucleotides`: the number of informative sites. */
  function InformativeCount(a: seq<byte>, b: seq<byte>): (r: nat)
    ensures r <= Min(|a|, |b|)
  {
    |InformativeSites(a, b)|
  }

  /** `diff` of `percent_difference_of_nucleotides`: informative sites whose bytes differ. */
  function MismatchCount(a: seq<byte>, b: seq<byte>): (r: nat)
    ensures r <= InformativeCount(a, b)
  {
    |Filter(InformativeSites(a, b), Mismatched)|
  }

  /** The number of canonical bases in one sequence. */
  function NucleotideCount(a: seq<byte>): nat {
    |Filter(a, IsNucleotide)|
  }

  /** The two counts whose `f32` quotient `diff / len` the source returns. */
  datatype Ratio = Ratio(diff: nat, len: nat)

  /** `Record::percent_difference_of_nucleotides`, with the final division left to the caller. */
  function PercentDifference(x: Record, y: Record): (r: Ratio)
    ensures r.diff <= r.len <= Min(|x.sequence|, |y.sequence|)
  {
    Ratio(MismatchCount(x.sequence, y.sequence), InformativeCount(x.sequence, y.sequence))
  }

  /**
   * `Record::distance`: the floating-point Jukes-Cantor transform of the
   * mismatch fraction. The transform itself is the parameter `jc`.
   */
  function Distance<D>(x: Record, y: Record, jc: Ratio -> D): D {
    jc(PercentDifference(x, y))
  }

  // ---------------------------------------------------------------------------
  // The classifier

  /** The classifier accepts exactly the ASCII codes of upper-case A, C, G and T. */
  lemma NucleotideIffUpperBase(c: byte)
    ensures IsNucleotide(c) <==> IsBaseChar(c as char)
  {
  }

  /** Lower-case bases, the ambiguity code N, the gap '-' and whitespace are not bases. */
  lemma NonBasesRejected()
    ensures forall c: char :: c in "acgtnN- \t\r\n" ==> !IsNucleotide(c as byte)
  {
  }

  // ---------------------------------------------------------------------------
  // Unfolding the counts one position at a time

  /** The informative count of two non-empty sequences decided at their first position. */
  lemma InformativeCountStep(a: seq<byte>, b: seq<byte>)
    requires a != [] && b != []
    ensures InformativeCount(a, b)
            == (if Informative((a[0], b[0])) then 1 else 0) + InformativeCount(a[1..], b[1..])
  {
  }

  /** The mismatch count of two non-empty sequences decided at their first position. */
  lemma MismatchCountStep(a: seq<byte>, b: seq<byte>)
    requires a != [] && b != []
    ensures MismatchCount(a, b)
            == (if Informative((a[0], b[0])) && a[0] != b[0] then 1 else 0)
               + MismatchCount(a[1..], b[1..])
  {
  }

  // ---------------------------------------------------------------------------
  // Properties of the counts

  /** Swapping the two records changes neither count, so the distance is symmetric. */
  lemma {:induction false} CountsSymmetric(a: seq<byte>, b: seq<byte>)
    ensures InformativeCount(a, b) == InformativeCount(b, a)
    ensures MismatchCount(a, b) == MismatchCount(b, a)
    decreases |a|
  {
    if a != [] && b != [] {
      InformativeCountStep(a, b);
      InformativeCountStep(b, a);
      MismatchCountStep(a, b);
      MismatchCountStep(b, a);
      CountsSymmetric(a[1..], b[1..]);
    }
  }

  /** The ratio, and so the distance under any transform, does not depend on the order of the records. */
  lemma DistanceSymmetric<D>(x: Record, y: Record, jc: Ratio -> D)
    ensures PercentDifference(x, y) == PercentDifference(y, x)
    ensures Distance(x, y, jc) == Distance(y, x, jc)
  {
    CountsSymmetric(x.sequence, y.sequence);
  }

  /** A sequence compared with itself has no mismatch and one informative site per base. */
  lemma {:induction false} IdenticalSequences(a: seq<byte>)
    ensures MismatchCount(a, a) == 0
    ensures InformativeCount(a, a) == NucleotideCount(a)
  {
    if a != [] {
      InformativeCountStep(a, a);
      MismatchCountStep(a, a);
      FilterCons(a[0], a[1..], IsNucleotide);
      assert a == [a[0]] + a[1..];
      IdenticalSequences(a[1..]);
    }
  }

  /** Position `i` is informative: both sequences reach it and hold a base there. */
  predicate InformativeAt(a: seq<byte>, b: seq<byte>, i: nat) {
    i < |a| && i < |b| && IsNucleotide(a[i]) && IsNucleotide(b[i])
  }

  /** Rewriting the first byte of `a` when that position is uninformative before and after. */
  lemma HeadEditInvisible(a: seq<byte>, b: seq<byte>, c: byte)
    requires a != [] && b != []
    requires !Informative((a[0], b[0])) && !Informative((c, b[0]))
    ensures InformativeCount(a[0 := c], b) == InformativeCount(a, b)
    ensures MismatchCount(a[0 := c], b) == MismatchCount(a, b)
  {
  }

  /** Rewriting a byte of `a` after the first, given that the tails' counts are unchanged. */
  lemma TailEditInvisible(a: seq<byte>, b: seq<byte>, i: nat, c: byte)
    requires 0 < i < |a| && b != []
    requires InformativeCount(a[1..][i - 1 := c], b[1..]) == InformativeCount(a[1..], b[1..])
    requires MismatchCount(a[1..][i - 1 := c], b[1..]) == MismatchCount(a[1..], b[1..])
    ensures InformativeCount(a[i := c], b) == InformativeCount(a, b)
    ensures MismatchCount(a[i := c], b) == MismatchCount(a, b)
  {
    var a' := a[i := c];
    assert a'[0] == a[0] && a'[1..] == a[1..][i - 1 := c];
    InformativeCountStep(a, b);
    InformativeCountStep(a', b);
    MismatchCountStep(a, b);
    MismatchCountStep(a', b);
  }

  /**
   * Rewriting position `i` of `a` changes neither count when that position is
   * uninformative before and after: the byte of `a` there is not a base
   * either time, or `b` has no base there.
   */
  lemma {:induction false} UninformativeEditInvisible(a: seq<byte>, b: seq<byte>, i: nat, c: byte)
    requires i < |a|
    requires (!IsNucleotide(a[i]) && !IsNucleotide(c)) || i >= |b| || !IsNucleotide(b[i])
    ensures InformativeCount(a[i := c], b) == InformativeCount(a, b)
    ensures MismatchCount(a[i := c], b) == MismatchCount(a, b)
  {
    if b != [] {
      if i == 0 {
        HeadEditInvisible(a, b, c);
      } else {
        UninformativeEditInvisible(a[1..], b[1..], i - 1, c);
        TailEditInvisible(a, b, i, c);
      }
    }
  }

  /** Bytes of `b` past the end of `a` are never zipped, so they change neither count. */
  lemma {:induction false} ExtensionInvisible(a: seq<byte>, b: seq<byte>, tail: seq<byte>)
    requires |a| <= |b|
    ensures InformativeCount(a, b + tail) == InformativeCount(a, b)
    ensures MismatchCount(a, b + tail) == MismatchCount(a, b)
  {
    if a != [] {
      var b' := b + tail;
      assert b'[0] == b[0] && b'[1..] == b[1..] + tail;
      InformativeCountStep(a, b);
      InformativeCountStep(a, b');
      MismatchCountStep(a, b);
      MismatchCountStep(a, b');
      ExtensionInvisible(a[1..], b[1..], tail);
    }
  }

  /** The same for bytes of `a` past the end of `b`. */
  lemma ExtensionInvisibleLeft(a: seq<byte>, b: seq<byte>, tail: seq<byte>)
    requires |b| <= |a|
    ensures InformativeCount(a + tail, b) == InformativeCount(a, b)
    ensures MismatchCount(a + tail, b) == MismatchCount(a, b)
  {
    CountsSymmetric(a + tail, b);
    CountsSymmetric(a, b);
    ExtensionInvisible(b, a, tail);
  }

  /** Counting over two equally long blocks followed by two more is counting block by block. */
  lemma {:induction false} CountsAppend(a: seq<byte>, b: seq<byte>, c: seq<byte>, d: seq<byte>)
    requires |a| == |b|
    ensures InformativeCount(a + c, b + d) == InformativeCount(a, b) + InformativeCount(c, d)
    ensures MismatchCount(a + c, b + d) == MismatchCount(a, b) + MismatchCount(c, d)
  {
    if a != [] {
      var a', b' := a + c, b + d;
      assert a'[0] == a[0] && a'[1..] == a[1..] + c;
      assert b'[0] == b[0] && b'[1..] == b[1..] + d;
      InformativeCountStep(a, b);
      InformativeCountStep(a', b');
      MismatchCountStep(a, b);
      MismatchCountStep(a', b');
      CountsAppend(a[1..], b[1..], c, d);
    } else {
      assert a + c == c && b + d == d;
    }
  }

  /** When both sequences hold only bases, every zipped position is informative. */
  lemma AllBasesInformative(a: seq<byte>, b: seq<byte>)
    requires AllBases(a) && AllBases(b)
    ensures InformativeCount(a, b) == Min(|a|, |b|)
  {
    var z := Zip(a, b);
    FilterKeepsAllIff(z, Informative);
    assert forall k :: 0 <= k < |z| ==> Informative(z[k]);
  }

  /** `len` is 0 (and `diff / len` is not a number) exactly when no position is informative. */
  lemma NoInformativeSiteIff(a: seq<byte>, b: seq<byte>)
    ensures InformativeCount(a, b) == 0 <==> forall i: nat :: !InformativeAt(a, b, i)
  {
    var z := Zip(a, b);
    var sites := InformativeSites(a, b);
    forall i: nat | InformativeAt(a, b, i) ensures z[i] in sites {
      assert Informative(z[i]);
    }
    if sites != [] {
      var i :| 0 <= i < |z| && z[i] == sites[0];
      assert InformativeAt(a, b, i);
    }
  }

  /** `len` is the number of positions, below the shorter length, where both bytes are bases. */
  lemma InformativeCountClosed(a: seq<byte>, b: seq<byte>)
    ensures InformativeCount(a, b) == |set i: nat | i < Min(|a|, |b|) && InformativeAt(a, b, i)|
  {
    var z := Zip(a, b);
    FilterLength(z, Informative);
    assert Passing(z, Informative) == set i: nat | i < Min(|a|, |b|) && InformativeAt(a, b, i);
  }

  /** A site that passes both filters of `diff`. */
  predicate InformativeMismatch(site: (byte, byte)) {
    Informative(site) && Mismatched(site)
  }

  /** `diff` is the number of positions, below the shorter length, where both bytes are bases and differ. */
  lemma MismatchCountClosed(a: seq<byte>, b: seq<byte>)
    ensures MismatchCount(a, b)
            == |set i: nat | i < Min(|a|, |b|) && InformativeAt(a, b, i) && a[i] != b[i]|
  {
    var z := Zip(a, b);
    FilterFilter(z, Informative, Mismatched, InformativeMismatch);
    FilterLength(z, InformativeMismatch);
    assert Passing(z, InformativeMismatch)
           == set i: nat | i < Min(|a|, |b|) && InformativeAt(a, b, i) && a[i] != b[i];
  }

  /** `diff` is 0 exactly when the sequences agree at every informative position. */
  lemma NoMismatchIff(a: seq<byte>, b: seq<byte>)
    ensures MismatchCount(a, b) == 0 <==> forall i: nat :: InformativeAt(a, b, i) ==> a[i] == b[i]
  {
  }

  /** `diff == len` (a mismatch fraction of 1) exactly when every informative position differs. */
  lemma AllMismatchIff(a: seq<byte>, b: seq<byte>)
    ensures MismatchCount(a, b) == InformativeCount(a, b)
            <==> forall i: nat :: InformativeAt(a, b, i) ==> a[i] != b[i]
  {
    var z := Zip(a, b);
    var sites := InformativeSites(a, b);
    FilterKeepsAllIff(sites, Mismatched);
    forall i: nat | InformativeAt(a, b, i) ensures z[i] in sites {
      assert Informative(z[i]);
    }
    if MismatchCount(a, b) != InformativeCount(a, b) {
      var k :| 0 <= k < |sites| && !Mismatched(sites[k]);
      var i :| 0 <= i < |z| && z[i] == sites[k];
      assert InformativeAt(a, b, i) && a[i] == b[i];
    }
  }
}
