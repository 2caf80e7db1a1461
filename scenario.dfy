/**
 * A three-record input worked through the model: the label and sequence lines
 * of `seq1`, `seq2` and `seq3`, and the two counts of each of the three pairs.
 */
module Scenario {
  import opened Records
  import opened Ingest

  const Input: seq<string> := [
    "seq1", "AAAACCCCGGGGTTTT",
    "seq2", "AAAACCCCGGGGTTTA",
    "seq3", "TTTTTTTTTTTTTTTT"
  ]

  /** Four copies of one byte. */
  function Four(b: byte): seq<byte> { [b, b, b, b] }

  /** The sequences of the three records, for any bases in the roles of A, C, G and T. */
  function First(a: byte, c: byte, g: byte, t: byte): seq<byte> { Four(a) + Four(c) + Four(g) + Four(t) }
  function Second(a: byte, c: byte, g: byte, t: byte): seq<byte> { Four(a) + Four(c) + Four(g) + [t, t, t, a] }
  function Third(t: byte): seq<byte> { Four(t) + Four(t) + Four(t) + Four(t) }

  /** The first twelve bytes of the first two sequences. */
  function Head(a: byte, c: byte, g: byte): seq<byte> { Four(a) + Four(c) + Four(g) }

  const Seq1: seq<byte> := First(65, 67, 71, 84)
  const Seq2: seq<byte> := Second(65, 67, 71, 84)
  const Seq3: seq<byte> := Third(84)

  /** A line with no surrounding whitespace is its own trimmed form. */
  lemma TrimUnpadded(s: string)
    requires s != [] && !IsWhitespace(s[0]) && !IsWhitespace(s[|s| - 1])
    ensures Trim(s) == s
  {
  }

  /** The bytes of an ASCII line, one per character. */
  lemma AsciiLine(s: string, bytes: seq<byte>)
    requires |bytes| == |s|
    requires forall k :: 0 <= k < |s| ==> s[k] as int == bytes[k] < 0x80
    ensures EncodeUtf8(s) == bytes
  {
    AsciiBytes(s);
  }

  /** An unpadded label line and an unpadded ASCII sequence line make a record as they stand. */
  lemma UnpaddedRecord(nameLine: string, sequenceLine: string, bytes: seq<byte>)
    requires nameLine != [] && !IsWhitespace(nameLine[0]) && !IsWhitespace(nameLine[|nameLine| - 1])
    requires sequenceLine != [] && !IsWhitespace(sequenceLine[0])
    requires !IsWhitespace(sequenceLine[|sequenceLine| - 1])
    requires |bytes| == |sequenceLine|
    requires forall k :: 0 <= k < |sequenceLine| ==> sequenceLine[k] as int == bytes[k] < 0x80
    ensures MakeRecord(nameLine, sequenceLine) == Record(nameLine, bytes)
  {
    TrimUnpadded(nameLine);
    TrimUnpadded(sequenceLine);
    AsciiLine(sequenceLine, bytes);
  }

  /** Six lines make three records. */
  lemma ThreeRecords(l0: string, l1: string, l2: string, l3: string, l4: string, l5: string)
    ensures ReadRecords([l0, l1, l2, l3, l4, l5])
            == [MakeRecord(l0, l1), MakeRecord(l2, l3), MakeRecord(l4, l5)]
  {
    var lines := [l0, l1, l2, l3, l4, l5];
    ReadRecordsAt(lines, 0);
    ReadRecordsAt(lines, 1);
    ReadRecordsAt(lines, 2);
  }

  lemma Record1()
    ensures MakeRecord("seq1", "AAAACCCCGGGGTTTT") == Record("seq1", Seq1)
  {
    UnpaddedRecord("seq1", "AAAACCCCGGGGTTTT", Seq1);
  }

  lemma Record2()
    ensures MakeRecord("seq2", "AAAACCCCGGGGTTTA") == Record("seq2", Seq2)
  {
    UnpaddedRecord("seq2", "AAAACCCCGGGGTTTA", Seq2);
  }

  lemma Record3()
    ensures MakeRecord("seq3", "TTTTTTTTTTTTTTTT") == Record("seq3", Seq3)
  {
    UnpaddedRecord("seq3", "TTTTTTTTTTTTTTTT", Seq3);
  }

  /** The input pairs into three records whose sequences are the bytes of the sequence lines. */
  lemma ScenarioRecords()
    ensures ReadRecords(Input) == [Record("seq1", Seq1), Record("seq2", Seq2), Record("seq3", Seq3)]
  {
    ThreeRecords("seq1", "AAAACCCCGGGGTTTT", "seq2", "AAAACCCCGGGGTTTA", "seq3", "TTTTTTTTTTTTTTTT");
    Record1();
    Record2();
    Record3();
  }

  /** A run of bases compared with itself: every position informative, none mismatched. */
  lemma SameBases(p: seq<byte>)
    requires AllBases(p)
    ensures InformativeCount(p, p) == |p| && MismatchCount(p, p) == 0
  {
    IdenticalSequences(p);
    AllBasesInformative(p, p);
  }

  /** Two runs of bases that differ at every position, followed by anything. */
  lemma DifferingBlock(q: seq<byte>, r: seq<byte>, t: seq<byte>, u: seq<byte>)
    requires |q| == |r| && AllBases(q) && AllBases(r)
    requires forall k :: 0 <= k < |q| ==> q[k] != r[k]
    ensures InformativeCount(q + t, r + u) == |q| + InformativeCount(t, u)
    ensures MismatchCount(q + t, r + u) == |q| + MismatchCount(t, u)
  {
    CountsAppend(q, r, t, u);
    AllBasesInformative(q, r);
    AllMismatchIff(q, r);
  }

  /** Two equal runs of bases that end in different bases. */
  lemma LastDiffers(p: seq<byte>, x: byte, y: byte)
    requires AllBases(p) && IsNucleotide(x) && IsNucleotide(y) && x != y
    ensures InformativeCount(p + [x], p + [y]) == |p| + 1
    ensures MismatchCount(p + [x], p + [y]) == 1
  {
    CountsAppend(p, p, [x], [y]);
    SameBases(p);
    InformativeCountStep([x], [y]);
    MismatchCountStep([x], [y]);
  }

  lemma FirstSecond(a: byte, c: byte, g: byte, t: byte)
    requires IsNucleotide(a) && IsNucleotide(c) && IsNucleotide(g) && IsNucleotide(t) && a != t
    ensures InformativeCount(First(a, c, g, t), Second(a, c, g, t)) == 16
    ensures MismatchCount(First(a, c, g, t), Second(a, c, g, t)) == 1
  {
    var p := Head(a, c, g) + [t, t, t];
    assert AllBases(p);
    assert First(a, c, g, t) == p + [t] && Second(a, c, g, t) == p + [a];
    LastDiffers(p, t, a);
  }

  lemma FirstThird(a: byte, c: byte, g: byte, t: byte)
    requires IsNucleotide(a) && IsNucleotide(c) && IsNucleotide(g) && IsNucleotide(t)
    requires a != t && c != t && g != t
    ensures InformativeCount(First(a, c, g, t), Third(t)) == 16
    ensures MismatchCount(First(a, c, g, t), Third(t)) == 12
  {
    var q, r := Head(a, c, g), Head(t, t, t);
    assert AllBases(q) && AllBases(r) && AllBases(Four(t));
    assert First(a, c, g, t) == q + Four(t) && Third(t) == r + Four(t);
    DifferingBlock(q, r, Four(t), Four(t));
    SameBases(Four(t));
  }

  lemma SecondThird(a: byte, c: byte, g: byte, t: byte)
    requires IsNucleotide(a) && IsNucleotide(c) && IsNucleotide(g) && IsNucleotide(t)
    requires a != t && c != t && g != t
    ensures InformativeCount(Second(a, c, g, t), Third(t)) == 16
    ensures MismatchCount(Second(a, c, g, t), Third(t)) == 13
  {
    var q, r, p := Head(a, c, g), Head(t, t, t), [t, t, t];
    assert AllBases(q) && AllBases(r) && AllBases(p);
    assert Second(a, c, g, t) == q + (p + [a]) && Third(t) == r + (p + [t]);
    DifferingBlock(q, r, p + [a], p + [t]);
    LastDiffers(p, a, t);
    CountsSymmetric(p + [a], p + [t]);
  }

  /**
   * The counts of the three pairs: 1 of 16, 12 of 16 and 13 of 16 informative
   * sites differ, so every position of these sequences is informative.
   */
  lemma ScenarioCounts()
    ensures |ReadRecords(Input)| == 3
    ensures PercentDifference(ReadRecords(Input)[0], ReadRecords(Input)[1]) == Ratio(1, 16)
    ensures PercentDifference(ReadRecords(Input)[0], ReadRecords(Input)[2]) == Ratio(12, 16)
    ensures PercentDifference(ReadRecords(Input)[1], ReadRecords(Input)[2]) == Ratio(13, 16)
  {
    ScenarioRecords();
    FirstSecond(65, 67, 71, 84);
    FirstThird(65, 67, 71, 84);
    SecondThird(65, 67, 71, 84);
  }
}
