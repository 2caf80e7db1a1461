/**
 * `read_fasta_records` (src/main.rs:57-67): the input lines are taken two at a
 * time; the first of each pair, trimmed, is the record's label and the second,
 * trimmed, is its sequence as UTF-8 bytes. A last line without a partner is
 * dropped. Reading the lines from standard input is not modelled: the lines
 * are the argument.
 */
module Ingest {
  import opened Seqs
  import opened Records

  // ---------------------------------------------------------------------------
  // `str::trim`

  /** `char::is_whitespace`: the characters with the Unicode White_Space property. */
  predicate IsWhitespace(c: char) {
    var n := c as int;
    || (0x09 <= n <= 0x0D) || n == 0x20 || n == 0x85 || n == 0xA0 || n == 0x1680
    || (0x2000 <= n <= 0x200A) || n == 0x2028 || n == 0x2029 || n == 0x202F
    || n == 0x205F || n == 0x3000
  }

  /** The number of whitespace characters `s` starts with. */
  function LeadingWhitespace(s: string): (n: nat)
    ensures n <= |s|
    ensures forall k :: 0 <= k < n ==> IsWhitespace(s[k])
    ensures n == |s| || !IsWhitespace(s[n])
  {
    if s != [] && IsWhitespace(s[0]) then 1 + LeadingWhitespace(s[1..]) else 0
  }

  /** The length of `s` without the whitespace it ends with. */
  function ContentEnd(s: string): (n: nat)
    ensures n <= |s|
    ensures forall k :: n <= k < |s| ==> IsWhitespace(s[k])
    ensures n == 0 || !IsWhitespace(s[n - 1])
  {
    if s != [] && IsWhitespace(s[|s| - 1]) then ContentEnd(s[..|s| - 1]) else |s|
  }

  /** `str::trim_start`. */
  function TrimStart(s: string): string {
    s[LeadingWhitespace(s)..]
  }

  /** `str::trim_end`. */
  function TrimEnd(s: string): string {
    s[..ContentEnd(s)]
  }

  /** `str::trim`. */
  function Trim(s: string): string {
    TrimEnd(TrimStart(s))
  }

  /**
   * Trimming keeps the slice `s[i..j]` that remains after removing whitespace
   * from both ends: everything cut off is whitespace, and the result neither
   * starts nor ends with whitespace.
   */
  lemma TrimSpec(s: string)
    ensures exists i, j :: 0 <= i <= j <= |s| && Trim(s) == s[i..j]
              && (forall k :: 0 <= k < i ==> IsWhitespace(s[k]))
              && (forall k :: j <= k < |s| ==> IsWhitespace(s[k]))
    ensures Trim(s) == [] || (!IsWhitespace(Trim(s)[0]) && !IsWhitespace(Trim(s)[|Trim(s)| - 1]))
  {
    var i := LeadingWhitespace(s);
    var t := s[i..];
    var j := i + ContentEnd(t);
    assert Trim(s) == s[i..j];
    forall k | j <= k < |s| ensures IsWhitespace(s[k]) {
      assert s[k] == t[k - i];
    }
  }

  /** Trimming twice is trimming once. */
  lemma TrimIdempotent(s: string)
    ensures Trim(Trim(s)) == Trim(s)
  {
  }

  // ---------------------------------------------------------------------------
  // `str::as_bytes`: UTF-8

  /** The UTF-8 encoding of one Unicode scalar value. */
  function EncodeChar(c: char): (r: seq<byte>)
    ensures 1 <= |r| <= 4
    ensures (c as int) < 0x80 ==> r == [c as int]
    ensures (c as int) >= 0x80 ==> forall k :: 0 <= k < |r| ==> r[k] >= 0x80
  {
    var n := c as int;
    if n < 0x80 then [n]
    else if n < 0x800 then [0xC0 + n / 0x40, 0x80 + n % 0x40]
    else if n < 0x1_0000 then [0xE0 + n / 0x1000, 0x80 + (n / 0x40) % 0x40, 0x80 + n % 0x40]
    else [0xF0 + n / 0x4_0000, 0x80 + (n / 0x1000) % 0x40, 0x80 + (n / 0x40) % 0x40, 0x80 + n % 0x40]
  }

  /** The UTF-8 bytes of a string. */
  function EncodeUtf8(s: string): (r: seq<byte>)
    ensures |s| <= |r| <= 4 * |s|
  {
    if s == [] then [] else EncodeChar(s[0]) + EncodeUtf8(s[1..])
  }

  /** One encoded character holds a base exactly when the character is a base letter. */
  lemma CharBases(c: char)
    ensures NucleotideCount(EncodeChar(c)) == if IsBaseChar(c) then 1 else 0
  {
  }

  /**
   * The bases of the encoded line are exactly its base letters: a character
   * outside ASCII encodes to bytes of 0x80 and above, none of which is a base.
   */
  lemma {:induction false} EncodedBases(s: string)
    ensures NucleotideCount(EncodeUtf8(s)) == |Filter(s, IsBaseChar)|
  {
    if s != [] {
      EncodedBases(s[1..]);
      assert s == [s[0]] + s[1..];
      FilterCons(s[0], s[1..], IsBaseChar);
      FilterAppend(EncodeChar(s[0]), EncodeUtf8(s[1..]), IsNucleotide);
      CharBases(s[0]);
    }
  }

  /** An ASCII line is its own byte string, one byte per character. */
  lemma {:induction false} AsciiBytes(s: string)
    requires forall k :: 0 <= k < |s| ==> (s[k] as int) < 0x80
    ensures |EncodeUtf8(s)| == |s|
    ensures forall k :: 0 <= k < |s| ==> EncodeUtf8(s)[k] == s[k] as int
  {
    if s != [] {
      AsciiBytes(s[1..]);
      assert EncodeUtf8(s) == [s[0] as int] + EncodeUtf8(s[1..]);
      forall k | 0 < k < |s| ensures EncodeUtf8(s)[k] == s[k] as int {
        assert s[k] == s[1..][k - 1];
      }
    }
  }

  // ---------------------------------------------------------------------------
  // Pairing lines into records

  /** The record built from a label line and a sequence line (src/main.rs:62-65). */
  function MakeRecord(nameLine: string, sequenceLine: string): Record {
    Record(Trim(nameLine), EncodeUtf8(Trim(sequenceLine)))
  }

  /** `read_fasta_records`, with the lines already read. */
  function ReadRecords(lines: seq<string>): (rs: seq<Record>)
    ensures |rs| == |lines| / 2
  {
    if |lines| < 2 then []
    else [MakeRecord(lines[0], lines[1])] + ReadRecords(lines[2..])
  }

  /** Record `i` is made of line `2 * i` (its label) and line `2 * i + 1` (its sequence). */
  lemma {:induction false} ReadRecordsAt(lines: seq<string>, i: nat)
    requires i < |lines| / 2
    ensures ReadRecords(lines)[i] == MakeRecord(lines[2 * i], lines[2 * i + 1])
  {
    var tail := lines[2..];
    var rest := ReadRecords(tail);
    assert ReadRecords(lines) == [MakeRecord(lines[0], lines[1])] + rest;
    if i > 0 {
      var j := i - 1;
      ReadRecordsAt(tail, j);
      assert tail[2 * j] == lines[2 * i] && tail[2 * j + 1] == lines[2 * i + 1];
      assert ReadRecords(lines)[i] == rest[j];
    }
  }

  /** A last, unpaired line contributes nothing. */
  lemma {:induction false} TrailingLineDropped(lines: seq<string>, last: string)
    requires |lines| % 2 == 0
    ensures ReadRecords(lines + [last]) == ReadRecords(lines)
  {
    if |lines| >= 2 {
      assert (lines + [last])[2..] == lines[2..] + [last];
      TrailingLineDropped(lines[2..], last);
    }
  }

  /** Two more lines after an even number of lines add exactly one record at the end. */
  lemma {:induction false} ReadRecordsAppend(lines: seq<string>, nameLine: string, sequenceLine: string)
    requires |lines| % 2 == 0
    ensures ReadRecords(lines + [nameLine, sequenceLine]) == ReadRecords(lines) + [MakeRecord(nameLine, sequenceLine)]
  {
    if |lines| >= 2 {
      assert (lines + [nameLine, sequenceLine])[2..] == lines[2..] + [nameLine, sequenceLine];
      ReadRecordsAppend(lines[2..], nameLine, sequenceLine);
    }
  }
}
