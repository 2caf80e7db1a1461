# jukescantor-rs, modelled in Dafny

jukescantor-rs reads records from standard input, two lines each: a label line and a sequence line. It compares every pair of records and prints the pairs whose Jukes-Cantor distance is below 0.04. The distance comes from two counts over the positionally zipped byte sequences:

- `len` is the number of informative sites. A site is informative when both bytes are canonical bases, upper-case A, C, G or T.
- `diff` is the number of informative sites whose bytes differ.

This project models `src/main.rs` except the floating-point arithmetic and the standard input/output plumbing listed under "## Left out":

- `Records` (records.dfy): the `Record` struct, the classifier `is_nucleotide`, and the counts behind `percent_difference_of_nucleotides`. The counts are kept as the pair `Ratio(diff, len)`. `distance` is `jc(Ratio(diff, len))` for a parameter `jc` that stands for the `f32` transform.
- `Combinations` (combinations.dfy): `combinations(2)` over the records, as the index pairs it yields.
- `Pipeline` (pipeline.dfy): `main`. It scores every pair, keeps the scored pairs that pass `below` (the parameter standing for `distance < 0.04`), and yields them in enumeration order.
- `Ingest` (ingest.dfy): `read_fasta_records` on the lines already read. It pairs lines two at a time, trims them (`str::trim` over the Unicode White_Space characters) and takes the sequence line's UTF-8 bytes (`str::as_bytes`).
- `Seqs` (seqs.dfy): the iterator adaptors the code is built from (`zip`, `filter`, `count`), with the order a filter keeps.
- `Scenario` (scenario.dfy): a three-record input worked through the model.

In the three-record input of `Scenario`, `seq1` (`AAAACCCCGGGGTTTT`) and `seq3` (`TTTTTTTTTTTTTTTT`) agree on their last four positions (T against T). So the code counts 12 mismatches among 16 informative sites, and `seq2` against `seq3` gives 13 of 16. `Scenario.ScenarioCounts` proves these counts. Neither pair is printed, because their `f32` distances are infinite or not a number.

## Model

| member | source | states |
|---|---|---|
| Records.Record | src/main.rs:5-8 | the record struct: a label and the sequence's bytes; `Ingest.ReadRecordsAt` says how each is built from the input lines |
| Records.NucleotideIffUpperBase | src/main.rs:34-37 | a byte is a nucleotide exactly when, as a character, it is a base letter 'A', 'C', 'G' or 'T' (`IsBaseChar`; codes 65, 67, 71, 84) |
| Records.IsNucleotide | src/main.rs:34-37 | the classifier: membership in the set of the four canonical base codes; `NucleotideIffUpperBase` characterises it |
| Records.NonBasesRejected | src/main.rs:34-37 | lower-case bases, 'N', 'n', '-', space, tab, CR and LF are not nucleotides |
| Seqs.Zip | src/main.rs:17-20 | zipping has the length of the shorter input, and position k holds the pair of the inputs' k-th items |
| Seqs.Filter | src/main.rs:21-22 | the filtered items are items of the input that satisfy the predicate; every input item that satisfies it is kept; the result is an order-preserving subsequence, no longer than the input |
| Seqs.SubsequenceKeepsOrder | src/main.rs:51 | a subsequence of a sequence ordered by a relation is ordered by that relation, so a filter never reorders |
| Seqs.FilterLength | src/main.rs:17-30 | filter-then-count is the number of positions whose items pass, so each passing item is counted once per occurrence |
| Seqs.FilterFilter | src/main.rs:17-23 | two successive filters are one filter by the conjunction of their predicates |
| Seqs.FilterKeepsAllIff | src/main.rs:21-23 | filter-then-count equals the input length exactly when every item passes |
| Seqs.FilterEmptyIff | src/main.rs:21-23 | filter-then-count is zero exactly when no item passes |
| Records.Informative | src/main.rs:21-29 | the closure of the both-bases filter (lines 21 and 29): both bytes of a zipped site are nucleotides; `InformativeCountClosed` counts the positions where it holds |
| Records.Mismatched | src/main.rs:22 | the closure of the second filter: the two bytes of a site differ; `MismatchCountClosed` counts the informative positions where it holds |
| Records.InformativeCount | src/main.rs:25-30 | `len`: informative sites are positions of the zip, so there are at most as many as the shorter sequence's length; `InformativeCountClosed` gives its exact value |
| Records.MismatchCount | src/main.rs:17-23 | `diff`: mismatched sites are informative sites, so there are at most as many as `len`; `MismatchCountClosed` gives its exact value |
| Records.InformativeCountClosed | src/main.rs:25-30 | `len` is the number of positions i below the shorter length where both bytes are canonical bases |
| Records.MismatchCountClosed | src/main.rs:17-23 | `diff` is the number of positions i below the shorter length where both bytes are canonical bases and differ |
| Records.PercentDifference | src/main.rs:16-32 | the ratio's `diff` and `len` satisfy `diff <= len <= min(|self.sequence|, |other.sequence|)`, from the contracts of the two counts |
| Records.InformativeCountStep | src/main.rs:25-30 | `len` of two non-empty sequences is 1 for an informative first position, 0 otherwise, plus `len` of the tails |
| Records.MismatchCountStep | src/main.rs:17-23 | `diff` of two non-empty sequences is 1 for an informative, differing first position, 0 otherwise, plus `diff` of the tails |
| Records.Distance | src/main.rs:11-14 | the distance is the transform `jc` applied to the ratio of the two records; `DistanceSymmetric` shows it does not depend on their order |
| Records.CountsSymmetric | src/main.rs:16-31 | swapping the two sequences changes neither `diff` nor `len` |
| Records.DistanceSymmetric | src/main.rs:11-14 | `percent_difference` and the distance of (x, y) equal those of (y, x), for any transform |
| Records.IdenticalSequences | src/main.rs:17-30 | a sequence against itself has `diff = 0` and `len` equal to its number of canonical bases |
| Records.UninformativeEditInvisible | src/main.rs:20-29 | rewriting a position of `a` that is uninformative before and after the edit changes neither count |
| Records.HeadEditInvisible | src/main.rs:20-29 | the same for the first position |
| Records.TailEditInvisible | src/main.rs:20-29 | an edit after the first position leaves the counts unchanged when it leaves the tails' counts unchanged |
| Records.ExtensionInvisible | src/main.rs:17-20 | appending bytes to `b` beyond the length of `a` changes neither count (zip truncates) |
| Records.ExtensionInvisibleLeft | src/main.rs:17-20 | appending bytes to `a` beyond the length of `b` changes neither count |
| Records.CountsAppend | src/main.rs:17-30 | over two equally long blocks followed by two more, both counts add up block by block |
| Records.AllBasesInformative | src/main.rs:25-30 | when both sequences hold only bases, `len` is the shorter length |
| Records.NoInformativeSiteIff | src/main.rs:25-31 | `len = 0` (the `diff / len` not-a-number case) exactly when no position is informative |
| Records.NoMismatchIff | src/main.rs:17-23 | `diff = 0` exactly when the sequences agree at every informative position |
| Records.AllMismatchIff | src/main.rs:17-30 | `diff = len` exactly when the sequences differ at every informative position |
| Combinations.Row | src/main.rs:43 | the pairs for one first index i are (i, j), (i, j + 1), ..., (i, n - 1) |
| Combinations.PairsFrom | src/main.rs:43 | the rows of first index i, i + 1, ..., n - 1 in turn; each produced pair (a, b) has i <= a < b < n |
| Combinations.Pairs | src/main.rs:43 | every enumerated pair (i, j) has i < j < n |
| Combinations.PairsFromMembers | src/main.rs:43 | every (a, b) with i <= a < b < n is enumerated from first index i on (the converse is `PairsFrom`'s contract) |
| Combinations.PairsFromSorted | src/main.rs:43 | the pairs come out in strictly increasing lexicographic order |
| Combinations.PairsFromCount | src/main.rs:43 | there are (n - i)(n - i - 1) / 2 pairs from first index i on |
| Combinations.PairsSpec | src/main.rs:41-43 | `combinations(2)` over n records yields n(n - 1)/2 pairs: exactly the (i, j) with i < j < n, each once, in lexicographic order, and none for n <= 1 |
| Pipeline.Line | src/main.rs:45-49 | the triple of the two records and their distance that the map builds and `main` prints; `Score` builds it |
| Pipeline.Scored | src/main.rs:44-50 | the map yields one scored line per pair, in order, carrying both records and their distance |
| Pipeline.Score | src/main.rs:44-50 | the closure of the map: the two records of a pair and their distance; `Scored` applies it to each pair |
| Pipeline.ScoredCons | src/main.rs:44-50 | scoring a sequence that starts with a pair scores that pair first |
| Pipeline.FilterInRange | src/main.rs:44-51 | filtered pairs still name records of the input |
| Pipeline.KeepLine | src/main.rs:51 | the closure of the output filter, `distance < 0.04`, with the comparison as `below`; `SelectedMembers` says which pairs it keeps |
| Pipeline.FilterScored | src/main.rs:44-51 | scoring and then filtering on the distance gives the same lines as filtering the pairs and then scoring them |
| Pipeline.SelectedMembers | src/main.rs:41-51 | a pair (i, j) is reported exactly when i < j < n and its distance passes the threshold |
| Pipeline.ReportSpec | src/main.rs:41-54 | the printed lines are the scored selected pairs; the selected pairs are a subsequence of the enumeration, in lexicographic order; there are at most n(n - 1)/2 lines, and none for n <= 1 |
| Pipeline.Selected | src/main.rs:41-51 | the enumerated pairs whose distance passes the threshold, in enumeration order; `SelectedMembers` characterises them |
| Pipeline.Report | src/main.rs:41-54 | the lines `main` prints: the scored enumeration filtered on the distance; `ReportSpec` characterises them |
| Pipeline.Run | src/main.rs:40-67 | the whole program: records read from the lines, then reported; its output is `Report` of `ReadRecords` |
| Pipeline.UninformativePairsNeverReported | src/main.rs:25-51 | if the threshold test fails for every ratio with `len = 0`, as it does for a not-a-number quotient, no reported pair has `len = 0` |
| Ingest.LeadingWhitespace | src/main.rs:63-64 | the count of leading characters that trimming drops: all of them are whitespace, and the next one is not |
| Ingest.ContentEnd | src/main.rs:63-64 | the end of what trimming keeps: every later character is whitespace, and the one before is not |
| Ingest.TrimSpec | src/main.rs:63-64 | the trimmed line is a slice of the line; everything cut from either end is whitespace; the result neither starts nor ends with whitespace |
| Ingest.IsWhitespace | src/main.rs:63-64 | the Unicode White_Space characters, the set `str::trim` removes |
| Ingest.Trim | src/main.rs:63-64 | `str::trim` as `trim_end` of `trim_start`; `TrimSpec` and `TrimIdempotent` characterise it |
| Ingest.TrimIdempotent | src/main.rs:63-64 | trimming a trimmed line changes nothing |
| Ingest.EncodeChar | src/main.rs:64 | a character encodes to 1 to 4 bytes; an ASCII character to its own code; any other character only to bytes of 0x80 and above |
| Ingest.EncodeUtf8 | src/main.rs:64 | a line of k characters encodes to between k and 4k bytes |
| Ingest.CharBases | src/main.rs:64 | one encoded character holds a base exactly when it is a base letter |
| Ingest.EncodedBases | src/main.rs:64 | the bases in a sequence line's bytes are exactly its base letters |
| Ingest.AsciiBytes | src/main.rs:64 | an ASCII line's bytes are its character codes, one per character |
| Ingest.MakeRecord | src/main.rs:62-65 | a record of the trimmed label line and the UTF-8 bytes of the trimmed sequence line; `ReadRecordsAt` places it in the output |
| Ingest.ReadRecords | src/main.rs:57-67 | k lines make floor(k/2) records |
| Ingest.ReadRecordsAt | src/main.rs:60-65 | record i has trimmed line 2i as its label and the bytes of trimmed line 2i + 1 as its sequence |
| Ingest.TrailingLineDropped | src/main.rs:60-61 | after an even number of lines, one more line adds no record |
| Ingest.ReadRecordsAppend | src/main.rs:60-65 | after an even number of lines, two more lines add exactly their record at the end |
| Scenario.ScenarioRecords | src/main.rs:57-67 | the six example lines make the records seq1, seq2 and seq3 with the lines' bytes |
| Scenario.ScenarioCounts | src/main.rs:16-31 | the example pairs have (diff, len) = (1, 16), (12, 16) and (13, 16) |

## Left out

- The `f32` arithmetic: the conversion `count() as f32`, the division `diff / len`, the transform `-0.75 * log2(1 - p * 4/3)` and the comparison `< 0.04`, with their rounding, NaN and infinity behaviour. Their place is taken by the parameters `jc` and `below`.
- Records.Distance, Pipeline.Report, Pipeline.Run: these hold for every `jc` and `below`. So they do not say which concrete pairs pass `distance < 0.04`, and they do not cover the float cases where `len = 0` or `p >= 0.75`. `Pipeline.UninformativePairsNeverReported` states the `len = 0` case as a condition on `below`.
- Reading standard input: splitting it into lines and the `unwrap()` that panics on an I/O error or invalid UTF-8. The model starts from the lines as a sequence of strings.
- The `println!` formatting of each line. The model's output is the sequence of `(record1, record2, distance)` triples.
- The `HashSet` inside `is_nucleotide` and the implementations of itertools `combinations` and `tuples`. Their observable results are modelled directly.
- The struct field `label` is named `name` in the model, because `label` is a Dafny keyword.
