# DNA probe matcher — matching engine

A Dafny model of the matching engine of the DNA probe matcher desktop tool. The
tool loads named oligonucleotide probes from a CSV file and looks for every
exact, case-insensitive, overlapping occurrence of each probe in a target
sequence. It looks for the probe itself (reported as 5′→3′) and for its reverse
complement (reported as 3′→5′). Each hit becomes a result row holding the probe
name, the orientation, 1-based inclusive start and end positions, and the
upper-cased target text between them.

The model has four modules:

- `Nucleotides` (`nucleotides.dfy`) covers the alphabet check `is_valid_sequence`,
  ASCII case folding, and `reverse_complement`. Its failure path ("" when a
  character has no complement) is modelled explicitly.
- `Search` (`search.dfy`) covers Python's `str.find` and `find_matches`.
  `FindMatches` is an imperative method. It runs the source's two cursor loops
  through one `ScanFor` loop, which restarts at `pos + 1` after each hit. Both
  are proved equal to the reference function `Matches`, which is built from the
  list of all occurrence indices. Soundness, completeness, order, uniqueness and
  case-insensitivity are proved about `Matches`.
- `Records` (`records.dfy`) covers the pure logic around the search:
  - the `strip()` and `''.join(split())` normalisation of the target;
  - Python slicing;
  - turning hits into result records;
  - the row classification and the header heuristic of `upload_probe_csv`.
- `Session` (`session.dfy`) holds the application object's state as a class,
  `ProbeMatcher`. Its fields `probes` and `matches` are rebuilt by `LoadProbes`
  (`upload_probe_csv` once the file has been read into rows of fields) and by
  `SearchMatches` (`search_matches` on the text of the target box).

An empty probe is not treated as matching nothing. `find_matches` reports one forward hit at every index 0..|target|, each with
`end = start - 1`, because `find` returns the cursor for an empty needle. The
model proves exactly this (`Search.EmptyProbeMatches`). A loaded probe is never
empty, so this behaviour does not reach the results table.

## Model

| member | source | states |
|---|---|---|
| Nucleotides.IsValidSequence | dna_probe_matcher.py:167-170 | a sequence is valid exactly when every character is one of A, T, G, C in either case; the empty sequence is valid |
| Nucleotides.ComplementReversed | dna_probe_matcher.py:268-274 | the lookup succeeds exactly when every character has a table entry; the result then has the input's length, and position i holds the complement of the character mirrored at position n-1-i |
| Nucleotides.ValidIffTableCovers | dna_probe_matcher.py:167-170 | the alphabet check accepts a sequence exactly when every upper-cased character has a complement in the table of `reverse_complement` |
| Nucleotides.ReverseComplementOfValid | dna_probe_matcher.py:266-271 | for a valid sequence the reverse complement has the same length, and position i is the complement of the upper-cased base at position n-1-i |
| Nucleotides.ReverseComplementEmpty | dna_probe_matcher.py:266-274 | the result is "" exactly when the input is empty or holds a character outside the alphabet (the KeyError path) |
| Nucleotides.ReverseComplementIsValid | dna_probe_matcher.py:266-274 | the result is always an upper-case valid sequence made of table keys |
| Nucleotides.ReverseComplementInvolution | dna_probe_matcher.py:266-271 | applying the reverse complement twice to a valid sequence gives back its upper-cased form |
| Nucleotides.ReverseComplementOfUpper | dna_probe_matcher.py:270 | upper-casing the input first does not change the result |
| Nucleotides.ReverseComplementExample | dna_probe_matcher.py:266-274 | "ATGC" and "atgc" give "GCAT"; "ATXG" gives "" |
| Nucleotides.ValidatorExamples | dna_probe_matcher.py:167-170 | "ATGCatgc" and "" are accepted; "ATXG" and "atgn" are refused |
| Search.Find | dna_probe_matcher.py:289 | `find` returns -1 or an index at or after the cursor where the needle fits inside the text |
| Search.FindIsFirstOccurrence | dna_probe_matcher.py:289-291 | `find` returns an occurrence, and no index between the cursor and it holds one; when it returns -1, no index at or after the cursor holds one |
| Search.FindFromStartIsContainment | dna_probe_matcher.py:197-200 | `find` from index 0 succeeds exactly when the needle occurs somewhere, which is Python's `in` |
| Search.OccurrencesFromSound | dna_probe_matcher.py:287-293 | every listed index is at or after the starting index and holds an occurrence |
| Search.OccurrencesFromComplete | dna_probe_matcher.py:287-293 | every occurrence at or after the starting index is listed |
| Search.OccurrencesFromSorted | dna_probe_matcher.py:287-293 | the listed indices strictly increase |
| Search.OccurrencesIff | dna_probe_matcher.py:287-293 | an index is listed exactly when it holds an occurrence |
| Search.OccurrencesEmptyIff | dna_probe_matcher.py:287-293 | nothing is listed exactly when the needle occurs nowhere |
| Search.FindThenRest | dna_probe_matcher.py:289-293 | when `find` succeeds, the occurrences from the cursor are that hit followed by the occurrences from one past it |
| Search.FindNone | dna_probe_matcher.py:289-291 | when `find` fails, nothing is left to list from the cursor on |
| Search.ScanStep | dna_probe_matcher.py:289-293 | one iteration of a scan loop keeps the found hits a prefix of all occurrences and appends exactly the hit `find` returned |
| Search.ScanFor | dna_probe_matcher.py:287-293 | one cursor loop returns one hit per occurrence, in ascending order, with start `pos + 1`, end `pos + len(needle)` and the given orientation |
| Search.FindMatches | dna_probe_matcher.py:276-306 | `find_matches` returns the forward hits of the upper-cased probe in the upper-cased target, then the reverse-complement hits when the reverse complement is non-empty |
| Search.HitsOfSorted | dna_probe_matcher.py:292 | hits built from increasing occurrences have increasing start positions |
| Search.HitsOfMember | dna_probe_matcher.py:292 | a hit of the given width and orientation is reported exactly for a listed index |
| Search.HitsOfSound | dna_probe_matcher.py:292 | every hit built from occurrences spans exactly the needle inside the text |
| Search.MatchesOrdered | dna_probe_matcher.py:286-306 | all forward hits come before all reverse hits, and within one orientation the start positions strictly increase |
| Search.MatchesUnique | dna_probe_matcher.py:286-306 | no two hits of the same orientation share a start position |
| Search.MatchesSound | dna_probe_matcher.py:276-306 | every hit lies inside the target, is as long as its needle, and covers the needle of its orientation in the upper-cased target; a reverse hit exists only for a non-empty reverse complement |
| Search.MatchesCompleteForward | dna_probe_matcher.py:286-293 | an index holds the upper-cased probe exactly when a forward hit starting one past it is reported |
| Search.MatchesCompleteReverse | dna_probe_matcher.py:295-304 | for a non-empty reverse complement, an index holds it exactly when a reverse hit starting one past it is reported |
| Search.NoReverseHitsWithoutComplement | dna_probe_matcher.py:296-297 | an empty reverse complement (an invalid probe) yields forward hits only |
| Search.MatchesIgnoreCase | dna_probe_matcher.py:283-284 | upper-casing probe and target beforehand does not change the result |
| Search.EmptyNeedleEverywhere | dna_probe_matcher.py:289 | an empty needle is found at every index from the cursor up to and including the text's length |
| Search.EmptyProbeMatches | dna_probe_matcher.py:276-306 | an empty probe gives exactly \|target\|+1 forward hits, the j-th being (j+1, j) |
| Search.OverlapExample | dna_probe_matcher.py:293 | overlapping hits are all reported: "AA" in "AAAA" gives starts 1, 2 and 3 and no reverse hit |
| Search.PalindromeExample | dna_probe_matcher.py:286-306 | a probe equal to its reverse complement is reported in both orientations, without deduplication |
| Search.NoMatchExample | dna_probe_matcher.py:276-306 | a probe absent in both orientations gives no hit |
| Search.CaseInsensitiveExample | dna_probe_matcher.py:283-284 | a lower-case probe finds its upper-case occurrence |
| Records.TrimStartSpec | dna_probe_matcher.py:311 | the start of `strip` keeps a suffix, drops only whitespace, and stops at a non-whitespace character |
| Records.TrimEndSpec | dna_probe_matcher.py:311 | the end of `strip` keeps a prefix, drops only whitespace, and stops at a non-whitespace character |
| Records.StripSpec | dna_probe_matcher.py:311 | `strip()` returns a contiguous piece of its input that neither starts nor ends with whitespace |
| Records.RemoveWhitespace | dna_probe_matcher.py:312 | the joined split contains no whitespace and is no longer than its input |
| Records.RemoveWhitespaceAppend | dna_probe_matcher.py:312 | removing whitespace distributes over concatenation |
| Records.RemoveWhitespaceOfSpaces | dna_probe_matcher.py:312 | text made only of whitespace disappears |
| Records.RemoveWhitespaceKeepsText | dna_probe_matcher.py:312 | text without whitespace is left unchanged |
| Records.RemoveWhitespaceTrimStart | dna_probe_matcher.py:311-312 | leading whitespace makes no difference once all whitespace is removed |
| Records.RemoveWhitespaceTrimEnd | dna_probe_matcher.py:311-312 | trailing whitespace makes no difference once all whitespace is removed |
| Records.NormalizeTargetRemovesOnlyWhitespace | dna_probe_matcher.py:311-312 | the normalised target is the input with every whitespace character removed and nothing else changed |
| Records.PyIndex | dna_probe_matcher.py:344 | a slice bound is clamped into 0..n and left unchanged when already in range |
| Records.PySlice | dna_probe_matcher.py:344 | an in-range Python slice is the ordinary subsequence |
| Records.FlattenAppend | dna_probe_matcher.py:339-352 | concatenating groups distributes over appending group lists |
| Records.FlattenMember | dna_probe_matcher.py:339-352 | a record of the concatenated groups belongs to one of the groups |
| Records.RecordsOfSnoc | dna_probe_matcher.py:342-352 | one more hit appends exactly its record |
| Records.AssembleSnoc | dna_probe_matcher.py:339-352 | one more probe appends exactly that probe's records |
| Records.RecordOfAgrees | dna_probe_matcher.py:342-352 | the record of a reported hit agrees with its probe |
| Records.RecordsForAgree | dna_probe_matcher.py:340-352 | every record built for a probe carries its name, lies inside the target, has length end-start+1, and its text is the upper-cased target slice, which equals the upper-cased probe (forward) or its reverse complement (reverse) |
| Records.AssembleAgrees | dna_probe_matcher.py:336-352 | every record of a search agrees with some probe of the list |
| Records.AssembleAgreesWellFormed | dna_probe_matcher.py:336-352 | when every probe is well formed, every record names a probe of the list, lies inside the target, and its text is exactly that probe's sequence (forward) or its reverse complement (reverse) |
| Records.AssembleAppend | dna_probe_matcher.py:339-352 | records come grouped by probe in list order: searching `ps + qs` gives the records for `ps` followed by those for `qs` |
| Records.ForwardRecordIsProbe | dna_probe_matcher.py:344 | for a loaded probe, the text of a forward record is exactly the probe's sequence |
| Records.ClassifyRowSpec | dna_probe_matcher.py:214-221 | a row is skipped exactly when it has fewer than two fields or a blank stripped name or sequence; otherwise it is accepted as a well-formed probe (stripped name, stripped and upper-cased sequence) when the sequence is valid, and rejected with that name and sequence when it is not |
| Records.ClassifyRowsSpec | dna_probe_matcher.py:214-221 | every valid probe is well formed, every rejected pair has a name and a non-empty invalid sequence, and the two lists together are no longer than the rows |
| Records.AddVerdictJoin | dna_probe_matcher.py:214-221 | adding a verdict after joining equals joining after adding it |
| Records.ClassifyRowsSnoc | dna_probe_matcher.py:214-221 | classifying one more row adds exactly its verdict |
| Records.ClassifyRowsStep | dna_probe_matcher.py:214-221 | the classification of a prefix grows by the verdict on the next row |
| Records.ClassifyRowsAppend | dna_probe_matcher.py:214-221 | rows are classified independently and in file order: classifying `rows + more` gives the lists for `rows` followed by those for `more` |
| Records.LooksLikeHeaderSpec | dna_probe_matcher.py:196-200 | the first row is a header exactly when some keyword occurs as a substring of its lower-cased first field or of its lower-cased second field |
| Records.DataRows | dna_probe_matcher.py:196-215 | the data rows are all the rows, or all but the first; the first row is dropped exactly when it looks like a header |
| Records.HeaderExamples | dna_probe_matcher.py:196-200 | ["Name", "Sequence"] and ["probe_7", "ATGC"] count as headers; ["P7", "ATGC"] does not |
| Session.ProbeMatcher.constructor | dna_probe_matcher.py:23-24 | a fresh matcher has no probes and no results |
| Session.ProbeMatcher.LoadProbes | dna_probe_matcher.py:182-264 | the probe list is emptied first; no row gives EmptyFile and a field-less first row gives ReadFailed, both with an empty probe list; otherwise the probes, the rejected pairs and the reported outcome are those of classifying the data rows, and every loaded probe is well formed |
| Session.ProbeMatcher.AddDataRows | dna_probe_matcher.py:214-221 | the row loop appends the accepted probes to the probe list and returns the rejected pairs, in file order |
| Session.ProbeMatcher.AppendRecords | dna_probe_matcher.py:342-352 | the inner loop appends one record per hit, in hit order |
| Session.ProbeMatcher.SearchMatches | dna_probe_matcher.py:311-352 | an empty normalised target, an empty probe list and an invalid target are refused in that order and leave the results unchanged; otherwise the results become exactly each probe's records in probe order, and each record agrees with a probe of the list, a forward record's text being that probe's sequence; the probe list stays well formed |

## Left out

- The Tk user interface is not modelled: windows, message boxes, labels, the button state, the results tree, `_update_results`, the summary text and CSV export. The outcome datatypes stand in for which message the user sees.
- Opening and reading the file is not modelled: `LoadProbes` takes the rows already split into fields. The CSV dialect, the `utf-8-sig` decoding and reading errors are left out. The one read failure modelled is the `IndexError` raised by a first row with no field.
- Case folding is ASCII only. Python's `upper()` and `lower()` also map non-ASCII letters, and a few of them to several characters. For DNA text and for the header keywords only ASCII letters matter.
- The first CSV row is classified by the same rule as the later rows. The source tests the first row's sequence for emptiness after `upper()` and the later rows' before it. These agree because upper-casing never turns a non-empty string into an empty one.
- Match labels are the enum `Orientation`. The glyph strings "5′→3′" and "3′→5′" are not modelled.
- Search.Find: the function's own contract states only the range of the result. The first-occurrence property lives in `Search.FindIsFirstOccurrence`, and Python's `find` for a negative start is not modelled because every call starts at 0 or past a hit.
- Resetting the matcher (`clear_all`, which empties `probes` and `matches` and forgets the probe file path after a confirmation dialog) is not modelled; the constructor's empty state is the state it returns to.
- Performance and the time taken by large inputs are not modelled.
