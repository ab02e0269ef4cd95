# Editable-region chunker and record filter, in Dafny

This project models the core of a dataset-extraction pipeline for
next-edit prediction. Each file change of a commit becomes a "file record":
its patch, its before- and after-content, and some counts. The chunker turns
every record into one or more chunk records. Each chunk holds the
before-file with an editable region marked by the lines
`<|editable_region_start|>` and `<|editable_region_end|>`, and the matching
after-lines as the target text. It has four stages:

- **Hunk parser** (`parse_patch_hunks`, module `HunkParser`): reads the
  unified-diff hunk headers `@@ -l[,s] +l[,s] @@` of a patch into half-open
  line ranges `[l, l + s)`, with `s` taken as 1 when omitted.
- **Hunk merger** (`merge_close_hunks`, module `HunkMerger`): sorts the
  ranges by start, then coalesces every range that starts at most
  `max_gap` lines after the current region's end.
- **Region materializer** (`add_editable_region_markers`, modules `Regions`
  and `Chunker`): pads each merged region with context lines, clamps it to
  the file, and inserts the two markers. A record without a patch, without
  before-content or without hunks is instead updated in place into a single
  placeholder chunk.
- **Orchestration** (`add_markers_to_dataset`, module `Chunker`):
  concatenates the chunks of every record and counts the chunks with and
  without model input text.

The chunker is written twice with identical text, in
`local_extract.py:280-404` and `extract_dataset.py:230-354`. Both copies
map onto the one set of modules here. The table cites one copy per member.
The other copy's lines are 50 lower: `local_extract.py:n` is
`extract_dataset.py:n-50` throughout this range.

Beside the chunker, the project models:

- the file-name tests (module `FileNames`): `is_text_file`, a
  case-sensitive suffix test against a fixed list of extensions, and the
  `file_extension` expression (the text after the last dot, or nothing).
  That expression appears both at `extract_dataset.py:187` and at
  `local_extract.py:240`;
- the record filter of `analysis/filter_dataset.py` (module
  `RecordFilter`): `compute_total_changes`; `should_keep`, an ordered chain
  of threshold checks that counts the first failing reason in a `Counter`;
  and the keep/drop loop of `main`.

Python's `str.split` and `str.join` on a one-character separator are
defined in module `Lines`. A record, a Python dict, is a `FileRecord`
object holding an immutable `Record` value with one `Option` field per
modelled key (`Records`). Setting a key replaces the value, so in-place
updates and aliasing stay visible. The degenerate path really does return
the input object itself, and every other chunk is a fresh copy.

Some behaviours of the code are easy to overlook; the model keeps them:

- A marker is left out when its line number is not a line of the file, so
  an input text need not hold both markers. `region_end` can fall below
  `region_start`, and then the markers come out in the reverse order or one
  of them is missing (`Regions.MarkedIsLayout`).
- Empty or missing after-content makes the after-lines fall back to the
  before-lines (`local_extract.py:346`), so such a record is still chunked,
  with the before-lines as its target.
- A header `@@ -0,0 ...` (a file created from nothing) gives the range
  `(0, 0)`: a parsed hunk can start at line 0, and an explicit count `0`
  always gives `end == start`.
- Merged regions cover the input hunks and also the gaps between merged
  hunks, so their union can be larger than the union of the hunks. The
  model proves coverage (`HunkMerger.MergeCovers`) and no more.
- `max_gap` may be negative (it is parsed as any integer). Then hunks with
  the same start can stay apart, and the merge result depends on the order
  `sorted` leaves them in. The model's sort is stable, as Python's is
  (`HunkMerger.SortByStartStable`).

## Model

| member | source | states |
|---|---|---|
| Lines.Split | local_extract.py:286 | `s.split(sep)` never returns an empty list, and no piece contains the separator |
| Lines.JoinSplit | local_extract.py:345-346 | joining the lines of a split with the same separator gives back the original text |
| Lines.SplitJoin | local_extract.py:364 | splitting the join of a non-empty list of separator-free pieces gives back the pieces |
| Lines.SplitWithoutSeparator | local_extract.py:286 | a text without the separator splits into itself alone |
| Lines.SplitAfterPiece | local_extract.py:286 | splitting `a + sep + b`, with `a` separator-free, yields `a` and then the pieces of `b` |
| Lines.JoinEmpty | local_extract.py:364 | a join is empty only when it joins at most one piece, and that piece is empty |
| Lines.SplitLastIsSuffix | extract_dataset.py:187 | the last piece of a split is the text after the last separator |
| Records.FileRecord.Copy | local_extract.py:351 | `dict.copy()` is a new object holding the same keys and values |
| HunkParser.DigitValue | local_extract.py:292-293 | `int` of a digit string is below `10^len`, and at least `10^(len-1)` when there is no leading zero |
| HunkParser.ScanRangeText | local_extract.py:290 | what `(\d+),?(\d*)` scans is digit groups that, written back as `start[,count]` and followed by the unscanned rest, give the text again |
| HunkParser.MatchPrefix | local_extract.py:290 | a match at the start of a text means the text is a laid-out header `@@ -start[,count] +start[,count] @@...` whose first range has the reported groups, all digits, the start non-empty |
| HunkParser.Search | local_extract.py:290 | `re.search` returns the match at the leftmost position holding one, and None only when no position holds one |
| HunkParser.SearchLeftmost | local_extract.py:290 | a match at position `p` with none before it is the one `re.search` returns |
| HunkParser.HeaderOf | local_extract.py:290 | both groups of a header match are ASCII digit strings, so `int` applies to them |
| HunkParser.SearchDigits | local_extract.py:290 | every match `re.search` finds from any position has digit-string groups |
| HunkParser.HunkOfLine | local_extract.py:288-295 | a line contributes a hunk iff it starts with `@@` and holds a header at some position; the hunk satisfies `0 <= start <= end` |
| HunkParser.ParseHunks | local_extract.py:280-297 | no hunks for a missing or empty patch, at most one per patch line, each with `0 <= start <= end` |
| HunkParser.ParsePatchHunks | local_extract.py:280-297 | the loop over the patch lines returns the hunks of the header lines in patch order; there are none for a missing or empty patch |
| HunkParser.HunksOfLinesStep | local_extract.py:288-295 | one more patch line appends that line's hunk, if it has one |
| HunkParser.DigitValueOfDecimal | local_extract.py:292-293 | `int` reads back the decimal digits of any natural number |
| HunkParser.DigitPrefixOf | local_extract.py:290 | a greedy `\d*` takes exactly a digit run that is followed by a non-digit |
| HunkParser.ScanRangeOf | local_extract.py:290 | a written range `start[,count]` followed by a space scans back into its two groups, the second empty when the count was omitted |
| HunkParser.MatchOfLayout | local_extract.py:290 | a line laid out as `@@ -range1 +range2 @@...` matches at its start with range one's groups; with `MatchPrefix`'s contract, a prefix matches iff it has this layout |
| HunkParser.HunkOfLayout | local_extract.py:289-295 | such a line contributes the hunk `[start, start + count)` of range one, with count 1 when omitted |
| HunkParser.HunkOfLeftmost | local_extract.py:289-295 | a line starting with `@@` gives the hunk of its leftmost header, wherever it lies (`@@@ -1 +1 @@` holds one at column 1) |
| HunkParser.HunkOfMatch | local_extract.py:289-295 | a line whose header matches at its very start contributes the hunk of that match |
| HunkParser.HunkOfDecimal | local_extract.py:292-294 | the hunk of a header written in decimal is `[start, start + count)`, with count 1 only when omitted |
| HunkParser.HeaderRoundTrip | local_extract.py:289-295 | a rendered header line, whatever trails it, parses to `[old_start, old_start + old_count)`, so an explicit `,0` gives an empty range |
| HunkParser.ParsedHunksWellFormed | local_extract.py:292-295 | every parsed hunk satisfies `0 <= start <= end` |
| HunkParser.HunksOfLinesAppend | local_extract.py:288-295 | the hunks of consecutive stretches of lines are concatenated, which is patch order |
| HunkParser.ParseJoinedLines | local_extract.py:282-297 | a patch joined from newline-free lines parses to one hunk per header line, in order, and other lines contribute nothing |
| HunkMerger.SortByStart | local_extract.py:305 | `sorted` returns as many hunks as it is given |
| HunkMerger.InsertPermutes | local_extract.py:305 | inserting a hunk adds exactly that hunk to the multiset |
| HunkMerger.InsertSorted | local_extract.py:305 | inserting into a list sorted by start keeps it sorted |
| HunkMerger.SortByStartSorts | local_extract.py:305 | `sorted(hunks, key=start)` is ascending by start and a permutation of its input |
| HunkMerger.InsertStable | local_extract.py:305 | inserting a hunk puts it in front of every hunk with its start and reorders no hunks of one start |
| HunkMerger.SortByStartStable | local_extract.py:305 | the sort is stable: for every start, the hunks with that start keep their input order |
| HunkMerger.SortByStartOfSorted | local_extract.py:305 | sorting an already sorted list leaves it as it is |
| HunkMerger.Merge | local_extract.py:300-316 | `merge_close_hunks` returns no more regions than hunks, and none exactly when there are no hunks |
| HunkMerger.MergeCloseHunks | local_extract.py:300-316 | the loop that overwrites `merged[-1]` or appends computes `Merge`, the sort followed by the coalescing pass |
| HunkMerger.StepShape | local_extract.py:308-314 | one iteration adds at most one region, and every region still starts at an input start |
| HunkMerger.CoalesceShape | local_extract.py:306-314 | the pass yields no more regions than hunks, none exactly when there are no hunks, and each region starts at a hunk start |
| HunkMerger.StepAscending | local_extract.py:311-314 | an iteration keeps the regions ascending when the new hunk starts after all of them |
| HunkMerger.CoalesceAscending | local_extract.py:306-314 | on sorted input the regions are ascending by start |
| HunkMerger.CoalesceSeparated | local_extract.py:311-314 | consecutive regions always satisfy `next.start - prev.end > max_gap` |
| HunkMerger.StepCovers | local_extract.py:311-314 | an iteration keeps every earlier hunk inside a region and covers the new hunk |
| HunkMerger.CoalesceCovers | local_extract.py:306-314 | on sorted input every hunk lies inside some region |
| HunkMerger.CoalesceOfSeparated | local_extract.py:308-314 | a list whose neighbours are already more than `max_gap` apart passes through unchanged |
| HunkMerger.CoalesceMonotone | local_extract.py:311 | a wider gap never gives more regions, and the last region ends no earlier |
| HunkMerger.MergeOrdered | local_extract.py:300-316 | the merged regions are ascending by start, pairwise more than `max_gap` apart, start at input starts, and are no more numerous than the hunks; there are none exactly when there are no hunks |
| HunkMerger.MergeCovers | local_extract.py:300-316 | every input hunk lies inside some merged region |
| HunkMerger.MergeIdempotent | local_extract.py:305-316 | merging an already merged list with the same `max_gap` changes nothing, for every `max_gap` |
| HunkMerger.MergeMonotone | local_extract.py:311 | increasing `max_gap` never increases the number of regions |
| Regions.RegionStart | local_extract.py:353 | the region start is at least 1 and at least `hunk_start - context_before`, and equals one of the two |
| Regions.RegionEnd | local_extract.py:354 | the region end is at most the before-line count and at most `hunk_end + context_after`, and equals one of the two |
| Regions.Marked | local_extract.py:356-362 | the marked lines are the before-lines plus one line for each region bound that is a line number of the file |
| Regions.MarkLines | local_extract.py:356-362 | the marking loop over `enumerate(lines, start=1)` computes `Marked` |
| Regions.LayoutSnoc | local_extract.py:357-362 | adding a line to the file adds exactly that line's piece, with or without markers, to the layout |
| Regions.MarkedIsLayout | local_extract.py:356-362 | the start marker is inserted once, right before line `region_start`, iff that is a line of the file; likewise the end marker right after line `region_end`; the lines keep their order |
| Regions.MarkersOneLine | local_extract.py:359-362 | neither marker contains a newline |
| Regions.MarkedWithout | local_extract.py:356-364 | marking adds no occurrence of a character that neither the lines nor the markers contain |
| Regions.MarkedNonEmpty | local_extract.py:356-362 | marking never removes a line, and the result equals the input when no marker is emitted |
| Regions.InputLines | local_extract.py:364 | the model input text splits back into the marked layout |
| Regions.Unmarked | local_extract.py:356-362 | removing the marker lines leaves no marker line |
| Regions.MarkersOnlyInsertions | local_extract.py:356-362 | removing the markers from the marked lines gives back exactly the before-lines, when no before-line is itself a marker |
| Regions.SliceBound | local_extract.py:368 | a Python slice bound counts a negative index from the end and is clamped to the list |
| Regions.PySlice | local_extract.py:368 | `s[lo:hi]` agrees with the plain slice for bounds inside the list, is empty when `hi <= lo`, and counts a negative stop from the end |
| Regions.TargetText | local_extract.py:366-369 | the target text is present iff both region bounds are at most the after-line count |
| Regions.TargetLines | local_extract.py:366-369 | for a non-empty region inside the after-lines, the target text splits back into exactly after-lines `region_start..region_end` |
| Chunker.ChunkValues | local_extract.py:319-381 | a record gives at least one chunk: one when degenerate, otherwise one per merged region, and no more than its hunks |
| Chunker.AddEditableRegionMarkers | local_extract.py:319-381 | a degenerate record (no patch, no before-content, or no hunks) is updated in place to the placeholder and returned alone; otherwise the record is left as it is and the result is one fresh copy per merged region, holding `ChunkValues` |
| Chunker.MaterializeChunks | local_extract.py:348-381 | the per-region loop returns one fresh chunk per merged region, chunk `k` being `ChunkOf` region `k` |
| Chunker.MaterializeChunk | local_extract.py:351-377 | one iteration copies the record and sets the seven chunk keys of region `k` |
| Chunker.ChunkValuesOf | local_extract.py:343-381 | a non-degenerate record's chunks are `ChunkOf` its merged regions, in order |
| Chunker.ChunkAt | local_extract.py:350-377 | chunk `k` of a non-degenerate record holds, key by key, the bounds, marked text and target text of region `k` |
| Chunker.ChunkNumbering | local_extract.py:325-381 | every record gives at least one chunk; chunk `k` has `chunk_id == k`, `total_chunks_in_file` the number of chunks, `is_multi_chunk_file` iff there is more than one, and the record's other keys unchanged; the degenerate chunk is `0`, `1`, `False` with both texts `None` |
| Chunker.RegionBounds | local_extract.py:353-354 | every region start is at least 1 and every region end at most the before-line count |
| Chunker.RegionsCoverHunks | local_extract.py:343-354 | with non-negative context, every parsed hunk, clamped to the file, lies inside the editable region of some chunk |
| Chunker.ChunkInputText | local_extract.py:356-364 | a chunk's input text is the before-lines with the two markers placed as `Layout` says |
| Chunker.ChunkTargetText | local_extract.py:345-369 | a chunk's target text, when its region is non-empty and fits, is exactly those after-lines, the before-lines standing in for empty after-content |
| Chunker.InputTextPresent | local_extract.py:325-376 | a chunk has truthy model input text iff its record is not degenerate |
| Chunker.ChunkValuesOfDegenerate | local_extract.py:325-341 | chunking ignores the keys the degenerate path writes, so an updated record chunks as it did before |
| Chunker.SettledStable | local_extract.py:325-341 | applying the degenerate update twice is the same as once |
| Chunker.ChunkAllSnoc | extract_dataset.py:342-351 | one more record appends its chunks to the dataset's chunks |
| Chunker.CountWithInputAppend | extract_dataset.py:345-349 | the number of chunks with input text adds up over concatenation |
| Chunker.CountAllOrNone | extract_dataset.py:345-349 | a list whose chunks all have input text, or none do, counts all or none as processed |
| Chunker.ChunkAllCounts | extract_dataset.py:334-354 | the dataset yields at least one chunk per record, and the chunks without input text are exactly one per degenerate record |
| Chunker.CollectChunks | extract_dataset.py:345-351 | the inner loop appends the record's chunks in order, counting those with input text as processed and the rest as skipped |
| Chunker.AddRecordChunks | extract_dataset.py:343-351 | one record's chunks are appended and counted; the record is left as it was or updated in place, and every new chunk is fresh or the record itself |
| Chunker.RecordStep | extract_dataset.py:342-351 | one outer iteration settles record `i` and leaves the others as they were |
| Chunker.DatasetStep | extract_dataset.py:342-351 | one outer iteration preserves the loop state: processed records settled, the rest untouched, chunks and counts those of the processed records |
| Chunker.DatasetDone | extract_dataset.py:334-354 | after the last record the chunks are those of the whole dataset, and the counts are right |
| Chunker.AddMarkersToDataset | extract_dataset.py:334-354 | the returned chunks are the per-record chunks concatenated in input order; each record gives at least one; `processed` counts the chunks with input text and `skipped` the degenerate records; `processed + skipped` is the output length; each input record ends settled |
| FileNames.EndsWith | local_extract.py:175 | `s.endswith(suffix)` holds iff `s` is some text followed by `suffix` |
| FileNames.FileExtension | extract_dataset.py:187 | the extension contains no dot; for a path with a dot, the path is some prefix, a dot, and the extension; otherwise the extension is empty |
| FileNames.ExtensionAfterLastDot | extract_dataset.py:187 | the extension of `prefix.base`, with `base` dot-free, is `base`: the text after the last dot |
| FileNames.EndsWithExtension | extract_dataset.py:187 | a path with a dot ends with a dot followed by its extension |
| FileNames.ExtensionOfSuffix | extract_dataset.py:187 | a name ending with `.name`, with `name` non-empty and dot-free, has that extension |
| FileNames.ExtensionsAreDotNames | local_extract.py:167-173 | every listed extension is a dot followed by a non-empty dot-free name |
| FileNames.IsTextFile | local_extract.py:165-175 | `is_text_file(name)` holds iff the name has a dot and its extension, with the dot put back, is listed; this ties `is_text_file` to `file_extension` |
| FileNames.ListedEnding | local_extract.py:175 | any name ending in a listed extension is a text file |
| FileNames.TextFileCases | local_extract.py:165-175 | the test is case-sensitive: `.r` and `.R` both pass and `.PY` does not |
| FileNames.UpperPyNotListed | local_extract.py:167-173 | `.PY` is not among the listed extensions |
| FileNames.NoDotNoText | local_extract.py:165-175 | a name without a dot is never a text file |
| RecordFilter.TotalChanges | analysis/filter_dataset.py:73-81 | the stored total when present, even 0; otherwise added plus deleted when both are present; otherwise none |
| RecordFilter.FirstFailure | analysis/filter_dataset.py:84-110 | a recorded reason is a check that fails, and a record with no reason is acceptable |
| RecordFilter.KeepIffAcceptable | analysis/filter_dataset.py:84-110 | a record is kept iff its total changes are known and at most the maximum, its commit file count is present and at most the maximum, and its chunk count is present and at least the minimum; equivalently, no check fails |
| RecordFilter.FirstFailureIsFirst | analysis/filter_dataset.py:89-109 | the recorded reason is the first failing check in the order missing line stats, too many lines changed, missing file count, multi-file commit, missing chunk count, single-chunk file |
| RecordFilter.DropCounter.constructor | analysis/filter_dataset.py:124 | a fresh `Counter` holds no counts |
| RecordFilter.DropCounter.Add | analysis/filter_dataset.py:91 | `drop_counter[reason] += 1` raises that reason by one, from 0 when absent, and no other |
| RecordFilter.ShouldKeep | analysis/filter_dataset.py:84-110 | returns true iff no check fails; on rejection exactly the first failing reason's count grows by one; on acceptance the counter is unchanged |
| RecordFilter.FilterRecords | analysis/filter_dataset.py:124-129 | `kept` is the accepted records in input order, and every reason's count grows by the number of records dropped for it |
| RecordFilter.KeptIsAcceptedSubsequence | analysis/filter_dataset.py:127-129 | `kept` is the order-preserving subsequence of accepted records: strictly increasing indices, each index picked iff its record is accepted |
| RecordFilter.KeptPlusDrops | analysis/filter_dataset.py:124-129 | the kept records plus the drops of the six reasons add up to the number of records |

## Left out

- Repository cloning, PyDriller commit traversal, the GitHub API, base64
  content fetch, JSON and JSONL loading and saving, summary files, logging
  and argument parsing are I/O or foreign libraries. The model takes their
  results as parameters: the record list, the context sizes, `max_gap` and
  the filter thresholds.
- `retention_rate` in the filter's `main` is a float division used only
  for reporting.
- The classifiers, the training-data splitter, the import-analysis scripts
  and the comparison UI are not part of this model.
- HunkParser.HeaderOf: Python's `\d` also matches non-ASCII Unicode
  digits, and the model accepts only `0`-`9`. A header whose numbers use
  other digit characters is not recognised by the model.
- Records: only the keys the chunker and the filter read or write are
  fields of `Record`. The other keys of a record are copied unchanged by
  `dict.copy()` and are not represented.
- Chunker.AddMarkersToDataset: `processed` and `skipped` are only logged
  by the source. The model returns them so that their values can be stated.
- RecordFilter.ShouldKeep: the record is passed as a value, so it cannot
  be changed. That `should_keep` only reads its record is therefore given
  by the types, not stated as a contract.
- RecordFilter.DropCounter: a `Counter` with string keys becomes a map
  from the six reasons. Reading a reason that was never counted gives 0,
  as `Counter` does.
- Integers are unbounded, like Python's, so no overflow is modelled.
