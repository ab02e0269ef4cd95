/**
 * `add_editable_region_markers` and `add_markers_to_dataset`: every file
 * record becomes one chunk record per merged region, or a single
 * placeholder chunk when it has no patch, no before-content or no hunks.
 */
module Chunker {
  import opened Lines
  import opened Records
  import opened HunkParser
  import opened HunkMerger
  import opened Regions

  /** The record takes the single-chunk path: no patch, no before-content, or no hunks. */
  predicate IsDegenerate(v: Record)
  {
    !Truthy(v.patch) || !Truthy(v.beforeContent) || ParseHunks(v.patch) == []
  }

  /** The degenerate path's in-place update of the record. */
  function Degenerate(v: Record): Record
  {
    v.(chunkId := Some(0), totalChunksInFile := Some(1), isMultiChunkFile := Some(false),
       modelInputText := None, modelTargetText := None)
  }

  /** The record as `add_editable_region_markers` leaves it. */
  function Settled(v: Record): Record
  {
    if IsDegenerate(v) then Degenerate(v) else v
  }

  function BeforeLines(v: Record): seq<string>
    requires v.beforeContent.Some?
  {
    Split(v.beforeContent.value, '\n')
  }

  /** The after-lines, falling back to the before-lines when the after-content is empty. */
  function AfterLines(v: Record): seq<string>
    requires v.beforeContent.Some?
  {
    if Truthy(v.afterContent) then Split(v.afterContent.value, '\n') else BeforeLines(v)
  }

  /** The chunk record for region `k` of `regions`. */
  function ChunkOf(v: Record, regions: seq<Hunk>, k: nat, contextBefore: int, contextAfter: int): Record
    requires v.beforeContent.Some? && k < |regions|
  {
    var beforeLines := BeforeLines(v);
    var rs := RegionStart(regions[k].start, contextBefore);
    var re := RegionEnd(regions[k].end, contextAfter, |beforeLines|);
    v.(chunkId := Some(k), totalChunksInFile := Some(|regions|), isMultiChunkFile := Some(|regions| > 1),
       editableRegionStart := Some(rs), editableRegionEnd := Some(re),
       modelInputText := Some(Join(Marked(beforeLines, rs, re), '\n')),
       modelTargetText := TargetText(AfterLines(v), rs, re))
  }

  /** The merged regions of a record that is not degenerate. */
  function RegionsOf(v: Record, maxGap: int): seq<Hunk>
  {
    Merge(ParseHunks(v.patch), maxGap)
  }

  /** The values of the chunk records produced for a record holding `v`. */
  function ChunkValues(v: Record, contextBefore: int, contextAfter: int, maxGap: int): (cs: seq<Record>)
    ensures |cs| >= 1
    ensures IsDegenerate(v) ==> |cs| == 1
    ensures !IsDegenerate(v) ==> |cs| == |RegionsOf(v, maxGap)| <= |ParseHunks(v.patch)|
  {
    if IsDegenerate(v) then [Degenerate(v)]
    else
      var regions := RegionsOf(v, maxGap);
      seq(|regions|, k requires 0 <= k < |regions| => ChunkOf(v, regions, k, contextBefore, contextAfter))
  }

  /**
   * `add_editable_region_markers`. A degenerate record is updated in place
   * and returned alone; otherwise the record is left as it is and every
   * chunk is a new copy.
   */
  method AddEditableRegionMarkers(fileRecord: FileRecord, contextBefore: int, contextAfter: int, maxGap: int)
    returns (chunkRecords: seq<FileRecord>)
    modifies fileRecord
    ensures var expected := ChunkValues(old(fileRecord.value), contextBefore, contextAfter, maxGap);
      |chunkRecords| == |expected|
      && forall k :: 0 <= k < |chunkRecords| ==> chunkRecords[k].value == expected[k]
    ensures IsDegenerate(old(fileRecord.value)) ==>
      chunkRecords == [fileRecord] && fileRecord.value == Degenerate(old(fileRecord.value))
    ensures !IsDegenerate(old(fileRecord.value)) ==>
      fileRecord.value == old(fileRecord.value)
      && forall k :: 0 <= k < |chunkRecords| ==> fresh(chunkRecords[k])
  {
    var patch := fileRecord.value.patch;
    var beforeContent := fileRecord.value.beforeContent;
    var afterContent := fileRecord.value.afterContent;

    if !Truthy(patch) || !Truthy(beforeContent) {
      fileRecord.value := Degenerate(fileRecord.value);
      return [fileRecord];
    }

    var hunks := ParsePatchHunks(patch);
    if hunks == [] {
      fileRecord.value := Degenerate(fileRecord.value);
      return [fileRecord];
    }

    var mergedHunks := MergeCloseHunks(hunks, maxGap);
    var beforeLines := Split(beforeContent.value, '\n');
    var afterLines := if Truthy(afterContent) then Split(afterContent.value, '\n') else beforeLines;
    chunkRecords := MaterializeChunks(fileRecord, mergedHunks, beforeLines, afterLines,
                                      contextBefore, contextAfter);
    ChunkValuesOf(fileRecord.value, contextBefore, contextAfter, maxGap);
  }

  /** The per-region loop: one marked copy of the record per merged region. */
  method MaterializeChunks(fileRecord: FileRecord, mergedHunks: seq<Hunk>,
                           beforeLines: seq<string>, afterLines: seq<string>,
                           contextBefore: int, contextAfter: int)
    returns (chunkRecords: seq<FileRecord>)
    requires fileRecord.value.beforeContent.Some?
    requires beforeLines == BeforeLines(fileRecord.value) && afterLines == AfterLines(fileRecord.value)
    ensures |chunkRecords| == |mergedHunks|
    ensures forall k :: 0 <= k < |chunkRecords| ==>
      fresh(chunkRecords[k])
      && chunkRecords[k].value == ChunkOf(fileRecord.value, mergedHunks, k, contextBefore, contextAfter)
  {
    chunkRecords := [];
    var chunkIdx := 0;
    while chunkIdx < |mergedHunks|
      invariant 0 <= chunkIdx <= |mergedHunks|
      invariant |chunkRecords| == chunkIdx
      invariant forall k :: 0 <= k < chunkIdx ==> fresh(chunkRecords[k])
      invariant forall k :: 0 <= k < chunkIdx ==>
        chunkRecords[k].value == ChunkOf(fileRecord.value, mergedHunks, k, contextBefore, contextAfter)
    {
      var chunkRecord := MaterializeChunk(fileRecord, mergedHunks, chunkIdx, beforeLines, afterLines,
                                          contextBefore, contextAfter);
      chunkRecords := chunkRecords + [chunkRecord];
      chunkIdx := chunkIdx + 1;
    }
  }

  /** The chunks of a record that is not degenerate are `ChunkOf` its regions, in order. */
  lemma ChunkValuesOf(v: Record, contextBefore: int, contextAfter: int, maxGap: int)
    ensures !IsDegenerate(v) ==>
      var regions := RegionsOf(v, maxGap);
      var cs := ChunkValues(v, contextBefore, contextAfter, maxGap);
      |cs| == |regions| && forall k :: 0 <= k < |regions| ==> cs[k] == ChunkOf(v, regions, k, contextBefore, contextAfter)
  {
  }

  /** One iteration of the per-region loop: a marked copy of the record. */
  method MaterializeChunk(fileRecord: FileRecord, mergedHunks: seq<Hunk>, chunkIdx: nat,
                          beforeLines: seq<string>, afterLines: seq<string>,
                          contextBefore: int, contextAfter: int)
    returns (chunkRecord: FileRecord)
    requires fileRecord.value.beforeContent.Some? && chunkIdx < |mergedHunks|
    requires beforeLines == BeforeLines(fileRecord.value) && afterLines == AfterLines(fileRecord.value)
    ensures fresh(chunkRecord)
    ensures chunkRecord.value == ChunkOf(fileRecord.value, mergedHunks, chunkIdx, contextBefore, contextAfter)
  {
    ghost var v := fileRecord.value;
    chunkRecord := fileRecord.Copy();
    var regionStart := RegionStart(mergedHunks[chunkIdx].start, contextBefore);
    var regionEnd := RegionEnd(mergedHunks[chunkIdx].end, contextAfter, |beforeLines|);

    var markedLines := MarkLines(beforeLines, regionStart, regionEnd);
    var modelInputText := Join(markedLines, '\n');

    var modelTargetText: Option<string> := None;
    if regionStart <= |afterLines| && regionEnd <= |afterLines| {
      var targetLines := PySlice(afterLines, regionStart - 1, regionEnd);
      modelTargetText := Some(Join(targetLines, '\n'));
    }
    assert modelTargetText == TargetText(afterLines, regionStart, regionEnd);

    chunkRecord.value := chunkRecord.value.(
      chunkId := Some(chunkIdx),
      totalChunksInFile := Some(|mergedHunks|),
      isMultiChunkFile := Some(|mergedHunks| > 1),
      editableRegionStart := Some(regionStart),
      editableRegionEnd := Some(regionEnd),
      modelInputText := Some(modelInputText),
      modelTargetText := modelTargetText);
    assert fileRecord.value == v;
  }

  // ----- Properties of one record's chunks -----

  /** Chunk `k` of a record that is not degenerate, key by key. */
  lemma ChunkAt(v: Record, contextBefore: int, contextAfter: int, maxGap: int, k: nat)
    requires !IsDegenerate(v) && k < |ChunkValues(v, contextBefore, contextAfter, maxGap)|
    ensures |ChunkValues(v, contextBefore, contextAfter, maxGap)| == |RegionsOf(v, maxGap)|
    ensures var regions := RegionsOf(v, maxGap);
      var c := ChunkValues(v, contextBefore, contextAfter, maxGap)[k];
      var lines := BeforeLines(v);
      var rs := RegionStart(regions[k].start, contextBefore);
      var re := RegionEnd(regions[k].end, contextAfter, |lines|);
      && c.chunkId == Some(k)
      && c.totalChunksInFile == Some(|regions|)
      && c.isMultiChunkFile == Some(|regions| > 1)
      && SameFileKeys(c, v)
      && c.editableRegionStart == Some(rs)
      && c.editableRegionEnd == Some(re)
      && c.modelInputText == Some(Join(Marked(lines, rs, re), '\n'))
      && c.modelTargetText == TargetText(AfterLines(v), rs, re)
  {
  }

  /** The keys that chunking copies from the record unchanged. */
  predicate SameFileKeys(c: Record, v: Record)
  {
    c.patch == v.patch && c.beforeContent == v.beforeContent && c.afterContent == v.afterContent
    && c.linesAdded == v.linesAdded && c.linesDeleted == v.linesDeleted
    && c.totalChanges == v.totalChanges && c.totalFilesInCommit == v.totalFilesInCommit
  }

  /**
   * Every record gives at least one chunk: one per merged region, or a
   * single one on the degenerate path. Chunk `k` has `chunk_id == k`,
   * `total_chunks_in_file` the number of chunks, `is_multi_chunk_file`
   * whether there is more than one, and the record's own keys unchanged;
   * the placeholder chunk has neither input nor target text.
   */
  lemma ChunkNumbering(v: Record, contextBefore: int, contextAfter: int, maxGap: int)
    ensures var cs := ChunkValues(v, contextBefore, contextAfter, maxGap);
      && |cs| >= 1
      && |cs| == (if IsDegenerate(v) then 1 else |RegionsOf(v, maxGap)|)
      && (IsDegenerate(v) ==> cs[0].modelInputText.None? && cs[0].modelTargetText.None?)
      && forall k :: 0 <= k < |cs| ==>
           && cs[k].chunkId == Some(k)
           && cs[k].totalChunksInFile == Some(|cs|)
           && cs[k].isMultiChunkFile == Some(|cs| > 1)
           && SameFileKeys(cs[k], v)
  {
    if !IsDegenerate(v) {
      var cs := ChunkValues(v, contextBefore, contextAfter, maxGap);
      MergeOrdered(ParseHunks(v.patch), maxGap);
      forall k | 0 <= k < |cs|
        ensures cs[k].chunkId == Some(k) && cs[k].totalChunksInFile == Some(|cs|)
        ensures cs[k].isMultiChunkFile == Some(|cs| > 1) && SameFileKeys(cs[k], v)
      {
        ChunkAt(v, contextBefore, contextAfter, maxGap, k);
      }
    }
  }

  /**
   * Every region bound is clamped: the start is at least line 1 and the
   * end at most the last before-line.
   */
  lemma RegionBounds(v: Record, contextBefore: int, contextAfter: int, maxGap: int)
    requires !IsDegenerate(v)
    ensures var cs := ChunkValues(v, contextBefore, contextAfter, maxGap);
      forall k :: 0 <= k < |cs| ==>
        && cs[k].editableRegionStart.Some? && cs[k].editableRegionStart.value >= 1
        && cs[k].editableRegionEnd.Some? && cs[k].editableRegionEnd.value <= |BeforeLines(v)|
  {
    var cs := ChunkValues(v, contextBefore, contextAfter, maxGap);
    forall k | 0 <= k < |cs|
      ensures cs[k].editableRegionStart.Some? && cs[k].editableRegionStart.value >= 1
      ensures cs[k].editableRegionEnd.Some? && cs[k].editableRegionEnd.value <= |BeforeLines(v)|
    {
      ChunkAt(v, contextBefore, contextAfter, maxGap, k);
    }
  }

  /**
   * With non-negative context, every parsed hunk (clamped to the file) lies
   * inside the editable region of some chunk.
   */
  lemma RegionsCoverHunks(v: Record, contextBefore: int, contextAfter: int, maxGap: int)
    requires !IsDegenerate(v)
    requires contextBefore >= 0 && contextAfter >= 0
    ensures var cs := ChunkValues(v, contextBefore, contextAfter, maxGap);
      forall h :: h in ParseHunks(v.patch) ==>
        exists k ::
          && 0 <= k < |cs|
          && cs[k].editableRegionStart.value <= (if h.start >= 1 then h.start else 1)
          && cs[k].editableRegionEnd.value >= (if h.end <= |BeforeLines(v)| then h.end else |BeforeLines(v)|)
  {
    var hunks := ParseHunks(v.patch);
    var regions := RegionsOf(v, maxGap);
    var cs := ChunkValues(v, contextBefore, contextAfter, maxGap);
    MergeCovers(hunks, maxGap);
    forall h | h in hunks
      ensures exists k ::
        && 0 <= k < |cs|
        && cs[k].editableRegionStart.value <= (if h.start >= 1 then h.start else 1)
        && cs[k].editableRegionEnd.value >= (if h.end <= |BeforeLines(v)| then h.end else |BeforeLines(v)|)
    {
      var r :| r in regions && Contains(r, h);
      var k :| 0 <= k < |regions| && regions[k] == r;
      ChunkAt(v, contextBefore, contextAfter, maxGap, k);
    }
  }

  /**
   * The input text of a non-degenerate chunk is the before-lines with the
   * two markers placed as `Layout` says.
   */
  lemma ChunkInputText(v: Record, contextBefore: int, contextAfter: int, maxGap: int, k: nat)
    requires !IsDegenerate(v)
    requires k < |ChunkValues(v, contextBefore, contextAfter, maxGap)|
    ensures var c := ChunkValues(v, contextBefore, contextAfter, maxGap)[k];
      && c.modelInputText.Some?
      && Split(c.modelInputText.value, '\n')
         == Layout(BeforeLines(v), c.editableRegionStart.value, c.editableRegionEnd.value)
  {
    ChunkAt(v, contextBefore, contextAfter, maxGap, k);
    var c := ChunkValues(v, contextBefore, contextAfter, maxGap)[k];
    InputLines(BeforeLines(v), c.editableRegionStart.value, c.editableRegionEnd.value);
  }

  /**
   * The target text of a non-degenerate chunk whose region is non-empty and
   * fits the after-lines is exactly the after-lines of the region.
   */
  lemma ChunkTargetText(v: Record, contextBefore: int, contextAfter: int, maxGap: int, k: nat)
    requires !IsDegenerate(v)
    requires k < |ChunkValues(v, contextBefore, contextAfter, maxGap)|
    ensures var c := ChunkValues(v, contextBefore, contextAfter, maxGap)[k];
      var rs := c.editableRegionStart.value;
      var re := c.editableRegionEnd.value;
      rs <= re <= |AfterLines(v)| ==>
        c.modelTargetText.Some? && Split(c.modelTargetText.value, '\n') == AfterLines(v)[rs - 1..re]
  {
    ChunkAt(v, contextBefore, contextAfter, maxGap, k);
    var c := ChunkValues(v, contextBefore, contextAfter, maxGap)[k];
    var rs := c.editableRegionStart.value;
    var re := c.editableRegionEnd.value;
    if rs <= re <= |AfterLines(v)| {
      TargetLines(AfterLines(v), rs, re);
    }
  }

  /**
   * A chunk has model input text (the truthiness test that counts it as
   * processed) exactly when its record is not degenerate.
   */
  lemma InputTextPresent(v: Record, contextBefore: int, contextAfter: int, maxGap: int)
    ensures var cs := ChunkValues(v, contextBefore, contextAfter, maxGap);
      forall k :: 0 <= k < |cs| ==> (Truthy(cs[k].modelInputText) <==> !IsDegenerate(v))
  {
    var cs := ChunkValues(v, contextBefore, contextAfter, maxGap);
    if !IsDegenerate(v) {
      forall k | 0 <= k < |cs|
        ensures Truthy(cs[k].modelInputText)
      {
        ChunkAt(v, contextBefore, contextAfter, maxGap, k);
        var lines := BeforeLines(v);
        var rs := cs[k].editableRegionStart.value;
        var re := cs[k].editableRegionEnd.value;
        var marked := Marked(lines, rs, re);
        if Join(marked, '\n') == [] {
          JoinEmpty(marked, '\n');
          MarkedNonEmpty(lines, rs, re);
          JoinSplit(v.beforeContent.value, '\n');
          assert false;
        }
      }
    }
  }

  // ----- The whole dataset -----

  /** The chunk values of all records, concatenated in input order. */
  function ChunkAll(vs: seq<Record>, contextBefore: int, contextAfter: int, maxGap: int): seq<Record>
  {
    if vs == [] then []
    else
      ChunkAll(vs[..|vs| - 1], contextBefore, contextAfter, maxGap)
        + ChunkValues(Last(vs), contextBefore, contextAfter, maxGap)
  }

  lemma ChunkAllSnoc(vs: seq<Record>, v: Record, contextBefore: int, contextAfter: int, maxGap: int)
    ensures ChunkAll(vs + [v], contextBefore, contextAfter, maxGap)
      == ChunkAll(vs, contextBefore, contextAfter, maxGap) + ChunkValues(v, contextBefore, contextAfter, maxGap)
  {
    assert (vs + [v])[..|vs|] == vs;
  }

  /** How many chunks have a truthy model input text. */
  function CountWithInput(cs: seq<Record>): nat
  {
    if cs == [] then 0
    else CountWithInput(cs[..|cs| - 1]) + (if Truthy(Last(cs).modelInputText) then 1 else 0)
  }

  /** How many records take the degenerate path. */
  function CountDegenerate(vs: seq<Record>): nat
  {
    if vs == [] then 0
    else CountDegenerate(vs[..|vs| - 1]) + (if IsDegenerate(Last(vs)) then 1 else 0)
  }

  /** A list of chunks that all have input text, or none, is counted all or nothing. */
  lemma {:induction false} CountAllOrNone(cs: seq<Record>, withInput: bool)
    requires forall k :: 0 <= k < |cs| ==> (Truthy(cs[k].modelInputText) <==> withInput)
    ensures CountWithInput(cs) == (if withInput then |cs| else 0)
  {
    if cs != [] {
      CountAllOrNone(cs[..|cs| - 1], withInput);
    }
  }

  /**
   * Over a dataset, every record gives at least one chunk, and the chunks
   * without input text (those counted as skipped) are exactly one per
   * degenerate record.
   */
  lemma {:induction false} ChunkAllCounts(vs: seq<Record>, contextBefore: int, contextAfter: int, maxGap: int)
    ensures |ChunkAll(vs, contextBefore, contextAfter, maxGap)| >= |vs|
    ensures |ChunkAll(vs, contextBefore, contextAfter, maxGap)|
            - CountWithInput(ChunkAll(vs, contextBefore, contextAfter, maxGap)) == CountDegenerate(vs)
  {
    if vs != [] {
      var init := vs[..|vs| - 1];
      var v := Last(vs);
      var cs := ChunkValues(v, contextBefore, contextAfter, maxGap);
      ChunkAllCounts(init, contextBefore, contextAfter, maxGap);
      ChunkNumbering(v, contextBefore, contextAfter, maxGap);
      InputTextPresent(v, contextBefore, contextAfter, maxGap);
      CountAllOrNone(cs, !IsDegenerate(v));
      CountWithInputAppend(ChunkAll(init, contextBefore, contextAfter, maxGap), cs);
    }
  }

  lemma {:induction false} CountWithInputAppend(a: seq<Record>, b: seq<Record>)
    ensures CountWithInput(a + b) == CountWithInput(a) + CountWithInput(b)
  {
    if b == [] {
      assert a + b == a;
    } else {
      CountWithInputAppend(a, b[..|b| - 1]);
      assert (a + b)[..|a + b| - 1] == a + b[..|b| - 1];
    }
  }

  /**
   * `add_markers_to_dataset`: processes every record in order and
   * concatenates their chunks; `processed` counts the chunks with model
   * input text and `skipped` the others (the source only logs the two
   * counts). Each record is left as it was, or, on the degenerate path,
   * updated in place.
   */
  method AddMarkersToDataset(fileRecords: seq<FileRecord>, contextBefore: int, contextAfter: int, maxGap: int)
    returns (allChunks: seq<FileRecord>, processed: nat, skipped: nat)
    modifies fileRecords
    ensures Values(allChunks) == ChunkAll(old(Values(fileRecords)), contextBefore, contextAfter, maxGap)
    ensures processed == CountWithInput(Values(allChunks))
    ensures processed + skipped == |allChunks|
    ensures forall r :: r in fileRecords ==> r.value == Settled(old(r.value))
    ensures |allChunks| >= |fileRecords| && skipped == CountDegenerate(old(Values(fileRecords)))
  {
    ghost var original := Values(fileRecords);
    ghost var orig := map r | r in fileRecords :: r.value;
    ghost var seen: set<FileRecord> := {};
    ghost var done: seq<Record> := [];
    ghost var produced: seq<Record> := [];
    allChunks := [];
    processed := 0;
    skipped := 0;
    var i := 0;
    while i < |fileRecords|
      invariant 0 <= i <= |fileRecords|
      invariant forall r :: r in fileRecords ==> r in orig && orig[r] == old(r.value)
      invariant Progress(fileRecords, i, allChunks, processed, skipped, contextBefore, contextAfter, maxGap,
                         orig, original, seen, done, produced)
    {
      allChunks, processed, skipped, seen, done, produced :=
        DatasetStep(fileRecords, i, allChunks, processed, skipped, contextBefore, contextAfter, maxGap,
                    orig, original, seen, done, produced);
      i := i + 1;
    }
    DatasetDone(fileRecords, allChunks, processed, skipped, contextBefore, contextAfter, maxGap,
                orig, original, seen, done, produced);
  }

  /**
   * The state of the outer loop of `add_markers_to_dataset` after `i`
   * records, stated against the record values before the loop (`orig`,
   * `original`) and the records already processed (`seen`, whose original
   * values are `done`): a processed record holds its settled value and any
   * other its original one; a record that is already among the chunks
   * (degenerate records are returned themselves) was processed; and the
   * chunks and counts are those of the processed records.
   */
  ghost predicate Progress(fileRecords: seq<FileRecord>, i: nat, allChunks: seq<FileRecord>, processed: nat, skipped: nat,
                           contextBefore: int, contextAfter: int, maxGap: int,
                           orig: map<FileRecord, Record>, original: seq<Record>,
                           seen: set<FileRecord>, done: seq<Record>, produced: seq<Record>)
    reads fileRecords, allChunks
  {
    && i <= |fileRecords| == |original|
    && (forall r :: r in fileRecords ==> r in orig)
    && (forall j :: 0 <= j < |original| ==> original[j] == orig[fileRecords[j]])
    && (forall r :: r in fileRecords[..i] ==> r in seen)
    && done == original[..i]
    && (forall r :: r in fileRecords ==> r.value == (if r in seen then Settled(orig[r]) else orig[r]))
    && (forall r :: r in allChunks && r in fileRecords ==> r in seen)
    && |allChunks| == |produced|
    && (forall k :: 0 <= k < |allChunks| ==> allChunks[k].value == produced[k])
    && produced == ChunkAll(done, contextBefore, contextAfter, maxGap)
    && processed == CountWithInput(produced) && processed + skipped == |allChunks|
  }

  /** After the last record: every record is settled, and the chunks and counts are those of the whole dataset. */
  lemma DatasetDone(fileRecords: seq<FileRecord>, allChunks: seq<FileRecord>, processed: nat, skipped: nat,
                    contextBefore: int, contextAfter: int, maxGap: int,
                    orig: map<FileRecord, Record>, original: seq<Record>,
                    seen: set<FileRecord>, done: seq<Record>, produced: seq<Record>)
    requires Progress(fileRecords, |fileRecords|, allChunks, processed, skipped, contextBefore, contextAfter, maxGap,
                      orig, original, seen, done, produced)
    ensures Values(allChunks) == ChunkAll(original, contextBefore, contextAfter, maxGap)
    ensures processed == CountWithInput(Values(allChunks)) && processed + skipped == |allChunks|
    ensures forall r :: r in fileRecords ==> r in orig && r.value == Settled(orig[r])
    ensures |allChunks| >= |fileRecords| && skipped == CountDegenerate(original)
  {
    WholePrefix(original);
    WholePrefix(fileRecords);
    ValuesOf(allChunks, produced);
    ChunkAllCounts(original, contextBefore, contextAfter, maxGap);
  }

  /** One iteration of the outer loop of `add_markers_to_dataset`. */
  method DatasetStep(fileRecords: seq<FileRecord>, i: nat, chunks: seq<FileRecord>, processed: nat, skipped: nat,
                     contextBefore: int, contextAfter: int, maxGap: int,
                     ghost orig: map<FileRecord, Record>, ghost original: seq<Record>,
                     ghost seen: set<FileRecord>, ghost done: seq<Record>, ghost produced: seq<Record>)
    returns (allChunks: seq<FileRecord>, newProcessed: nat, newSkipped: nat,
             ghost newSeen: set<FileRecord>, ghost newDone: seq<Record>, ghost newProduced: seq<Record>)
    requires i < |fileRecords|
    requires Progress(fileRecords, i, chunks, processed, skipped, contextBefore, contextAfter, maxGap,
                      orig, original, seen, done, produced)
    modifies fileRecords[i]
    ensures Progress(fileRecords, i + 1, allChunks, newProcessed, newSkipped, contextBefore, contextAfter, maxGap,
                     orig, original, newSeen, newDone, newProduced)
  {
    ghost var chunkValues;
    allChunks, newProcessed, newSkipped, chunkValues :=
      RecordStep(fileRecords, i, chunks, processed, skipped, contextBefore, contextAfter, maxGap,
                 orig, seen, produced);
    newSeen := seen + {fileRecords[i]};
    newDone := done + [original[i]];
    newProduced := produced + chunkValues;
    ChunkAllSnoc(done, original[i], contextBefore, contextAfter, maxGap);
    TakeSnoc(original, i);
    TakeSnoc(fileRecords, i);
  }

  /**
   * The record part of one outer iteration: chunks record `i` and settles it.
   * The iteration is split into `DatasetStep` (the loop state over all
   * records), `RecordStep` (the frame: only record `i` changes) and
   * `AddRecordChunks` (one record's chunks) so that each proof reasons
   * about one of these at a time; as one method it exceeds the verifier's
   * resource budget.
   */
  method RecordStep(fileRecords: seq<FileRecord>, i: nat, chunks: seq<FileRecord>, processed: nat, skipped: nat,
                    contextBefore: int, contextAfter: int, maxGap: int,
                    ghost orig: map<FileRecord, Record>, ghost seen: set<FileRecord>, ghost produced: seq<Record>)
    returns (allChunks: seq<FileRecord>, newProcessed: nat, newSkipped: nat, ghost chunkValues: seq<Record>)
    requires i < |fileRecords|
    requires forall r :: r in fileRecords ==> r in orig && r.value == (if r in seen then Settled(orig[r]) else orig[r])
    requires forall r :: r in chunks && r in fileRecords ==> r in seen
    requires |chunks| == |produced|
    requires forall k :: 0 <= k < |chunks| ==> chunks[k].value == produced[k]
    requires processed == CountWithInput(produced) && processed + skipped == |chunks|
    modifies fileRecords[i]
    ensures chunkValues == ChunkValues(orig[fileRecords[i]], contextBefore, contextAfter, maxGap)
    ensures forall r :: r in fileRecords ==>
      r.value == (if r in seen + {fileRecords[i]} then Settled(orig[r]) else orig[r])
    ensures forall r :: r in allChunks && r in fileRecords ==> r in seen + {fileRecords[i]}
    ensures |allChunks| == |produced| + |chunkValues|
    ensures forall k :: 0 <= k < |allChunks| ==> allChunks[k].value == (produced + chunkValues)[k]
    ensures newProcessed == CountWithInput(produced + chunkValues) && newProcessed + newSkipped == |allChunks|
  {
    var record := fileRecords[i];
    ghost var v := orig[record];
    SettledStable(v);
    ChunkValuesOfDegenerate(v, contextBefore, contextAfter, maxGap);
    allChunks, newProcessed, newSkipped, chunkValues :=
      AddRecordChunks(record, chunks, processed, skipped, contextBefore, contextAfter, maxGap, produced);
  }

  /** The degenerate update and the settled form absorb each other. */
  lemma SettledStable(v: Record)
    ensures Degenerate(Degenerate(v)) == Degenerate(v)
    ensures Settled(Degenerate(v)) == Degenerate(v)
    ensures Degenerate(Settled(v)) == Degenerate(v)
    ensures Settled(Settled(v)) == Settled(v)
    ensures IsDegenerate(Settled(v)) == IsDegenerate(v)
  {
    assert IsDegenerate(Degenerate(v)) == IsDegenerate(v);
  }

  /**
   * One iteration of the outer loop of `add_markers_to_dataset`: chunks one
   * record and appends and counts its chunks. The record is either left as
   * it was or updated by the degenerate path, and every new chunk is a new
   * object or, on the degenerate path, the record itself. A record already
   * among the chunks must be settled, so that its chunk keeps its value.
   */
  method AddRecordChunks(record: FileRecord, chunks: seq<FileRecord>, processed: nat, skipped: nat,
                         contextBefore: int, contextAfter: int, maxGap: int, ghost produced: seq<Record>)
    returns (allChunks: seq<FileRecord>, newProcessed: nat, newSkipped: nat, ghost chunkValues: seq<Record>)
    requires |chunks| == |produced|
    requires forall k :: 0 <= k < |chunks| ==> chunks[k].value == produced[k]
    requires record in chunks ==> Settled(record.value) == record.value
    requires processed == CountWithInput(produced) && processed + skipped == |chunks|
    modifies record
    ensures chunkValues == ChunkValues(old(record.value), contextBefore, contextAfter, maxGap)
    ensures |allChunks| == |produced| + |chunkValues|
    ensures forall k :: 0 <= k < |allChunks| ==> allChunks[k].value == (produced + chunkValues)[k]
    ensures forall r :: r in allChunks ==>
      r in chunks || fresh(r) || (r == record && IsDegenerate(old(record.value)))
    ensures record.value == Settled(old(record.value))
    ensures newProcessed == CountWithInput(produced + chunkValues)
    ensures newProcessed + newSkipped == |allChunks|
  {
    chunkValues := ChunkValues(record.value, contextBefore, contextAfter, maxGap);
    var chunkRecords := AddEditableRegionMarkers(record, contextBefore, contextAfter, maxGap);
    allChunks, newProcessed, newSkipped := CollectChunks(chunks, chunkRecords, processed, skipped, chunkValues);
    CountWithInputAppend(produced, chunkValues);
    forall k | 0 <= k < |allChunks|
      ensures allChunks[k].value == (produced + chunkValues)[k]
    {
      if k < |chunks| {
        assert allChunks[k] == chunks[k];
      } else {
        assert allChunks[k] == chunkRecords[k - |chunks|];
      }
    }
  }

  /**
   * The inner loop of `add_markers_to_dataset`: appends one record's chunks,
   * counting those with model input text as processed and the rest as skipped.
   */
  method CollectChunks(chunks: seq<FileRecord>, chunkRecords: seq<FileRecord>, processed: nat, skipped: nat,
                       ghost chunkValues: seq<Record>)
    returns (allChunks: seq<FileRecord>, newProcessed: nat, newSkipped: nat)
    requires |chunkValues| == |chunkRecords|
    requires forall k :: 0 <= k < |chunkRecords| ==> chunkRecords[k].value == chunkValues[k]
    ensures allChunks == chunks + chunkRecords
    ensures newProcessed == processed + CountWithInput(chunkValues)
    ensures newProcessed + newSkipped == processed + skipped + |chunkRecords|
  {
    allChunks, newProcessed, newSkipped := chunks, processed, skipped;
    var c := 0;
    while c < |chunkRecords|
      invariant 0 <= c <= |chunkRecords|
      invariant allChunks == chunks + chunkRecords[..c]
      invariant newProcessed == processed + CountWithInput(chunkValues[..c])
      invariant newProcessed + newSkipped == processed + skipped + c
    {
      var chunk := chunkRecords[c];
      if Truthy(chunk.value.modelInputText) {
        newProcessed := newProcessed + 1;
      } else {
        newSkipped := newSkipped + 1;
      }
      allChunks := allChunks + [chunk];
      assert chunkRecords[..c + 1] == chunkRecords[..c] + [chunk];
      assert chunkValues[..c + 1][..c] == chunkValues[..c];
      c := c + 1;
    }
    assert chunkRecords[..c] == chunkRecords && chunkValues[..c] == chunkValues;
  }

  /**
   * Chunking ignores the keys the degenerate path writes, so a record
   * already updated in place chunks exactly as it did before.
   */
  lemma ChunkValuesOfDegenerate(v: Record, contextBefore: int, contextAfter: int, maxGap: int)
    ensures IsDegenerate(Degenerate(v)) == IsDegenerate(v)
    ensures ChunkValues(Degenerate(v), contextBefore, contextAfter, maxGap) == ChunkValues(v, contextBefore, contextAfter, maxGap)
  {
    var d := Degenerate(v);
    assert IsDegenerate(d) == IsDegenerate(v);
    if !IsDegenerate(v) {
      var regions := RegionsOf(v, maxGap);
      assert RegionsOf(d, maxGap) == regions;
      assert forall k :: 0 <= k < |regions| ==>
        ChunkOf(d, regions, k, contextBefore, contextAfter) == ChunkOf(v, regions, k, contextBefore, contextAfter);
    }
  }
}
