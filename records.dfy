/**
 * The file-change record that flows through the pipeline. In the source it
 * is a Python dict: keys are read with `.get` (a missing key reads as None),
 * set in place, and copied with `.copy()`. Here a dict is a `FileRecord`
 * object holding a `Record` value; setting keys replaces that value with an
 * updated one, so aliasing and in-place updates stay visible. Only the keys
 * the chunker and the filter read or write are modelled.
 */
module Records {

  datatype Option<+T> = None | Some(value: T)

  /** Python truthiness of an optional text: None and "" are false. */
  predicate Truthy(s: Option<string>)
  {
    s.Some? && s.value != []
  }

  datatype Record = Record(
    patch: Option<string>,
    beforeContent: Option<string>,
    afterContent: Option<string>,
    linesAdded: Option<int>,
    linesDeleted: Option<int>,
    totalChanges: Option<int>,
    totalFilesInCommit: Option<int>,
    chunkId: Option<int>,
    totalChunksInFile: Option<int>,
    isMultiChunkFile: Option<bool>,
    editableRegionStart: Option<int>,
    editableRegionEnd: Option<int>,
    modelInputText: Option<string>,
    modelTargetText: Option<string>
  )

  /** A mutable record (a dict in the source). */
  class FileRecord {
    var value: Record

    constructor (v: Record)
      ensures value == v
    {
      value := v;
    }

    /** `record.copy()`: a new dict with the same keys and values. */
    method Copy() returns (c: FileRecord)
      ensures fresh(c) && c.value == value
    {
      c := new FileRecord(value);
    }
  }

  /** The values currently held by a sequence of records, in order. */
  ghost function Values(rs: seq<FileRecord>): (vs: seq<Record>)
    reads rs
    ensures |vs| == |rs|
    ensures forall k :: 0 <= k < |rs| ==> vs[k] == rs[k].value
  {
    if rs == [] then [] else Values(rs[..|rs| - 1]) + [rs[|rs| - 1].value]
  }

  lemma ValuesOf(rs: seq<FileRecord>, vs: seq<Record>)
    requires |rs| == |vs| && forall k :: 0 <= k < |rs| ==> rs[k].value == vs[k]
    ensures Values(rs) == vs
  {
  }
}
