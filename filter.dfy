/**
 * The record filter of analysis/filter_dataset.py: `compute_total_changes`,
 * the ordered threshold chain of `should_keep` with its drop-reason
 * counter, and the keep/drop loop of `main`.
 */
module RecordFilter {
  import opened Lines
  import opened Records

  /** The three thresholds `should_keep` reads from the command line. */
  datatype FilterParams = FilterParams(maxTotalChanges: int, maxFilesPerCommit: int, minChunksPerFile: int)

  /** The drop reasons, in the order `should_keep` checks them. */
  datatype DropReason =
    | MissingLineStats
    | TooManyLinesChanged
    | MissingFileCount
    | MultiFileCommit
    | MissingChunkCount
    | SingleChunkFile

  /** Position of a reason in the chain of checks. */
  function Rank(d: DropReason): nat
  {
    match d
    case MissingLineStats => 0
    case TooManyLinesChanged => 1
    case MissingFileCount => 2
    case MultiFileCommit => 3
    case MissingChunkCount => 4
    case SingleChunkFile => 5
  }

  /**
   * `compute_total_changes(record)`: the stored total when present (even
   * 0), otherwise the sum of added and deleted lines when both are present.
   */
  function TotalChanges(r: Record): (t: Option<int>)
    ensures r.totalChanges.Some? ==> t == r.totalChanges
    ensures r.totalChanges.None? ==>
      (t.Some? <==> r.linesAdded.Some? && r.linesDeleted.Some?)
      && (t.Some? ==> t.value == r.linesAdded.value + r.linesDeleted.value)
  {
    match r.totalChanges
    case Some(total) => Some(total)
    case None =>
      match (r.linesAdded, r.linesDeleted)
      case (Some(added), Some(deleted)) => Some(added + deleted)
      case _ => None
  }

  /**
   * The condition under which a check rejects a record, each stated on its
   * own (a threshold check only applies to a present value).
   */
  predicate Fails(r: Record, p: FilterParams, d: DropReason)
  {
    match d
    case MissingLineStats => TotalChanges(r).None?
    case TooManyLinesChanged => TotalChanges(r).Some? && TotalChanges(r).value > p.maxTotalChanges
    case MissingFileCount => r.totalFilesInCommit.None?
    case MultiFileCommit => r.totalFilesInCommit.Some? && r.totalFilesInCommit.value > p.maxFilesPerCommit
    case MissingChunkCount => r.totalChunksInFile.None?
    case SingleChunkFile => r.totalChunksInFile.Some? && r.totalChunksInFile.value < p.minChunksPerFile
  }

  /** What the filter is meant to keep: all three values known and within their thresholds. */
  predicate Acceptable(r: Record, p: FilterParams)
  {
    && TotalChanges(r).Some? && TotalChanges(r).value <= p.maxTotalChanges
    && r.totalFilesInCommit.Some? && r.totalFilesInCommit.value <= p.maxFilesPerCommit
    && r.totalChunksInFile.Some? && r.totalChunksInFile.value >= p.minChunksPerFile
  }

  /** The reason `should_keep` records for a record, or None when it keeps it. */
  function FirstFailure(r: Record, p: FilterParams): (reason: Option<DropReason>)
    ensures reason.Some? ==> Fails(r, p, reason.value)
    ensures reason.None? ==> Acceptable(r, p)
  {
    var total := TotalChanges(r);
    if total.None? then Some(MissingLineStats)
    else if total.value > p.maxTotalChanges then Some(TooManyLinesChanged)
    else if r.totalFilesInCommit.None? then Some(MissingFileCount)
    else if r.totalFilesInCommit.value > p.maxFilesPerCommit then Some(MultiFileCommit)
    else if r.totalChunksInFile.None? then Some(MissingChunkCount)
    else if r.totalChunksInFile.value < p.minChunksPerFile then Some(SingleChunkFile)
    else None
  }

  /** `should_keep` keeps a record exactly when it is acceptable. */
  lemma KeepIffAcceptable(r: Record, p: FilterParams)
    ensures FirstFailure(r, p).None? <==> Acceptable(r, p)
    ensures FirstFailure(r, p).None? <==> forall d :: !Fails(r, p, d)
  {
    if FirstFailure(r, p).None? {
      forall d
        ensures !Fails(r, p, d)
      {
      }
    } else {
      assert Fails(r, p, FirstFailure(r, p).value);
    }
  }

  /** The recorded reason is the first check, in order, that fails. */
  lemma FirstFailureIsFirst(r: Record, p: FilterParams, d: DropReason)
    ensures FirstFailure(r, p) == Some(d) <==>
      Fails(r, p, d) && forall e :: Rank(e) < Rank(d) ==> !Fails(r, p, e)
  {
    if Fails(r, p, d) && forall e :: Rank(e) < Rank(d) ==> !Fails(r, p, e) {
      match d
      case MissingLineStats =>
      case TooManyLinesChanged =>
        assert !Fails(r, p, MissingLineStats);
      case MissingFileCount =>
        assert !Fails(r, p, MissingLineStats) && !Fails(r, p, TooManyLinesChanged);
      case MultiFileCommit =>
        assert !Fails(r, p, MissingLineStats) && !Fails(r, p, TooManyLinesChanged);
        assert !Fails(r, p, MissingFileCount);
      case MissingChunkCount =>
        assert !Fails(r, p, MissingLineStats) && !Fails(r, p, TooManyLinesChanged);
        assert !Fails(r, p, MissingFileCount) && !Fails(r, p, MultiFileCommit);
      case SingleChunkFile =>
        assert !Fails(r, p, MissingLineStats) && !Fails(r, p, TooManyLinesChanged);
        assert !Fails(r, p, MissingFileCount) && !Fails(r, p, MultiFileCommit);
        assert !Fails(r, p, MissingChunkCount);
    }
  }

  /** The `Counter` of drop reasons; a reason never counted reads as 0. */
  class DropCounter {
    var counts: map<DropReason, nat>

    constructor ()
      ensures counts == map[]
    {
      counts := map[];
    }

    function Count(d: DropReason): nat
      reads this
    {
      if d in counts then counts[d] else 0
    }

    /** `drop_counter[reason] += 1` */
    method Add(d: DropReason)
      modifies this
      ensures counts == old(counts)[d := old(Count(d)) + 1]
      ensures forall e :: Count(e) == old(Count(e)) + (if e == d then 1 else 0)
    {
      counts := counts[d := Count(d) + 1];
    }
  }

  /**
   * `should_keep(record, args, drop_counter)`: runs the checks in order and
   * on the first that fails counts its reason and rejects. The record is a
   * value, so it cannot be changed.
   */
  method ShouldKeep(record: Record, p: FilterParams, dropCounter: DropCounter) returns (keep: bool)
    modifies dropCounter
    ensures keep <==> FirstFailure(record, p).None?
    ensures keep ==> dropCounter.counts == old(dropCounter.counts)
    ensures !keep ==>
      var d := FirstFailure(record, p).value;
      dropCounter.counts == old(dropCounter.counts)[d := old(dropCounter.Count(d)) + 1]
    ensures forall e ::
      dropCounter.Count(e) == old(dropCounter.Count(e)) + (if FirstFailure(record, p) == Some(e) then 1 else 0)
  {
    var totalChanges := TotalChanges(record);
    if totalChanges.None? {
      dropCounter.Add(MissingLineStats);
      return false;
    }
    if totalChanges.value > p.maxTotalChanges {
      dropCounter.Add(TooManyLinesChanged);
      return false;
    }
    var filesInCommit := record.totalFilesInCommit;
    if filesInCommit.None? {
      dropCounter.Add(MissingFileCount);
      return false;
    }
    if filesInCommit.value > p.maxFilesPerCommit {
      dropCounter.Add(MultiFileCommit);
      return false;
    }
    var chunks := record.totalChunksInFile;
    if chunks.None? {
      dropCounter.Add(MissingChunkCount);
      return false;
    }
    if chunks.value < p.minChunksPerFile {
      dropCounter.Add(SingleChunkFile);
      return false;
    }
    return true;
  }

  // ----- The keep/drop loop -----

  /** The records `should_keep` accepts, in input order. */
  function Kept(records: seq<Record>, p: FilterParams): seq<Record>
  {
    if records == [] then []
    else
      Kept(records[..|records| - 1], p)
        + (if FirstFailure(Last(records), p).None? then [Last(records)] else [])
  }

  /** How many records are dropped for reason `d`. */
  function Drops(records: seq<Record>, p: FilterParams, d: DropReason): nat
  {
    if records == [] then 0
    else Drops(records[..|records| - 1], p, d) + (if FirstFailure(Last(records), p) == Some(d) then 1 else 0)
  }

  /** The indices of the accepted records, in increasing order. */
  function KeptIndices(records: seq<Record>, p: FilterParams): seq<nat>
  {
    if records == [] then []
    else
      KeptIndices(records[..|records| - 1], p)
        + (if FirstFailure(Last(records), p).None? then [|records| - 1] else [])
  }

  /**
   * The loop of `main`: `kept` collects the accepted records in order and
   * the counter grows by the drops of each reason.
   */
  method FilterRecords(records: seq<Record>, p: FilterParams, dropCounter: DropCounter) returns (kept: seq<Record>)
    modifies dropCounter
    ensures kept == Kept(records, p)
    ensures forall d :: dropCounter.Count(d) == old(dropCounter.Count(d)) + Drops(records, p, d)
  {
    kept := [];
    var i := 0;
    while i < |records|
      invariant 0 <= i <= |records|
      invariant kept == Kept(records[..i], p)
      invariant forall d :: dropCounter.Count(d) == old(dropCounter.Count(d)) + Drops(records[..i], p, d)
    {
      var record := records[i];
      var keep := ShouldKeep(record, p, dropCounter);
      if keep {
        kept := kept + [record];
      }
      TakeSnoc(records, i);
      assert records[..i + 1][..i] == records[..i];
      i := i + 1;
    }
    WholePrefix(records);
  }

  /**
   * `kept` is the order-preserving subsequence of accepted records: it
   * picks the records at strictly increasing indices, and an index is
   * picked exactly when its record is accepted.
   */
  lemma {:induction false} KeptIsAcceptedSubsequence(records: seq<Record>, p: FilterParams)
    ensures var ks := KeptIndices(records, p);
      && |ks| == |Kept(records, p)|
      && (forall k :: 0 <= k < |ks| ==> ks[k] < |records| && Kept(records, p)[k] == records[ks[k]])
      && (forall k, l :: 0 <= k < l < |ks| ==> ks[k] < ks[l])
      && (forall j :: 0 <= j < |records| ==> (j in ks <==> FirstFailure(records[j], p).None?))
  {
    if records != [] {
      var init := records[..|records| - 1];
      KeptIsAcceptedSubsequence(init, p);
      var ks := KeptIndices(records, p);
      var ks0 := KeptIndices(init, p);
      assert forall j :: 0 <= j < |init| ==> init[j] == records[j];
      assert forall k :: 0 <= k < |ks0| ==> ks0[k] < |init|;
      if FirstFailure(Last(records), p).None? {
        assert ks == ks0 + [|records| - 1];
      } else {
        assert ks == ks0;
      }
    }
  }

  /** Every record is either kept or dropped for exactly one reason. */
  lemma {:induction false} KeptPlusDrops(records: seq<Record>, p: FilterParams)
    ensures |Kept(records, p)|
      + Drops(records, p, MissingLineStats) + Drops(records, p, TooManyLinesChanged)
      + Drops(records, p, MissingFileCount) + Drops(records, p, MultiFileCommit)
      + Drops(records, p, MissingChunkCount) + Drops(records, p, SingleChunkFile)
      == |records|
  {
    if records != [] {
      KeptPlusDrops(records[..|records| - 1], p);
    }
  }
}
