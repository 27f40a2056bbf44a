/**
 * The two phases used together, as Hive drives them: the planner emits the
 * splits, a reader is opened on one of them, and `next` is called until it
 * stops handing out rows.
 */
module Scenarios {
  import opened Wrappers
  import opened Discovery
  import opened SplitPlanner
  import opened Reader
  import opened Phases

  /** Calls `next` until it hands out no row. Every row left is handed out,
      once each and in order; the last call reports the end when every slot of
      the batch array is filled and the null slot otherwise, and leaves the
      stopwatch running. */
  method Drain(rd: RecordReader) returns (rows: nat, last: NextResult)
    requires rd.Valid() && !rd.watchRunning
    modifies rd
    ensures rd.batches == old(rd.batches) && rd.counts == old(rd.counts) && rd.recordTotal == old(rd.recordTotal)
    ensures rows == old(rd.recordTotal) - old(rd.recordConsumed)
    ensures rd.produced == AllRows(rd.counts) && rd.recordConsumed == rd.recordTotal
    ensures last.End? || last.NullBatch?
    ensures last.End? <==> |rd.counts| == rd.batches.Length
    ensures last.End? ==> rd.Valid() && rd.Exhausted()
    ensures rd.watchRunning
  {
    AllRowsCount(rd.counts);
    rows := 0;
    last := rd.Next();
    while last.Row?
      invariant rd.batches == old(rd.batches) && rd.counts == old(rd.counts) && rd.recordTotal == old(rd.recordTotal)
      invariant rd.recordConsumed == |rd.produced| && rd.recordTotal == Sum(rd.counts)
      invariant rd.watchRunning <==> !last.Row?
      invariant last.Row? ==> rd.Valid() && rd.recordConsumed == old(rd.recordConsumed) + rows + 1
      invariant !last.Row? ==> rd.produced == AllRows(rd.counts) && rd.recordConsumed == old(rd.recordConsumed) + rows
      invariant !last.WatchRunning?
      invariant last.End? <==> !last.Row? && |rd.counts| == rd.batches.Length
      invariant last.End? ==> rd.Valid() && rd.Exhausted()
      decreases if last.Row? then |rd.Remaining()| + 1 else 0
    {
      rows := rows + 1;
      last := rd.Next();
    }
  }

  /** Opening a reader on the k-th split the planner emits, for a path whose
      root listing holds no hidden entry and whose count fits an `int`: the
      reader opens on the path's tree with one slot per planned batch. */
  method OpenPlannedSplit(roots: seq<Root>, store: Store, k: nat) returns (split: Split, rd: RecordReader)
    requires k < |SplitOrigins(roots, store)|
    requires NoneHidden(Listing(roots[SplitOrigins(roots, store)[k]].tree))
    requires RootBatches(roots[SplitOrigins(roots, store)[k]], store) < 0x8000_0000
    ensures var i := SplitOrigins(roots, store)[k];
            |PlanSplits(roots, store)| == |SplitOrigins(roots, store)| &&
            split == PlanSplits(roots, store)[k] &&
            split == Split(roots[i].path, 0, RootBatches(roots[i], store))
    ensures fresh(rd) && rd.Valid() && !rd.watchRunning && rd.produced == [] && rd.recordConsumed == 0
    ensures rd.recordBatchIndex == -1 && rd.recordBatchInnerIndex == 0 && rd.batch.None?
    ensures var tree := roots[SplitOrigins(roots, store)[k]].tree;
            rd.counts == ReaderBatches(tree, store) && rd.batches.Length == split.length
  {
    var splits, _ := GetSplits(roots, store);
    SplitsFollowRoots(roots, store);
    SplitOriginsExact(roots, store);
    split := splits[k];
    var i := SplitOrigins(roots, store)[k];
    assert i in SplitOrigins(roots, store);
    ReaderWithinSplit(roots[i], store);
    var outcome := Open(split, roots[i].tree, store);
    assert outcome.Opened?;
    rd := outcome.reader;
  }

  /** Reading the k-th split the planner emits, for a path whose root listing
      holds no hidden entry and whose count fits an `int`: the reader opens,
      hands out every row of the split's tables, and then reports the end when
      the planned count and the reader's count agree and meets a null slot
      exactly when the planner counts batches after the first line of some
      pointer file. Either way the stopwatch is left running, so the call
      after that fails. */
  method ReadPlannedSplit(roots: seq<Root>, store: Store, k: nat)
    returns (split: Split, rows: nat, last: NextResult, again: NextResult)
    requires k < |SplitOrigins(roots, store)|
    requires NoneHidden(Listing(roots[SplitOrigins(roots, store)[k]].tree))
    requires RootBatches(roots[SplitOrigins(roots, store)[k]], store) < 0x8000_0000
    ensures var i := SplitOrigins(roots, store)[k];
            |PlanSplits(roots, store)| == |SplitOrigins(roots, store)| &&
            split == PlanSplits(roots, store)[k] &&
            split == Split(roots[i].path, 0, RootBatches(roots[i], store)) &&
            rows == Sum(ReaderBatches(roots[i].tree, store))
    ensures last.End? || last.NullBatch?
    ensures var files := WalkFrom(Listing(roots[SplitOrigins(roots, store)[k]].tree));
            last.NullBatch? <==> exists m :: 0 <= m < |files| && LaterLinesCount(files[m], store)
    ensures SingleLineFiles(WalkFrom(Listing(roots[SplitOrigins(roots, store)[k]].tree))) ==> last.End?
    ensures again == WatchRunning
  {
    var rd;
    split, rd := OpenPlannedSplit(roots, store, k);
    ghost var r := roots[SplitOrigins(roots, store)[k]];
    ReaderWithinSplit(r, store);
    rows, last := Drain(rd);
    again := rd.Next();
  }

  /** Opening the split the planner emits for a path whose root listing holds
      only single-line pointer files, one of them hidden and resolving to a
      table with batches: the reader's unfiltered root listing finds more
      batches than the planner sized the split for, and opening fails. */
  method OpenWithHiddenRootFile(r: Root, store: Store) returns (result: OpenResult)
    requires FilesOnly(Listing(r.tree)) && SingleLineFiles(Listing(r.tree))
    requires exists k :: 0 <= k < |Listing(r.tree)| && Hidden(Listing(r.tree)[k].name)
                         && FirstLineBatches(Listing(r.tree)[k], store) != []
    requires 0 < RootBatches(r, store) < 0x8000_0000
    ensures RootSplits(r, store) == [Split(r.path, 0, RootBatches(r, store))]
    ensures result == BatchOverflow
  {
    FlatRootCounts(r, store);
    var split := Split(r.path, 0, RootBatches(r, store));
    result := Open(split, r.tree, store);
  }
}
