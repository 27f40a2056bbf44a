/**
 * Record reading (`VineyardRecordReader`): the constructor walks the split's
 * tree again, stores the record batches of each pointer file in a batch array
 * sized from the split's length and sums their rows; `next` then moves a cursor
 * (batch index, row index within the batch) over the rows of all batches.
 */
module Reader {
  import opened Wrappers
  import opened Discovery
  import opened SplitPlanner

  // ---------------------------------------------------------------------------
  // What the constructor discovers

  /** The batches the reader takes from one pointer file. The line loop ends
      after the first line whatever happens to it (a `break` after a resolved
      table and another after a failure), so only the first line counts. */
  function FirstLineBatches(f: Entry, store: Store): seq<nat> {
    if !f.File? || f.readLen <= 0 || f.lines == [] || f.lines[0] !in store then []
    else store[f.lines[0]]
  }

  /** Row counts of the batches of a sequence of pointer files, in order. */
  function ReaderBatchesOf(files: seq<Entry>, store: Store): seq<nat> {
    if files == [] then []
    else ReaderBatchesOf(files[..|files| - 1], store) + FirstLineBatches(files[|files| - 1], store)
  }

  /** The batches the constructor stores for a tree: the walk starts from the
      root listing taken WITHOUT the hidden-file filter. */
  function ReaderBatches(tree: Entry, store: Store): seq<nat> {
    ReaderBatchesOf(WalkFrom(Listing(tree)), store)
  }

  lemma {:induction false} ReaderBatchesAppend(a: seq<Entry>, b: seq<Entry>, store: Store)
    ensures ReaderBatchesOf(a + b, store) == ReaderBatchesOf(a, store) + ReaderBatchesOf(b, store)
    decreases |b|
  {
    if b == [] {
      assert a + b == a;
    } else {
      var b' := b[..|b| - 1];
      assert (a + b)[..|a + b| - 1] == a + b';
      assert (a + b)[|a + b| - 1] == b[|b| - 1];
      ReaderBatchesAppend(a, b', store);
    }
  }

  function Sum(s: seq<nat>): nat {
    if s == [] then 0 else Sum(s[..|s| - 1]) + s[|s| - 1]
  }

  lemma {:induction false} SumAppend(a: seq<nat>, b: seq<nat>)
    ensures Sum(a + b) == Sum(a) + Sum(b)
    decreases |b|
  {
    if b == [] {
      assert a + b == a;
    } else {
      var b' := b[..|b| - 1];
      assert (a + b)[..|a + b| - 1] == a + b';
      SumAppend(a, b');
    }
  }

  // ---------------------------------------------------------------------------
  // The rows a reader hands out

  /** The position `setValues` is given: batch index and row index in it. */
  datatype RowRef = RowRef(batch: nat, row: nat)

  /** Lexicographic order on positions. */
  predicate Before(x: RowRef, y: RowRef) {
    x.batch < y.batch || (x.batch == y.batch && x.row < y.row)
  }

  /** The rows from row `j` of batch `i` onwards, batch by batch. */
  function RowsFrom(counts: seq<nat>, i: nat, j: nat): seq<RowRef>
    decreases |counts| - i, if i < |counts| && j <= counts[i] then counts[i] - j else 0
  {
    if i >= |counts| then []
    else if j >= counts[i] then RowsFrom(counts, i + 1, 0)
    else [RowRef(i, j)] + RowsFrom(counts, i, j + 1)
  }

  /** Every row of every batch, in the order a fresh reader hands them out. */
  function AllRows(counts: seq<nat>): seq<RowRef> {
    RowsFrom(counts, 0, 0)
  }

  lemma {:induction false} RowsFromCount(counts: seq<nat>, i: nat, j: nat)
    requires i <= |counts|
    requires i < |counts| ==> j <= counts[i]
    ensures |RowsFrom(counts, i, j)| + (if i < |counts| then j else 0) == Sum(counts[i..])
    decreases |counts| - i, if i < |counts| then counts[i] - j else 0
  {
    if i == |counts| {
      assert counts[i..] == [];
    } else if j == counts[i] {
      RowsFromCount(counts, i + 1, 0);
      assert counts[i..] == [counts[i]] + counts[i + 1..];
      SumAppend([counts[i]], counts[i + 1..]);
      assert [counts[i]][..0] == [];
    } else {
      RowsFromCount(counts, i, j + 1);
    }
  }

  /** A reader hands out exactly as many rows as its batches hold. */
  lemma AllRowsCount(counts: seq<nat>)
    ensures |AllRows(counts)| == Sum(counts)
  {
    RowsFromCount(counts, 0, 0);
    assert counts[0..] == counts;
  }

  lemma {:induction false} RowsFromMembers(counts: seq<nat>, i: nat, j: nat, x: RowRef)
    ensures x in RowsFrom(counts, i, j) <==>
            x.batch < |counts| && x.row < counts[x.batch] && (i < x.batch || (i == x.batch && j <= x.row))
    decreases |counts| - i, if i < |counts| && j <= counts[i] then counts[i] - j else 0
  {
    if i < |counts| {
      if j >= counts[i] {
        RowsFromMembers(counts, i + 1, 0, x);
        assert RowsFrom(counts, i, j) == RowsFrom(counts, i + 1, 0);
      } else {
        RowsFromMembers(counts, i, j + 1, x);
        var rest := RowsFrom(counts, i, j + 1);
        assert RowsFrom(counts, i, j) == [RowRef(i, j)] + rest;
        assert x in [RowRef(i, j)] + rest <==> x == RowRef(i, j) || x in rest;
      }
    }
  }

  lemma {:induction false} RowsFromSorted(counts: seq<nat>, i: nat, j: nat)
    ensures forall p, q :: 0 <= p < q < |RowsFrom(counts, i, j)| ==>
              Before(RowsFrom(counts, i, j)[p], RowsFrom(counts, i, j)[q])
    decreases |counts| - i, if i < |counts| && j <= counts[i] then counts[i] - j else 0
  {
    if i < |counts| {
      if j >= counts[i] {
        RowsFromSorted(counts, i + 1, 0);
      } else {
        var rest := RowsFrom(counts, i, j + 1);
        RowsFromSorted(counts, i, j + 1);
        var s := [RowRef(i, j)] + rest;
        forall p, q | 0 <= p < q < |s| ensures Before(s[p], s[q]) {
          if p == 0 {
            RowsFromMembers(counts, i, j + 1, s[q]);
            assert s[q] == rest[q - 1];
          } else {
            assert s[p] == rest[p - 1] && s[q] == rest[q - 1];
          }
        }
      }
    }
  }

  /** The rows of a fresh reader are exactly the positions (b, r) with
      r below the row count of batch b, in strictly increasing lexicographic
      order: batches without rows contribute nothing. */
  lemma AllRowsExact(counts: seq<nat>)
    ensures forall x :: x in AllRows(counts) <==> x.batch < |counts| && x.row < counts[x.batch]
    ensures forall p, q :: 0 <= p < q < |AllRows(counts)| ==> Before(AllRows(counts)[p], AllRows(counts)[q])
  {
    forall x ensures x in AllRows(counts) <==> x.batch < |counts| && x.row < counts[x.batch] {
      RowsFromMembers(counts, 0, 0, x);
    }
    RowsFromSorted(counts, 0, 0);
  }

  /** Once the current batch is used up (or none is loaded yet) the rows still
      to come are those from the start of the next batch. */
  lemma BatchDone(counts: seq<nat>, b: Option<nat>, i: int, j: int)
    requires b.None? ==> i == -1 && j == 0
    requires b.Some? ==> 0 <= i < |counts| && b.value == counts[i] && b.value <= j
    ensures 0 <= i + 1 <= |counts|
    ensures (if b.None? then AllRows(counts) else RowsFrom(counts, i, j)) == RowsFrom(counts, i + 1, 0)
  {
  }

  /** Inside a batch, the next row is the one under the cursor; handing it out
      keeps the rows handed out followed by the rows to come equal to all rows. */
  lemma TakeRow(counts: seq<nat>, done: seq<RowRef>, i: nat, j: nat)
    requires i < |counts| && j < counts[i]
    requires done + RowsFrom(counts, i, j) == AllRows(counts)
    ensures RowsFrom(counts, i, j)[0] == RowRef(i, j) && RowsFrom(counts, i, j)[1..] == RowsFrom(counts, i, j + 1)
    ensures (done + [RowRef(i, j)]) + RowsFrom(counts, i, j + 1) == AllRows(counts)
  {
    assert RowsFrom(counts, i, j) == [RowRef(i, j)] + RowsFrom(counts, i, j + 1);
    ConcatAssoc(done, [RowRef(i, j)], RowsFrom(counts, i, j + 1));
  }

  // ---------------------------------------------------------------------------
  // Filling the batch array

  /** Stored batches as array slots. */
  function Somes(found: seq<nat>): (r: seq<Option<nat>>)
    ensures |r| == |found|
  {
    if found == [] then [] else Somes(found[..|found| - 1]) + [Some(found[|found| - 1])]
  }

  /** The content of a batch array of length `n` that holds `found` from slot 0
      on, the remaining slots being null. */
  function Slots(found: seq<nat>, n: nat): (r: seq<Option<nat>>)
    requires |found| <= n
    ensures |r| == n
  {
    Somes(found) + seq(n - |found|, _ => None)
  }

  lemma {:induction false} SomesAt(found: seq<nat>, k: nat)
    requires k < |found|
    ensures Somes(found)[k] == Some(found[k])
  {
    if k < |found| - 1 {
      SomesAt(found[..|found| - 1], k);
    }
  }

  /** Slot `k` holds the `k`-th stored batch, or null past the stored ones. */
  lemma SlotsAt(found: seq<nat>, n: nat, k: nat)
    requires |found| <= n && k < n
    ensures Slots(found, n)[k] == if k < |found| then Some(found[k]) else None
  {
    if k < |found| {
      SomesAt(found, k);
    }
  }

  /** Storing the next batch fills the first null slot. */
  lemma SlotsStore(found: seq<nat>, x: nat, n: nat)
    requires |found| < n
    ensures Slots(found, n)[|found| := Some(x)] == Slots(found + [x], n)
  {
    assert (found + [x])[..|found|] == found;
    var l, r := Slots(found, n)[|found| := Some(x)], Slots(found + [x], n);
    forall k | 0 <= k < n ensures l[k] == r[k] {
      SlotsAt(found, n, k);
      SlotsAt(found + [x], n, k);
    }
  }

  /** The array holds `found` from slot 0 on; the remaining slots are null. */
  ghost predicate Holds(a: array<Option<nat>>, found: seq<nat>)
    reads a
  {
    |found| <= a.Length && a[..] == Slots(found, a.Length)
  }

  /** The loop over one table's batches (lines 195-199). */
  method StoreTable(a: array<Option<nat>>, filled: nat, ghost found: seq<nat>, rows: seq<nat>)
    returns (next: nat, rowTotal: nat)
    requires Holds(a, found) && filled == |found| && filled + |rows| <= a.Length
    modifies a
    ensures Holds(a, found + rows) && next == filled + |rows|
    ensures rowTotal == Sum(rows)
  {
    next, rowTotal := filled, 0;
    assert found + rows[..0] == found;
    for i := 0 to |rows|
      invariant Holds(a, found + rows[..i]) && next == filled + i
      invariant rowTotal == Sum(rows[..i])
    {
      assert rows[..i + 1][..i] == rows[..i];
      assert found + rows[..i + 1] == (found + rows[..i]) + [rows[i]];
      rowTotal := rowTotal + rows[i];
      SlotsStore(found + rows[..i], rows[i], a.Length);
      a[next] := Some(rows[i]);
      next := next + 1;
    }
    assert rows[..|rows|] == rows;
  }

  lemma ReaderPrefixStep(status: seq<Entry>, j: nat, store: Store)
    requires j < |status|
    ensures SubListings(status[..j + 1])
            == SubListings(status[..j]) + (if status[j].Dir? then [Visible(status[j].children)] else [])
    ensures ReaderBatchesOf(FilesOf(status[..j + 1]), store)
            == ReaderBatchesOf(FilesOf(status[..j]), store) + FirstLineBatches(status[j], store)
  {
    var done := status[..j];
    assert status[..j + 1] == done + [status[j]];
    assert (done + [status[j]])[..j] == done;
    if status[j].File? {
      assert FilesOf(status[..j + 1]) == FilesOf(done) + [status[j]];
      ReaderBatchesAppend(FilesOf(done), [status[j]], store);
      assert [status[j]][..0] == [];
    } else {
      assert FilesOf(status[..j + 1]) == FilesOf(done);
    }
  }

  lemma ReaderPrefixFits(status: seq<Entry>, j: nat, store: Store)
    requires j < |status|
    ensures |ReaderBatchesOf(FilesOf(status[..j + 1]), store)| <= |ReaderBatchesOf(FilesOf(status), store)|
  {
    assert status == status[..j + 1] + status[j + 1..];
    FilesOfAppend(status[..j + 1], status[j + 1..]);
    ReaderBatchesAppend(FilesOf(status[..j + 1]), FilesOf(status[j + 1..]), store);
  }

  /** One pointer file (lines 178-210): after a positive read, the first line
      is resolved; both of its outcomes end the line loop with `break`, and a
      resolved table's batches are appended to the array. */
  method StoreFile(a: array<Option<nat>>, filled: nat, ghost found: seq<nat>, f: Entry, store: Store)
    returns (next: nat, ghost found': seq<nat>, rowTotal: nat)
    requires f.File? && Holds(a, found) && filled == |found|
    requires filled + |FirstLineBatches(f, store)| <= a.Length
    modifies a
    ensures found' == found + FirstLineBatches(f, store)
    ensures Holds(a, found') && next == |found'|
    ensures rowTotal == Sum(FirstLineBatches(f, store))
  {
    if f.readLen <= 0 || f.lines == [] {
      assert found + [] == found;
      return filled, found, 0;
    }
    var objectID := f.lines[0];
    if objectID in store {
      var rows := store[objectID];
      next, rowTotal := StoreTable(a, filled, found, rows);
      found' := found + rows;
    } else {
      assert found + [] == found;
      next, found', rowTotal := filled, found, 0;
    }
  }

  /** One entry of a listing (lines 173-210): a directory's filtered listing
      is returned for the queue, a pointer file is stored. */
  method StoreEntry(a: array<Option<nat>>, filled: nat, ghost found: seq<nat>, entry: Entry, store: Store)
    returns (more: seq<seq<Entry>>, next: nat, ghost found': seq<nat>, rowTotal: nat)
    requires Holds(a, found) && filled == |found|
    requires filled + |FirstLineBatches(entry, store)| <= a.Length
    modifies a
    ensures more == (if entry.Dir? then [Visible(entry.children)] else [])
    ensures found' == found + FirstLineBatches(entry, store)
    ensures Holds(a, found') && next == |found'|
    ensures rowTotal == Sum(FirstLineBatches(entry, store))
  {
    if entry.Dir? {
      assert found + [] == found;
      return [Visible(entry.children)], filled, found, 0;
    }
    more := [];
    next, found', rowTotal := StoreFile(a, filled, found, entry, store);
  }

  /** One listing polled from the queue (lines 172-212): directories are
      returned for the queue, and each pointer file is stored in turn. */
  method StoreListing(a: array<Option<nat>>, filled: nat, ghost found: seq<nat>, status: seq<Entry>, store: Store)
    returns (subdirs: seq<seq<Entry>>, next: nat, ghost found': seq<nat>, rowTotal: nat)
    requires Holds(a, found) && filled == |found|
    requires filled + |ReaderBatchesOf(FilesOf(status), store)| <= a.Length
    modifies a
    ensures subdirs == SubListings(status)
    ensures found' == found + ReaderBatchesOf(FilesOf(status), store)
    ensures Holds(a, found') && next == |found'|
    ensures rowTotal == Sum(ReaderBatchesOf(FilesOf(status), store))
  {
    subdirs, next, found', rowTotal := [], filled, found, 0;
    for j := 0 to |status|
      invariant subdirs == SubListings(status[..j])
      invariant found' == found + ReaderBatchesOf(FilesOf(status[..j]), store)
      invariant Holds(a, found') && next == |found'|
      invariant rowTotal == Sum(ReaderBatchesOf(FilesOf(status[..j]), store))
    {
      ReaderPrefixStep(status, j, store);
      ReaderPrefixFits(status, j, store);
      ghost var prev := ReaderBatchesOf(FilesOf(status[..j]), store);
      var more, added;
      more, next, found', added := StoreEntry(a, next, found', status[j], store);
      SumAppend(prev, FirstLineBatches(status[j], store));
      ConcatAssoc(found, prev, FirstLineBatches(status[j], store));
      subdirs, rowTotal := subdirs + more, rowTotal + added;
    }
    assert status[..|status|] == status;
  }

  // ---------------------------------------------------------------------------
  // The reader

  /** What `next` does: hand out a row, report the end, dereference a null
      slot of the batch array (a NullPointerException in the source), or start
      a stopwatch that is still running (Guava's `Stopwatch.start` then throws
      an IllegalStateException). */
  datatype NextResult = Row(row: RowRef) | End | NullBatch | WatchRunning

  class RecordReader {
    /** `batches`: a slot holds the row count of a stored batch, or null. */
    var batches: array<Option<nat>>
    var recordBatchIndex: int
    var recordBatchInnerIndex: int
    /** The row count of the batch loaded by `next`, or null before the first. */
    var batch: Option<nat>
    var recordTotal: int
    var recordConsumed: int
    /** Whether the stopwatch is running. `next` starts it on entry and stops
        it only after handing out a row; its readings are not modelled. */
    var watchRunning: bool

    /** The row counts of the stored batches, in discovery order. */
    ghost var counts: seq<nat>
    /** The rows handed out so far. */
    ghost var produced: seq<RowRef>

    ghost predicate CursorValid()
      reads this
    {
      match batch
      case None => recordBatchIndex == -1 && recordBatchInnerIndex == 0
      case Some(rows) =>
        0 <= recordBatchIndex < |counts| && rows == counts[recordBatchIndex] &&
        0 <= recordBatchInnerIndex <= rows
    }

    /** The rows `next` has yet to hand out. */
    ghost function Remaining(): seq<RowRef>
      reads this
      requires CursorValid()
    {
      if batch.None? then AllRows(counts)
      else RowsFrom(counts, recordBatchIndex, recordBatchInnerIndex)
    }

    ghost predicate Valid()
      reads this, batches
    {
      Holds(batches, counts) &&
      recordTotal == Sum(counts) &&
      CursorValid() &&
      produced + Remaining() == AllRows(counts) &&
      recordConsumed == |produced|
    }

    /** The state in which `next`, with the stopwatch stopped, returns false
        straight away. */
    predicate Exhausted()
      reads this
    {
      (batch.None? || recordBatchInnerIndex >= batch.value) && recordBatchIndex + 1 >= batches.Length
    }

    /** The constructor after its empty-listing check (lines 152-153, 163-216). */
    constructor (length: nat, tree: Entry, store: Store)
      requires |ReaderBatches(tree, store)| <= length
      ensures Valid() && fresh(batches)
      ensures batches.Length == length
      ensures counts == ReaderBatches(tree, store)
      ensures recordTotal == Sum(counts)
      ensures recordBatchIndex == -1 && recordBatchInnerIndex == 0 && batch == None
      ensures recordConsumed == 0 && produced == [] && !watchRunning
    {
      var a := new Option<nat>[length](_ => None);
      var dirStatus := [Listing(tree)];
      var filled, total := 0, 0;
      ghost var found: seq<nat> := [];
      while dirStatus != []
        invariant Holds(a, found) && filled == |found| && total == Sum(found)
        invariant found + ReaderBatchesOf(WalkFiles(dirStatus), store) == ReaderBatches(tree, store)
        decreases QueueSize(dirStatus)
      {
        WalkStep(dirStatus);
        var status := dirStatus[0];
        ghost var rest := dirStatus[1..] + SubListings(status);
        ReaderBatchesAppend(FilesOf(status), WalkFiles(rest), store);
        var subdirs, added;
        ghost var found';
        subdirs, filled, found', added := StoreListing(a, filled, found, status, store);
        SumAppend(found, ReaderBatchesOf(FilesOf(status), store));
        ConcatAssoc(found, ReaderBatchesOf(FilesOf(status), store), ReaderBatchesOf(WalkFiles(rest), store));
        dirStatus := dirStatus[1..] + subdirs;
        found, total := found', total + added;
      }
      batches := a;
      counts := found;
      recordTotal := total;
      recordBatchIndex := -1;
      recordBatchInnerIndex := 0;
      batch := None;
      recordConsumed := 0;
      produced := [];
      watchRunning := false;
    }

    /** `getPos`: the number of rows handed out, never above `recordTotal`. */
    function GetPos(): (pos: int)
      reads this, batches
      requires Valid()
      ensures pos == |produced|
      ensures 0 <= pos <= recordTotal
    {
      AllRowsCount(counts);
      recordConsumed
    }

    /** `getProgress` as the pair (rows handed out, rows in the split). */
    function GetProgress(): (progress: (int, int))
      reads this, batches
      requires Valid()
      ensures progress.0 == |produced| && progress.1 == Sum(counts)
      ensures 0 <= progress.0 <= progress.1
    {
      AllRowsCount(counts);
      (recordConsumed, recordTotal)
    }

    /** The loop of `next` (lines 249-260): load batches until one has a row
        left, reporting the end of the array or a null slot instead. */
    method LoadBatch() returns (stop: Option<NextResult>)
      requires Valid()
      modifies this
      ensures batches == old(batches) && counts == old(counts) && recordTotal == old(recordTotal)
      ensures produced == old(produced) && recordConsumed == old(recordConsumed)
      ensures stop.None? <==> old(Remaining()) != []
      ensures stop == Some(End) <==> old(Remaining()) == [] && |counts| == batches.Length
      ensures stop == Some(NullBatch) <==> old(Remaining()) == [] && |counts| < batches.Length
      ensures stop.None? ==> CursorValid() && batch.Some? && recordBatchInnerIndex < batch.value
      ensures stop != Some(NullBatch) ==> Valid() && Remaining() == old(Remaining())
      ensures stop == Some(End) ==> Exhausted()
      ensures stop == Some(NullBatch) ==> recordBatchIndex == |counts|
      ensures old(Exhausted()) ==> stop == Some(End)
      ensures old(Exhausted()) ==> batch == old(batch) && recordBatchIndex == old(recordBatchIndex)
      ensures old(Exhausted()) ==> recordBatchInnerIndex == old(recordBatchInnerIndex)
    {
      ghost var rows, exhausted := Remaining(), Exhausted();
      ghost var b0, i0, j0 := batch, recordBatchIndex, recordBatchInnerIndex;
      while batch.None? || recordBatchInnerIndex >= batch.value
        invariant batches == old(batches) && counts == old(counts) && recordTotal == old(recordTotal)
        invariant produced == old(produced) && recordConsumed == old(recordConsumed)
        invariant CursorValid() && Remaining() == rows
        invariant exhausted ==> batch == b0 && recordBatchIndex == i0 && recordBatchInnerIndex == j0
        decreases batches.Length - recordBatchIndex
      {
        BatchDone(counts, batch, recordBatchIndex, recordBatchInnerIndex);
        if recordBatchIndex + 1 >= batches.Length {
          return Some(End);
        }
        recordBatchIndex := recordBatchIndex + 1;
        // The second bound check of the source cannot fail after the first.
        var slot := batches[recordBatchIndex];
        SlotsAt(counts, batches.Length, recordBatchIndex);
        if slot.None? {
          return Some(NullBatch);
        }
        batch := slot;
        recordBatchInnerIndex := 0;
      }
      return None;
    }

    /** The body of `next` after the stopwatch is started (lines 248-269):
        the rows come out in the order of `AllRows`, one per call, until the
        end; a null slot met before the end is a failure. Whatever the
        outcome, a call that hands out no row leaves the rows handed out as
        they were: all of them. On a null slot the cursor has already moved
        onto it, because the index is advanced before the slot is
        dereferenced. */
    method Advance() returns (r: NextResult)
      requires Valid()
      modifies this
      ensures batches == old(batches) && counts == old(counts) && recordTotal == old(recordTotal)
      ensures !r.WatchRunning?
      ensures r.Row? <==> old(Remaining()) != []
      ensures r.End? <==> old(Remaining()) == [] && |counts| == batches.Length
      ensures r.NullBatch? <==> old(Remaining()) == [] && |counts| < batches.Length
      ensures r.Row? ==> Valid() && r.row == old(Remaining())[0] && Remaining() == old(Remaining())[1..]
      ensures r.Row? ==> produced == old(produced) + [r.row] && recordConsumed == old(recordConsumed) + 1
      ensures !r.Row? ==> produced == old(produced) == AllRows(counts) && recordConsumed == old(recordConsumed)
      ensures r.End? ==> Valid() && Exhausted() && Remaining() == []
      ensures r.NullBatch? ==> recordBatchIndex == |counts|
      ensures old(Exhausted()) ==> r.End?
      ensures old(Exhausted()) ==> batch == old(batch) && recordBatchIndex == old(recordBatchIndex)
      ensures old(Exhausted()) ==> recordBatchInnerIndex == old(recordBatchInnerIndex)
    {
      ghost var done, rows := produced, Remaining();
      var stop := LoadBatch();
      if stop.Some? {
        assert rows == [] && done + [] == done;
        return stop.value;
      }
      TakeRow(counts, produced, recordBatchIndex, recordBatchInnerIndex);
      r := Row(RowRef(recordBatchIndex, recordBatchInnerIndex));
      recordBatchInnerIndex := recordBatchInnerIndex + 1;
      recordConsumed := recordConsumed + 1;
      produced := produced + [r.row];
    }

    /** `next` (lines 246-270). The stopwatch started on entry is stopped only
        on the path that hands out a row; the `return false` of the loop and
        the null-slot dereference leave it running, so the call after either
        of them fails at `watch.start()` and changes nothing. */
    method Next() returns (r: NextResult)
      requires watchRunning || Valid()
      modifies this
      ensures old(watchRunning) ==> r == WatchRunning && unchanged(this)
      ensures watchRunning <==> !r.Row?
      ensures batches == old(batches) && counts == old(counts) && recordTotal == old(recordTotal)
      ensures r.Row? <==> !old(watchRunning) && old(Remaining()) != []
      ensures r.End? <==> !old(watchRunning) && old(Remaining()) == [] && |counts| == batches.Length
      ensures r.NullBatch? <==> !old(watchRunning) && old(Remaining()) == [] && |counts| < batches.Length
      ensures r.Row? ==> Valid() && r.row == old(Remaining())[0] && Remaining() == old(Remaining())[1..]
      ensures r.Row? ==> produced == old(produced) + [r.row] && recordConsumed == old(recordConsumed) + 1
      ensures !r.Row? ==> produced == old(produced) && recordConsumed == old(recordConsumed)
      ensures r.End? || r.NullBatch? ==> produced == AllRows(counts)
      ensures r.End? ==> Valid() && Exhausted() && Remaining() == []
      ensures r.NullBatch? ==> recordBatchIndex == |counts|
      ensures !old(watchRunning) && old(Exhausted()) ==> r.End?
      ensures !old(watchRunning) && old(Exhausted()) ==> batch == old(batch) && recordBatchIndex == old(recordBatchIndex)
      ensures !old(watchRunning) && old(Exhausted()) ==> recordBatchInnerIndex == old(recordBatchInnerIndex)
    {
      if watchRunning {
        return WatchRunning;
      }
      r := Advance();
      watchRunning := !r.Row?;
    }
  }

  /** Java's `(int)` cast of a `long`: the low 32 bits, read in two's complement. */
  function ToInt(x: int): (r: int)
    ensures -0x8000_0000 <= r < 0x8000_0000
    ensures (x - r) % 0x1_0000_0000 == 0
    ensures -0x8000_0000 <= x < 0x8000_0000 ==> r == x
  {
    var m := x % 0x1_0000_0000;
    if m < 0x8000_0000 then m else m - 0x1_0000_0000
  }

  /** The ways constructing a reader ends. */
  datatype OpenResult =
    | NegativeArraySize(size: int)
    | TableNotFound(table: string)
    | BatchOverflow
    | Opened(reader: RecordReader)

  /** Constructing a reader for a split (lines 151-217): the batch array is
      sized by the split's length cast to `int` (a negative size is refused),
      the unfiltered root listing must not be empty, and a walk that finds
      more batches than the array has slots fails on the first store past the
      end. Otherwise the constructor runs to completion. */
  method Open(split: Split, tree: Entry, store: Store) returns (r: OpenResult)
    ensures r.NegativeArraySize? <==> ToInt(split.length) < 0
    ensures r.NegativeArraySize? ==> r.size == ToInt(split.length)
    ensures r.TableNotFound? <==> 0 <= ToInt(split.length) && Listing(tree) == []
    ensures r.TableNotFound? ==> r.table == split.path
    ensures r.BatchOverflow? <==>
              0 <= ToInt(split.length) && Listing(tree) != [] && |ReaderBatches(tree, store)| > ToInt(split.length)
    ensures r.Opened? ==> fresh(r.reader) && fresh(r.reader.batches) && r.reader.Valid()
    ensures r.Opened? ==> r.reader.batches.Length == ToInt(split.length) && r.reader.counts == ReaderBatches(tree, store)
    ensures r.Opened? ==> r.reader.produced == [] && r.reader.Remaining() == AllRows(r.reader.counts)
    ensures r.Opened? ==> !r.reader.watchRunning && r.reader.recordConsumed == 0
    ensures r.Opened? ==> r.reader.recordBatchIndex == -1 && r.reader.recordBatchInnerIndex == 0 && r.reader.batch.None?
  {
    var length := ToInt(split.length);
    if length < 0 {
      return NegativeArraySize(length);
    }
    if |Listing(tree)| == 0 {
      return TableNotFound(split.path);
    }
    if |ReaderBatches(tree, store)| > length {
      return BatchOverflow;
    }
    var reader := new RecordReader(length, tree, store);
    return Opened(reader);
  }
}
