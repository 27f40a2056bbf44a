/**
 * Split planning (`VineyardInputFormat.getSplits`): for every input path, walk
 * its directory tree, read each pointer file, resolve its object ids in the
 * object store and count the record batches of the resolved tables; one split
 * `(path, 0, count)` is emitted for every path whose count is positive.
 */
module SplitPlanner {
  import opened Discovery

  /** An input path together with the tree found at it. */
  datatype Root = Root(path: string, tree: Entry)

  /** `VineyardSplit(path, start, length)`: `length` holds a batch count. */
  datatype Split = Split(path: string, start: int, length: int)

  // ---------------------------------------------------------------------------
  // One pointer file

  /** What the line loop of one pointer file yields: the batches it adds and
      whether it stopped at a line that did not resolve. */
  datatype LineScan = LineScan(batches: nat, failed: bool)

  /** The planner's loop over the lines of a pointer file: every resolved line
      adds its table's batch count; the first line that fails ends the file. */
  function ScanLines(lines: seq<string>, store: Store): LineScan {
    if lines == [] then LineScan(0, false)
    else if lines[0] !in store then LineScan(0, true)
    else
      var rest := ScanLines(lines[1..], store);
      LineScan(|store[lines[0]]| + rest.batches, rest.failed)
  }

  /** Reference: the batch count of every line that resolves, ignoring failures. */
  function LineSum(lines: seq<string>, store: Store): nat {
    if lines == [] then 0
    else LineSum(lines[..|lines| - 1], store)
         + (if lines[|lines| - 1] in store then |store[lines[|lines| - 1]]| else 0)
  }

  /** Reference: the index of the first line that does not resolve, or the
      number of lines when all of them resolve. */
  function FirstUnresolved(lines: seq<string>, store: Store): (k: nat)
    ensures k <= |lines|
    ensures forall m :: 0 <= m < k ==> lines[m] in store
    ensures k < |lines| ==> lines[k] !in store
  {
    if lines == [] || lines[0] !in store then 0
    else 1 + FirstUnresolved(lines[1..], store)
  }

  lemma {:induction false} LineSumPrepend(line: string, lines: seq<string>, store: Store)
    ensures LineSum([line] + lines, store)
            == (if line in store then |store[line]| else 0) + LineSum(lines, store)
    decreases |lines|
  {
    if lines == [] {
      assert [line] + lines == [line];
      assert [line][..0] == [];
    } else {
      var init := lines[..|lines| - 1];
      assert ([line] + lines)[..|lines|] == [line] + init;
      LineSumPrepend(line, init, store);
    }
  }

  /** The line loop adds exactly the batches of the lines before the first
      unresolvable one, and it reports a failure exactly when some line does
      not resolve. */
  lemma {:induction false} ScanStopsAtFirstFailure(lines: seq<string>, store: Store)
    ensures ScanLines(lines, store).batches == LineSum(lines[..FirstUnresolved(lines, store)], store)
    ensures ScanLines(lines, store).failed <==> exists k :: 0 <= k < |lines| && lines[k] !in store
  {
    if lines != [] && lines[0] in store {
      var rest := lines[1..];
      ScanStopsAtFirstFailure(rest, store);
      var k := FirstUnresolved(rest, store);
      assert lines[..k + 1] == [lines[0]] + rest[..k];
      LineSumPrepend(lines[0], rest[..k], store);
      if exists k :: 0 <= k < |rest| && rest[k] !in store {
        var m :| 0 <= m < |rest| && rest[m] !in store;
        assert lines[m + 1] !in store;
      }
      if exists k :: 0 <= k < |lines| && lines[k] !in store {
        var m :| 0 <= m < |lines| && lines[m] !in store;
        assert rest[m - 1] !in store;
      }
    }
  }

  /** Batches a pointer file adds: none when the read returned zero or less. */
  function FileBatches(f: Entry, store: Store): nat {
    if !f.File? || f.readLen <= 0 then 0 else ScanLines(f.lines, store).batches
  }

  /** The diagnostic a pointer file logs: its name, once, when a line fails. */
  function FileDiagnostics(f: Entry, store: Store): seq<string> {
    if f.File? && f.readLen > 0 && ScanLines(f.lines, store).failed then [f.name] else []
  }

  /** The loop body for one pointer file (lines 96-124). */
  method ScanPointerFile(f: Entry, store: Store) returns (numBatches: nat, diagnostics: seq<string>)
    requires f.File?
    ensures f.readLen <= 0 ==> numBatches == 0 && diagnostics == []
    ensures f.readLen > 0 ==> numBatches == LineSum(f.lines[..FirstUnresolved(f.lines, store)], store)
    ensures diagnostics == [f.name] <==> f.readLen > 0 && exists k :: 0 <= k < |f.lines| && f.lines[k] !in store
    ensures |diagnostics| <= 1
    ensures numBatches == FileBatches(f, store)
    ensures diagnostics == FileDiagnostics(f, store)
  {
    ScanStopsAtFirstFailure(f.lines, store);
    numBatches, diagnostics := 0, [];
    if f.readLen <= 0 {
      return;
    }
    var objectIDs := f.lines;
    var i := 0;
    while i < |objectIDs|
      invariant 0 <= i <= |objectIDs|
      invariant numBatches + ScanLines(objectIDs[i..], store).batches == ScanLines(objectIDs, store).batches
      invariant ScanLines(objectIDs[i..], store).failed == ScanLines(objectIDs, store).failed
      invariant diagnostics == []
    {
      var objectID := objectIDs[i];
      assert objectIDs[i..][1..] == objectIDs[i + 1..];
      if objectID !in store {
        diagnostics := [f.name];
        return;
      }
      numBatches := numBatches + |store[objectID]|;
      i := i + 1;
    }
  }

  // ---------------------------------------------------------------------------
  // All pointer files of one path

  /** Total batches of a sequence of pointer files. */
  function WalkBatches(files: seq<Entry>, store: Store): nat {
    if files == [] then 0
    else WalkBatches(files[..|files| - 1], store) + FileBatches(files[|files| - 1], store)
  }

  /** Diagnostics of a sequence of pointer files, in order. */
  function WalkDiagnostics(files: seq<Entry>, store: Store): seq<string> {
    if files == [] then []
    else WalkDiagnostics(files[..|files| - 1], store) + FileDiagnostics(files[|files| - 1], store)
  }

  lemma {:induction false} WalkAppend(a: seq<Entry>, b: seq<Entry>, store: Store)
    ensures WalkBatches(a + b, store) == WalkBatches(a, store) + WalkBatches(b, store)
    ensures WalkDiagnostics(a + b, store) == WalkDiagnostics(a, store) + WalkDiagnostics(b, store)
    decreases |b|
  {
    if b == [] {
      assert a + b == a;
    } else {
      var b' := b[..|b| - 1];
      assert (a + b)[..|a + b| - 1] == a + b';
      assert (a + b)[|a + b| - 1] == b[|b| - 1];
      WalkAppend(a, b', store);
    }
  }

  /** The batch count of a set of pointer files does not depend on the order
      in which they are visited. */
  lemma {:induction false} WalkBatchesPermutation(a: seq<Entry>, b: seq<Entry>, store: Store)
    requires multiset(a) == multiset(b)
    ensures WalkBatches(a, store) == WalkBatches(b, store)
    decreases |a|
  {
    if a == [] {
      assert |b| == |multiset(b)| == 0;
    } else {
      var init, last := a[..|a| - 1], a[|a| - 1];
      assert last in multiset(b) by {
        assert a == init + [last];
      }
      var k :| 0 <= k < |b| && b[k] == last;
      var rest := b[..k] + b[k + 1..];
      MultisetRemoveMatched(a, b, k);
      WalkBatchesPermutation(init, rest, store);
      assert WalkBatches(b, store) == WalkBatches(rest, store) + FileBatches(last, store) by {
        assert b == b[..k] + [last] + b[k + 1..];
        WalkAppend(b[..k] + [last], b[k + 1..], store);
        WalkAppend(b[..k], [last], store);
        WalkAppend(b[..k], b[k + 1..], store);
        assert [last][..0] == [];
      }
    }
  }

  /** The count of one path, as the planner computes it: nothing when the
      filtered root listing is empty, otherwise the walk's total. */
  function RootBatches(r: Root, store: Store): nat {
    var tableStatus := Visible(Listing(r.tree));
    if tableStatus == [] then 0 else WalkBatches(WalkFrom(tableStatus), store)
  }

  function RootDiagnostics(r: Root, store: Store): seq<string> {
    var tableStatus := Visible(Listing(r.tree));
    if tableStatus == [] then [] else WalkDiagnostics(WalkFrom(tableStatus), store)
  }

  /** The count of a path equals the total over its files in depth-first
      order: it does not depend on how the pointer files are nested. */
  lemma RootBatchesIgnoresNesting(r: Root, store: Store)
    ensures RootBatches(r, store) == WalkBatches(ListTreeFiles(Visible(Listing(r.tree))), store)
  {
    var tableStatus := Visible(Listing(r.tree));
    if tableStatus != [] {
      WalkFromIsPermutationOfTree(tableStatus);
      WalkBatchesPermutation(WalkFrom(tableStatus), ListTreeFiles(tableStatus), store);
    }
  }

  /** Extending the processed prefix of a listing by one entry: a directory
      enqueues its filtered listing, a file adds its batches and diagnostics. */
  lemma ListingPrefixStep(status: seq<Entry>, j: nat, store: Store)
    requires j < |status|
    ensures SubListings(status[..j + 1])
            == SubListings(status[..j]) + (if status[j].Dir? then [Visible(status[j].children)] else [])
    ensures WalkBatches(FilesOf(status[..j + 1]), store)
            == WalkBatches(FilesOf(status[..j]), store) + (if status[j].File? then FileBatches(status[j], store) else 0)
    ensures WalkDiagnostics(FilesOf(status[..j + 1]), store)
            == WalkDiagnostics(FilesOf(status[..j]), store) + (if status[j].File? then FileDiagnostics(status[j], store) else [])
  {
    var done := status[..j];
    assert status[..j + 1] == done + [status[j]];
    assert (done + [status[j]])[..j] == done;
    if status[j].File? {
      assert FilesOf(status[..j + 1]) == FilesOf(done) + [status[j]];
      WalkAppend(FilesOf(done), [status[j]], store);
      assert [status[j]][..0] == [];
    } else {
      assert FilesOf(status[..j + 1]) == FilesOf(done);
    }
  }

  /** One listing polled from the queue (lines 88-125): its directories'
      filtered listings are returned for the queue, its files are read. */
  method ScanListing(status: seq<Entry>, store: Store)
    returns (subdirs: seq<seq<Entry>>, numBatches: nat, diagnostics: seq<string>)
    ensures subdirs == SubListings(status)
    ensures numBatches == WalkBatches(FilesOf(status), store)
    ensures diagnostics == WalkDiagnostics(FilesOf(status), store)
  {
    subdirs, numBatches, diagnostics := [], 0, [];
    for j := 0 to |status|
      invariant subdirs == SubListings(status[..j])
      invariant numBatches == WalkBatches(FilesOf(status[..j]), store)
      invariant diagnostics == WalkDiagnostics(FilesOf(status[..j]), store)
    {
      ListingPrefixStep(status, j, store);
      if status[j].Dir? {
        subdirs := subdirs + [Visible(status[j].children)];
        continue;
      }
      var n, d := ScanPointerFile(status[j], store);
      numBatches := numBatches + n;
      diagnostics := diagnostics + d;
    }
    assert status[..|status|] == status;
  }

  /** The queue walk over one path's tree (lines 81-126). */
  method CountTableBatches(tableStatus: seq<Entry>, store: Store)
    returns (numBatches: nat, diagnostics: seq<string>)
    ensures numBatches == WalkBatches(WalkFrom(tableStatus), store)
    ensures diagnostics == WalkDiagnostics(WalkFrom(tableStatus), store)
  {
    var dirStatus := [tableStatus];
    numBatches, diagnostics := 0, [];
    while dirStatus != []
      invariant numBatches + WalkBatches(WalkFiles(dirStatus), store) == WalkBatches(WalkFrom(tableStatus), store)
      invariant diagnostics + WalkDiagnostics(WalkFiles(dirStatus), store) == WalkDiagnostics(WalkFrom(tableStatus), store)
      decreases QueueSize(dirStatus)
    {
      WalkStep(dirStatus);
      var status := dirStatus[0];
      var subdirs, n, d := ScanListing(status, store);
      WalkAppend(FilesOf(status), WalkFiles(dirStatus[1..] + subdirs), store);
      ConcatAssoc(diagnostics, d, WalkDiagnostics(WalkFiles(dirStatus[1..] + subdirs), store));
      dirStatus := dirStatus[1..] + subdirs;
      numBatches := numBatches + n;
      diagnostics := diagnostics + d;
    }
  }

  // ---------------------------------------------------------------------------
  // All input paths

  /** The split a path contributes: one, when its count is positive. */
  function RootSplits(r: Root, store: Store): seq<Split> {
    var n := RootBatches(r, store);
    if n > 0 then [Split(r.path, 0, n)] else []
  }

  function PlanSplits(roots: seq<Root>, store: Store): seq<Split> {
    if roots == [] then []
    else PlanSplits(roots[..|roots| - 1], store) + RootSplits(roots[|roots| - 1], store)
  }

  function PlanDiagnostics(roots: seq<Root>, store: Store): seq<string> {
    if roots == [] then []
    else PlanDiagnostics(roots[..|roots| - 1], store) + RootDiagnostics(roots[|roots| - 1], store)
  }

  lemma PlanPrefixStep(roots: seq<Root>, i: nat, store: Store)
    requires i < |roots|
    ensures PlanSplits(roots[..i + 1], store) == PlanSplits(roots[..i], store) + RootSplits(roots[i], store)
    ensures PlanDiagnostics(roots[..i + 1], store) == PlanDiagnostics(roots[..i], store) + RootDiagnostics(roots[i], store)
  {
    assert roots[..i + 1][..i] == roots[..i];
  }

  /** `getSplits` (lines 62-133). */
  method GetSplits(roots: seq<Root>, store: Store) returns (splits: seq<Split>, diagnostics: seq<string>)
    ensures splits == PlanSplits(roots, store)
    ensures diagnostics == PlanDiagnostics(roots, store)
  {
    splits, diagnostics := [], [];
    for i := 0 to |roots|
      invariant splits == PlanSplits(roots[..i], store)
      invariant diagnostics == PlanDiagnostics(roots[..i], store)
    {
      PlanPrefixStep(roots, i, store);
      var path := roots[i];
      var tableStatus := Visible(Listing(path.tree));
      if |tableStatus| == 0 {
        assert splits + [] == splits && diagnostics + [] == diagnostics;
        continue;
      }
      var numBatches, diags := CountTableBatches(tableStatus, store);
      diagnostics := diagnostics + diags;
      if numBatches > 0 {
        splits := splits + [Split(path.path, 0, numBatches)];
      } else {
        assert splits + [] == splits;
      }
    }
    assert roots[..|roots|] == roots;
  }

  /** The batch count of every path, in path order. */
  function Counts(roots: seq<Root>, store: Store): (c: seq<nat>)
    ensures |c| == |roots|
    ensures forall i :: 0 <= i < |roots| ==> c[i] == RootBatches(roots[i], store)
  {
    if roots == [] then []
    else Counts(roots[..|roots| - 1], store) + [RootBatches(roots[|roots| - 1], store)]
  }

  /** The indices of the positive entries of `c`, in increasing order. */
  function Positives(c: seq<nat>): (ix: seq<nat>)
    ensures |ix| <= |c|
    ensures forall k :: 0 <= k < |ix| ==> ix[k] < |c|
  {
    if c == [] then []
    else Positives(c[..|c| - 1]) + (if c[|c| - 1] > 0 then [|c| - 1] else [])
  }

  /** The positive entries are listed in increasing order... */
  lemma {:induction false} PositivesSorted(c: seq<nat>)
    ensures forall k, m :: 0 <= k < m < |Positives(c)| ==> Positives(c)[k] < Positives(c)[m]
  {
    if c != [] {
      var n := |c|;
      PositivesSorted(c[..n - 1]);
      var O, Oi := Positives(c), Positives(c[..n - 1]);
      assert O == Oi + (if c[n - 1] > 0 then [n - 1] else []);
      forall k, m | 0 <= k < m < |O| ensures O[k] < O[m] {
        assert O[k] == Oi[k];
        if m < |Oi| {
          assert O[m] == Oi[m];
        }
      }
    }
  }

  /** ...and they are exactly the positive ones. */
  lemma {:induction false} PositivesExact(c: seq<nat>)
    ensures forall i :: 0 <= i < |c| ==> (i in Positives(c) <==> c[i] > 0)
  {
    if c != [] {
      var n := |c|;
      var init := c[..n - 1];
      PositivesExact(init);
      var O, Oi := Positives(c), Positives(init);
      assert O == Oi + (if c[n - 1] > 0 then [n - 1] else []);
      forall i | 0 <= i < n
        ensures i in O <==> c[i] > 0
      {
        if i < n - 1 {
          assert c[i] == init[i];
          assert i in O <==> i in Oi;
        } else {
          assert i !in Oi;
        }
      }
    }
  }

  /** The indices of the paths that emit a split. */
  function SplitOrigins(roots: seq<Root>, store: Store): seq<nat> {
    Positives(Counts(roots, store))
  }

  /** The splits emitted for paths with the given counts. */
  function Emitted(roots: seq<Root>, c: seq<nat>): seq<Split>
    requires |c| == |roots|
  {
    if roots == [] then []
    else Emitted(roots[..|roots| - 1], c[..|c| - 1])
         + (if c[|c| - 1] > 0 then [Split(roots[|roots| - 1].path, 0, c[|c| - 1])] else [])
  }

  lemma {:induction false} PlanIsEmitted(roots: seq<Root>, store: Store)
    ensures PlanSplits(roots, store) == Emitted(roots, Counts(roots, store))
  {
    if roots != [] {
      var init := roots[..|roots| - 1];
      PlanIsEmitted(init, store);
      var c := Counts(roots, store);
      assert c[..|c| - 1] == Counts(init, store);
    }
  }

  lemma {:induction false} EmittedFollowsPositives(roots: seq<Root>, c: seq<nat>)
    requires |c| == |roots|
    ensures |Emitted(roots, c)| == |Positives(c)|
    ensures forall k :: 0 <= k < |Positives(c)| ==>
              Emitted(roots, c)[k] == Split(roots[Positives(c)[k]].path, 0, c[Positives(c)[k]])
  {
    if roots != [] {
      var n := |roots|;
      var init, ci := roots[..n - 1], c[..n - 1];
      EmittedFollowsPositives(init, ci);
      var P, O := Emitted(roots, c), Positives(c);
      var Pi, Oi := Emitted(init, ci), Positives(ci);
      assert P == Pi + (if c[n - 1] > 0 then [Split(roots[n - 1].path, 0, c[n - 1])] else []);
      assert O == Oi + (if c[n - 1] > 0 then [n - 1] else []);
      forall k | 0 <= k < |O|
        ensures P[k] == Split(roots[O[k]].path, 0, c[O[k]])
      {
        if k < |Oi| {
          assert O[k] == Oi[k] && P[k] == Pi[k];
          assert roots[Oi[k]] == init[Oi[k]] && c[Oi[k]] == ci[Oi[k]];
        }
      }
    }
  }

  /** At most one split per path, in path order: the k-th split starts at 0,
      names the k-th path with a positive count and carries that count. */
  lemma SplitsFollowRoots(roots: seq<Root>, store: Store)
    ensures |PlanSplits(roots, store)| == |SplitOrigins(roots, store)|
    ensures forall k :: 0 <= k < |SplitOrigins(roots, store)| ==>
              var i := SplitOrigins(roots, store)[k];
              PlanSplits(roots, store)[k] == Split(roots[i].path, 0, RootBatches(roots[i], store))
  {
    PlanIsEmitted(roots, store);
    EmittedFollowsPositives(roots, Counts(roots, store));
  }

  /** The paths that emit a split are those with a positive count, in path order. */
  lemma SplitOriginsExact(roots: seq<Root>, store: Store)
    ensures forall k, m :: 0 <= k < m < |SplitOrigins(roots, store)| ==>
              SplitOrigins(roots, store)[k] < SplitOrigins(roots, store)[m]
    ensures forall i :: 0 <= i < |roots| ==> (i in SplitOrigins(roots, store) <==> RootBatches(roots[i], store) > 0)
  {
    PositivesSorted(Counts(roots, store));
    PositivesExact(Counts(roots, store));
  }
}
