/**
 * How the two phases agree: the planner sizes a split by counting batches over
 * every line of every pointer file below the filtered root listing, while the
 * reader stores the batches of the first line of each pointer file below the
 * unfiltered root listing into an array of that size.
 */
module Phases {
  import opened Discovery
  import opened SplitPlanner
  import opened Reader

  /** No entry of a listing is hidden. */
  predicate NoneHidden(l: seq<Entry>) {
    forall k :: 0 <= k < |l| ==> !Hidden(l[k].name)
  }

  /** A listing that holds only files. */
  predicate FilesOnly(l: seq<Entry>) {
    forall k :: 0 <= k < |l| ==> l[k].File?
  }

  /** Every pointer file of a walk holds at most one line. */
  predicate SingleLineFiles(files: seq<Entry>) {
    forall k :: 0 <= k < |files| ==> files[k].File? ==> |files[k].lines| <= 1
  }

  /** A pointer file read with a positive length whose first line resolves
      and for which the planner counts batches after the first line (from the
      lines before the first one that does not resolve): the reader, which
      stops after the first line, misses those batches. */
  predicate LaterLinesCount(f: Entry, store: Store) {
    f.File? && f.readLen > 0 && f.lines != [] && f.lines[0] in store &&
    ScanLines(f.lines[1..], store).batches > 0
  }

  lemma {:induction false} VisibleKeepsUnhidden(l: seq<Entry>)
    requires NoneHidden(l)
    ensures Visible(l) == l
  {
    if l != [] {
      VisibleKeepsUnhidden(l[..|l| - 1]);
      assert l == l[..|l| - 1] + [l[|l| - 1]];
    }
  }

  /** The reader takes no more batches from a pointer file than the planner
      counts for it, exactly as many when the file has at most one line, and
      fewer exactly when the planner counts batches after the first line. */
  lemma FirstLineWithinFile(f: Entry, store: Store)
    ensures |FirstLineBatches(f, store)| <= FileBatches(f, store)
    ensures (!f.File? || |f.lines| <= 1) ==> |FirstLineBatches(f, store)| == FileBatches(f, store)
    ensures LaterLinesCount(f, store) <==> |FirstLineBatches(f, store)| < FileBatches(f, store)
  {
    if f.File? && f.readLen > 0 && f.lines != [] && f.lines[0] in store {
      assert ScanLines(f.lines, store).batches
             == |store[f.lines[0]]| + ScanLines(f.lines[1..], store).batches;
    }
  }

  /** Over a sequence of pointer files, the reader's batches number at most the
      planner's count, and exactly that when every file has at most one line. */
  lemma {:induction false} ReaderCountBound(files: seq<Entry>, store: Store)
    ensures |ReaderBatchesOf(files, store)| <= WalkBatches(files, store)
    ensures SingleLineFiles(files) ==> |ReaderBatchesOf(files, store)| == WalkBatches(files, store)
  {
    if files != [] {
      var init, last := files[..|files| - 1], files[|files| - 1];
      ReaderCountBound(init, store);
      FirstLineWithinFile(last, store);
      if SingleLineFiles(files) {
        assert SingleLineFiles(init) by {
          forall k | 0 <= k < |init| ensures init[k].File? ==> |init[k].lines| <= 1 {
            assert init[k] == files[k];
          }
        }
      }
    }
  }

  /** Over a sequence of pointer files, the reader's batches fall short of the
      planner's count exactly when the planner counts batches after the first
      line of some file. */
  lemma {:induction false} ReaderCountShort(files: seq<Entry>, store: Store)
    ensures (exists k :: 0 <= k < |files| && LaterLinesCount(files[k], store)) <==>
              |ReaderBatchesOf(files, store)| < WalkBatches(files, store)
  {
    if files != [] {
      var init, last := files[..|files| - 1], files[|files| - 1];
      ReaderCountBound(init, store);
      ReaderCountShort(init, store);
      FirstLineWithinFile(last, store);
      assert |ReaderBatchesOf(files, store)| == |ReaderBatchesOf(init, store)| + |FirstLineBatches(last, store)|;
      assert WalkBatches(files, store) == WalkBatches(init, store) + FileBatches(last, store);
      if k :| 0 <= k < |files| && LaterLinesCount(files[k], store) {
        if k < |init| {
          assert init[k] == files[k];
        }
      }
      if |ReaderBatchesOf(init, store)| < WalkBatches(init, store) {
        var k :| 0 <= k < |init| && LaterLinesCount(init[k], store);
        assert files[k] == init[k];
      } else if |FirstLineBatches(last, store)| < FileBatches(last, store) {
        assert files[|files| - 1] == last;
      }
    }
  }

  /** When no entry of the root listing is hidden, a reader opened on the
      split planned for a path never needs more slots than the split's length:
      both phases walk the same files. It fills every slot when every pointer
      file has at most one line, and leaves a null slot exactly when the
      planner counts batches after the first line of some pointer file. */
  lemma ReaderWithinSplit(r: Root, store: Store)
    requires NoneHidden(Listing(r.tree))
    ensures |ReaderBatches(r.tree, store)| <= RootBatches(r, store)
    ensures SingleLineFiles(WalkFrom(Listing(r.tree))) ==>
              |ReaderBatches(r.tree, store)| == RootBatches(r, store)
    ensures (exists k :: 0 <= k < |WalkFrom(Listing(r.tree))| && LaterLinesCount(WalkFrom(Listing(r.tree))[k], store)) <==>
              |ReaderBatches(r.tree, store)| < RootBatches(r, store)
  {
    VisibleKeepsUnhidden(Listing(r.tree));
    ReaderCountBound(WalkFrom(Listing(r.tree)), store);
    ReaderCountShort(WalkFrom(Listing(r.tree)), store);
    if Listing(r.tree) == [] {
      WalkStep([[]]);
      assert WalkFiles([[]] [1..] + SubListings([])) == [];
    }
  }

  /** A listing without directories is walked as it is. */
  lemma {:induction false} FlatListing(l: seq<Entry>)
    requires FilesOnly(l)
    ensures FilesOf(l) == l && SubListings(l) == []
  {
    if l != [] {
      FlatListing(l[..|l| - 1]);
      assert l == l[..|l| - 1] + [l[|l| - 1]];
    }
  }

  lemma FlatWalk(l: seq<Entry>)
    requires FilesOnly(l)
    ensures WalkFrom(l) == l
  {
    FlatListing(l);
    WalkStep([l]);
    assert [l][1..] + SubListings(l) == [];
  }

  /** An instance of `ReaderWithinSplit`'s strict case: a pointer file whose
      two lines resolve to tables with one batch each. The planner counts both
      tables' batches, the reader stores only the first table's, so the batch
      array keeps a null slot that `next` reaches after the last row. */
  lemma MultiLineFileLeavesNullSlot()
    ensures var r := Root("t", Dir("t", [File("p", 1, ["a", "b"])]));
            var store := map["a" := [3], "b" := [5]];
            RootBatches(r, store) == 2 && ReaderBatches(r.tree, store) == [3]
  {
    var f := File("p", 1, ["a", "b"]);
    var store := map["a" := [3], "b" := [5]];
    assert [f][..0] == [];
    assert Visible([f]) == [f];
    FlatWalk([f]);
    assert ScanLines(["b"], store).batches == 1 by {
      assert ["b"][1..] == [];
    }
    assert ScanLines(["a", "b"], store).batches == 2 by {
      assert ["a", "b"][1..] == ["b"];
    }
    assert ReaderBatchesOf([f], store) == [] + [3];
    assert WalkBatches([f], store) == 2;
  }

  /** The planner's count for the path of `HiddenRootFileOverflows`. */
  lemma HiddenRootPlanned(p: Entry, q: Entry, store: Store)
    requires p == File("p", 1, ["a"]) && q == File("_q", 1, ["b"])
    requires store == map["a" := [3], "b" := [5]]
    ensures RootBatches(Root("t", Dir("t", [p, q])), store) == 1
  {
    assert [p, q][..1] == [p] && [p][..0] == [];
    assert Visible([p, q]) == [p] by {
      assert q.name[0] == '_' && p.name[0] == 'p';
      assert Visible([p]) == [p];
    }
    FlatWalk([p]);
    assert ScanLines(["a"], store).batches == 1 by {
      assert ["a"][1..] == [];
    }
    assert FileBatches(p, store) == 1;
    assert WalkBatches([p], store) == 1;
    assert Listing(Dir("t", [p, q])) == [p, q];
  }

  /** The reader's batches for the path of `HiddenRootFileOverflows`. */
  lemma HiddenRootRead(p: Entry, q: Entry, store: Store)
    requires p == File("p", 1, ["a"]) && q == File("_q", 1, ["b"])
    requires store == map["a" := [3], "b" := [5]]
    ensures ReaderBatches(Dir("t", [p, q]), store) == [3, 5]
  {
    assert [p, q][..1] == [p] && [p][..0] == [];
    FlatWalk([p, q]);
    assert ReaderBatchesOf([p], store) == [3];
    assert ReaderBatchesOf([p, q], store) == [3] + [5];
  }

  /** An instance of `FlatRootCounts` and `RootCounts`: a hidden pointer file
      at the root whose line resolves to a table with one batch. The planner skips it, the reader's
      unfiltered root listing does not, so the reader finds more batches than
      the split has slots and opening the reader fails. */
  lemma HiddenRootFileOverflows()
    ensures var r := Root("t", Dir("t", [File("p", 1, ["a"]), File("_q", 1, ["b"])]));
            var store := map["a" := [3], "b" := [5]];
            RootBatches(r, store) == 1 && ReaderBatches(r.tree, store) == [3, 5]
  {
    var p, q := File("p", 1, ["a"]), File("_q", 1, ["b"]);
    var store := map["a" := [3], "b" := [5]];
    HiddenRootPlanned(p, q, store);
    HiddenRootRead(p, q, store);
  }

  // ---------------------------------------------------------------------------
  // Hidden pointer files at the root of a path

  /** The entries of a listing that the hidden-file filter drops. */
  function HiddenEntries(l: seq<Entry>): seq<Entry> {
    if l == [] then []
    else HiddenEntries(l[..|l| - 1]) + (if Hidden(l[|l| - 1].name) then [l[|l| - 1]] else [])
  }

  /** Every hidden entry's first-line batches are counted in the reader's
      batches over the hidden entries. */
  lemma {:induction false} HiddenEntryCounted(l: seq<Entry>, store: Store, k: nat)
    requires k < |l| && Hidden(l[k].name)
    ensures |ReaderBatchesOf(HiddenEntries(l), store)| >= |FirstLineBatches(l[k], store)|
  {
    var init, last := l[..|l| - 1], l[|l| - 1];
    var h := HiddenEntries(init);
    if Hidden(last.name) {
      assert HiddenEntries(l) == h + [last];
      ReaderBatchesAppend(h, [last], store);
      assert [last][..0] == [];
      assert ReaderBatchesOf([last], store) == FirstLineBatches(last, store);
    } else {
      assert HiddenEntries(l) == h;
    }
    if k < |init| {
      assert init[k] == l[k];
      HiddenEntryCounted(init, store, k);
    }
  }

  lemma SnocFilesOnly(v: seq<Entry>, e: Entry)
    requires FilesOnly(v) && e.File?
    ensures FilesOnly(v + [e])
  {
    forall k | 0 <= k < |v + [e]| ensures (v + [e])[k].File? {
      if k < |v| {
        assert (v + [e])[k] == v[k];
      }
    }
  }

  /** Over a listing of single-line pointer files, the reader's batches are the
      planner's count over the visible files plus the reader's batches of the
      hidden ones. */
  lemma {:induction false} FlatListingCounts(l: seq<Entry>, store: Store)
    requires FilesOnly(l) && SingleLineFiles(l)
    ensures FilesOnly(Visible(l)) && FilesOnly(HiddenEntries(l))
    ensures |ReaderBatchesOf(l, store)|
            == WalkBatches(Visible(l), store) + |ReaderBatchesOf(HiddenEntries(l), store)|
  {
    if l != [] {
      var init, last := l[..|l| - 1], l[|l| - 1];
      assert FilesOnly(init) && SingleLineFiles(init) by {
        forall k | 0 <= k < |init| ensures init[k] == l[k] {
        }
      }
      FlatListingCounts(init, store);
      FirstLineWithinFile(last, store);
      assert |last.lines| <= 1;
      assert |ReaderBatchesOf(l, store)| == |ReaderBatchesOf(init, store)| + |FirstLineBatches(last, store)|;
      var v, h := Visible(init), HiddenEntries(init);
      if !Hidden(last.name) {
        assert Visible(l) == v + [last] && HiddenEntries(l) == h;
        assert (v + [last])[..|v|] == v;
        assert WalkBatches(v + [last], store) == WalkBatches(v, store) + FileBatches(last, store);
        SnocFilesOnly(v, last);
      } else {
        assert Visible(l) == v && HiddenEntries(l) == h + [last];
        assert (h + [last])[..|h|] == h;
        assert |ReaderBatchesOf(h + [last], store)| == |ReaderBatchesOf(h, store)| + |FirstLineBatches(last, store)|;
        SnocFilesOnly(h, last);
      }
    }
  }

  /** A path whose root listing holds only single-line pointer files: the
      reader, which lists the root without the hidden-file filter, finds the
      planner's count plus the batches of the hidden files, and so finds more
      batches than the split has slots as soon as one hidden file's line
      resolves to a table with batches. An empty or unresolved hidden file,
      such as an empty `_SUCCESS` marker, adds nothing. */
  lemma FlatRootCounts(r: Root, store: Store)
    requires FilesOnly(Listing(r.tree)) && SingleLineFiles(Listing(r.tree))
    ensures WalkFrom(HiddenEntries(Listing(r.tree))) == HiddenEntries(Listing(r.tree))
    ensures |ReaderBatches(r.tree, store)|
            == RootBatches(r, store) + |ReaderBatchesOf(WalkFrom(HiddenEntries(Listing(r.tree))), store)|
    ensures (exists k :: 0 <= k < |Listing(r.tree)| && Hidden(Listing(r.tree)[k].name)
                         && FirstLineBatches(Listing(r.tree)[k], store) != []) ==>
              |ReaderBatches(r.tree, store)| > RootBatches(r, store)
  {
    var l := Listing(r.tree);
    FlatListingCounts(l, store);
    FlatWalk(l);
    FlatWalk(Visible(l));
    FlatWalk(HiddenEntries(l));
    if k :| 0 <= k < |l| && Hidden(l[k].name) && FirstLineBatches(l[k], store) != [] {
      HiddenEntryCounted(l, store, k);
    }
  }

  // ---------------------------------------------------------------------------
  // Hidden entries of any kind at the root of a path

  lemma ListTreeFilesSnoc(l: seq<Entry>, e: Entry)
    ensures ListTreeFiles(l + [e]) == ListTreeFiles(l) + TreeFiles(e)
  {
    assert (l + [e])[..|l|] == l;
  }

  lemma MultisetSnoc(all: seq<Entry>, v: seq<Entry>, h: seq<Entry>, t: seq<Entry>)
    requires multiset(all) == multiset(v) + multiset(h)
    ensures multiset(all + t) == multiset(v + t) + multiset(h)
    ensures multiset(all + t) == multiset(v) + multiset(h + t)
  {
  }

  /** The files under a listing are those under its visible entries together
      with those under its hidden ones. */
  lemma {:induction false} TreeFilesSplit(l: seq<Entry>)
    ensures multiset(ListTreeFiles(l))
            == multiset(ListTreeFiles(Visible(l))) + multiset(ListTreeFiles(HiddenEntries(l)))
  {
    if l != [] {
      var init, last := l[..|l| - 1], l[|l| - 1];
      TreeFilesSplit(init);
      var v, h := Visible(init), HiddenEntries(init);
      var t := TreeFiles(last);
      assert ListTreeFiles(l) == ListTreeFiles(init) + t;
      MultisetSnoc(ListTreeFiles(init), ListTreeFiles(v), ListTreeFiles(h), t);
      if Hidden(last.name) {
        assert Visible(l) == v && HiddenEntries(l) == h + [last];
        ListTreeFilesSnoc(h, last);
      } else {
        assert HiddenEntries(l) == h && Visible(l) == v + [last];
        ListTreeFilesSnoc(v, last);
      }
    }
  }

  /** The number of batches the reader stores does not depend on the order in
      which it visits the pointer files. */
  lemma {:induction false} ReaderCountPermutation(a: seq<Entry>, b: seq<Entry>, store: Store)
    requires multiset(a) == multiset(b)
    ensures |ReaderBatchesOf(a, store)| == |ReaderBatchesOf(b, store)|
    decreases |a|
  {
    if a == [] {
      assert |b| == |multiset(b)| == 0;
    } else {
      var init, last := a[..|a| - 1], a[|a| - 1];
      assert last in multiset(b) by {
        assert a == init + [last];
      }
      var k :| 0 <= k < |b| && b[k] == last;
      var rest := b[..k] + b[k + 1..];
      MultisetRemoveMatched(a, b, k);
      ReaderCountPermutation(init, rest, store);
      assert |ReaderBatchesOf(b, store)| == |ReaderBatchesOf(rest, store)| + |FirstLineBatches(last, store)| by {
        assert b == b[..k] + [last] + b[k + 1..];
        ReaderBatchesAppend(b[..k] + [last], b[k + 1..], store);
        ReaderBatchesAppend(b[..k], [last], store);
        ReaderBatchesAppend(b[..k], b[k + 1..], store);
        assert [last][..0] == [];
      }
    }
  }

  /** Any path: the reader, which lists the root without the hidden-file
      filter, stores the batches it finds under the visible root entries,
      which number at most the planner's count and fewer exactly when the
      planner counts batches after the first line of some pointer file there,
      plus the batches it finds under the hidden root entries, files and
      directories alike. */
  lemma RootCounts(r: Root, store: Store)
    ensures var l := Listing(r.tree);
            |ReaderBatches(r.tree, store)|
            == |ReaderBatchesOf(WalkFrom(Visible(l)), store)| + |ReaderBatchesOf(WalkFrom(HiddenEntries(l)), store)|
    ensures var l := Listing(r.tree);
            |ReaderBatchesOf(WalkFrom(Visible(l)), store)| <= RootBatches(r, store)
    ensures var files := WalkFrom(Visible(Listing(r.tree)));
            (exists k :: 0 <= k < |files| && LaterLinesCount(files[k], store)) <==>
              |ReaderBatchesOf(files, store)| < RootBatches(r, store)
  {
    var l := Listing(r.tree);
    var v, h := WalkFrom(Visible(l)), WalkFrom(HiddenEntries(l));
    WalkFromIsPermutationOfTree(l);
    WalkFromIsPermutationOfTree(Visible(l));
    WalkFromIsPermutationOfTree(HiddenEntries(l));
    TreeFilesSplit(l);
    ReaderCountPermutation(WalkFrom(l), v + h, store);
    ReaderBatchesAppend(v, h, store);
    ReaderCountBound(v, store);
    ReaderCountShort(v, store);
    if Visible(l) == [] {
      WalkStep([[]]);
      assert WalkFiles([[]][1..] + SubListings([])) == [];
    }
  }
}
