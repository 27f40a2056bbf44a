/**
 * The directory tree that holds a table's pointer files, the object store the
 * pointer files refer to, and the breadth-first walk that both the split planner
 * and the record reader perform over the tree.
 */
module Discovery {

  /** A listed file-system entry. A file carries the value its single `read`
      call returns (`readLen`) and its text already split on "\n". */
  datatype Entry =
    | File(name: string, readLen: int, lines: seq<string>)
    | Dir(name: string, children: seq<Entry>)

  /** The object store: the text of an object id maps to the row counts of the
      table's record batches, in order. An id that does not parse and an id
      that names no object are both absent. */
  type Store = map<string, seq<nat>>

  /** Hive's hidden-file filter: names starting with '_' or '.' are skipped. */
  predicate Hidden(name: string) {
    |name| > 0 && (name[0] == '_' || name[0] == '.')
  }

  /** `listStatus` applied with the hidden-file filter. */
  function Visible(l: seq<Entry>): seq<Entry> {
    if l == [] then []
    else Visible(l[..|l| - 1]) + (if Hidden(l[|l| - 1].name) then [] else [l[|l| - 1]])
  }

  /** `listStatus` of a path without a filter: the children of a directory,
      or the file itself. */
  function Listing(e: Entry): (r: seq<Entry>)
    ensures e.File? ==> r == [e]
  {
    match e
    case File(_, _, _) => [e]
    case Dir(_, cs) => cs
  }

  // ---------------------------------------------------------------------------
  // Sizes, used to show that the walk terminates

  function Size(e: Entry): (n: nat)
    ensures n >= 1
    decreases e
  {
    match e
    case File(_, _, _) => 1
    case Dir(_, cs) => 1 + ListSize(cs)
  }

  function ListSize(l: seq<Entry>): nat
    decreases l
  {
    if l == [] then 0 else ListSize(l[..|l| - 1]) + Size(l[|l| - 1])
  }

  /** Size of a queue of listings: each listing counts one plus its entries. */
  function QueueSize(q: seq<seq<Entry>>): nat {
    if q == [] then 0 else QueueSize(q[..|q| - 1]) + 1 + ListSize(q[|q| - 1])
  }

  lemma {:induction false} VisibleSmaller(l: seq<Entry>)
    ensures ListSize(Visible(l)) <= ListSize(l)
  {
    if l != [] {
      var init, last := l[..|l| - 1], l[|l| - 1];
      VisibleSmaller(init);
      var v := Visible(init);
      assert ListSize(l) == ListSize(init) + Size(last);
      if Hidden(last.name) {
        assert Visible(l) == v;
      } else {
        assert Visible(l) == v + [last];
        assert (v + [last])[..|v + [last]| - 1] == v;
        assert ListSize(v + [last]) == ListSize(v) + Size(last);
      }
    }
  }

  lemma {:induction false} QueueSizeAppend(a: seq<seq<Entry>>, b: seq<seq<Entry>>)
    ensures QueueSize(a + b) == QueueSize(a) + QueueSize(b)
    decreases |b|
  {
    if b == [] {
      assert a + b == a;
    } else {
      var b' := b[..|b| - 1];
      assert (a + b)[..|a + b| - 1] == a + b';
      assert (a + b)[|a + b| - 1] == b[|b| - 1];
      QueueSizeAppend(a, b');
    }
  }

  // ---------------------------------------------------------------------------
  // One listing taken from the queue: its files, and the listings it enqueues

  /** The files of a listing, in listing order. */
  function FilesOf(l: seq<Entry>): seq<Entry> {
    if l == [] then []
    else FilesOf(l[..|l| - 1]) + (if l[|l| - 1].File? then [l[|l| - 1]] else [])
  }

  lemma {:induction false} FilesOfAppend(a: seq<Entry>, b: seq<Entry>)
    ensures FilesOf(a + b) == FilesOf(a) + FilesOf(b)
    decreases |b|
  {
    if b == [] {
      assert a + b == a;
    } else {
      var b' := b[..|b| - 1];
      assert (a + b)[..|a + b| - 1] == a + b';
      assert (a + b)[|a + b| - 1] == b[|b| - 1];
      FilesOfAppend(a, b');
    }
  }

  /** The filtered listings of the sub-directories of a listing, in listing order. */
  function SubListings(l: seq<Entry>): seq<seq<Entry>> {
    if l == [] then []
    else SubListings(l[..|l| - 1]) + (if l[|l| - 1].Dir? then [Visible(l[|l| - 1].children)] else [])
  }

  lemma {:induction false} SubListingsSmaller(l: seq<Entry>)
    ensures QueueSize(SubListings(l)) <= ListSize(l)
  {
    if l != [] {
      var init, last := l[..|l| - 1], l[|l| - 1];
      SubListingsSmaller(init);
      if last.Dir? {
        VisibleSmaller(last.children);
        QueueSizeAppend(SubListings(init), [Visible(last.children)]);
        assert [Visible(last.children)][..0] == [];
      } else {
        assert SubListings(l) == SubListings(init);
        assert ListSize(l) == ListSize(init) + Size(last);
      }
    }
  }

  /** The files the queue-of-listings walk treats as pointer files, in the order
      the walk reaches them: the first listing is polled, its files are read in
      order while its directories' filtered listings join the back of the queue. */
  function WalkFiles(q: seq<seq<Entry>>): seq<Entry>
    decreases QueueSize(q)
  {
    if q == [] then []
    else
      QueueSizeAppend([q[0]], q[1..]);
      QueueSizeAppend(q[1..], SubListings(q[0]));
      SubListingsSmaller(q[0]);
      assert [q[0]] + q[1..] == q;
      assert [q[0]][..0] == [];
      FilesOf(q[0]) + WalkFiles(q[1..] + SubListings(q[0]))
  }

  /** One step of the walk: poll the first listing, read its files, enqueue
      its sub-directories' listings; the queue shrinks. */
  lemma WalkStep(q: seq<seq<Entry>>)
    requires q != []
    ensures WalkFiles(q) == FilesOf(q[0]) + WalkFiles(q[1..] + SubListings(q[0]))
    ensures QueueSize(q[1..] + SubListings(q[0])) < QueueSize(q)
  {
    QueueSizeAppend([q[0]], q[1..]);
    QueueSizeAppend(q[1..], SubListings(q[0]));
    SubListingsSmaller(q[0]);
    assert [q[0]] + q[1..] == q;
    assert [q[0]][..0] == [];
  }

  /** The walk started from one listing, as both phases start it. */
  function WalkFrom(listing: seq<Entry>): seq<Entry> {
    WalkFiles([listing])
  }

  // ---------------------------------------------------------------------------
  // Reference definition: the files of a tree in depth-first order

  /** Files under an entry, descending into directories through the filter. */
  function TreeFiles(e: Entry): (r: seq<Entry>)
    decreases Size(e), 0
  {
    match e
    case File(_, _, _) => [e]
    case Dir(_, cs) =>
      VisibleSmaller(cs);
      ListTreeFiles(Visible(cs))
  }

  function ListTreeFiles(l: seq<Entry>): (r: seq<Entry>)
    decreases ListSize(l), 1
  {
    if l == [] then []
    else ListTreeFiles(l[..|l| - 1]) + TreeFiles(l[|l| - 1])
  }

  function QueueTreeFiles(q: seq<seq<Entry>>): seq<Entry> {
    if q == [] then [] else QueueTreeFiles(q[..|q| - 1]) + ListTreeFiles(q[|q| - 1])
  }

  lemma {:induction false} QueueTreeFilesAppend(a: seq<seq<Entry>>, b: seq<seq<Entry>>)
    ensures QueueTreeFiles(a + b) == QueueTreeFiles(a) + QueueTreeFiles(b)
    decreases |b|
  {
    if b == [] {
      assert a + b == a;
    } else {
      var b' := b[..|b| - 1];
      assert (a + b)[..|a + b| - 1] == a + b';
      assert (a + b)[|a + b| - 1] == b[|b| - 1];
      QueueTreeFilesAppend(a, b');
      ConcatAssoc(QueueTreeFiles(a), QueueTreeFiles(b'), ListTreeFiles(b[|b| - 1]));
    }
  }

  /** Within one listing, the tree's files are the listing's own files plus
      those under the listings it enqueues. */
  lemma {:induction false} ListingSplits(l: seq<Entry>)
    ensures multiset(ListTreeFiles(l)) == multiset(FilesOf(l)) + multiset(QueueTreeFiles(SubListings(l)))
  {
    if l != [] {
      var init, last := l[..|l| - 1], l[|l| - 1];
      ListingSplits(init);
      assert ListTreeFiles(l) == ListTreeFiles(init) + TreeFiles(last);
      if last.Dir? {
        var sub := [Visible(last.children)];
        assert SubListings(l) == SubListings(init) + sub;
        assert FilesOf(l) == FilesOf(init);
        QueueTreeFilesAppend(SubListings(init), sub);
        assert sub[..0] == [];
        assert QueueTreeFiles(sub) == ListTreeFiles(Visible(last.children)) == TreeFiles(last);
      } else {
        assert SubListings(l) == SubListings(init);
        assert FilesOf(l) == FilesOf(init) + [last];
        assert TreeFiles(last) == [last];
      }
    }
  }

  /** The breadth-first walk reaches every file under the queued listings
      exactly once: it is a permutation of the depth-first order, so it does
      not depend on how the directories nest. */
  lemma {:induction false} WalkIsPermutationOfTree(q: seq<seq<Entry>>)
    ensures multiset(WalkFiles(q)) == multiset(QueueTreeFiles(q))
    decreases QueueSize(q)
  {
    if q != [] {
      var rest := q[1..] + SubListings(q[0]);
      WalkStep(q);
      assert [q[0]] + q[1..] == q;
      WalkIsPermutationOfTree(rest);
      QueueTreeFilesAppend(q[1..], SubListings(q[0]));
      QueueTreeFilesAppend([q[0]], q[1..]);
      ListingSplits(q[0]);
    }
  }

  /** A walk started from one listing reaches every file under it exactly once. */
  lemma WalkFromIsPermutationOfTree(listing: seq<Entry>)
    ensures multiset(WalkFrom(listing)) == multiset(ListTreeFiles(listing))
  {
    WalkIsPermutationOfTree([listing]);
    assert [listing][..0] == [];
  }

  lemma ConcatAssoc<T>(x: seq<T>, y: seq<T>, z: seq<T>)
    ensures (x + y) + z == x + (y + z)
  {
  }

  /** Removing the last element of one sequence and a matching element of a
      permutation of it leaves permutations of each other. */
  lemma MultisetRemoveMatched<T>(a: seq<T>, b: seq<T>, k: nat)
    requires multiset(a) == multiset(b) && a != [] && k < |b| && b[k] == a[|a| - 1]
    ensures multiset(a[..|a| - 1]) == multiset(b[..k] + b[k + 1..])
  {
    var init, last := a[..|a| - 1], a[|a| - 1];
    var rest := b[..k] + b[k + 1..];
    assert a == init + [last];
    assert b[k..] == [last] + b[k + 1..];
    assert b == b[..k] + b[k..];
    calc {
      multiset(init) + multiset{last};
      multiset(a);
      multiset(b);
      multiset(b[..k]) + multiset(b[k..]);
      multiset(b[..k]) + (multiset{last} + multiset(b[k + 1..]));
      multiset(rest) + multiset{last};
    }
    forall x ensures multiset(init)[x] == multiset(rest)[x] {
      assert (multiset(init) + multiset{last})[x] == (multiset(rest) + multiset{last})[x];
    }
  }
}
