# Vineyard's Hive input format, modelled in Dafny

This project models `VineyardInputFormat`, the Hive/Hadoop input format that
reads Vineyard tables. A table is not stored in the file system itself.
Instead, a table path holds a tree of directories and small *pointer files*.
Each line of a pointer file is the text of a Vineyard object id that names a
table. A table is a sequence of record batches, and each batch holds some
number of rows.

The format works in two phases:

- **Planning (`getSplits`).** The planner walks the tree of every input path
  breadth-first. It uses a queue of directory listings, and every listing
  goes through Hive's hidden-file filter. It reads every pointer file and, line
  by line, resolves object ids. It adds up the batch counts of the resolved
  tables, and the first line that fails to resolve ends that file. It emits
  one split `(path, 0, count)` for every path whose count is positive.
- **Reading (`VineyardRecordReader`).** The reader sizes an array of batches
  from the split's length. It walks the split's tree again and stores the
  batches it finds into the array, totalling their rows. `next` then moves a
  cursor (batch index, row index) over the stored batches. `getPos` and
  `getProgress` report how many rows have been handed out.

The model has six modules:

- `Wrappers` holds `Option`.
- `Discovery` (discovery.dfy) holds the entry tree and the hidden-file filter.
  It defines the breadth-first walk as a function over a queue of listings. A
  depth-first reference is proved to visit the same files.
- `SplitPlanner` (planner.dfy) holds `getSplits` as four nested imperative
  methods: `GetSplits`, `CountTableBatches`, `ScanListing` and
  `ScanPointerFile`. Each method is proved against a specification function.
- `Reader` (reader.dfy) holds the record reader as a class. Its batch array is
  an `array<Option<nat>>` whose slots hold row counts, and null slots are
  `None`. It also holds `Open`, which models the constructor's error paths.
- `Phases` (phases.dfy) relates what the planner counts to what the reader
  stores.
- `Scenarios` (scenarios.dfy) drives the planner and the reader together.

The object store is a map from id text to the row counts of the table's
batches. An id that does not parse and an id that names no object both count
as absent.

Three properties of the reader, as written, are worth knowing:

- **Only the first line counts.** Both outcomes of resolving a line end the
  reader's line loop with `break`: success at line 201, failure at line 209.
  So the reader uses only the first line of each pointer file. The planner
  counts the batches of every line up to the first failure.
- **The reader does not filter the root.** The reader lists the split's root
  without the hidden-file filter (line 159). The planner filters it (line 77).
- **`next` works once past the last row, and no more.** `next` starts its
  stopwatch on entry (line 247) and stops it only after handing out a row
  (line 268). The `return false` at line 251 and the null-slot dereference
  at line 257 leave the stopwatch running. The stopwatch is a Guava
  `Stopwatch`, whose `start` throws `IllegalStateException` on a running
  watch, so the call after either of them fails. The model keeps the
  watch's running state (`watchRunning`) and reports that failure as
  `WatchRunning`.

The reader's count splits in two (`Phases.RootCounts`, for any path). One
part is the batches under the root entries that the planner also sees. The
other part is the batches under the hidden root entries, files and
directories alike, such as a `_temporary` directory. The first part never
exceeds the planner's count. It falls short of that count exactly when some
pointer file there is read with a positive length, its first line resolves,
and the planner counts batches for its later lines, up to the first line that
does not resolve (`LaterLinesCount`). So:

- **No hidden root entry.** The reader never needs more slots than the split
  has. It leaves a null slot exactly when `LaterLinesCount` holds for some
  pointer file (`Phases.ReaderWithinSplit`). Then `next` meets that slot as
  `NullBatch` after the last row; otherwise it reports the end
  (`Scenarios.ReadPlannedSplit`). An example is a second line that names a
  table with batches. A third line counts too, when the second line names a
  table without batches. With single-line pointer files the array is filled
  exactly.
- **Hidden root entries.** The reader also stores what it finds under them.
  `Open` reports `BatchOverflow` exactly when the total exceeds the split's
  length. For a root that holds single-line pointer files only, the total is
  the planner's count plus the hidden files' first-line batches, the
  hidden part of `Phases.RootCounts` (`Phases.FlatRootCounts`). One hidden file that resolves to a table with
  batches is then enough to overflow (`Scenarios.OpenWithHiddenRootFile`). A
  hidden file that is empty or does not resolve, such as an empty `_SUCCESS`
  marker, adds nothing.

The concrete lemmas `Phases.MultiLineFileLeavesNullSlot` and
`Phases.HiddenRootFileOverflows` are one instance of each case.

## Model

| member | source | states |
|---|---|---|
| Discovery.WalkStep | java/hive/src/main/java/io/v6d/hive/ql/io/VineyardInputFormat.java:87-95 | Polling one listing yields that listing's files, then the walk of the rest of the queue with the filtered listings of its sub-directories appended. The queue's size strictly decreases, so the walk ends. |
| Discovery.WalkFromIsPermutationOfTree | java/hive/src/main/java/io/v6d/hive/ql/io/VineyardInputFormat.java:81-126 | The queue walk from a listing visits every file under it (descending through the hidden-file filter) exactly once. Its order is a permutation of the depth-first order. |
| SplitPlanner.ScanStopsAtFirstFailure | java/hive/src/main/java/io/v6d/hive/ql/io/VineyardInputFormat.java:106-124 | The line loop adds the batch counts of exactly the lines before the first unresolvable one. It reports a failure if and only if some line does not resolve. |
| SplitPlanner.ScanPointerFile | java/hive/src/main/java/io/v6d/hive/ql/io/VineyardInputFormat.java:96-124 | A read of zero or fewer bytes adds nothing and logs nothing. Otherwise the file adds the batch counts of the lines before the first unresolvable one. It logs its name once exactly when some line fails, and never more than once. |
| SplitPlanner.ScanListing | java/hive/src/main/java/io/v6d/hive/ql/io/VineyardInputFormat.java:88-125 | One polled listing returns its directories' filtered listings in listing order, plus the total batches and the diagnostics of its files. |
| SplitPlanner.CountTableBatches | java/hive/src/main/java/io/v6d/hive/ql/io/VineyardInputFormat.java:81-126 | The queue loop over a path's tree returns the batch total and the diagnostics of the walk from the filtered root listing. |
| SplitPlanner.WalkBatchesPermutation | java/hive/src/main/java/io/v6d/hive/ql/io/VineyardInputFormat.java:85-126 | Visiting the same pointer files in any order gives the same batch total. |
| SplitPlanner.RootBatchesIgnoresNesting | java/hive/src/main/java/io/v6d/hive/ql/io/VineyardInputFormat.java:77-126 | A path's count equals the total over its files in depth-first order. How the pointer files are nested in directories does not change the split length. |
| SplitPlanner.GetSplits | java/hive/src/main/java/io/v6d/hive/ql/io/VineyardInputFormat.java:62-133 | The splits and diagnostics are those of every input path in order. A path whose filtered listing is empty is skipped. |
| SplitPlanner.SplitsFollowRoots | java/hive/src/main/java/io/v6d/hive/ql/io/VineyardInputFormat.java:70-131 | The planner emits at most one split per path, in path order. The k-th split starts at 0, names the k-th path with a positive count and carries that count as its length. |
| SplitPlanner.SplitOriginsExact | java/hive/src/main/java/io/v6d/hive/ql/io/VineyardInputFormat.java:127-130 | A path emits a split if and only if its batch count is positive. The emitting paths appear in strictly increasing order. |
| Reader.AllRowsCount | java/hive/src/main/java/io/v6d/hive/ql/io/VineyardInputFormat.java:195-199 | A fresh reader hands out exactly as many rows as the rows summed into `recordTotal`. |
| Reader.AllRowsExact | java/hive/src/main/java/io/v6d/hive/ql/io/VineyardInputFormat.java:249-267 | The rows of a fresh reader are exactly the positions (b, r) with r below batch b's row count. They come in strictly increasing lexicographic order, and empty batches contribute nothing. |
| Reader.StoreTable | java/hive/src/main/java/io/v6d/hive/ql/io/VineyardInputFormat.java:195-199 | A table's batches go into the next free slots in order. The slots after them stay null, and the rows added are the sum of the batches' row counts. |
| Reader.StoreFile | java/hive/src/main/java/io/v6d/hive/ql/io/VineyardInputFormat.java:179-210 | A pointer file stores the batches of its first line's table, or nothing when the read gave zero or fewer bytes, the file has no line, or the first line does not resolve. |
| Reader.StoreEntry | java/hive/src/main/java/io/v6d/hive/ql/io/VineyardInputFormat.java:173-210 | A directory entry returns its filtered listing for the queue and stores nothing. A file entry is stored as a pointer file. |
| Reader.StoreListing | java/hive/src/main/java/io/v6d/hive/ql/io/VineyardInputFormat.java:172-212 | One polled listing appends the first-line batches of its files, in order, behind those already stored. It returns its directories' filtered listings. |
| Reader.RecordReader.constructor | java/hive/src/main/java/io/v6d/hive/ql/io/VineyardInputFormat.java:151-217 | The array has the given length and holds the first-line batches of the walk from the unfiltered root listing, followed by null slots. `recordTotal` is their row sum, and the cursor is before the first batch with nothing handed out and the stopwatch stopped. |
| Reader.RecordReader.GetPos | java/hive/src/main/java/io/v6d/hive/ql/io/VineyardInputFormat.java:236-238 | The position is the number of rows handed out, never above `recordTotal`. |
| Reader.RecordReader.GetProgress | java/hive/src/main/java/io/v6d/hive/ql/io/VineyardInputFormat.java:241-243 | The progress is the pair (rows handed out, row total) whose quotient the source returns. The first never exceeds the second. |
| Reader.RecordReader.LoadBatch | java/hive/src/main/java/io/v6d/hive/ql/io/VineyardInputFormat.java:249-260 | The loop skips used-up and empty batches. It stops on a batch with a row left exactly when rows remain, reports the end when none remain and every slot is filled, and reports a null slot otherwise. |
| Reader.RecordReader.Advance | java/hive/src/main/java/io/v6d/hive/ql/io/VineyardInputFormat.java:248-269 | The body of `next` after the stopwatch starts. Each call hands out the first remaining row and advances `recordConsumed`, keeping the reader's invariant. When no row remains, the rows handed out are all rows and stay unchanged. It then returns false if every slot is filled, leaving the reader exhausted. Otherwise it meets a null slot, with the cursor already moved onto it. |
| Reader.RecordReader.Next | java/hive/src/main/java/io/v6d/hive/ql/io/VineyardInputFormat.java:246-270 | A call that finds the stopwatch running fails and changes nothing. Otherwise it acts as `Advance`, and afterwards the stopwatch is running exactly when no row was handed out. So the call after a false return or a null slot fails. |
| Reader.ToInt | java/hive/src/main/java/io/v6d/hive/ql/io/VineyardInputFormat.java:152 | Java's `(int)` cast of the split length keeps the value in `int` range, keeps it congruent modulo 2^32, and keeps values already in range. |
| Reader.Open | java/hive/src/main/java/io/v6d/hive/ql/io/VineyardInputFormat.java:151-217 | A negative cast length fails first. Then an empty unfiltered root listing fails as "table not found", and a walk with more batches than slots overflows. Otherwise the reader is opened with as many slots as the cast length, holding the first-line batches of the walk from the unfiltered root listing. Its cursor is before the first batch (batch index -1, inner index 0, no batch loaded), nothing has been handed out and the stopwatch is stopped. |
| Phases.FirstLineWithinFile | java/hive/src/main/java/io/v6d/hive/ql/io/VineyardInputFormat.java:188-211 | The reader takes no more batches from a pointer file than the planner counts for it. It takes exactly as many when the file has at most one line. It takes fewer if and only if the read is positive, the first line resolves and the planner counts batches for the later lines. |
| Phases.ReaderCountBound | java/hive/src/main/java/io/v6d/hive/ql/io/VineyardInputFormat.java:171-213 | Over any sequence of pointer files, the reader's batches number at most the planner's count, with equality when every file has at most one line. |
| Phases.ReaderCountShort | java/hive/src/main/java/io/v6d/hive/ql/io/VineyardInputFormat.java:171-213 | Over any sequence of pointer files, the reader's batches are fewer than the planner's count if and only if the planner counts batches after the first line of some file. |
| Phases.ReaderWithinSplit | java/hive/src/main/java/io/v6d/hive/ql/io/VineyardInputFormat.java:152-164 | When no root entry is hidden, a reader opened on a path's split never needs more slots than the split's length. It fills all of them when every pointer file has at most one line. It leaves a null slot if and only if the planner counts batches after the first line of some pointer file. |
| Phases.MultiLineFileLeavesNullSlot | java/hive/src/main/java/io/v6d/hive/ql/io/VineyardInputFormat.java:188-211 | For a pointer file whose two lines resolve to one-batch tables, the planner counts two batches but the reader stores one, so the array keeps a null slot. |
| Phases.HiddenRootFileOverflows | java/hive/src/main/java/io/v6d/hive/ql/io/VineyardInputFormat.java:159-164 | For a hidden pointer file at the root whose line resolves to a one-batch table, the planner counts one batch but the reader stores two, which is more than the array's length. |
| Phases.FlatRootCounts | java/hive/src/main/java/io/v6d/hive/ql/io/VineyardInputFormat.java:159-164 | For a root that holds single-line pointer files only, the walk from the hidden entries is those entries themselves. The reader's batches number the planner's count plus the hidden part that `Phases.RootCounts` names, which here is the hidden files' first-line batches. They are more than the count as soon as one hidden file resolves to a table with batches. |
| Phases.RootCounts | java/hive/src/main/java/io/v6d/hive/ql/io/VineyardInputFormat.java:77-213 | For any path, the reader's batches are those under the visible root entries plus those under the hidden root entries, files and directories alike. The first part is at most the planner's count, and falls short of it if and only if the planner counts batches after the first line of some pointer file there. |
| Scenarios.Drain | java/hive/src/main/java/io/v6d/hive/ql/io/VineyardInputFormat.java:246-270 | On a valid reader with the stopwatch stopped, calling `next` until it hands out no row yields exactly the rows not yet handed out, so all rows end up handed out and `getPos` reaches `recordTotal`. The last call reports the end when every slot is filled, and the null slot otherwise, and leaves the stopwatch running. |
| Scenarios.OpenPlannedSplit | java/hive/src/main/java/io/v6d/hive/ql/io/VineyardInputFormat.java:62-217 | For the k-th emitted split of a path with no hidden root entry and a count that fits an `int`, the reader opens with one slot per planned batch and holds the batches of the path's tree. Its cursor is before the first batch and nothing has been handed out. |
| Scenarios.ReadPlannedSplit | java/hive/src/main/java/io/v6d/hive/ql/io/VineyardInputFormat.java:62-270 | On the same split, the reader hands out every row of the split's tables. The last call meets a null slot if and only if the planner counts batches after the first line of some pointer file, and reports the end otherwise, in particular with single-line pointer files. The call after that fails on the running stopwatch. |
| Scenarios.OpenWithHiddenRootFile | java/hive/src/main/java/io/v6d/hive/ql/io/VineyardInputFormat.java:152-198 | Opening the split the planner emits for a root of single-line pointer files, with a positive count that fits an `int`, fails with a batch overflow as soon as one hidden file resolves to a table with batches. |

## Left out

- Hadoop file-system calls (`getFileSystem`, `listStatus`, `open`, `getFileStatus`, `read`) are not modelled as I/O. A path's content is an `Entry` tree. The value a file's single `read` returns is a field, and a failing file-system call (a missing path, an I/O error) is not modelled.
- Decoding the buffer as UTF-8 and `String.split("\n")` are not modelled. A pointer file's text comes already split into lines, so Java's dropping of trailing empty strings is not modelled either.
- The Vineyard client, `ObjectID.fromString`, `getMetaData` and `ObjectFactory.resolve` are a map lookup. Exceptions other than `ObjectNotExists` and `NumberFormatException` are not modelled; the source does not catch them.
- Arrow and Hive types are not modelled. This covers `Arrow.instantiate`, the `HiveTypeResolver`, `setResolver`, the schema, `columnar`, `setValues` and `createValue`. `next` returns the position of the row it hands out instead of filling a value.
- Reader.RecordReader.GetProgress: returns the pair (rows handed out, row total) instead of their `float` quotient, because floating point is not modelled. This includes the quotient 0/0 of an empty split.
- `createKey` always returns null and `close` does nothing, so neither has anything to model. `getRecordReader` sets the reporter's status to the split's text (line 57), which is not modelled, and then calls the constructor, which `Open` covers.
- The stopwatch's readings are not modelled, only whether it is running. The planner's log message is modelled as the skipped file's name. The reader's log message on a skipped file is not modelled.
- `long` counters (`numBatches`, `recordTotal`, `recordConsumed`) are unbounded integers. Overflowing them would take more than 2^63 batches or rows.
- The second bound check in `next` (lines 254-256) cannot fail after the first, so it has no branch of its own.
- Reader.Open: decides the array overflow before the walk. The source throws `ArrayIndexOutOfBoundsException` at the first store past the end, and because the exception escapes the constructor, no reader exists either way.
- The `numSplits` hint and the job configuration are not modelled, and the source ignores `numSplits` too.
- Hive's `HIDDEN_FILES_PATH_FILTER` is modelled as "the name starts with `_` or `.`".
