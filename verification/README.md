# SoulAccess object index — a Dafny model

SoulAccess Hub is a single-node object store. Each object is a file in one storage directory. The
hub keeps an in-memory metadata index of those files, and the object controller serves listings
from it. This project models two pieces of that system:

- The **metadata index** (`ObjectIndexer`). It keeps a list of `ObjectIndex` records
  (name, last-write time, size) sorted newest first, and a dictionary from name to record. It
  supports `TryGetIndex`, `IndexAll` (rebuild from a directory scan), `Add` (index one file from
  its stat result) and `Remove`.
- The **listing action** of `ObjectController`. It chains `SkipWhile(t < since)`,
  `TakeWhile(t <= until)` and `Take(MAX_NENTRY)` over the index list.

All of these are pure functions over an immutable state, `Indexer(idxs, nameMap)`. Each operation
returns the next state and the boolean answer the C# index returns. The filesystem becomes
parameters:

- a stat result that may be missing (`Option<ObjectIndex>`, the record `new ObjectIndex(fi)` builds);
- a directory scan that may fail (`Option<seq<ObjectIndex>>`).

Timestamps are integers.

Modules, one per file:

- `wrappers.dfy` (`Wrappers`): `Option`.
- `records.dfy` (`Records`): the record, the index's comparer, and the "sorted newest first" and
  "unique names" predicates.
- `ordered_list.dfy` (`OrderedList`): the `List<T>` operations the index uses. This covers
  `BinarySearch` (following the .NET algorithm: midpoint probe, `~lo` when absent), `Insert`,
  `Remove` (first occurrence) and `Sort`.
- `linq.dfy` (`Linq`): `SkipWhile`, `TakeWhile`, `Take`.
- `object_indexer.dfy` (`ObjectIndexer`): the index state, its invariant `Valid`, and the four
  operations.
- `object_controller.dfy` (`ObjectController`): the listing action, and a corrected listing (see
  Findings).

The index invariant `Valid` has three parts:

- the list is sorted newest first;
- the names in the list are unique;
- every dictionary entry is keyed by its record's name and appears in the list, and every listed
  record is the entry under its name.

The listing is not a "since < t <= until" window, though it is easily read as one. The code
keeps records with `t == since`, because it skips only `t < since`. Applied to a newest-first
list, the code's chain is all-or-nothing. The model follows the code. The defect is recorded
under Findings.

## Model

| member | source | states |
|---|---|---|
| Records.LastModCmp | SoulAccess-Hub/ObjectIndexer.cs:44-46 | The comparer is negative exactly when the first record is newer, zero on equal times, positive when it is older, so ascending comparer order is newest first |
| OrderedList.BinarySearchRange | SoulAccess-Hub/ObjectIndexer.cs:92 | A non-negative answer is a position in range holding the item's timestamp; a negative one complements a position in range; on a sorted list whose bracket invariant holds, that position splits strictly newer records from strictly older ones |
| OrderedList.BinarySearch | SoulAccess-Hub/ObjectIndexer.cs:92 | Found: a position with an equal timestamp. Not found: `~p` where every record before `p` is strictly newer and every record from `p` on strictly older (on a newest-first list) |
| OrderedList.InsertionPoint | SoulAccess-Hub/ObjectIndexer.cs:92-93 | The position `i < 0 ? ~i : i` is within the list, and on a newest-first list everything before it is at least as new as the item and everything after at most as new |
| OrderedList.Insert | SoulAccess-Hub/ObjectIndexer.cs:93 | The list grows by one, holds the item at the position, keeps the prefix and shifts the suffix, and gains exactly one copy of the item |
| OrderedList.InsertNewestFirst | SoulAccess-Hub/ObjectIndexer.cs:92-93 | Inserting at the binary-search position puts the item at one position with the earlier records before and after it in their order, and keeps a newest-first list newest first |
| OrderedList.InsertFreshNameKeepsUnique | SoulAccess-Hub/ObjectIndexer.cs:93 | Inserting a record whose name is not listed keeps names unique |
| OrderedList.IndexOf | SoulAccess-Hub/ObjectIndexer.cs:109 | The result is the first position holding the record, or -1 exactly when it is absent |
| OrderedList.RemoveFirst | SoulAccess-Hub/ObjectIndexer.cs:109 | An absent record leaves the list unchanged; otherwise exactly its first occurrence is deleted and the other records keep their order; one copy leaves the multiset |
| OrderedList.DeletePosition | SoulAccess-Hub/ObjectIndexer.cs:109 | Deleting one position removes one copy of that record and keeps the list newest first and its names unique |
| OrderedList.DeleteDropsOnlyThatName | SoulAccess-Hub/ObjectIndexer.cs:109 | With unique names, after the deletion every remaining record was listed before and carries another name |
| OrderedList.RemoveUndoesInsertNewestFirst | SoulAccess-Hub/ObjectIndexer.cs:93 | Removing a record that was not listed right after inserting it at its binary-search position gives back the original list |
| OrderedList.SortNewestFirst | SoulAccess-Hub/ObjectIndexer.cs:72 | The sorted list is a permutation of the input, is newest first, and keeps names unique when the input's were |
| OrderedList.SortedPermutationsAgree | SoulAccess-Hub/ObjectIndexer.cs:72 | Two newest-first permutations of the same records have the same length and the same timestamp at every position, so the unstable sort can differ only among records with equal times |
| ObjectIndexer.Empty | SoulAccess-Hub/ObjectIndexer.cs:40-43 | The index before any scan has no records and satisfies the invariant |
| ObjectIndexer.ValidKeysAreListedNames | SoulAccess-Hub/ObjectIndexer.cs:35-37 | Under the invariant, the dictionary's keys are exactly the names in the list |
| ObjectIndexer.TryGetIndex | SoulAccess-Hub/ObjectIndexer.cs:56-58 | A record is found exactly when the name is a dictionary key, and it is that key's record; the state is not touched |
| ObjectIndexer.TryGetIndexFindsListedRecord | SoulAccess-Hub/ObjectIndexer.cs:56-58 | On a valid index, looking up a name yields record `x` exactly when `x` is listed and carries that name |
| ObjectIndexer.ToDictionary | SoulAccess-Hub/ObjectIndexer.cs:73 | For a list with unique names, the dictionary holds every listed record under its own name and nothing else |
| ObjectIndexer.IndexAll | SoulAccess-Hub/ObjectIndexer.cs:61-76 | A failed scan answers false and keeps the previous list and dictionary. A successful one answers true and sets the list to a newest-first permutation of the scanned records, with the dictionary keys exactly the listed names, leaving a valid index |
| ObjectIndexer.Add | SoulAccess-Hub/ObjectIndexer.cs:81-97 | A missing file (`stat` is `None`, the early return of :84) answers false and changes nothing. Otherwise the answer is true, the new record is inserted at one position with every earlier record kept in its order, the dictionary maps the name to it, and a newest-first list stays newest first |
| ObjectIndexer.AddPreservesValid | SoulAccess-Hub/ObjectIndexer.cs:91-95 | Adding a fresh name whose stat carries that name keeps the whole invariant |
| ObjectIndexer.Remove | SoulAccess-Hub/ObjectIndexer.cs:104-120 | An unindexed name answers false and changes nothing. An indexed one answers true, leaves the name out of the dictionary, drops one copy of its record from the list, and on a valid index deletes exactly the position holding that name with the rest in order |
| ObjectIndexer.RemovePreservesValid | SoulAccess-Hub/ObjectIndexer.cs:107-109 | Removal keeps the invariant, and afterwards no listed record carries the removed name |
| ObjectIndexer.AddThenRemove | SoulAccess-Hub/ObjectIndexer.cs:91-109 | On a valid index, adding a fresh name and removing it again answers true and restores the exact previous list and dictionary |
| Linq.SkipWhile | SoulAccess-Hub/Controllers/ObjectController.cs:30 | The result is a suffix; every dropped element satisfies the predicate and the first kept one does not |
| Linq.TakeWhile | SoulAccess-Hub/Controllers/ObjectController.cs:34 | The result is a prefix; every kept element satisfies the predicate and the first element left out does not |
| Linq.Take | SoulAccess-Hub/Controllers/ObjectController.cs:36 | The result is a prefix of at most `n` elements, and it is shorter than `n` only when it is the whole sequence |
| Linq.TakeWhileThenSkipWhile | SoulAccess-Hub/Controllers/ObjectController.cs:30-34 | With the same predicate, what `TakeWhile` keeps followed by what `SkipWhile` leaves is the original sequence |
| ObjectController.SkipSince | SoulAccess-Hub/Controllers/ObjectController.cs:28-31 | The records dropped are exactly the longest leading run older than `since` (none without `since`), so the first one kept is no older than `since` |
| ObjectController.TakeUntil | SoulAccess-Hub/Controllers/ObjectController.cs:32-35 | Every record kept is no newer than `until`, and the run stops only at the end or at the first record newer than `until` |
| ObjectController.Get | SoulAccess-Hub/Controllers/ObjectController.cs:26-37 | At most `MAX_NENTRY` (20) records. They form a contiguous run of the index order that starts right after the skipped prefix. With `since` the first is no older than `since`; with `until` none is newer than `until`. The run ends only at the limit, at the list's end, or before a record newer than `until` |
| ObjectController.GetStopsForAReason | SoulAccess-Hub/Controllers/ObjectController.cs:27-36 | The three chained stages yield a run that begins after the skipped prefix and ends only at the limit, at the end, or before a record newer than `until` |
| ObjectController.GetUnboundedIsNewestRecords | SoulAccess-Hub/Controllers/ObjectController.cs:27-36 | Without `since` and `until` the listing is exactly the first min(20, n) records of the index |
| ObjectController.GetOnNewestFirstIsAllOrNothing | SoulAccess-Hub/Controllers/ObjectController.cs:27-36 | On a newest-first index every listing is either empty or identical to the unbounded listing |
| ObjectController.GetWindow | SoulAccess-Hub/Controllers/ObjectController.cs:26-37 | Corrected listing: at most 20 records forming a contiguous run with no window record before it, so the newest records of the window are the ones listed. On a newest-first index every record lies in `since <= t <= until`, and when fewer than 20 come back, every record of the index in that window is included |
| ObjectController.GetMissesRecordInWindow | SoulAccess-Hub/Controllers/ObjectController.cs:30-34 | Concrete index with times 10 and 5 and `until` = 7: the action returns nothing although the record at time 5 lies in the window; the corrected listing returns it |

## Left out

- File work: `File.Exists`, the `FileInfo` stat and `File.Delete` are not modelled. The stat
  becomes an `Option` parameter of `Add`. Deletion is advisory and its errors are swallowed, so
  `Remove` is index-only. The `File.Exists(name)`-instead-of-`path` slip in `Remove` goes with it.
- `OpenRead` and `OpenWrite`: stream plumbing with no index logic.
- Locking: `_SyncRoot`, and the unlocked dictionary read in `TryGetIndex`. Each operation is
  modelled as one atomic step.
- The HTTP actions `Get(string)`, `Put` and `Delete`: they are streaming or delegate straight to
  `Remove`. The `ToUniversalTime` conversion of the bounds is also left out: bounds are already
  integers in the index's time base.
- Hosting and configuration: `Program.cs` and the storage path in `ObjectIndexerConfig`.
- Byte-range reads and writes, a per-name `reindex`, in-place update of an existing record, and
  a taxonomy of error kinds: the modelled code has none of these.
- Where the lazy directory query in `IndexAll` throws: the scan is modelled as all-or-nothing. In
  the code, a stat that fails during `AddRange` throws after `Clear`. That case is not modelled.
- ObjectIndexer.Empty: the constructor leaves `_NameMap` null when its first scan fails. The model
  starts from an empty dictionary instead.
- ObjectIndexer.Add: requires the name to be unindexed when the stat succeeds. The code inserts
  into the list before `Dictionary.Add` throws on a duplicate key, and that half-updated state is
  not modelled.
- ObjectIndexer.Add: `None` stands only for the `File.Exists` early return at
  `ObjectIndexer.cs:84`. The `try` at :86-90 guards only `new FileInfo(path)`, which does not read
  the file; the stat happens in `new ObjectIndex(fi)` at :91, outside the `try`, so a file that
  vanishes or cannot be stat'ed after the existence check makes `Add` throw rather than answer
  false. That throw is not modelled.
- ObjectIndexer.AddPreservesValid: assumes the stat record's name equals the `name` argument.
  Object names are treated as single path segments, so `FileInfo.Name` is the name itself.
- ObjectIndexer.IndexAll: requires the scanned names to be unique. Directory entries are unique,
  and `ToDictionary` would throw otherwise.
- ObjectIndexer.Remove: the positional statement (exactly one position deleted, the rest in order)
  is made only for a valid index. On an arbitrary state the contract states the multiset change.
  `RemoveFirst` carries the first-occurrence form.
- OrderedList.RemoveFirst: uses value equality where `List.Remove` uses reference equality. On a
  valid index the names are unique, so the two select the same record.
- OrderedList.SortNewestFirst: this is one particular sort (binary insertion), not the library's
  introsort. Its contract, and the contract of `IndexAll`, only promise some newest-first
  permutation, which is all `List.Sort` guarantees.
- ObjectController.GetWindow: the window guarantees are stated for a newest-first index only.
  That is the only order the index produces.
- Integer widths: `long` sizes and `DateTime` ticks are unbounded integers. No arithmetic is done
  on them, only comparisons.

## Findings

| source | as written | input that shows it | evidently intended | confidence | as-written member | corrected member |
|---|---|---|---|---|---|---|
| SoulAccess-Hub/Controllers/ObjectController.cs:28-35 | `SkipWhile(t < since)` then `TakeWhile(t <= until)` over the newest-first index, as if it were oldest first | index with records at times 10 and 5, `until` = 7: returns nothing, though the record at time 5 satisfies the bound. In general every listing on a newest-first index is empty or the unbounded one | skip the records newer than `until`, then keep those no older than `since`, then take 20 | not executed; high | ObjectController.GetMissesRecordInWindow | ObjectController.GetWindow |
