# Swytch, verified

A Dafny model of the hard core of Swytch: the SQL storage layer with its secondary indexes, planner and
savepoints; JSON documents spread over partitions; bitmaps kept as a string with a keyed overlay; and the
distributed lock of the Caddy storage module. Nothing was executed: every statement below is a proof about the
model, for all inputs, all runs or all reachable states.

The effects engine is outside the repository. It appears as what the code relies on: a store that pending effects
are applied to one after the other, read back through the same context (`Engine`, `JsonWrite.Context`,
`Bitmap.Apply`), fresh ids that never repeat, and a commit that fails when a watched key was written since.

## How it is organised

| files | what they hold |
|---|---|
| `Common`, `Bytes`, `Numbers`, `Encoding`, `Keys` | options and searches, byte order, powers of two, order-preserving key encodings, row and index keys |
| `Engine`, `Schema`, `VTable` | contexts, what it means for a store to hold a table (`Schema.StoreIs`), the write paths that keep it so |
| `Predicate`, `Planner`, `Executor`, `Observation` | three-valued predicates, `BestIndex`, `Filter`, whole queries, and what a write must announce to a scan |
| `Ddl`, `Session` | rename, drop column, create index; transactions with dirty rows and savepoints |
| `JsonTree`, `JsonPath`, `JsonMatch` | documents, partitions, paths and matches |
| `JsonEdit`, `JsonWrite`, `JsonMulti`, `JsonCommands`, `MergePatch` | one edit, one write, many writes from one snapshot, the commands |
| `Bits`, `Bitmap`, `Bitfield` | bits of byte strings, the overlay, integer fields |
| `Lock`, `Waiters` | the lock protocol over every interleaving; the wake-up registry |

One predicate carries the SQL part. `Schema.StoreIs(store, table, rows)` says that the row keys hold exactly `rows`,
that every index lists exactly the rows it should under their encoded tuples, and that UNIQUE holds. Every write
path is proved to take such a store to such a store, every plan to read one exactly. A refused statement inside a
transaction can leave a store that is not of this kind, so each write path also has a contract for any store:
`VTable.Ran` says which rows it changed and which keys it sent effects for, however it ended. The JSON part works the same
way with a labelled tree: `JsonTree.Layout` ties the partitions to a tree whose labels are partition ids, one effect
is one edit of that tree, and erasing the labels gives the document.

## What turned out not to hold

Each of these is proved, with the exact condition under which the code does what one would expect.

- A range scan over a one-column index misses the row whose key is the empty string or blob
  (`Observation.EmptyTextIsLost`); all other rows meeting the query are returned (`Observation.Query`).
- A range scan over a one-column BLOB index with upper bound x'' has no upper bound
  (`Observation.EmptyBlobBoundIsDropped`). `Executor.ReturnsWhatIsAsked` says exactly when that shows. SQLite's recheck
  keeps the answer right, but the observation predicate misses such rows (`Observation.PredicateMisses`).
- An update that keeps the primary key announces only the new tuple, so a row moved out of a scanned range goes
  unnoticed (`Observation.UpdateOutGoesUnnoticed`). `Observation.SameKeyUpdateObserved` says exactly when.
- INSERT under a live key is neither refused nor a replacement: columns that are not NULL are written over the row, and
  an index entry of the old row can stay behind (`Session.ReinsertLeavesEntry`). `VTable.InsertedOver` says exactly when
  the store stays consistent. A same-key update that sets a zero or empty key column to NULL is the other such case, with
  its condition in `VTable.UpdateBody`.
- In a transaction, a key-changing update refused by UNIQUE has already deleted the old row and does not mark it
  dirty (`Session.KeyChangeLosesTheRow`). `Session.StatementMarks` says exactly when every row with pending effects is
  dirty. A full scan is still exact (`Session.StatementCovers`).
- In a transaction, an INSERT stopped by a NULL in a later key column leaves a row that is visible by key and missing
  from the full scan (`Session.HalfKeyIsMissed`). `Session.StatementCovers` gives the exact condition.
- A union such as `$['a','a']` matches a location twice (`JsonMatch.RepeatedMatches`). The document is right either
  way; the count JSON.DEL replies is the number of removed locations if and only if no location is matched twice
  (`JsonCommands.CountIsLocations`).
- BITFIELD can leave a string shorter than its buffer (`Bitmap.BulkCanLoseLength`). `Bitmap.Key.EmitBulk` gives the
  condition.
- `OVERFLOW SAT` stores the clamped sum if and only if the sum is itself a 64-bit value
  (`Bitfield.IncrementExactly`, with `Bitfield.SatWrapsFirst`).

## Model

| member | source | states |
|---|---|---|
| `Encoding.EncodeTupleBytes` | sql/encoding.go:291-304 | The escaping loop computes the escaped form; `UnescapedEscaped` and `EscapedUnescaped` say what that form is worth. |
| `Encoding.DecodeTupleBytes` | sql/encoding.go:308-335 | The decoding loop computes the decoded string and the exact bytes after it, or fails. |
| `Encoding.UnescapedEscaped` | sql/encoding.go:291-335 | Decoding an escaped string followed by anything gives the string and exactly that remainder. |
| `Encoding.EscapedUnescaped` | sql/encoding.go:308-335 | Whatever decodes was the escaped form of the result followed by the remainder: the code is canonical. |
| `Encoding.DecodeComponentExact` | sql/encoding.go:229-287 | A tuple component decodes to the value it encodes, with the bytes after it untouched. |
| `Encoding.ComponentOrder` | sql/encoding.go:229-240 | Different components decide the byte order by their values, whatever follows; equal ones leave it to what follows. |
| `Encoding.AppendComponents` | sql/encoding.go:361-380 | The prefix builder appends exactly the first components. |
| `Encoding.EncodePK` | sql/encoding.go:130-154 | A mismatched column count is refused; otherwise the key is the encoded tuple. |
| `Encoding.DecodePK` | sql/encoding.go:158-182 | Decodes as `DecodeKey`, NULLs where the key is malformed included; `KeyRoundTrip` makes it the inverse. |
| `Encoding.KeyRoundTrip` | sql/encoding.go:130-214 | Every primary key, of one column or many, decodes to the values it was made from. |
| `Encoding.ComponentsPrefixFree` | sql/encoding.go:229-240 | No encoded tuple is a prefix of another: equal bytes with any continuations mean equal tuples and continuations. |
| `Encoding.KeyOrder` | sql/encoding.go:343-354 | Byte order of encoded keys is the lexicographic order of the tuples. |
| `Encoding.IndexValueOrder` | sql/encoding.go:404-434 | Byte order of encoded values is their order, with REAL by sign and magnitude of its bits, and equal bytes mean equal values. |
| `Encoding.KeyInjective` | sql/encoding.go:343-354 | Different tuples have different keys. |
| `Keys.RowKey` | sql/keys.go:159-165 | A row key can be taken apart into exactly its table id and primary key, so no two coincide. |
| `Keys.IndexKey` | sql/keys.go:94-101 | The same for index keys, which never collide with row keys. |
| `Keys.ParseRowKey` | sql/keys.go:184-195 | Succeeds exactly on this table's row keys, with their primary key. |
| `Keys.IndexPrefixExact` | sql/keys.go:105-111 | A key starts with an index prefix if and only if it is an entry key of that index with that leading part. |
| `Keys.IndexKeyOrder` | sql/keys.go:94-101 | Entry keys of one index sort as their encoded tuples. |
| `Schema.StoredRoundTrip` | sql/encoding.go:75-125 | A stored column decodes to the value written. |
| `Schema.SnapshotReadsRow` | sql/vtab.go:1439-1465 | A row's fields and key read back as the full tuple, NULLs for absent fields. |
| `Schema.EntryFromFieldsExact` | sql/vtab.go:809-838 | The index tuple computed from stored fields is the one of the row. |
| `VTable.CheckUnique` | sql/index.go:204-221 | Reports a violation exactly when another primary key holds the entry. |
| `VTable.EmitIndexInserts` | sql/vtab.go:750-786 | Whatever the store holds, the indexes before the first clash list the key under the row's tuples and nothing else changes; where the indexes list known rows, a clash is a conflict of the row, and success leaves them listing the new row too. |
| `VTable.EmitIndexRemoves` | sql/vtab.go:790-805 | Row keys stay; where the indexes list known rows, they end up listing the rows minus the removed one. |
| `VTable.EmitIndexDeltas` | sql/vtab.go:1076-1190 | The same-key delta succeeds exactly without a conflict and leaves every index listing the updated row. |
| `VTable.EmitPKPresence` | sql/vtab.go:844-877 | Key columns are written up to the first NULL, which is reported with the earlier ones left written. |
| `VTable.EmitRowInsert` | sql/vtab.go:640-700 | The row key holds what was there overlaid with the row, or with its leading key columns when a NULL stops it, and nothing else changed. |
| `VTable.EmitRowDelete` | sql/vtab.go:1470-1494 | The row key ends empty, and nothing else changed. |
| `VTable.EmitSamePKUpdate` | sql/vtab.go:1197-1243 | The row key holds its own key columns and the row's others, fields cleared for NULLs included. |
| `VTable.InsertBody` | sql/vtab.go:599-715 | In any store and however it ends: which rows change, to what, and which keys get effects. On known rows: refused by UNIQUE exactly on a conflict; under a fresh key the store holds the rows with the new one added; under a live key it stays consistent if and only if every index's entry is kept. |
| `VTable.UpdateBody` | sql/vtab.go:975-1017 | The same for a same-key update: refused exactly on a conflict; rows, indexes and UNIQUE stay in step if and only if the row stored has the entries of the row indexed, which holds whenever no key column is set to NULL. |
| `VTable.DeleteBody` | sql/vtab.go:1371-1425 | In any store the row goes; on known rows the store holds the rows without the key, and the old tuple is returned. |
| `VTable.PKChangeBody` | sql/vtab.go:1248-1360 | A key change deletes and inserts. Refused by UNIQUE exactly on a conflict with the other rows, and then the indexes before the refusing one list the new row and the rest do not. |
| `VTable.RefusedKeyChange` | sql/vtab.go:1248-1360 | A refused key change leaves exactly the rows without the old one. |
| `VTable.InsertedOver` | sql/vtab.go:640-700 | An INSERT under a live key, which nothing refuses, leaves a consistent store if and only if each index had no entry for the row or the same one, or gets none and keeps the one it had. |
| `VTable.EffectiveIsAmended` | sql/vtab.go:1034-1068 | The tuple a same-key update records, with key columns decoded from the key, is the row it leaves. |
| `VTable.SwytchTable.Insert` | sql/vtab.go:599-721 | Outside a transaction a statement commits a consistent store or leaves no trace; its verdict is decided by the rows alone, and its tuple is recorded. |
| `VTable.SwytchTable.Update` | sql/vtab.go:880-1029 | The same for updates of either kind, with both tuples recorded on a key change. |
| `VTable.SwytchTable.Delete` | sql/vtab.go:1371-1433 | The same for deletes, recording the deleted tuple. |
| `VTable.RunStatements` | sql/vtab.go:591-1433 | From an empty table, over every run of inserts, updates of live rows and deletes, refused ones included, none of them one of the two exceptions above: the store holds exactly the rows of the replay, every index lists exactly their tuples, and UNIQUE holds. |
| `Predicate.EvalTri` | sql/predicate.go:203-284 | The short-circuiting evaluator computes the strong Kleene meaning of every predicate. |
| `Predicate.TypedIsValueOrder` | sql/predicate.go:330-357 | On values of one column type, the predicate's comparison is the order the keys sort by. |
| `Predicate.PromotedOrder` | sql/predicate.go:349-370 | Integers compared as floats never come out the wrong way round, and exactly right up to 2^53. |
| `Planner.MatchEquality` | sql/vtab.go:326-395 | Finds one usable equality per column, each the right one, exactly when every column has one. |
| `Planner.MatchRange` | sql/vtab.go:406-495 | Finds a range exactly when all leading columns have equalities and the last has a bound, and drops neither bound. |
| `Planner.FillUsage` | sql/vtab.go:243-318 | Arguments are numbered in term order, only equalities are marked as needing no recheck, nothing else is used. |
| `Planner.BestIndex` | sql/vtab.go:220-320 | Picks the primary key, else the first index with full equality, else the first with a range, else a scan, with the constraints that supply each term. |
| `Executor.LoadRowExact` | sql/vtab.go:2149-2188 | Loading a primary key gives its row exactly when it is live, whatever the indexes hold. |
| `Executor.LoadRows` | sql/vtab.go:2069-2083 | Exactly the keys that load, with their rows, in any store. |
| `Executor.FilterFullScan` | sql/vtab.go:1846-1900 | A scan of the keys returns exactly the live rows. |
| `Executor.FilterPKEquality` | sql/vtab.go:1819-1843 | Returns exactly the rows that meet the key equalities. |
| `Executor.FilterIndexEquality` | sql/vtab.go:1911-1932 | Returns exactly the rows that meet the index equalities, with NULLs never equal. |
| `Executor.ScanWindow` | sql/vtab.go:1985-2055 | The windowed scan with early stop lists exactly the entries inside the bounds. |
| `Executor.EntryInWindow` | sql/vtab.go:1937-2065 | A row's entry lies in the plan's byte window exactly when the row matches the plan and is not keyed by the empty string; an upper bound that encodes to nil bounds nothing. |
| `Executor.FilterIndexRange` | sql/vtab.go:1937-2065 | A range plan returns exactly the rows that match it, less those keyed by the empty string. |
| `Executor.ReturnedBeyondTerms` | sql/vtab.go:1985-2055 | A row is returned without meeting the plan's terms exactly when the upper bound is an empty BLOB on a one-column index and the row is non-empty and above the lower bound. |
| `Executor.ReturnsWhatIsAsked` | sql/vtab.go:1937-2065 | A scan returns exactly the rows its terms ask for if and only if no bound is dropped or no row is above the lower one. |
| `Executor.Filter` | sql/vtab.go:1529-1590 | Whatever the plan, the result is exactly the rows that match it, less those keyed by the empty string under a range. |
| `Observation.PlannerContract` | sql/vtab.go:220-320 | A row that meets the query matches the plan, and a row that matches and passes the rechecked constraints meets the query. |
| `Observation.Bind` | sql/vtab.go:243-318 | Each used constraint's value lands where the planner numbered it, and there are as many arguments as terms. |
| `Observation.Query` | sql/vtab.go:220-1590 | Planning, binding and filtering together: every live row meeting the query is returned except exactly those keyed by the empty string, and what survives the recheck is exactly the rows that meet it, less those. |
| `Observation.EmptyTextIsLost` | sql/vtab.go:1985-2055 | That exception happens: on a store that holds the row with `a` = '', the query `a <= 'z'` returns nothing. |
| `Observation.EmptyBlobBoundIsDropped` | sql/vtab.go:1960-2055 | On a store that holds the row with `a` = x'01', a range scan for `a <= x''` returns it. |
| `Observation.ObservedIffHeld` | sql/vtab.go:1602-1721 | The observation predicate is TRUE of a row exactly when the row meets every term of the plan. |
| `Observation.PredicateMisses` | sql/vtab.go:1602-1721 | A scan returns a row its predicate is not TRUE of exactly when it drops its upper bound and the row is above the lower one. |
| `Observation.InsertObserved` | sql/vtab.go:1602-1721 | An insert changes a scan exactly when its tuple is one the scan sees; a tuple not TRUE leaves it unchanged unless the scan drops its upper bound and the tuple is above the lower one, exactly. |
| `Observation.DeleteObserved` | sql/vtab.go:1415-1426 | The same for a delete and its recorded old tuple. |
| `Observation.PKChangeObserved` | sql/vtab.go:930-960 | A key-changing update leaves a scan unchanged exactly when neither recorded tuple is seen, with the same exact condition when neither is TRUE. |
| `Observation.SameKeyUpdateObserved` | sql/vtab.go:1012-1025 | A same-key update leaves a scan unchanged if and only if the row is the same or neither old nor new is seen; a new tuple that is not TRUE says nothing about the old one. |
| `Observation.UpdateOutGoesUnnoticed` | sql/vtab.go:1012-1025 | Such an unnoticed change exists. |
| `Ddl.RenameColumn` | sql/ddl.go:125-261 | All rows read the same under the new name and all indexes still agree; both refusals exactly when they should be. |
| `Ddl.DropColumn` | sql/ddl.go:302-417 | Every row loses just that position, key ordinals shift, surviving indexes agree, cascaded ones are emptied; both refusals exact. |
| `Ddl.DropIndexEntries` | sql/ddl.go:1717-1744 | Every entry of the index is emptied and nothing else changes. |
| `Ddl.CheckIndexColumns` | sql/ddl.go:1113-1155 | Accepts exactly the valid definitions with a new name. |
| `Ddl.CreateIndex` | sql/ddl.go:1099-1250 | The new index lists exactly the existing rows; a UNIQUE index is refused exactly when two rows collide. |
| `Session.RollbackRestores` | sql/session.go:178-233 | However a run goes on after a savepoint, rolling back to it while it is the newest live one of its name restores pending writes and dirty rows and keeps it. |
| `Session.FramesStay` | sql/session.go:178-233 | Live savepoints are never touched by what happens above them. |
| `Session.ReleaseUncovers` | sql/session.go:178-203 | A repeated name shadows, and releasing it brings the earlier one back. |
| `Session.RunCovered` | sql/session.go:103-124 | Over every run of inserts, updates, deletes, savepoints, releases and rollbacks, accepted or refused, on any tables: each visible row is committed or dirty, now and at every live savepoint, as long as no row is inserted under a key that is NULL only in a later column. |
| `Session.StatementCovers` | sql/vtab.go:599-1433 | One statement keeps the rows covered if and only if it is not such an insert, stopped at the NULL, under a key neither committed nor dirty. |
| `Session.StatementMarks` | sql/vtab.go:599-1433 | One statement keeps every row with pending effects dirty if and only if it is not a refused key change of a row not yet dirty, nor such a half-keyed insert. |
| `Session.RefusedVisible` | sql/vtab.go:640-700 | A refused statement makes nothing visible but a row it half keyed, and that one always. |
| `Session.CloneDirtyRows` | sql/session.go:156-173 | The copy has the same rows in sets of its own. |
| `Session.Session.MarkRowDirty` | sql/session.go:107-124 | Adds one key to one table's set and changes no savepoint. |
| `Session.Session.PushSavepoint` | sql/session.go:178-188 | Pushes the current pending writes and dirty rows, sharing no set. |
| `Session.Session.FindSavepoint` | sql/session.go:225-233 | Finds the newest frame of the name. |
| `Session.Session.ReleaseSavepoint` | sql/session.go:194-203 | Drops the newest frame of the name and those above it, or reports that there is none. |
| `Session.Session.RollbackToSavepoint` | sql/session.go:209-221 | Restores the newest frame of the name from copies, so it can be used again. |
| `Session.Session.DirtyRowPKs` | sql/session.go:128-144 | Exactly the marked keys, none outside a transaction. |
| `Session.Session.Insert` | sql/vtab.go:599-721 | An insert inside the transaction, whatever the context holds: its effects stay pending and its row is marked exactly when it succeeds. |
| `Session.Session.Update` | sql/vtab.go:880-1029 | The same for updates; a key change is refused exactly on a conflict, and then leaves exactly the rows without the old one, which is not marked, and the indexes before the refusing one with the new row. |
| `Session.Session.Delete` | sql/vtab.go:1371-1433 | The same for deletes. |
| `Session.Session.FullScan` | sql/vtab.go:1846-1900 | In any context, the visible rows under a committed key or marked dirty, as the transaction sees them; the table's exact contents when every visible row is committed or dirty. |
| `Session.RunCommands` | sql/session.go:103-233 | Any list of commands carried out on a session is such a run, so it ends covered. |
| `Session.BeginCovered` | sql/transaction.go:195-202 | A transaction starts covered on every committed store whose rows are whole. |
| `Session.HalfKeyIsMissed` | sql/vtab.go:640-700 | With PRIMARY KEY (a, b), INSERT of (1, NULL) in a transaction is refused and leaves a visible row that the full scan misses. |
| `Session.KeyChangeLosesTheRow` | sql/vtab.go:930-966 | A refused key change in a transaction leaves the old row gone and nothing marked dirty; the full scan shows exactly that. |
| `Session.ReinsertLeavesEntry` | sql/vtab.go:640-700 | INSERT under a live key with another indexed value is accepted and leaves the old index entry behind. |
| `JsonTree.AssembleHeld` | redis/json/tree.go:196-250 | Assembling a partition that holds a tree gives the document with the labels erased. |
| `JsonTree.LayoutReads` | redis/json/tree.go:196-250 | A laid-out key reads as its document, orphaned partitions ignored. |
| `JsonWrite.EncodeContainer` | redis/json/tree.go:131-167 | Writes the container into its partition and fresh ones, order kept, and disturbs no other partition. |
| `JsonWrite.EncodeRef` | redis/json/tree.go:171-182 | A scalar stays inline, a container goes into partitions that are all new. |
| `JsonWrite.EncodeRoot` | redis/json/tree.go:118-128 | Any document written to a fresh key reads back as it was. |
| `JsonWrite.WalkToParent` | redis/json/access.go:363-405 | Finds the partition a path leads to exactly when every step goes through a container. |
| `JsonWrite.SetValueAtPath` | redis/json/access.go:411-468 | Applies exactly when the path is settable, makes that one edit in fresh partitions, and emits nothing when it does not. |
| `JsonWrite.PathEditIsSet` | redis/json/access.go:411-468 | That edit of the tree is the document with one location replaced or one member appended, and possible exactly when the latter is. |
| `JsonWrite.JsonSet` | redis/json/core.go:31-130 | JSON.SET on a concrete path: the new document, NX, XX and impossible paths, all exactly. |
| `JsonPath.SetThenGet` | redis/json/access.go:411-468 | The location set reads as the value set. |
| `JsonPath.SetElsewhere` | redis/json/access.go:411-468 | Every location that parts ways with the path reads as before. |
| `JsonEdit.EditHolds` | redis/json/access.go:283-326 | One element effect on the store is one edit of the tree. |
| `JsonMatch.SliceIndices` | redis/json/path.go:587-664 | The loops produce the indices of section 2.3.4 of RFC 9535 for every start, end and step. |
| `JsonMatch.MatchPathResolvesAlone` | redis/json/path.go:433-539 | Every match carries a concrete path that resolves, alone, to that match. |
| `JsonMatch.ResolveDistinct` | redis/json/path.go:433-539 | Matches are pairwise distinct without unions and with at most one descent. |
| `JsonMatch.RepeatedMatches` | redis/json/path.go:433-539 | A union can match one location twice. |
| `JsonMulti.AlterOne` | redis/json/access.go:283-326 | One more effect on an already altered tree is one more change to the original tree. |
| `JsonMulti.AlteredErases` | redis/json/core.go:647-697 | Changes by partition and id are the same changes by path of the document. |
| `JsonCommands.RewriteAll` | redis/json/access.go:166-245 | Every matched location gets the function of its original value, once, all at once; a refusal changes nothing. |
| `JsonCommands.WriteAll` | redis/json/number.go:118-152 | Every write planned from the snapshot applies, and the document is the original with all of them made. |
| `JsonCommands.RewrittenReads` | redis/json/access.go:193-245 | Reading back: the outermost change on the way wins, anything else keeps its value. |
| `JsonCommands.DeleteAll` | redis/json/core.go:593-697 | JSON.DEL removes exactly the originally matched elements, however positions shift, and replies the number of matches. |
| `JsonCommands.CountIsLocations` | redis/json/core.go:647-697 | That number is the number of locations if and only if none is matched twice. |
| `JsonCommands.Window` | redis/json/array.go:451-488 | The clamped window is the positions from start to stop, negative ones counted from the end. |
| `JsonCommands.ArrTrim` | redis/json/array.go:430-505 | From every matched array exactly the elements outside the window go, and the reply is what is kept. |
| `JsonCommands.TrimmedArray` | redis/json/array.go:451-502 | An array so trimmed is the slice of the original. |
| `MergePatch.Merge` | redis/json/core.go:566-590 | The loop computes the merge that `MergeRule` characterises. |
| `MergePatch.MergeRule` | redis/json/core.go:566-590 | Section 2 of RFC 7396, member by member: absent stays, null goes, the rest merges into what was there. |
| `MergePatch.MergeTwice` | redis/json/core.go:566-590 | Applying a patch again changes nothing, member order included. |
| `MergePatch.MergedNoNulls` | redis/json/core.go:566-590 | A document without null members keeps having none, whatever nulls the patch carries. |
| `Bitmap.Reconstruct` | redis/bitmap/core.go:111-184 | The rebuilt bytes have the string's length and agree with `getBit` at every offset. |
| `Bitmap.SetBitApplied` | redis/bitmap/core.go:318-402 | From any form, SETBIT sets that bit, keeps all others and extends as far as needed. |
| `Bitmap.RunIsBitArray` | redis/bitmap/core.go:318-402 | Any run of SETBITs is a growing bit array: last write wins, length is the largest needed. |
| `Bitmap.Key.SetBit` | redis/bitmap/core.go:293-402 | Replies the old bit; an argument out of range is refused and changes nothing. |
| `Bitmap.BitCount` | redis/bitmap/core.go:535-623 | Every range form, and the keyed fast path, counts exactly the set bits `getBit` reads in range. |
| `Bitmap.Key.EmitBulk` | redis/bitmap/core.go:211-288 | Every bit becomes the buffer's; the length does if and only if the base is as long or the last byte is not zero. |
| `Bitmap.BulkCanLoseLength` | redis/bitmap/core.go:211-288 | Writing zero bytes to a new key leaves no length behind. |
| `Bitfield.OverflowsExactly` | redis/bitmap/core.go:1704-1719 | The check refuses exactly the values outside the type, at every width. |
| `Bitfield.WrapExactly` | redis/bitmap/core.go:1736-1775 | WRAP gives the value of the type congruent modulo 2^bits, where 1<<63 is negative too. |
| `Bitfield.SetExactly` | redis/bitmap/core.go:1383-1408 | What SET stores under each policy. |
| `Bitfield.IncrementExactly` | redis/bitmap/core.go:1410-1443 | INCRBY against the true sum: FAIL exact, WRAP congruent, SAT clamped if and only if the sum fits 64 bits. |
| `Bitfield.SatWrapsFirst` | redis/bitmap/core.go:1410-1443 | It does miss the clamp: the largest i64 plus one under SAT is stored as the smallest. |
| `Bitfield.GetBitfieldInt` | redis/bitmap/core.go:1638-1668 | Reads the field in two's complement, past the end and at 64 bits too. |
| `Bitfield.SetBitfieldInt` | redis/bitmap/core.go:1671-1701 | The window gets the value's bits and every other bit stays. |
| `Bitfield.WrittenField` | redis/bitmap/core.go:1638-1701 | An integer of the type, written anywhere it fits, is read back. |
| `Bitfield.Run` | redis/bitmap/core.go:1351-1465 | BITFIELD runs its subcommands in order on the string's bytes and writes back every bit, or nothing when nothing was stored; the length is the buffer's if and only if the base was as long or the last byte is not zero. |
| `Lock.RunKeepsInv` | caddy/lock.go:94-348 | Over every interleaving of callers and clock, what a caller read is still true while nobody wrote, and the ledger of grants, in which only its owner can cut a grant short, is in order. |
| `Lock.GrantsNeverOverlap` | caddy/lock.go:94-130 | No two grants are ever in force at the same moment, where a grant ends early only by its owner's renewal or release. |
| `Lock.GrantHolds` | caddy/lock.go:94-130 | A process whose grant has neither run out nor been given up is the one the lock names. |
| `Lock.OwnerChanges` | caddy/lock.go:94-130 | The lock changes hands only by the owner's release or after the lease has run out. |
| `Lock.OnlyTheOwnerWrites` | caddy/lock.go:202-238 | Renewing or releasing a lock one does not own changes nothing. |
| `Lock.QuietAcquire` | caddy/lock.go:94-130 | Undisturbed, an attempt succeeds if and only if no lease is running when it reads. |
| `Waiters.Registry.Subscribe` | caddy/waiters.go:45-51 | A new open channel is registered under the key. |
| `Waiters.Registry.Unsubscribe` | caddy/waiters.go:57-72 | The channel ends closed and unregistered, closed here only if no wake did it before, others untouched. |
| `Waiters.Registry.Wake` | caddy/waiters.go:78-86 | Closes exactly the key's channels, each open until then. |
| `Waiters.NoLostWake` | caddy/lock.go:141-177 | A goroutine about to block on a stale read has a callback coming that will wake it. |

## Left out

- The effects engine, replication and clock skew: one store, one clock, effects applied in order; a lock transaction aborts exactly when the key was written since its watch.
- `runRMW` retries and key locks: one successful attempt is modelled (sql/vtab.go:2230-2310).
- SQL, JSON and path text: parsing, printing and the plan tag string; a JSONPath filter is any test on values.
- Tables without a primary key, column defaults, NUMERIC columns, unchanged-column markers of updates, row ids.
- Case folding beyond ASCII in column names.
- CREATE, DROP and RENAME TABLE, ADD COLUMN, views, schema refresh.
- JSON numbers: `applyNumOp` and `intPow` are a function on values, so float formatting is not modelled.
- JSON.ARRAPPEND, ARRINSERT, ARRPOP, CLEAR, MGET, MSET: they would only add members like those here.
- BITPOS, BITOP, BITFIELD_RO and the type tags of keys.
- The refresh goroutine and the table of held locks: only the renewal step they perform.
- Session.RunCovered: what COMMIT does with the pending effects; a run is one transaction on one connection.
- Executor.Filter: arguments have their column's type and are not NULL, and REAL values are neither NaN nor negative zero; `Observation.Query` inherits this.
- JsonMatch.SliceIndices: integers do not wrap, so a step near 2^63 is not modelled.
- Bitfield.Run: bit offsets do not wrap, so offsets near 2^63 are not modelled.
- JsonMatch.ResolveDistinct: two descents or a union may also happen to match distinct locations.
