# A verified model of SQLumDash

SQLumDash adds row locking to SQLite. Every connection keeps its writes in private insertion and deletion
trees above the shared tree; row and table locks live in shared memory; a commit merges the private trees into
the shared one. This project models that engine, and the hard self-contained algorithms of the SQLite library
it ships with, and proves what they promise. `dafny verify dfyconfig.toml` checks everything.

What is proved, from the bottom up:

- `SlotRing`, `SlotStore`: the circular open-addressing array both lock areas use. Linear probing and the
  recursive backward-shift deletion, with its three wrap-around patterns, keep every element reachable from its
  hash slot; a deletion removes exactly one element.
- `RowLocks`: the row-lock area refines a finite map from rows to holders over every run of lock, query, unlock
  and bulk-release calls. Bulk release sweeps backwards while deletions move elements under it.
- `TableLocks`: for each kind of request, exactly which levels of other holders refuse it. A request that is granted
  has seen every holder of its table, so in every run of requests, forced settings back and releases the lock levels
  stay compatible. A query answers for the first holder it meets, so it
  misses a level exactly when a holder left at level 0 comes first.
- `CachedRowids`: the array is a dense prefix standing for a map, also through the downward sweep on unsigned
  indexes. The sweep keeps the tables on which a query sees a level; a run in which it forgets a locked one is given.
- `CommitLocks`: the exclusive locks of a commit. Of the tables it writes to, a commit misses those written by
  delete-all alone. A commit that cannot take all it looks for restores the levels exactly when sqlite_master was
  write-locked before and no table taken had the delete-all level; one that nobody is in the way of is granted.
- `Transactions`, `Database`, `Serial`: the transaction protocol as a transition system over any number of
  connections, and the engine's statements refining it. A transaction sees its own statements at once; its end frees
  its rows and no others for the next that asks. Every written key is locked by its writer, so commits commute and publish what the transaction was reading. A run is at every point serial in commit order exactly
  when no commit finds a row that its transaction inserted, deleted and released back through another connection;
  a run in which one does, and which is not serial in any order, is given.
- `MergedCursor`: three cursors advanced together visit exactly the rows the transaction sees, each once, in key
  order, in either direction, exactly when all pairs of keys that a scan has to compare differ by amounts that fit in
  64 bits; the deleted keys are keys of shared rows, as the protocol keeps them. Keys that are not negative always do. A scan of two rows that fails, and one that returns two rows in the
  wrong order, are given.
- `Savepoints`: the undo log. A rollback restores the own row locks exactly when no row held at the savepoint was lost
  since; a delete-all flag exactly when it was not set or the table was not opened since; an own table-lock level
  except of tables first opened after they were locked. It spares the other connections' locks exactly when none of
  its entries is stale. Each failure has its run.
- `HashI64`: the hash table whose buckets are stretches of one doubly linked list refines a map.
- `RunCounts`, `Stat4`, `StatRows`: the ANALYZE sampler. Although counts are filled in late, the samples left at
  the end carry, for each number of columns, the true number of rows that share their key, of rows before it, and
  of different keys before it. The periodic samples are those of the last row of every period. Every key has a sample
  among its rows, or all other samples are kept for keys that are at least as frequent.
- `BtreeMutex`: in no interleaving of entering and leaving shared B-trees do connections wait in a circle, and
  whoever waits, someone at the end of the line can go on. Entering nests: a connection has the mutex of a tree exactly
  while it has entered it more often than left.
- `Bitvec`: the three-form bit set answers every run of operations as a plain set of integers does, until memory
  runs out; then it holds no number it should not.
- `Backup`: with any two page sizes, and the source changing meanwhile, the destination holds the pages copied so
  far, and at the end all of the source. A step that begins ends well exactly as its pages can be read and written, and
  the last one completes the backup.
- `RenameSql`: replacing tokens in place, the right-most first, is replacing them all at once; what is put in their
  place reads as the new name.
- `Arith`: quotients and remainders. `Wrappers`: optional values.

Concurrency is modelled by atomic steps: the functions of the lock areas run under a mutex; statements, commits
and rollbacks are single steps of the transaction protocol; the mutex acquisition of the B-trees is split into its
single lock and unlock steps. Hash functions, the outcomes of memory allocation and of input and output, the order
in which trees are walked at commit and the character classes of the tokenizer are parameters. A null pointer for
data is the number 0. The lock levels above WRITE_LOCK come from a patch that is not part of this model; the order
NOT_LOCKED < READ < WRITE < WRITEEX < EXCLSV is the one the comparisons at `src/rowlock_ipc_table.c:233-236` need.

Where comments and code of the source disagree, the model follows the code. The comment at
`sqlite/src/bitvec.c:95` allows sizes up to 2^32, but the 32-bit rounding up at line 219 covers all numbers only up
to 2^32 - 62. The comment at `sqlite/src/alter.c:924-932` says that tokens are returned in the order of the text; the
code returns the right-most one first, which is what keeps the offsets valid. The comment at
`src/rowlock_ipc_table.c:174-179` says that a commit that fails goes back to the previous levels; the calls at
`src/rowlock.c:2991` and `src/rowlock.c:2996` pass level and mode in each other's place, so most levels stay. The
comment at `src/rowlock_ipc_table.c:561` says that a cached rowid is reset when no one uses the table; the code also
resets it behind a holder left at level 0.

## Model

| member | source | states |
|---|---|---|
| `SlotRing.StepsAreModular` | src/rowlock_ipc_row.c:96-106 | the index steps of the model are the modular ones of the source |
| `SlotRing.Search` | src/rowlock_ipc.c:248-271 | finds the first target on the probe path, or the empty slot that ends it with no target before it, or says that the whole array is used without a target |
| `SlotRing.VacantMeansAbsent` | src/rowlock_ipc.c:248-271 | a probe that stops at an empty slot has met every element stored under its hash |
| `SlotRing.FillKeepsProbing` | src/rowlock_ipc_row.c:196-198 | storing an element where its probe stopped keeps every element reachable |
| `SlotRing.PatternsAgree` | src/rowlock_ipc.c:273-293 | in all three wrap-around cases the test for a movable element accepts exactly the hashes that lie cyclically between the start of the run and the hole |
| `SlotRing.FindRunEnd` | src/rowlock_ipc_row.c:273-285 | the scan for the last element before the next empty slot never goes round, and the run up to there is used |
| `SlotRing.FindRunStart` | src/rowlock_ipc.c:303-312 | the backward scan ends at the first element of the run, just after an empty slot |
| `SlotRing.FindMoveTarget` | src/rowlock_ipc.c:338-350 | the element found may fill the hole, and none after it may; the hole itself when there is none |
| `SlotRing.ClearKeepsProbing` | src/rowlock_ipc.c:351-353 | clearing the hole when nothing later hashes at or before it keeps every element reachable |
| `SlotRing.CopyKeepsProbing` | src/rowlock_ipc.c:354-357 | copying an element into the hole keeps every element reachable |
| `SlotRing.Delete` | src/rowlock_ipc.c:298-360 | removes exactly one element, keeps all others reachable, touches only the run after the hole and moves elements only towards it; the recursion ends because the hole moves towards the end |
| `SlotStore.FillStores` | src/rowlock_ipc_row.c:196-198 | filling an empty slot adds one entry to the map the array stands for |
| `SlotStore.RemoveStores` | src/rowlock_ipc_row.c:285-286 | what a deletion leaves stands for the map without the deleted key |
| `RowLocks.HolderKeepsRow` | src/rowlock_ipc_row.c:161-290 | over every run of calls by anyone, a holder keeps its row until a call names the row or the holder; meanwhile every other request is refused |
| `RowLocks.NoTakeover` | src/rowlock_ipc_row.c:161-364 | a row changes hands only through a state in which nobody holds it |
| `RowLocks.RowLockArea.Lock` | src/rowlock_ipc_row.c:161-203 | OK iff the key was free and a slot besides the last empty one was left, DONE iff the caller held it, LOCKED iff another did, else NOMEM; the map changes only on OK |
| `RowLocks.RowLockArea.Query` | src/rowlock_ipc_row.c:209-242 | LOCKED iff another holder has the row |
| `RowLocks.RowLockArea.Unlock` | src/rowlock_ipc_row.c:244-290 | exactly the named row is released, whoever holds it |
| `RowLocks.RowLockArea.FindEmpty` | src/rowlock_ipc_row.c:332-344 | the backward scan for a place to start the sweep ends at an empty slot |
| `RowLocks.RowLockArea.ReleaseSlot` | src/rowlock_ipc_row.c:348-353 | a slot is looked at again until what deletions moved into it is not selected, which ends |
| `RowLocks.UnlockKeepsSwept` | src/rowlock_ipc_row.c:346-355 | a deletion under the sweep brings no selected element into the slots already swept |
| `RowLocks.RowLockArea.ReleaseAll` | src/rowlock_ipc_row.c:302-364 | exactly the rows of the selected process and owner are released: all of them for (0, 0), those of one process for (pid, 0), those of one owner for (0, owner), those of one holder otherwise |
| `RowLocks.RowLockArea.Perform` | src/rowlock_ipc_row.c:161-364 | every run of calls answers and ends as the finite map does |
| `TableLocks.RaiseKeepsSecure` | src/rowlock_ipc_table.c:205-242 | a granted request keeps the levels compatible, also when an exclusive holder goes back to the level it had: no writer of sqlite_master beside a reader or writer, no two exclusive holders, no WRITEEX holder beside another at WRITE or WRITEEX |
| `TableLocks.ForceKeepsSecure` | src/rowlock_ipc_table.c:206-211 | so does a forced request that takes a holder back to a level it had on the way up, or gives one without a lock at most a read lock |
| `TableLocks.ForcedUpIsUnsafe` | src/rowlock_ipc_table.c:206-211 | forcing a level up gives two exclusive holders |
| `TableLocks.SecureIsSafe` | src/rowlock_ipc_table.c:216-242 | secure levels satisfy the three compatibility rules |
| `TableLocks.RunIsSafe` | src/rowlock_ipc_table.c:181-371 | the levels are secure in every state of every run of requests, forced settings back and releases |
| `TableLocks.TableLockArea.ScanTable` | src/rowlock_ipc_table.c:200-253 | the scan is refused by an element that stands in the way, or stops at the caller's own element, or reaches the first empty slot with nothing in the way |
| `TableLocks.TableLockArea.ScanSawAll` | src/rowlock_ipc_table.c:200-253 | a scan to the first empty slot has seen every holder of the table and knows whether the caller is one |
| `TableLocks.TableLockArea.ObstructedIff` | src/rowlock_ipc_table.c:214-242 | which levels of other holders stand in the way of which requests, in terms of the levels held |
| `TableLocks.TableLockArea.LockTable` | src/rowlock_ipc_table.c:181-272 | a request that the holder's own level does not settle is LOCKED iff: on sqlite_master, reading, another is writing, or writing, another is reading or writing; on another table in normal mode, reading, another is exclusive, writing, another is at WRITEEX or above, for delete-all or exclusively, another is at WRITE or above; for a commit, another is exclusive or running a statement. Readers and writers share a table. A holder that has enough is refused only by one the probe meets first. NOMEM iff it is not refused and the area is full. The previous level is reported, and exactly one slot is written, the holder's own or the first empty one, with its in-use flag unless forced |
| `TableLocks.TableLockArea.Query` | src/rowlock_ipc_table.c:275-316 | a level iff somebody the target stands for has one and no matching element left at level 0 is met first; the level is one of theirs, and the one level when one key matches |
| `TableLocks.TableLockArea.NotMasked` | src/rowlock_ipc_table.c:275-316 | where no matching element is at level 0, no level is missed |
| `TableLocks.TableLockArea.UnlockTable` | src/rowlock_ipc_table.c:318-371 | removes the caller's element, at the end of a statement only a read lock; any other lock then stays and just its slot's in-use flag is cleared |
| `TableLocks.TableLockArea.Perform` | src/rowlock_ipc_table.c:181-371 | every run of the engine's requests and releases on the area leaves the levels compatible |
| `CachedRowids.CachedRowidArea.Set` | src/rowlock_ipc_table.c:474-502 | puts the rowid under its table unless the array is full |
| `CachedRowids.CachedRowidArea.Get` | src/rowlock_ipc_table.c:504-521 | the rowid under the table, 0 when there is none |
| `CachedRowids.TakePair` | src/rowlock_ipc_table.c:549-555 | filling a removed place from the tail keeps the prefix dense and drops just that table |
| `CachedRowids.CachedRowidArea.DropTable` | src/rowlock_ipc_table.c:523-559 | forgets exactly that table |
| `CachedRowids.CachedRowidArea.SweepOne` | src/rowlock_ipc_table.c:592-604 | one place of the sweep, with the tail index wrapping below zero when everything is removed |
| `CachedRowids.CachedRowidArea.Reset` | src/rowlock_ipc_table.c:562-616 | exactly the tables stay, with their rowids, on which somebody has a level that no element left at level 0 hides; where no element of the cached tables is at level 0, these are the tables somebody has locked |
| `CachedRowids.SeenIffPresent` | src/rowlock_ipc_table.c:592-596 | with no element of a table at level 0 the query of the reset sees a level iff the table has a holder |
| `CachedRowids.HidesLevel` | src/rowlock_ipc_table.c:206-211 | two holders lock a table and the first is forced back to level 0: no query for anyone sees the level of the second |
| `CachedRowids.ForgetsLockedTable` | src/rowlock_ipc_table.c:588-604 | in that state the reset forgets the rowid of the table the second holder is writing |
| `CommitLocks.TakeAll` | src/rowlock.c:2951-2977 | takes the tables with rows in their insertion or deletion tree in turn up to the first failure and remembers the levels they had; with nobody else's lock, room and readable tables there is no failure |
| `CommitLocks.GiveBack` | src/rowlock.c:2991-2996 | with level and mode exchanged the call sets a level back only when it was WRITE_LOCK, and otherwise changes nothing |
| `CommitLocks.RestoredIff` | src/rowlock.c:2984-2996 | the levels are those before the attempt iff sqlite_master was at WRITE already and no table taken was at WRITEEX |
| `CommitLocks.ExclusiveIff` | src/rowlock.c:2886-2912 | after a success every table with inserted or deleted rows or the delete-all flag is exclusive iff those with the flag alone were before, because the test looks at the delete-all flag of its own cursor, which nothing sets |
| `CommitLocks.ExclusiveLockTables` | src/rowlock.c:2915-3001 | on success sqlite_master is write-locked, the tables found modified are exclusive, nothing else has changed, and the equivalence above holds; after a failure the levels are restored under just the condition above; with nobody else's lock and room it succeeds; the levels of all holders stay secure in any case |
| `CommitLocks.ClearedTableIsNotTaken` | src/rowlock.c:2886-2912 | a transaction deletes all rows of a table and commits: the locks are granted and the table is not exclusive |
| `Transactions.StepKeepsInv` | src/rowlock.c:1047-1327 | every statement, commit and rollback of any connection keeps: written keys are locked by their writer, deleted keys are shared rows, an inserted row that hides a shared one is recorded as deleted |
| `Transactions.InsertKeepsInvIffEnabled` | src/rowlock.c:1047-1183 | what the cursor layer must promise an insert is exact: a granted insert keeps the protocol iff it holds |
| `Transactions.StatementSeen` | src/rowlock.c:1047-1327 | a transaction sees a granted insert or delete at once and nothing of a refused one; no statement changes the shared rows or another's overlay |
| `Transactions.StatementLocks` | src/rowlock.c:1047-1327 | a granted statement has the lock of its key, a row inserted and deleted again is given up unless it hides a shared one, no other lock changes |
| `Transactions.EndFrees` | src/rowlock.c:2206-2217 | either end of a transaction frees the connection's rows and no others and empties its overlay only; a rollback leaves the shared rows |
| `Transactions.FreedRowIsGranted` | src/rowlock.c:2206-2217 | a row whose holder has ended its transaction is granted to the next that asks, when there is room |
| `Transactions.RunKeepsInv` | src/rowlock.c:1047-1327 | the same in every state of every interleaving |
| `Transactions.WritesAreDisjoint` | src/rowlock.c:1047-1327 | different connections have written different keys |
| `Transactions.CommitsCommute` | src/rowlock.c:2670-2816 | two commits can be exchanged: rows, overlays and locks end up the same |
| `Transactions.CommitUnderOpenTransaction` | src/rowlock.c:3007-3089 | another connection's commit changes what an open transaction sees by that connection's writes and nothing else |
| `Transactions.ViewSize` | src/rowlock.c:2241-2274 | shared plus inserted minus deleted entries is the number of rows the transaction sees |
| `Serial.CommitIsSerialIff` | src/rowlock.c:2670-2816 | a commit equals performing the transaction's writes directly iff no row it gave up is back in the shared rows |
| `Serial.RunIsSerialIff` | src/rowlock.c:1047-1327 | in every interleaving the shared rows are at every point those of running the committed transactions alone in commit order iff no commit finds such a row |
| `Serial.EarlyReleaseIsNotSerial` | src/rowlock.c:1238-1262 | releasing the lock of an inserted row when it is deleted again gives a run that no order of the transactions explains |
| `Database.Engine.Write` | src/rowlock.c:1047-1183 | the insert performed on trees and lock area is the protocol's step: Ok iff the row is the connection's or free with room, LOCKED iff it is another's, else NOMEM; on Ok the row is held and seen, otherwise nothing changes |
| `Database.Engine.Remove` | src/rowlock.c:1214-1327 | the delete is the protocol's step, with the same codes for a shared row; on Ok the row is not seen any more |
| `Database.Engine.Rollback` | src/rowlock.c:2206-2217 | the rollback is the protocol's step: exactly the connection's rows are free, its overlay is empty, the shared rows and all other overlays stay |
| `Database.Engine.CommitDeletes` | src/rowlock.c:2748-2816 | every deleted key is found in the shared rows, so the assertion on the search result never fails, and exactly those keys go |
| `Database.Engine.CommitInserts` | src/rowlock.c:2670-2745 | every inserted row is written to the shared rows |
| `Database.Engine.Commit` | src/rowlock.c:3007-3089 | the commit is the protocol's step; the shared rows become what the transaction was reading and their number is the one the engine counts; exactly the connection's rows are free and its overlay is empty |
| `MergedCursor.CompareIsExactIff` | src/rowlock.c:938-945 | comparing keys by 64-bit subtraction orders them iff their difference fits in 64 bits |
| `MergedCursor.TakesNearerIff` | src/rowlock.c:1407-1428 | of a shared and an inserted row the cursor takes the nearer one iff their difference fits in 64 bits |
| `MergedCursor.VisitedIsOverlay` | src/rowlock.c:1330-1625 | a scan visits the undeleted shared rows and the inserted rows, each once and in key order |
| `MergedCursor.BackwardIsReverse` | src/rowlock.c:1443-1625 | the backward scan is the exact reverse of the forward one |
| `MergedCursor.VisitedIsView` | src/rowlock.c:1330-1625 | what a scan shows is what the transaction reads, and so what its commit publishes |
| `MergedCursor.VisitedCount` | src/rowlock.c:2241-2274 | a scan visits as many rows as the engine counts |
| `MergedCursor.Cursor.ValidTableKey` | src/rowlock.c:3119-3140 | the guard tells whether two different keys are in order iff their difference fits in 64 bits |
| `MergedCursor.Cursor.SeekToExist` | src/rowlock.c:1330-1393 | the loop is the seek by subtraction, with its check of the keys passed |
| `MergedCursor.SeekIsRight` | src/rowlock.c:1330-1393 | a seek all of whose pairs fit goes by the true order of the keys |
| `MergedCursor.SeekFindsAlive` | src/rowlock.c:1330-1393 | a seek by the true order ends on an undeleted row and loses none |
| `MergedCursor.SeekMustFit` | src/rowlock.c:1330-1393 | when the scan shows no row too many, all pairs of its seek fit |
| `MergedCursor.RunVisits` | src/rowlock.c:1330-1625 | however the comparisons turn out, a scan to the end leaves out only deleted rows |
| `MergedCursor.RunIsRight` | src/rowlock.c:1330-1625 | from any position, a scan all of whose pairs fit visits the merged rows ahead and ends |
| `MergedCursor.RunMustFit` | src/rowlock.c:1330-1625 | from any position, a scan that visits the merged rows ahead has compared only pairs that fit |
| `MergedCursor.ScanIsRightIff` | src/rowlock.c:1330-1625 | a whole scan returns the rows of the merged view if all pairs it has to compare fit, and only then when the deleted keys are shared ones |
| `MergedCursor.NearKeysFit` | src/rowlock.c:938-945 | keys in one window of 2^63 always fit |
| `MergedCursor.CleanRunIff` | src/rowlock.c:3119-3140 | without writes a scan fails iff two neighbouring rows are too far apart |
| `MergedCursor.FarRowsSwap` | src/rowlock.c:1407-1428 | a shared and an inserted row too far apart that a scan returns in the wrong order |
| `MergedCursor.Cursor.Choose` | src/rowlock.c:1395-1440 | the cursor stands on the row that the comparison of its two rows says, or there is none |
| `MergedCursor.Cursor.SeekToExistAll` | src/rowlock.c:1395-1440 | settling the cursors changes nothing of what the scan has still to return, or finds a key out of order |
| `MergedCursor.Cursor.Begin` | src/rowlock.c:1443-1513 | starts at the first row of the travel with the whole scan ahead; under delete-all the shared rows are out of play |
| `MergedCursor.Cursor.CheckPositions` | src/rowlock.c:1535-1576 | in a scan the tree not in use is never behind the one in use, whatever the keys |
| `MergedCursor.Cursor.Advance` | src/rowlock.c:1516-1625 | passes exactly the present row of what the scan has still to return; DONE when none is left, CORRUPT when the scan ends there |
| `MergedCursor.Cursor.Current` | src/rowlock.c:2400-2407 | the row read is the next one to be visited |
| `MergedCursor.Cursor.Scan` | src/rowlock.c:1443-1625 | a whole scan in either direction, for any keys, ends well with the rows of the merged view in order if all pairs it has to compare fit or all shared rows are deleted, and only then when the deleted keys are shared ones |
| `MergedCursor.WideTableIsCorrupt` | src/rowlock.c:3119-3140 | a table of two rows in order that a scan takes for corrupt |
| `MergedCursor.Cursor.Count` | src/rowlock.c:2241-2274 | the count of the engine is the number of rows a scan visits |
| `Savepoints.UndoLog.AddHistory` | src/rowlock_savepoint.c:267-299 | appends one entry, or nothing iff the stack is full and cannot grow |
| `Savepoints.UndoLog.Create` | src/rowlock_savepoint.c:135-168 | the latest mark is the present height, and a new one only where it was not; refused iff the stack is full and cannot grow |
| `Savepoints.UndoLog.FindMark` | src/rowlock_savepoint.c:184-196 | the latest mark with the savepoint's number |
| `Savepoints.UndoLog.UndoDownTo` | src/rowlock_savepoint.c:198-234 | undoes the entries above a height, newest first |
| `Savepoints.UndoLog.Savepoint` | src/rowlock_savepoint.c:174-255 | release drops marks only; rollback undoes exactly the entries since the mark and keeps it |
| `Savepoints.RowsRestoredIff` | src/rowlock_savepoint.c:174-255 | after any span of acquiring and giving up rows, opening, locking and clearing tables, with others using the lock area meanwhile and maybe releasing this connection's rows, a rollback leaves the connection the rows it had without those lost since, so it restores the row locks iff none of them was |
| `Savepoints.RegainedIsLost` | src/rowlock_savepoint.c:198-205 | a row given up and acquired again is lost by the rollback |
| `Savepoints.FlagRestoredIff` | src/rowlock_savepoint.c:215-230 | after any such span the rollback restores the delete-all flag of a table iff it was not set at the savepoint or the table was not opened since |
| `Savepoints.OpeningLosesClear` | src/rowlock.c:790-798 | a table is cleared, then after a savepoint written to: rolling back to the savepoint forgets the clearing and the lock |
| `Savepoints.LevelRestoredIff` | src/rowlock_savepoint.c:215-223 | after any such span the rollback restores the own level on a table iff it was 0 or the first entry about it is not its opening |
| `Savepoints.OpeningLosesLevel` | src/rowlock_savepoint.c:215-223 | undoing the opening of a table falls through to its table lock and drops the level it had at the savepoint |
| `Savepoints.RollbackSparesOthers` | src/rowlock_savepoint.c:174-255 | after any such span the rollback leaves the others' locks of all rows the connection did not lose |
| `Savepoints.RollbackSparesIff` | src/rowlock_savepoint.c:198-205 | from any state, a rollback spares the others' locks iff no entry it undoes names a row one of them holds |
| `Savepoints.StaleEntryTakesOthersLock` | src/rowlock_savepoint.c:198-205 | a row given up without touching the history, and locked by another since, is taken from the other by the rollback |
| `HashI64.Link` | src/rowlock_hash.c:66-77 | the list stays doubly linked with the element before its bucket's head, or in front |
| `HashI64.Unlink` | src/rowlock_hash.c:178-185 | the list stays doubly linked without the element |
| `HashI64.SegmentsInsert` | src/rowlock_hash.c:54-78 | an insertion keeps every bucket a contiguous stretch of the list of its recorded length |
| `HashI64.SegmentsRemove` | src/rowlock_hash.c:170-192 | a removal does |
| `HashI64.ChainsRemove` | src/rowlock_hash.c:186-192 | after a removal the chain of every bucket that is not empty is its first element; only empty buckets are left with a stale one |
| `HashI64.HashTable.InsertElement` | src/rowlock_hash.c:54-78 | linking an element in keeps the table well formed and adds just its pair |
| `HashI64.IndexIsBucketIff` | src/rowlock_hash.c:146-147 | the bucket index of a signed key is in range iff the key is not negative or a multiple of the number of buckets |
| `HashI64.HashTable.FindElement` | src/rowlock_hash.c:135-165 | finds the element with the key iff there is one, following only the chain of its bucket |
| `HashI64.HashTable.RemoveElement` | src/rowlock_hash.c:170-202 | removes the key; an empty table gives its buckets up |
| `HashI64.HashTable.Rehash` | src/rowlock_hash.c:88-128 | keeps the elements and their pairs, whether or not the buckets could be allocated; the number of buckets is the one asked for up to the limit |
| `HashI64.HashTable.Find` | src/rowlock_hash.c:207-210 | what the map holds for the key, or 0 |
| `HashI64.HashTable.Insert` | src/rowlock_hash.c:226-260 | overwrites, removes or adds as on a map and returns what was there; with no memory for the element the new data comes back and nothing changes; the buckets grow with ten elements or more, more than two to a bucket, and go with the last element |
| `HashI64.HashTable.Perform` | src/rowlock_hash.c:54-260 | every run of insertions, overwritings, removals and rehashings, with any allocations failing, answers and ends as a map does |
| `Stat4.BetterTransitive` | sqlite/src/analyze.c:511-552 | the preference among samples is transitive |
| `Stat4.PostIff` | sqlite/src/analyze.c:511-526 | the first later count that differs decides, the hash when there is none |
| `Stat4.BetterIff` | sqlite/src/analyze.c:529-552 | preferred is what is kept for more rows, then for fewer columns, then by the later counts |
| `Stat4.FindShared` | sqlite/src/analyze.c:575-590 | covered iff a periodic sample of the closing run lacks its count; otherwise the most preferred sample that lacks it, none iff there is none; the source's assertions on the old sample hold |
| `Stat4.FindMin` | sqlite/src/analyze.c:628-639 | the least preferred sample that is not periodic |
| `Stat4.Place` | sqlite/src/analyze.c:598-639 | the new sample goes last, a full array giving up the one at iMin; order, counts and a sample to give up next are kept |
| `Stat4.InsertBest` | sqlite/src/analyze.c:558-640 | nothing changes when a periodic sample of the closing run lacks its count, else the most preferred sample of the run that lacks it is kept for the run, else the offered row goes last and a full array gives up iMin; every count is 0 or final |
| `Stat4.ImprovesByPlacing` | sqlite/src/analyze.c:598-639 | giving up a sample that weighs least for one that weighs no less loses no sample but for others that weigh as much |
| `Stat4.ServedStays` | sqlite/src/analyze.c:558-640 | a run that has a sample, or gave way to samples that weigh as much, keeps that through every change of the array |
| `Stat4.OfferOne` | sqlite/src/analyze.c:653-659 | the best row of a closing run is offered iff there is room or it is preferred over the sample at iMin; afterwards the run has a sample or a full array holds only samples that weigh as much |
| `Stat4.OfferAll` | sqlite/src/analyze.c:653-661 | offers the best rows of the closing runs, finest first, keeps the array in order, and all closing runs are served so |
| `Stat4.FillAll` | sqlite/src/analyze.c:670-679 | afterwards the counts of the closing runs are their sizes |
| `Stat4.CloseRuns` | sqlite/src/analyze.c:650-680 | the counts of all runs that are over or closing are their sizes, those of the others 0 |
| `Stat4.NextRow` | sqlite/src/analyze.c:727-738 | the counts of the next row from those of the current one |
| `Stat4.PushPeriodic` | sqlite/src/analyze.c:753-760 | the periodic samples are those of the last rows of all complete periods, before and after; none of them is given up |
| `Stat4.KeptIsPeriodEnd` | sqlite/src/analyze.c:753-760 | a row has a periodic sample iff it is the last row of a period |
| `Stat4.FewPeriods` | sqlite/src/analyze.c:460 | with no more rows than were counted at most a third of the samples are periodic, so a full array always has another one to give up |
| `Stat4.BestStays` | sqlite/src/analyze.c:762-768 | a best row that is not replaced is one whose own finer run has ended with it |
| `Stat4.UpdateBests` | sqlite/src/analyze.c:762-768 | the best rows stay rows of their present runs, with the counts they were pushed with, and no row of such a run is preferred over its best row |
| `Stat4.ExtendedLeads` | sqlite/src/analyze.c:762-768 | a row that extends a run leads it iff it is preferred over the row that led it |
| `Stat4.StatAccum.constructor` | sqlite/src/analyze.c:443-478 | an accumulator with no rows is well formed |
| `Stat4.StatAccum.PushPrevious` | sqlite/src/analyze.c:650-680 | before a change of a column, the counts of the runs it closes are filled in; the best rows of the other runs stay |
| `Stat4.StatAccum.Push` | sqlite/src/analyze.c:702-775 | taking the next row in keeps everything: counts, order, periodic samples, best rows, as long as the periodic samples leave room for another |
| `Stat4.StatAccum.Flush` | sqlite/src/analyze.c:879-883 | at the end every sample's counts are exactly the runs of its row, in strictly increasing row order; every run has a sample or a full array holds only samples kept for runs as long |
| `StatRows.Compare` | sqlite/src/analyze.c:1172-1217 | the change column is the first one in which a row differs from the previous one, although only the columns from there on are remembered anew |
| `StatRows.RunIsPrefix` | sqlite/src/analyze.c:1085-1111 | in a sorted index the run of a row in a column is the set of rows that share its prefix, and the rows before it have a smaller one |
| `StatRows.RowCounts` | sqlite/src/analyze.c:727-738 | run sizes and starts are numbers of equal and of smaller rows |
| `StatRows.PrefixCounts` | sqlite/src/analyze.c:727-738 | the number of runs before is the number of different smaller prefixes |
| `StatRows.Analyze` | sqlite/src/analyze.c:1158-1252 | for every sorted index, each sample left has the row's identifier and the true numbers of rows sharing its first j + 1 columns, of rows before, and of different prefixes before; the samples are in order, the periodic ones are those of the last rows of the periods, and every prefix has a sample among its rows or the array is full of periodic samples and such as are kept for prefixes that as many rows share |
| `StatRows.ServedIsRepresented` | sqlite/src/analyze.c:558-640 | what holds of runs holds of the rows that share a prefix |
| `BtreeMutex.StepKeepsInv` | sqlite/src/btmutex.c:71-152 | every single step of Enter, its slow path and Leave keeps flags, owners and order of the mutexes right |
| `BtreeMutex.RunKeepsInv` | sqlite/src/btmutex.c:71-152 | the same in every interleaving of any number of connections |
| `BtreeMutex.WaiterHoldsSmaller` | sqlite/src/btmutex.c:119-136 | a waiting connection holds only mutexes of smaller address |
| `BtreeMutex.NoDeadlock` | sqlite/src/btmutex.c:60-69 | in no state of any run do connections wait for each other in a circle |
| `BtreeMutex.LineMoves` | sqlite/src/btmutex.c:60-69 | behind every waiting connection there is a line at whose end someone can go on |
| `BtreeMutex.BetweenCalls` | sqlite/src/btmutex.c:71-97 | between calls a tree is locked iff it is entered, iff the connection owns its mutex, and then the shared part belongs to it |
| `BtreeMutex.WantCounts` | sqlite/src/btmutex.c:71-152 | in every run a tree is wanted as often as its connection has entered it and not yet left |
| `BtreeMutex.OwnsWhileEntered` | sqlite/src/btmutex.c:71-152 | between calls a connection has the mutex of a tree iff it has entered it more often than left |
| `BtreeMutex.Exclusive` | sqlite/src/btmutex.c:27-50 | no mutex is with two connections |
| `BtreeMutex.CallsEnd` | sqlite/src/btmutex.c:119-136 | every step of the slow path leaves fewer steps to make |
| `BtreeMutex.OthersKeep` | sqlite/src/btmutex.c:27-50 | no step touches the trees or the mutexes of another connection |
| `Bitvec.BitChanged` | sqlite/src/bitvec.c:142-143 | setting or clearing a bit of a byte changes that bit only |
| `Bitvec.CoversIff` | sqlite/src/bitvec.c:219 | the parts of a node keep all numbers iff the 32-bit rounding up does not wrap around |
| `Bitvec.Create` | sqlite/src/bitvec.c:115-123 | a new bit set is empty in either form |
| `Bitvec.Probe` | sqlite/src/bitvec.c:145-150 | probing ends, at the number's slot or at an empty one with the number nowhere |
| `Bitvec.BitNode.Test` | sqlite/src/bitvec.c:130-152 | true iff the number is in the set, out of range never |
| `Bitvec.BitNode.Set` | sqlite/src/bitvec.c:169-232 | adds exactly the number, in every form and through the conversion; when memory runs out it says so and no number is in the set that was not there or is not the one to be set |
| `Bitvec.PutBit` | sqlite/src/bitvec.c:184-187 | setting or clearing a bit of the bitmap form changes that number only |
| `Bitvec.BitNode.SetInHash` | sqlite/src/bitvec.c:188-231 | adds exactly the number to a hash table, or turns a full one into a node |
| `Bitvec.BitNode.ChangePart` | sqlite/src/bitvec.c:175-183 | a change in one part leaves the other parts and their numbers alone |
| `Bitvec.BitNode.SetInNode` | sqlite/src/bitvec.c:175-183 | adds exactly the number, in the part that keeps it |
| `Bitvec.BitNode.Spread` | sqlite/src/bitvec.c:209-227 | turning a full hash table into a node keeps its numbers, or loses some and says so; the recursion ends because the parts are smaller |
| `Bitvec.SubGains` | sqlite/src/bitvec.c:175-183 | a part that gains at most one number leaves a set that gains at most that number |
| `Bitvec.RebuiltHash` | sqlite/src/bitvec.c:255-270 | the rebuilt hash table has all numbers but the cleared one |
| `Bitvec.BitNode.Clear` | sqlite/src/bitvec.c:240-272 | removes exactly the number |
| `Bitvec.Perform` | sqlite/src/bitvec.c:337-403 | every run of operations is answered as a plain set of integers answers it, up to a setting that ran out of memory |
| `Backup.PendingPageIff` | sqlite/src/backup.c:260-261 | the page test for the pending byte is a test of the offset |
| `Backup.PieceFits` | sqlite/src/backup.c:258-276 | with page sizes that divide each other, each copied piece lies within one destination page and starts there at its own file offset |
| `Backup.CopyPiece` | sqlite/src/backup.c:258-283 | copies one piece to its place, or fails |
| `Backup.CopyPage` | sqlite/src/backup.c:227-286 | succeeds iff the page sizes are equal or the destination is not in memory, and every destination page it touches, other than the pending one, can be written; then every byte of the page outside header bytes 28 to 31 and the pending page is in place, and those four hold the source's page count, or what the page says when it is copied anew; nothing outside the page's range changes |
| `Backup.CopyPages` | sqlite/src/backup.c:392-405 | the copy loop of a step keeps all pages before iNext copied and copies the number asked for; it fails iff one of them cannot be read or copied |
| `Backup.WriteExtra` | sqlite/src/backup.c:509-524 | the source pages that share the destination's pending page are written whole at the end |
| `Backup.CutKeepsSource` | sqlite/src/backup.c:453-486 | the number of pages the destination is cut to is positive, never the pending page, and the least that holds the source, or one less where the last would be the pending page, as the source asserts |
| `Backup.Finish` | sqlite/src/backup.c:421-545 | a finished backup is the source in every byte beyond the file header, except for the source's pending page |
| `Backup.Session.Step` | sqlite/src/backup.c:321-570 | every step keeps the copied pages in place; DONE only with the destination complete; a step that cannot begin says why, one with different page sizes in WAL mode fails, one whose input and output succeeds is DONE iff it passes the source and else OK, and a failure on the way has a page as its cause; the remaining count is right iff the source was not cut off below the pages already passed |
| `Backup.Session.Update` | sqlite/src/backup.c:665-692 | a reported page write, also one that adds a page, keeps the copied pages equal to the source; the backup fails with it iff a page already passed cannot be copied |
| `Backup.Session.Truncate` | sqlite/src/backup.c:665-692 | giving up source pages keeps it |
| `Backup.Session.Restart` | sqlite/src/backup.c:705-711 | after an unreported change the backup starts over |
| `Backup.Session.Run` | sqlite/src/backup.c:321-711 | in every run of steps, reported writes, truncations and restarts the destination equals the source on the pages before iNext, until the backup ends or fails |
| `RenameSql.RenameCtx.Next` | sqlite/src/alter.c:933-945 | takes out the right-most token and leaves the others in place |
| `RenameSql.EditedOneMore` | sqlite/src/alter.c:1121-1145 | replacing one more token to the left of those replaced is the text with both replaced at once, at an offset of the original text |
| `RenameSql.Splice` | sqlite/src/alter.c:1135-1143 | the moves in the buffer replace just the token and stay within it |
| `RenameSql.EditSql` | sqlite/src/alter.c:1081-1155 | the result is the text with all tokens replaced at once; the buffer of the allocated size is never exceeded |
| `RenameSql.OrderUnique` | sqlite/src/alter.c:933-945 | the result does not depend on the order in which the tokens are listed |
| `RenameSql.ReplacementReads` | sqlite/src/alter.c:1096-1131 | the text put in place of a token is the new name, or a quoted identifier that reads as the new name |

## Left out

- TableLocks.TableLockArea.UnlockTable: a removal moves elements and not their in-use flags, as in the source, so nothing is promised about whose use a flag stands for.
- TableLocks.RunIsSafe: forced requests take holders back to levels they had, as rollbacks to savepoints do; forcing up is not safe.
- TableLocks.TableLockArea.Query: the process is not compared, as in the source.
- CommitLocks.ExclusiveLockTables: the connection has a write lock on each table it has written rows of, as its statements take; index trees, which have no table lock, are not among the tables.
- Savepoints.UndoLog.Savepoint: entries about index locks and new indexes leave the modelled state alone; the request that forces a table level is taken as granted.
- Savepoints.LevelRestoredIff: read locks that end with their statement are not among the acts.
- Transactions.StepKeepsInv: a statement is one step; DELETE without WHERE is not among the statements, and rowid tables only.
- Bitvec.BitNode.Set: sizes go up to 2^32 - 62, the ones `Bitvec.CoversIff` is right for; the walk down the nodes is a recursion, and the three arrays that share memory are three fields.
- BtreeMutex.StepKeepsInv: B-trees that cannot be shared take no mutex and are not on the lists; a failed attempt to take a mutex at once may happen at any time.
- Backup.Session.Step: page input and output succeeds or fails for good, as the source asserts; a BUSY page would be skipped.
- Stat4.StatAccum.Push: with so many more rows than were counted that the periodic samples fill the array there is none to give up, which the source asserts not to happen; counters do not wrap.
- StatRows.Analyze: the shortcut for single-column unique indexes and the analysis limit are not modelled; column values are integers.
- HashI64.HashTable.Insert: keys are not negative; `HashI64.IndexIsBucketIff` says which others would have a bucket.
- RowLocks.RowLockArea.FindEmpty: the assertion that slot 0 is not reached is taken as compiled out.
- Merged cursor: seek to a key, writes during an open scan, cursor save and restore, and index keys.
- Bulk release of table locks and unique-index locks.
- The contents of sqlite_stat1 and the estimates computed from samples.
- Truncation and synchronisation of backup files, several backups of one source, and the new database written for an empty source.
- Parsing and symbol resolution before a rename.
- Memory-mapped files, processes, signals, the pager, journals and the operating-system layers.
