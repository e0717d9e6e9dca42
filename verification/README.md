# turboGP: verified core

turboGP is a columnar SQL engine whose cells are unsigned 64-bit words. This project models the parts of it
where fast code has to agree with a simple meaning, and proves that it does, for every input and every run.
Where it does not, the project keeps the code as it is, gives an input on which it fails, and proves exactly
when it is right.

- **Substring counting** (`Rotations`, `FmIndex`, `FmRows`). The FM-index sorts the cyclic rotations of the
  text, keeps the last column and two tables, and narrows an interval of rotations backwards through the
  pattern. The interval is proved to be the exact block of rotations at every step, by the LF-mapping argument.
- **String columns and LIKE** (`StringSearch`, `LikeMask`). Packed strings, remapping, the scanning search, and
  the LIKE masks against a recursive matcher.
- **Transactions, savepoints and the log** (`Engine`, `Restarts`, `OpenReplay`, `OpenOrder`, `OpenIds`). A state
  machine over an abstract catalog, the engine object that refines it, and the two replays: one in log order, one
  grouped by transaction.
- **Recursive common table expressions** (`RecursiveCte`). The fixpoint loop, its least closed set and its bound.
- **Hash structures** (`RobinHood`, `FlatHashTable`, `FlatTable`, `GroupRuns`, `GroupCounts`, `PackedWord`,
  `JoinHash`, `Bloom`, `BloomExact`, `FixedAgg`), each for an arbitrary hash function, and the group-by and joins
  built on them (`HashJoin`).
- **Filters** (`RowFilter`, `BatchFilter`, `ClauseColumns`, `FilterMeaning`, `BitmapKernels`). Row-at-a-time
  clauses, column masks, the batch path that writes a clause back as an expression, which rows each operator
  selects on every route, and the packed bitmap kernels.
- **Arithmetic expressions and dates** (`ExprParser`, `Calendar`). The parser on every token list and on printed
  trees, and the day count of the proleptic Gregorian calendar.

`Counting`, `Bits`, `Machine`, `Numerals` and `Options` hold what several of these share. Code that computes a
value is a function; code that updates state or loops is a class or a method proved against such a function.
`dafny verify dfyconfig.toml` checks the whole project.

What the proofs found in the code as it stands:

- A build with overflow checks panics in `FmIndex::count` exactly on patterns of which some suffix is below
  every rotation although its first byte and its remainder occur; a wrapping build is always right.
- `FmIndex::count` counts a pattern that holds a newline across rows.
- `QueryEngine::with_data_dir` restarts transaction ids at 1, so a log that spans a restart can replay an
  unfinished transaction, even one that goes on to roll back, or revive a rolled-back or unfinished one.
  `ROLLBACK TO` is not logged, so it is undone by replay.
- `QueryEngine::open` replays autocommitted statements before all transactions, and transactions in hash-map
  order: it keeps the order of the log, whatever the hash map does, exactly when no autocommitted statement
  follows a transactional one and only one transaction has statements. The ids it goes on to hand out are new
  exactly when every transaction in the log is committed and not rolled back: after a rolled-back or unfinished
  one they are reused, and a transaction committed under an id once rolled back is lost at the next open.
- Displacement in `FlatHashTable::insert` moves keys but not states and returns the slot of the key pushed out
  last. Group counts and sums are conserved in total, but are credited to another key: all groups are right
  for all values exactly on runs without displacement. Counts alone, and aggregates of given values, are right
  after every insertion exactly when each insertion displaces only keys whose state equals the one inserted.
- The 256-slot accumulator loops for ever exactly on the 257th distinct key.
- `Bitmap::or` drops the bytes of the longer operand past the end of the shorter one.
- Dates before 1970 encode above all later ones.
- `build_like_mask` errs on some text for every pattern with an inner wildcard and for the empty one, and on a
  remapped column it loses the rows of a contains scan.
- A literal-first comparison is evaluated without turning the operator round. The batch filter takes a column
  whose name is a number for the column of that number, and keeps every row of a LIKE or NOT LIKE: the
  branch written for them never does anything.

Where a comment disagrees with the code the model follows the code: `FmIndex::build` announces unique
separators and uses a newline; `QueryEngine::open` is documented as replaying committed transactions and
reorders them; `execute_with` is described as appending the new rows and appends the whole result.

## Model

| member | source | states |
|---|---|---|
| `FmIndex.CompareRotations` | src/exec/fm_index.rs:238-252 | the sign it returns is the lexicographic order of the two cyclic rotations, read for one whole turn |
| `Rotations.TurnSettlesAll` | src/exec/fm_index.rs:238-252 | rotations ordered by one turn are ordered at every length, so stopping after `n` bytes loses nothing |
| `FmIndex.SortRotations` | src/exec/fm_index.rs:236-252 | the result is a permutation of all positions in ascending rotation order |
| `FmIndex.ComputeBwt` | src/exec/fm_index.rs:229-256 | the BWT: the byte before each sorted rotation, for the empty text too |
| `FmIndex.BwtCounts` | src/exec/fm_index.rs:229-256 | every count over the BWT equals the count over the text |
| `FmIndex.BuildC` | src/exec/fm_index.rs:83-95 | the keys of C are exactly the bytes of the text and `C[b]` is the number of smaller bytes |
| `FmIndex.BuildOcc` | src/exec/fm_index.rs:97-110 | row `b` of Occ at `k` is the number of `b` among the first `k` bytes of the BWT, for every `k` |
| `FmIndex.Concatenate` | src/exec/fm_index.rs:47-64 | the indexed text is every row followed by a newline, in order |
| `FmIndex.Build` | src/exec/fm_index.rs:47-113 | the index represents the concatenated text: sorted rotations, their BWT, exact C and Occ |
| `Rotations.Boundaries` | src/exec/fm_index.rs:184-212 | in the sorted order, the rotations below a word are the first `Lo` rows and those at most the word the first `Hi` rows |
| `Rotations.BlockIsExact` | src/exec/fm_index.rs:184-212 | row `i` begins with the word if and only if `Lo <= i < Hi` |
| `Rotations.BlockSize` | src/exec/fm_index.rs:206-211 | the block between the boundaries has as many rows as the word has cyclic occurrences |
| `Rotations.BackwardStep` | src/exec/fm_index.rs:194-205 | the LF-mapping: both boundaries of `c` followed by `w` are the count of smaller bytes plus the rank of `c` at the boundary of `w` |
| `FmIndex.SearchStep` | src/exec/fm_index.rs:194-205 | the table look-ups of one iteration compute the block boundaries of the longer suffix |
| `FmIndex.CountPattern` | src/exec/fm_index.rs:184-212 | for every text and pattern a wrapping build returns the number of cyclic occurrences, and 0 for the empty pattern; a checked build panics if and only if `Underflows`, and otherwise returns the same |
| `FmIndex.HiZero` | src/exec/fm_index.rs:203-205 | the value decremented is zero exactly when every rotation is greater than the suffix read so far |
| `FmIndex.NoUnderflowBefore` | src/exec/fm_index.rs:194-208 | once a suffix is lost no earlier position can underflow, so early exits never hide a panic |
| `FmRows.MatchIsLinear` | src/exec/fm_index.rs:47-63 | a match of a word without the final separator never reads round the end of the text |
| `FmRows.SeparatorCuts` | src/exec/fm_index.rs:47-63 | occurrences of a newline-free word in joined text are those in the two halves |
| `FmRows.RowLevelCount` | src/exec/fm_index.rs:184-212 | for newline-free patterns the cyclic count is the sum over rows of overlapping occurrences |
| `FmRows.RowLevelExact` | src/exec/fm_index.rs:184-212 | that holds for every list of rows if and only if the pattern has no newline |
| `FmRows.SeparatorIsCounted` | src/exec/fm_index.rs:184-212 | every pattern with a newline is counted across the two rows it is cut into, neither of which contains it |
| `FmRows.NoUnderflow` | src/exec/fm_index.rs:199-205 | patterns of bytes above the newline never underflow |
| `FmRows.CountInRows` | src/exec/fm_index.rs:47-212 | building then counting: it panics exactly where a checked build underflows, never on bytes above the newline, and otherwise returns the row-level total of every newline-free pattern |
| `FmRows.TabsPanic` | src/exec/fm_index.rs:199-205 | a concrete pattern on which a checked build panics |
| `StringSearch.MemchrSearch` | src/exec/fm_index.rs:400-425 | true if and only if the needle occurs in the haystack, for empty needles and short haystacks too |
| `StringSearch.NewColumn` | src/exec/fm_index.rs:278-287 | packing then reading gives back every string |
| `StringSearch.Remap` | src/exec/fm_index.rs:303-324 | for any indices, repeated or out of range, row `j` of the result is row `indices[j]` of the original |
| `StringSearch.SliceIsGet` | src/exec/fm_index.rs:373-385 | the slice `remap` copies is what `get` returns, at every index |
| `StringSearch.LikeContainsMask` | src/exec/fm_index.rs:345-357 | one flag per kept string, true exactly where the pattern occurs |
| `LikeMask.BuildLikeMask` | src/engine/dispatch.rs:563-630 | the mask computed for every pattern, with the length the code gives it |
| `LikeMask.Wildcards` | src/engine/dispatch.rs:563-630 | the reference matcher reads byte 37 as any text and byte 95 as any one character |
| `LikeMask.SimpleLikeIsLike` | src/engine/dispatch.rs:563-630 | for percents around a literal the anchored test equals a recursive LIKE matcher exactly when the pattern or the text rules out the empty-pattern case |
| `LikeMask.LikeBitExact` | src/engine/dispatch.rs:563-630 | for every pattern: the bit is LIKE on every text if and only if the pattern is not empty and has no inner wildcard |
| `LikeMask.InnerWildcardErrs` | src/engine/dispatch.rs:575-630 | every pattern with an inner wildcard has a text on which the bit is wrong |
| `LikeMask.LiteralMaskExact` | src/engine/dispatch.rs:563-630 | for percents around a literal and one column: the mask is right if and only if the strings a contains scan needs were kept and an empty pattern meets only empty rows |
| `LikeMask.LikeMaskExact` | src/engine/dispatch.rs:563-630 | over all columns that kept their strings the mask is the LIKE mask if and only if the pattern is non-empty percents around a literal; over all columns, remapped ones too, if and only if it also needs no contains scan |
| `LikeMask.InnerWildcardMisses` | src/engine/dispatch.rs:563-630 | a concrete pattern with an inner percent on which the mask is wrong |
| `Engine.QueryEngine.constructor` | src/engine/mod.rs:189-221 | a new engine: no transaction, no savepoints, empty log, first id 1 |
| `Engine.QueryEngine.ExecuteInner` | src/engine/mod.rs:678-848 | one statement or savepoint command on the working catalog, logging after success only; it succeeds exactly when the statement does or the savepoint is on the stack, and on failure nothing changes |
| `Engine.QueryEngine.Execute` | src/engine/mod.rs:613-662 | the snapshot swap implements the abstract step, and the command succeeds exactly when `Accepts` says: no transaction for BEGIN, one for COMMIT and ROLLBACK, the savepoint on the stack, the statement applicable |
| `Engine.AcceptedIsLogged` | src/engine/mod.rs:613-662 | a rejected command changes nothing; the log grows by one record exactly for accepted commands that are not about savepoints |
| `Engine.EndIsFinal` | src/engine/mod.rs:622-641 | after COMMIT the main catalog is the one the transaction worked on, after ROLLBACK the one before, and in both cases no savepoint can be rolled back to or released any more |
| `Engine.SavepointsStay` | src/engine/mod.rs:1092-1134 | in every run without COMMIT, ROLLBACK, ROLLBACK TO and RELEASE the savepoints stay on the stack, across BEGIN too |
| `Engine.ReleaseForgets` | src/engine/mod.rs:1126-1134 | after any run that keeps the savepoint, RELEASE leaves the stack as it was before it; a ROLLBACK TO that name then does nothing unless an older savepoint has it |
| `Engine.MarkersAreSkipped` | src/engine/mod.rs:262-279 | rollback records and records without a statement change nothing in replay |
| `Engine.QueryEngine.ReplayWal` | src/engine/mod.rs:245-285 | the two-pass loop computes the abstract replay and leaves log, ids and savepoints alone |
| `Engine.FindSavepoint` | src/engine/mod.rs:1110-1134 | the latest savepoint of that name |
| `Engine.StepRecoverable` | src/engine/mod.rs:613-662 | a step keeps the log and the state in agreement if and only if it does not roll the work back to a different catalog |
| `Engine.RunRecoverable` | src/engine/mod.rs:613-662 | a run on fresh ids is recoverable at every point if and only if every successful `ROLLBACK TO` in it restores the catalog already in work |
| `Engine.SessionRecoverable` | src/txn/mod.rs:45-62 | ids handed out by one session are fresh throughout, so the same holds of every session |
| `Engine.LogPrefix` | src/engine/mod.rs:377-399 | every prefix of the log is the whole log of a prefix of the run |
| `Engine.RunRestorable` | src/engine/mod.rs:613-662 | at every point of such a run replaying the log gives the main catalog, and the snapshot too as long as the active transaction has lost no work |
| `Engine.KeepsWorkCommits` | src/engine/mod.rs:1110-1122 | runs whose `ROLLBACK TO`s all restore the catalog in work are such runs |
| `Engine.CrashRecovery` | src/engine/mod.rs:245-285 | for every run in which no `ROLLBACK TO` outside a transaction, or inside one that commits, loses work: replaying any prefix of the log rebuilds exactly the catalog committed at that point |
| `Engine.RollbackToExact` | src/engine/mod.rs:1110-1122 | after a successful `ROLLBACK TO` and commit, replay is right if and only if the savepoint catalog was still the working one |
| `Engine.RollbackToReplayed` | src/engine/mod.rs:1110-1122 | a run that rolls a statement back to a savepoint and commits: the engine is back at the start, replay has run the statement |
| `Restarts.ReopenRecovers` | src/engine/mod.rs:227-241 | a restart restores the committed catalog and a recoverable state |
| `Restarts.Restart` | src/engine/mod.rs:227-241 | a new engine with the log attached and replayed has exactly the reopened state: the replayed catalog, the same log, first id 1, no transaction and no savepoint |
| `Restarts.ReuseHappens` | src/txn/mod.rs:45-62 | the id a restarted engine hands out first may already be committed in its log |
| `Restarts.ReusedIdExact` | src/engine/mod.rs:255-285 | with a reused committed id the whole unfinished transaction is replayed: at every point of it, and after rolling it back, recovery is right if and only if its snapshot is still the main catalog |
| `Restarts.DeadIdReplayed` | src/engine/mod.rs:255-285 | an empty transaction committed under any id leaves the catalog alone and has every logged statement of that id replayed |
| `Restarts.UnstatedRecovers` | src/engine/mod.rs:255-285 | whatever statements do, a transaction begins and commits recoverably if the log held no statement of its id and no commit of it |
| `Restarts.DeadIdExact` | src/engine/mod.rs:255-285 | for the catalog that keeps every statement: beginning and committing under an id that is not committed is recovered if and only if the log holds no statement of that id, so neither a rolled-back nor an unfinished one |
| `Restarts.UnfinishedIdExact` | src/engine/mod.rs:255-285 | under the id of the transaction that a crash left unfinished, for any catalog: recovery is right if and only if the dead snapshot is the committed catalog |
| `Restarts.RolledBackIdHappens` | src/txn/mod.rs:76-86 | begin, a statement, rollback, reopen, begin, commit: replay shows the statement that was rolled back |
| `Restarts.DeadIdHappens` | src/txn/mod.rs:45-62 | begin, a statement, crash, reopen, begin, commit: replay shows the statement that never committed |
| `Engine.Isolation` | src/engine/mod.rs:645-660 | no run inside a transaction changes the main catalog |
| `Engine.RollbackRestores` | src/txn/mod.rs:76-81 | `ROLLBACK` leaves the catalog as at `BEGIN` |
| `Engine.SavepointSurvives` | src/engine/mod.rs:1092-1134 | a savepoint neither re-declared nor popped is still the one its name finds |
| `Engine.RollbackToRestores` | src/engine/mod.rs:1110-1122 | `ROLLBACK TO` restores the catalog of the latest live savepoint after any such run |
| `OpenReplay.ReplayWal` | src/storage/recovery.rs:273-336 | for any order of the hash map, the engine ends with autocommitted statements applied first and then each live transaction in that order, and has used up one id per live transaction |
| `OpenReplay.Open` | src/engine/mod.rs:356-366 | the whole state of the opened engine: that catalog, no transaction or savepoint, the next id after those used up, and the log as it was found |
| `OpenReplay.GroupedExact` | src/storage/recovery.rs:278-333 | grouping leaves the statements in log order if and only if none precedes a statement of an earlier group |
| `OpenReplay.ReplayApplies` | src/engine/mod.rs:245-285 | the replay in log order applies exactly the surviving statements in log order |
| `OpenReplay.ReplaysAgree` | src/storage/recovery.rs:273-336 | the two replays apply the same sequence if and only if the surviving statements are ranked, and then rebuild the same catalog |
| `OpenOrder.OpenExact` | src/storage/recovery.rs:273-336 | the survivors are in log order for every order of the hash map if and only if no autocommitted one follows a transactional one and at most one transaction has statements |
| `OpenOrder.SameCatalogExact` | src/storage/recovery.rs:273-336 | for the catalog that keeps every statement and logs whose survivors all differ: both replays rebuild the same catalog for every order of the hash map if and only if the survivors are grouped so |
| `OpenReplay.SessionEnded` | src/engine/mod.rs:613-662 | in every session log markers carry no statement and no transaction is both committed and rolled back |
| `OpenOrder.OpenRecovers` | src/storage/recovery.rs:273-336 | for every order of the hash map, opening on any prefix of a session log whose survivors are grouped already rebuilds the catalog committed there |
| `OpenReplay.OpenReorders` | src/storage/recovery.rs:288-333 | a committed transaction followed by an autocommitted statement is replayed the other way round, whatever the statements |
| `OpenIds.OpenedId` | src/storage/recovery.rs:307-333 | an opened engine has begun as many transactions as the log committed |
| `OpenIds.OpenMeetsCommitted` | src/storage/recovery.rs:307-333 | the ids it hands out from then on never meet a committed one if and only if the committed transactions were the first of the log |
| `OpenIds.SessionNumbered` | src/txn/mod.rs:45-62 | every session keeps the ids of its log an unbroken range from 1, reaching at least to the last id handed out |
| `OpenIds.OpenedNumbered` | src/storage/recovery.rs:307-333 | and so does opening an engine on such a log, however often |
| `OpenIds.OpenReuseExact` | src/storage/recovery.rs:307-333 | no id that the opened engine goes on to hand out is carried by any record of the log if and only if every transaction of the log is committed and not rolled back |
| `OpenIds.OpenLosesCommit` | src/storage/recovery.rs:307-315 | a transaction rolled back, an open, a transaction committed under the same id, another open: the committed statement is lost for every order of the hash map |
| `RecursiveCte.ComputeNewRows` | src/engine/mod.rs:2298-2327 | the number of result rows whose content is not in the table |
| `RecursiveCte.NewCountIsSize` | src/engine/mod.rs:2298-2327 | the count is the size of the set of those row numbers |
| `RecursiveCte.NothingNew` | src/engine/mod.rs:2298-2327 | that number is zero if and only if the result rows are a subset of the table rows |
| `RecursiveCte.AppendResultRows` | src/engine/mod.rs:2330-2338 | every column is extended by the result column |
| `RecursiveCte.AppendedRows` | src/engine/mod.rs:2330-2338 | the row set becomes the union |
| `RecursiveCte.Recurse` | src/engine/mod.rs:1907-1949 | the loop returns the table of its round, breaking exactly at the first closed stage within the cap; the cap is the one asked for, or 100000 if none is |
| `RecursiveCte.StageLeastClosed` | src/engine/mod.rs:1891-1950 | a closed stage of a monotone query is the least closed set over the anchor |
| `RecursiveCte.StageGrows` | src/engine/mod.rs:1891-1950 | every unfinished round adds a row from the universe |
| `RecursiveCte.RecursionComplete` | src/engine/mod.rs:1891-1950 | stopping by the break gives the least closed set; over a finite universe the break comes within one round more than the rows to discover, if the cap allows |
| `RobinHood.PlaceCorrect` | src/exec/flat_hash_table.rs:69-96 | for every hash: a present key is found and nothing changes; a new key joins the set, one free slot is taken and returned, and the probe-distance invariant with saturated distances is kept |
| `RobinHood.ProbeFinds` | src/exec/flat_hash_table.rs:75-95 | a resident key is found before any slot could be taken or displaced |
| `RobinHood.ProbeAdds` | src/exec/flat_hash_table.rs:75-95 | a new key ends in the table through any chain of displacements, with no key lost or doubled |
| `RobinHood.Displace` | src/exec/flat_hash_table.rs:84-92 | swapping with a resident nearer its home keeps the invariant for both |
| `RobinHood.ReturnedSlotExact` | src/exec/flat_hash_table.rs:69-96 | the slot returned holds the inserted key if and only if the probe settles without displacement |
| `RobinHood.StoredDistance` | src/exec/flat_hash_table.rs:75-95 | the stored distance of every resident key is its true one up to 255, where the byte saturates |
| `FlatHashTable.PlaceKeyOk` | src/exec/flat_hash_table.rs:69-96 | one insertion keeps `len` equal to the number of taken slots |
| `FlatHashTable.RoomAfterCheck` | src/exec/flat_hash_table.rs:70-73 | the load check always leaves a free slot, so the probe ends |
| `FlatHashTable.GrowConserves` | src/exec/flat_hash_table.rs:98-117 | resizing keeps the key set, `len` and the total of every weight of states |
| `FlatHashTable.GroupByKeys` | src/exec/flat_hash_table.rs:141-201 | the keys of the table are the keys of the rows, each once, and `len` is their number |
| `FlatHashTable.CountsConserved` | src/exec/flat_hash_table.rs:141-201 | counts over all groups add up to the number of rows, displacements and resizes included |
| `FlatHashTable.SumsConserved` | src/exec/flat_hash_table.rs:141-201 | sums over all groups equal the sum of the values modulo 2^64 |
| `FlatHashTable.CleanRunGroups` | src/exec/flat_hash_table.rs:141-201 | on a run without displacement every group is the fold of its own rows, for counts and for full aggregates |
| `FlatHashTable.FoldSummarizes` | src/exec/flat_hash_table.rs:31-42 | that fold is the number of the rows of the key and, for full aggregates, the sum of their values modulo 2^64, the least and the greatest of them; a key without rows has the fresh state |
| `FlatHashTable.RunLoaded` | src/exec/flat_hash_table.rs:70-73 | after every run the table is at most one key above three quarters full, and it has doubled only when more than three quarters full |
| `GroupRuns.RowExact` | src/exec/flat_hash_table.rs:69-96 | on a table that need not grow and whose groups are right, one more row keeps them right for every value if and only if its insertion displaces nothing |
| `GroupRuns.UncleanRehash` | src/exec/flat_hash_table.rs:98-117 | the last displacing move of a growth leaves a wrong sum that no later move touches |
| `GroupRuns.UncleanFeed` | src/exec/flat_hash_table.rs:69-117 | a row that displaces, itself or by the growth it causes, makes some group wrong when groups have different sums |
| `GroupRuns.RunSame` | src/exec/flat_hash_table.rs:69-117 | which slots are taken, and whether a run displaces, depend on the keys only |
| `GroupRuns.GroupsExact` | src/exec/flat_hash_table.rs:141-201 | for every sequence of keys, all groups are right after every row whatever the values if and only if no insertion of the run displaces a key |
| `GroupRuns.CountsOfOne` | src/exec/flat_hash_table.rs:141-201 | counts alone are right on every run of distinct keys, displacements and growth included |
| `GroupRuns.CountsHideDisplacement` | src/exec/flat_hash_table.rs:84-92 | a displacing run whose counts are right, so for counts alone displacement is not what decides |
| `GroupCounts.ProbeHolds` | src/exec/flat_hash_table.rs:75-95 | placing an absent key with a state: every slot holds what its key should if and only if the key and all keys displaced should hold that state |
| `GroupCounts.RowHoldsExact` | src/exec/flat_hash_table.rs:69-96 | for counts and for full aggregates: one row keeps right groups right if and only if its key is there already or every key it displaces has exactly the state of a first row |
| `GroupCounts.MoveExact` | src/exec/flat_hash_table.rs:98-117 | one move of a growth keeps right groups right if and only if it displaces only keys that hold the moved state |
| `GroupCounts.MovesExact` | src/exec/flat_hash_table.rs:98-117 | so groups are right after every move if and only if every move is like that |
| `GroupCounts.InsertionsExact` | src/exec/flat_hash_table.rs:141-201 | for counts and for full aggregates, with the values the run has: groups are right after every insertion, moves of growth included, if and only if every insertion displaces only keys whose state is the one inserted |
| `GroupCounts.FairExact` | src/exec/flat_hash_table.rs:69-117 | one row, growth included, keeps right groups right if and only if each slot ends with the fold of the key that has it, told from which key landed where |
| `GroupCounts.RowsExact` | src/exec/flat_hash_table.rs:141-201 | for counts and for full aggregates, with the values the run has: groups are right after every row if and only if every row of the run is like that |
| `GroupCounts.CountGoesWrong` | src/exec/flat_hash_table.rs:84-92 | the keys 0, 1, 1, 2 under a colliding hash: COUNT alone is wrong |
| `FlatTable.HashTable.constructor` | src/exec/flat_hash_table.rs:55-66 | an empty table whose capacity is the least power of two of at least 16 slots and twice the expected groups |
| `FlatTable.HashTable.Probe` | src/exec/flat_hash_table.rs:75-95 | the probing loop computes `Place` and counts a newly taken slot |
| `FlatTable.HashTable.Insert` | src/exec/flat_hash_table.rs:69-96 | grow if overloaded, then place; the invariant is kept |
| `FlatTable.HashTable.MakeRoom` | src/exec/flat_hash_table.rs:70-72 | after the load check the table has a free slot, the same keys and the same states |
| `FlatTable.HashTable.Resize` | src/exec/flat_hash_table.rs:98-117 | the in-place resize is the abstract growth |
| `FlatTable.HashTable.MoveOne` | src/exec/flat_hash_table.rs:110-115 | one old slot inserted again with its state, without growing again |
| `FlatTable.HomeIsMasked` | src/exec/flat_hash_table.rs:74-75 | for a power-of-two capacity the home slot is the hash under the mask |
| `FlatTable.HashTable.Iterate` | src/exec/flat_hash_table.rs:121-125 | the resident keys with their states, in slot order |
| `FlatTable.EmittedTotal` | src/exec/flat_hash_table.rs:121-125 | what iteration emits has the total weight of the table |
| `FlatTable.EmittedKeys` | src/exec/flat_hash_table.rs:121-125 | and exactly its resident keys, none twice |
| `FlatTable.GroupByFlat` | src/exec/flat_hash_table.rs:141-201 | every key once, counts adding up to the rows, sums to the sum of the values modulo 2^64, and when nothing was displaced the count, sum, minimum and maximum of each key's own values |
| `FlatTable.DisplacementMixesGroups` | src/exec/flat_hash_table.rs:84-92 | a concrete run in which displacement credits one key with the value of another |
| `PackedWord.PackTrip` | src/exec/join_hash_table.rs:147-152 | tag and index come back from the packed word |
| `PackedWord.WordLayout` | src/exec/join_hash_table.rs:118-123 | the tag is the top 16 bits of the word and the index its low 32 |
| `PackedWord.BloomTag` | src/exec/join_hash_table.rs:109-111 | a tag is never zero and fits 16 bits |
| `PackedWord.TagBits` | src/exec/join_hash_table.rs:106-111 | the tag is bits 16 to 31 of the hash with the lowest one set |
| `PackedWord.RelinkedKeeps` | src/exec/join_hash_table.rs:118-153 | OR-ing tags keeps every tag already admitted and admits the new one |
| `PackedWord.SlotOf` | src/exec/join_hash_table.rs:129 | the shifted hash is always a slot of the directory |
| `PackedWord.SlotIsTop` | src/exec/join_hash_table.rs:127-130 | the slot is the top bits of the hash |
| `JoinHash.LogSize` | src/exec/join_hash_table.rs:76-85 | the directory is the least power of two of at least 16 slots and twice the expected entries |
| `JoinHash.TagsNeverHide` | src/exec/join_hash_table.rs:184-192 | a key the tag check rejects was never inserted |
| `JoinHash.TagTestExact` | src/exec/join_hash_table.rs:118-123 | the tag test lets a probe through if and only if something fell in its slot and every bit of its tag came with some insertion there |
| `JoinHash.ChainLink` | src/exec/join_hash_table.rs:195-201 | following `next` goes strictly down and skips no row of the key |
| `JoinHash.RelinkHeaded` | src/exec/join_hash_table.rs:144-153 | linking a new head keeps every directory word the newest entry of its slot |
| `JoinHash.JoinTable.constructor` | src/exec/join_hash_table.rs:76-85 | an empty multimap |
| `JoinHash.JoinTable.Insert` | src/exec/join_hash_table.rs:127-154 | appends one pair to the multimap, growing the entries when full |
| `JoinHash.JoinTable.ProbeAll` | src/exec/join_hash_table.rs:184-202 | exactly the rows inserted under the key, newest first |
| `JoinHash.JoinTable.Probe` | src/exec/join_hash_table.rs:159-179 | the head of that list |
| `Bloom.SetTest` | src/exec/bloom_filter.rs:176-194 | a set bit tests true and no test that was true becomes false |
| `Bloom.WordIsMasked` | src/exec/bloom_filter.rs:176-194 | for a power of two of words the word of a bit is its index shifted by six under the mask |
| `Bloom.NoFalseNegatives` | src/exec/bloom_filter.rs:199-277 | every inserted key may be contained, after any further insertions |
| `Bloom.RepeatedKey` | src/exec/bloom_filter.rs:236-252 | inserting a key again changes no bit, so the batch may skip repeats |
| `Bloom.EmptyHoldsNothing` | src/exec/bloom_filter.rs:265-277 | an empty filter with at least one hash contains nothing |
| `BloomExact.SetTestExact` | src/exec/bloom_filter.rs:176-195 | setting a bit changes the answer for that bit only |
| `BloomExact.BitsExact` | src/exec/bloom_filter.rs:176-222 | after any insertions a bit is set if and only if it was before or is one of the positions `h1 + i * h2` of an inserted key, modulo the number of bits |
| `BloomExact.ClaimsExact` | src/exec/bloom_filter.rs:199-285 | a filter filled from empty claims a key if and only if each of its positions is a position of some inserted key: the false positives, exactly |
| `Bloom.Filter.constructor` | src/exec/bloom_filter.rs:81-92 | a power of two of words with at least ten bits per expected item, the least such, all clear |
| `Bloom.Filter.Insert` | src/exec/bloom_filter.rs:199-207 | sets the bits of the key and counts it |
| `Bloom.Filter.InsertBatch` | src/exec/bloom_filter.rs:226-257 | leaves the same bits as scalar inserts in order; repeats inside a block of eight are not counted |
| `Bloom.Filter.MightContain` | src/exec/bloom_filter.rs:265-277 | true if and only if every bit of the key is set |
| `Bloom.Filter.MightContainBatch` | src/exec/bloom_filter.rs:320-369 | bit `i` of the mask is the scalar answer for key `i` |
| `Bloom.FilteredProbe` | src/engine/tpch.rs:2331-2338 | skipping the table on a negative answer returns the same rows for every probe |
| `FixedAgg.Accumulator.constructor` | src/exec/fixed_agg.rs:58-69 | no rows absorbed |
| `FixedAgg.Accumulator.GetOrCreateSlot` | src/exec/fixed_agg.rs:74-88 | with at most 256 distinct keys the probe ends at the first slot that is free or holds the key, which becomes its own |
| `FixedAgg.ProbeEndsExact` | src/exec/fixed_agg.rs:74-88 | the probing loop stops after some number of steps if and only if the key is there or a slot is free |
| `FixedAgg.SeatIsFirst` | src/exec/fixed_agg.rs:74-88 | the slot it stops at is the first and only one |
| `FixedAgg.FirstSeat` | src/exec/fixed_agg.rs:74-77 | the first key goes to the slot of its lowest byte |
| `FixedAgg.StreamExact` | src/exec/fixed_agg.rs:74-88 | some row of a stream never finds a slot if and only if the stream has more than 256 distinct keys; otherwise there is one slot per key |
| `FixedAgg.KeyTooMany` | src/exec/fixed_agg.rs:74-88 | the keys 0 to 255 find slots and the key 256 after them never does |
| `FixedAgg.Accumulator.AddSum` | src/exec/fixed_agg.rs:92-94 | one cell of the sums is added to and nothing else changes |
| `FixedAgg.Accumulator.UpdateMin` | src/exec/fixed_agg.rs:104-107 | one cell of the minima is lowered and nothing else changes |
| `FixedAgg.Accumulator.UpdateMax` | src/exec/fixed_agg.rs:111-114 | one cell of the maxima is raised and nothing else changes |
| `FixedAgg.Accumulator.AddRow` | src/exec/fixed_agg.rs:74-114 | absorbing a row keeps every slot the fold of its own group |
| `FixedAgg.Accumulator.AddRows` | src/exec/fixed_agg.rs:74-114 | so does every stream of rows with at most 256 distinct keys |
| `FixedAgg.Accumulator.Finalize` | src/exec/fixed_agg.rs:118-137 | every key once, with the count of its rows and each aggregate folded over exactly those rows in arrival order |
| `FixedAgg.FoldExtremes` | src/exec/fixed_agg.rs:104-114 | for every strict weak order of the values the folds of the updates are the least and the greatest value of the group |
| `FixedAgg.GroupExtremes` | src/exec/fixed_agg.rs:118-137 | so MIN and MAX of a result are the least and the greatest value of its rows, and COUNT their number |
| `HashJoin.KeysEqualIsKeyOf` | src/exec/join.rs:59-74 | two rows have equal key tuples exactly when every key column agrees |
| `HashJoin.BuildTable` | src/exec/join.rs:58-63 | every key, whether any row has it or not, leads to exactly the rows with it, ascending |
| `HashJoin.HashJoin` | src/exec/join.rs:48-117 | an error exactly without keys; otherwise the nested-loop rows in nested-loop order, then the unmatched right rows; every column has `row_count` cells |
| `HashJoin.JoinExact` | src/exec/join.rs:62-113 | for every join type the output pairs are exactly the matching ones, the unmatched left rows of left and full joins and the unmatched right rows of right and full joins |
| `HashJoin.JoinOnce` | src/exec/join.rs:62-113 | and each pair comes out once |
| `HashJoin.LeftRowsOut` | src/exec/join.rs:75-84 | a left row comes out of a left or full join always, of the others exactly with a match |
| `HashJoin.RightRowsOut` | src/exec/join.rs:99-111 | a right row comes out of a right or full join always, of the others exactly with a match |
| `HashJoin.OutputRow` | src/exec/join.rs:76-111 | an output row is the cells of its left row followed by the cells of its right row, with zeros for a missing one |
| `HashJoin.FilterJoin` | src/exec/join.rs:120-159 | semi and anti join keep the matching, or the other, left rows in order |
| `HashJoin.MatchesExact` | src/exec/join.rs:70-97 | the matches of a left row are exactly the right rows with its key, ascending |
| `HashJoin.InnerPairs` | src/exec/join.rs:70-97 | a pair is in the inner join if and only if its keys are equal |
| `HashJoin.RestPairs` | src/exec/join.rs:99-111 | a right row is added with nulls if and only if no left row matches it |
| `HashJoin.KeptExact` | src/exec/join.rs:120-159 | a left row is kept if and only if having a match is what is wanted |
| `HashJoin.SemiAntiPartition` | src/exec/join.rs:120-159 | the rows of semi and anti join together are the left rows, each once |
| `HashJoin.LeftIsInnerPlusAnti` | src/exec/join.rs:70-97 | the rows of a left join are those of the inner join and, unpaired, those of the anti join |
| `BitmapKernels.Bitmap.constructor` | src/exec/bitmap.rs:49-52 | all rows clear |
| `BitmapKernels.Bitmap.Set` | src/exec/bitmap.rs:74-77 | one row becomes true |
| `BitmapKernels.Bitmap.Clear` | src/exec/bitmap.rs:81-84 | one row becomes false |
| `BitmapKernels.Bitmap.Get` | src/exec/bitmap.rs:88-91 | the row |
| `BitmapKernels.Bitmap.CountOnes` | src/exec/bitmap.rs:135-137 | the number of true rows; tail bits are never counted |
| `BitmapKernels.Bitmap.And` | src/exec/bitmap.rs:94-102 | pointwise over the shorter length |
| `BitmapKernels.Bitmap.Not` | src/exec/bitmap.rs:117-132 | pointwise, with the tail of the last byte cleared |
| `BitmapKernels.NotCount` | src/exec/bitmap.rs:117-137 | the complement counts length minus count |
| `BitmapKernels.OrExact` | src/exec/bitmap.rs:105-113 | `or` is the pointwise OR if and only if no bit lies past the shorter operand's bytes |
| `BitmapKernels.OrLosesRow` | src/exec/bitmap.rs:105-113 | a bitmap of nine rows whose last row is lost in an OR with a bitmap of one row |
| `BitmapKernels.CountOnesIsCount` | src/exec/bitmap.rs:135-137 | the popcount of the bytes is the number of true rows |
| `BitmapKernels.CompareColumn` | src/exec/bitmap.rs:470-522 | the 32-row, 8-row and single-row loops set bit `i` exactly when row `i` passes, for every length |
| `BitmapKernels.FilterKernel` | src/exec/bitmap.rs:470-522 | the finished bitmap, tail bits zero |
| `BitmapKernels.AndIntoBool` | src/exec/bitmap.rs:427-440 | every mask cell becomes its AND with the row |
| `BitmapKernels.OrIntoBool` | src/exec/bitmap.rs:443-456 | every mask cell becomes its OR with the row |
| `ExprParser.Parser.ParseAdditive` | src/exec/expr_eval.rs:163-178 | the loop computes the grammar function and stays within the tokens, on every token list |
| `ExprParser.Parser.ParseMultiplicative` | src/exec/expr_eval.rs:180-195 | the same for products |
| `ExprParser.Parser.ParsePrimary` | src/exec/expr_eval.rs:197-212 | the same for operands, with a missing operand or closing parenthesis |
| `ExprParser.ReadPrimary` | src/exec/expr_eval.rs:197-212 | a printed operand is read back whole, whatever follows |
| `ExprParser.ReadProduct` | src/exec/expr_eval.rs:180-195 | a printed product continues the loop with its value, whatever follows |
| `ExprParser.ReadSum` | src/exec/expr_eval.rs:163-178 | a printed sum does too, unless a multiplicative operator follows |
| `ExprParser.EvalExpr` | src/exec/expr_eval.rs:13-29 | none, one or more tokens, as the code tells them apart |
| `ExprParser.LexedWritten` | src/exec/expr_eval.rs:163-212 | the words of a written tree, with `+`, `-`, `*`, `/` and parentheses, are told apart as its tokens |
| `ExprParser.RoundTrip` | src/exec/expr_eval.rs:13-29 | every tree of the four operators, written as words with the parentheses precedence needs, parses to its end and to its value; `eval_expr` returns it if and only if the tree is no single word or both readings of the word agree |
| `ExprParser.TwoOperators` | src/exec/expr_eval.rs:163-195 | for any two of the four operators in a row: a product binds before a sum, otherwise they group to the left |
| `Calendar.EraIsFloor` | src/datasource/csv.rs:321-322 | the truncating era formula is floor division, for negative years too |
| `Calendar.ClosedForm` | src/datasource/csv.rs:319-326 | the era arithmetic equals one closed form |
| `Calendar.SuccessorIsNextDay` | src/datasource/csv.rs:319-326 | 1970-01-01 is day 0 and the day after any valid date is one more |
| `Calendar.DayOfEraRange` | src/datasource/csv.rs:322-324 | the day of the era lies in 0 to 146096 |
| `Calendar.LaterCounts` | src/datasource/csv.rs:319-326 | `n` days later is `n` more |
| `Calendar.DaysOrder` | src/datasource/csv.rs:319-326 | day numbers order dates as the calendar does |
| `Calendar.TextOrder` | src/datasource/csv.rs:293-313 | the texts order as the dates do |
| `Calendar.Encodes` | src/datasource/csv.rs:293-313 | the encoded cell is the day number, wrapped when negative |
| `Calendar.OnlyTenBytes` | src/datasource/csv.rs:293-313 | only the first ten bytes are read, and a text too short or without its eight digits is day 0 |
| `Calendar.EncodedOrder` | src/datasource/csv.rs:293-313 | encoded cells order two dates as their texts do if and only if both lie on the same side of 1970-01-01 |
| `Calendar.LastDayOf1969` | src/datasource/csv.rs:293-313 | 1969-12-31 is before 1970-01-01 as text and has the largest cell of all |
| `RowFilter.ColumnIdx` | src/datasource/table.rs:95-97 | the first column of that name |
| `RowFilter.FilterIndices` | src/engine/executor.rs:310-324 | exactly the rows the clause accepts, ascending |
| `FilterMeaning.ComparisonRows` | src/engine/executor.rs:285-308 | the rows of a parsed comparison, as sets: equal cells for `=`, the others for `!=`, smaller ones for `<`, the rest for `>`, `<` or `=` for `<=`, all but `<` for `>=` |
| `FilterMeaning.ConnectiveRows` | src/engine/executor.rs:285-308 | AND takes the common rows, OR the rows of either, and no WHERE all of them |
| `FilterMeaning.LiteralMeaning` | src/engine/executor.rs:271-283 | a number is compared as itself modulo 2^64, a string as the number it spells or else by its hash |
| `FilterMeaning.BitsMeaning` | src/engine/executor.rs:271-283 | floats are compared by their bits and hexadecimal strings by their digest |
| `FilterMeaning.MaskComparison` | src/engine/dispatch.rs:516-539 | the rows that the mask of a comparison marks, by the same six laws |
| `FilterMeaning.TextComparison` | src/engine/dispatch.rs:494-514 | on kept strings ranges follow the order of texts, each operator and its complement, and `=` and `!=` the cells |
| `FilterMeaning.LikeRows` | src/engine/dispatch.rs:427-470 | LIKE marks what the matcher says of the kept strings and NOT LIKE exactly the other rows |
| `FilterMeaning.BatchComparison` | src/exec/vectorized.rs:104-114 | the rows that the batch path marks for a comparison, by the same six laws |
| `FilterMeaning.QualifiedReference` | src/engine/dispatch.rs:640-661 | a dotted name finds the column of that very name, or else the column of its second part, on both mask routes |
| `FilterMeaning.UnqualifiedReference` | src/engine/dispatch.rs:640-661 | a name that no column bears finds the first qualified column that ends in it |
| `RowFilter.MaskRefinesRows` | src/engine/dispatch.rs:427-542 | for every expression tree whose comparisons read alike: if the clause parses, the mask exists and marks exactly the rows `row_matches` accepts; a mask without a clause means a LIKE or a qualified name |
| `RowFilter.LiteralsExact` | src/engine/executor.rs:271-283 | the two readings of a literal differ only for a string that fits an unsigned but not a signed number |
| `RowFilter.LeafExact` | src/engine/dispatch.rs:488-539 | a comparison selects the same rows both ways on every table of those column names without kept strings if and only if both routes read the literal alike |
| `RowFilter.KeptLeafExact` | src/engine/dispatch.rs:494-514 | a string range on kept strings selects the same rows both ways on every such table if and only if neither route looks at the row |
| `RowFilter.SidecarOrderDiffers` | src/engine/dispatch.rs:494-514 | a concrete range predicate on which mask and clause differ because one orders strings and the other hashes |
| `RowFilter.LiteralFirstExact` | src/engine/executor.rs:251-269 | both routes read a literal-first comparison without turning it round, which is its meaning exactly for symmetric operators or equal operands |
| `RowFilter.LiteralFirstDiffers` | src/engine/executor.rs:251-269 | `5 < x` on the cell 7 is false both ways |
| `BatchFilter.EvalWhere` | src/exec/vectorized.rs:82-142 | the in-place mask evaluation, its LIKE branch included, computes `WhereMask` or panics exactly where it does |
| `BatchFilter.LikeColumn` | src/exec/vectorized.rs:122-136 | the LIKE loop and the flip for NOT LIKE: everything matches a percent sign, any other pattern is compared by hash |
| `BatchFilter.LikeBranchDead` | src/exec/vectorized.rs:104-137 | whatever the LIKE branch would resolve, the comparison branch before it has resolved |
| `BatchFilter.LikeKeepsMask` | src/exec/vectorized.rs:104-137 | for LIKE and NOT LIKE, every table, every pattern and either side: the evaluation panics exactly when the column resolves to a number past the last column, and otherwise leaves the mask as it was |
| `BatchFilter.FilterRows` | src/exec/vectorized.rs:71-80 | the rows left in the mask, ascending |
| `Numerals.DigitsTrip` | src/exec/vectorized.rs:168-181 | a column number printed in decimal parses back to itself |
| `Numerals.IndexTrip` | src/exec/vectorized.rs:180-181 | as an index it parses exactly below 2^64, with or without a plus sign |
| `Numerals.IndexExact` | src/exec/vectorized.rs:180-181 | a text that parses as an index is digits after at most one plus sign |
| `ClauseColumns.NumeralResolves` | src/exec/vectorized.rs:168-181 | the numeral of a column finds the column that bears it as a name, or else the column itself |
| `BatchFilter.ParsedInTable` | src/engine/executor.rs:221-269 | every parsed clause has columns in range and comparisons only |
| `ClauseColumns.BatchRefinesRows` | src/engine/executor.rs:908-962 | for every self-named clause the batch path marks exactly the rows the reference accepts |
| `ClauseColumns.SingleExact` | src/engine/executor.rs:938-944 | one comparison is right on every table of those column names if and only if no other column bears the numeral or the comparison ignores the cell |
| `ClauseColumns.CapturedNumeral` | src/engine/executor.rs:938-944 | a concrete table on which the batch path filters the wrong column |
| `BatchFilter.LikeKeepsEveryRow` | src/exec/vectorized.rs:104-137 | a LIKE or NOT LIKE on a column without original strings has no mask and the fallback keeps every row |
| `ClauseColumns.BatchIndices` | src/engine/executor.rs:964-969 | on self-named clauses exactly the rows and order of the reference |

## Left out

- `FmIndex::search` and `row_map`: it returns an empty list whatever it finds.
- Files and formats: Parquet, CSV reading beyond dates, COPY, the wire protocol, pages and the buffer pool, the encoding of log records.
- Hash values (xxh3, CRC32, splitmix) and SIMD instructions: hash functions are arbitrary and vector code is modelled lane by lane.
- Floating point: sums, minima and maxima fold over an abstract type, and extremes are stated for an order without NaN; the f64 bitmap filters, `finalize_*` and averages are not modelled.
- False-positive rates, cost models, prefetching and timing.
- Statement execution: a DDL or DML statement is a partial function of the catalog that fails without effect; partial effects of a failing statement, indexes, temporal tables and string sidecars under DML are not modelled.
- MERGE, views, VACUUM, ANALYZE, COPY and EXEC inside the log: they bypass it or rewrite it, and the text dispatch of `execute` is replaced by a command type.
- Physical page changes in replay, and I/O errors of the log.
- Concurrent insertion into the join table: the atomic directory words are modelled for the single-threaded build.
- Capacity limits: `usize` and `u32` counters and row numbers do not overflow in the model; `FmIndex::count` is stated for texts a vector can hold.
- Hash masks: a home slot or a word is the remainder by the size, which FlatTable.HomeIsMasked and Bloom.WordIsMasked show to be the mask.
- COUNT DISTINCT and the group estimate of `hash_group_by_flat`: the estimate is an arbitrary number.
- UTF-8: strings are bytes, so a slice of `remap` is not checked to fall on a character boundary.
- The stability of `sort_by`: an insertion sort stands for it, and the order of equal rotations does not matter to any result.
- Query errors inside a recursive common table expression, and results whose column count differs from the anchor's.
- Splitting an expression text on white space, and the arithmetic of `eval_binop_typed`: operators and leaves have arbitrary meanings.
- Years for which the day count leaves 32 bits, and day 0 in a build with overflow checks.
- Multi-column keys of the TPC-H join, which are hashed into one word and exact only without collisions.
- Bitmap operations that repeat the modelled ones: `all_ones`, `to_bool_vec`, `from_bool_slice`, `and_inplace`, `or_inplace`, signed comparisons.
- `LikePattern`, JSON functions, PIVOT, UNION splitting, planner and registries.
- FixedAgg.Accumulator.AddRows: stated for at most 256 distinct keys, because the source loops for ever beyond that; FixedAgg.StreamExact says so exactly.
- FlatHashTable.CleanRunGroups: one way only, because a displacing run can have the right groups, as GroupRuns.CountsHideDisplacement shows; GroupRuns.GroupsExact, GroupCounts.InsertionsExact and GroupCounts.RowsExact are exact.
- Engine.CrashRecovery: stated for runs that lose no work to a ROLLBACK TO outside a transaction or inside one that commits, because the source logs none of them; Engine.RollbackToExact says when one such commit is recovered, and Engine.RunRecoverable is exact for recovery of both catalogs at every point.
- OpenOrder.OpenRecovers: stated for logs whose surviving statements are grouped already; OpenOrder.OpenExact says that the order is kept for every hash map exactly then, and OpenOrder.SameCatalogExact that the catalogs agree exactly then where each statement leaves its own trace. For other catalogs two orders may agree by chance.
- RowFilter.MaskRefinesRows: stated where each comparison reads its literal alike and orders no kept strings; RowFilter.LeafExact and RowFilter.KeptLeafExact say exactly when a single comparison is right on all tables.
- Restarts.UnstatedRecovers: one way for an arbitrary catalog, on which reviving a statement may change nothing; Restarts.DeadIdExact is exact where each statement leaves a trace.
- RecursiveCte.RecursionComplete: duplicates among the rows are not counted, because the source appends whole results and promises a set.
