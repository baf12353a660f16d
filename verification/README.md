# Verified model of the database server's core

A Dafny model of the parts of this PostgreSQL-like server whose correctness is not visible from one
function: the join algorithms, the SQL expression parser, the lock manager, heap pages and VACUUM,
transactions and snapshots, B-tree pages, the write-ahead log and its checksum, partition pruning,
the buffer pool, block-range indexes and JSONB updates.

Where the source changes state the model does: classes with the source's fields, loops over cursors
and arrays, byte buffers filled in place. Each such method is proved equal to a function of the old
state, and the theorems are about those functions and about runs of them. Run `dafny verify dfyconfig.toml`
to check everything.

## What is proved

- **Joins.** Hash join and sort-merge join return the rows of one nested-loop outer join. Where they
  do not, the condition is exact: a left hash join drops rows with an undefined key; a merge join of
  any type adds a row for each pair it wrongly matches by reading undefined keys as the empty text, and
  loses the padded rows those pairs stand in for. For left and right joins the condition is also given
  row by row. Every join's result is also given row by row: which input positions each row comes from, in
  which order, and how it is padded.
- **Parser.** The parser object accepts exactly the texts of expressions and returns what they stand for.
  Texts are defined without the parser: every way to write an expression down, with needless parentheses,
  keywords in any case or used as names, `ARRAY` and `DISTINCT`. So they are unambiguous, a
  precedence-aware printer is undone by parsing, and it can print exactly what can be parsed.
- **Locks.** No reachable state holds conflicting locks, and a release leaves exactly the other holders' entries. Deadlock detection is sound and complete for
  the wait-for relation of the queue and the tables.
- **Heap.** Page bytes round-trip, tuples and line pointers never overlap, HOT chains lead to the newest
  version, and VACUUM is invisible to every admissible snapshot, through bytes and storage. A scan returns exactly the
  tuples the snapshot sees, position by position, and pages are laid out byte by byte as stated.
- **Transactions.** Snapshots separate what had ended from what had not, over whole runs, so a snapshot
  sees at most one version of a row.
- **B-tree.** After a run of insertions into an empty tree, searching finds every key inserted, with its
  heap pointer, and no other, if and only if no leaf below the root was hit while full. A key lost then
  never comes back, whatever shape the tree takes, so of more keys than two full pages hold some are always
  lost. The split of an inner page sends every key where it went before, except those of its middle entry.
  For trees of any depth it is stated which pages one insertion writes, and with what.
- **Write-ahead log.** Records never overlap, stay readable and are adjacent unless the later one would have
  crossed a segment; `ensure_flushed` makes whole records durable. The CRC is the remainder of the standard
  polynomial division; it detects every burst of up to 32 bits, and 32 is the best possible.
- **Partition pruning.** Filtering the pruned partitions is filtering all of them; which values a bound
  accepts, what a WHERE clause pins, and what each kind of condition means.
- **Buffer pool.** The clock sweep's victim and its effects in closed form, equal to the sweep tick by tick,
  and exactly when a fetch leaves the page map coherent.
- **Block-range index, JSONB.** Lookups against a full scan and exact summaries over all runs; when a written
  path reads back, a second write overrides the first, and another path is left alone, each if and only if;
  containment by paths.

## Conventions

- Integers are unbounded except where the source's width matters: page ids and log positions, stored
  transaction numbers (cut to 32 bits), page offsets and counts, hash values, and checksums (bit-vectors).
- Strings are compared by code point, which is the order of their UTF-8 encodings.
- Storage is a map from page id to bytes; a page never written reads as 8192 zeros.
- Encoders that live outside the source are parameters: the tuple decoder of the heap (which must reject
  the empty slice), the bytes of a log record, floating-point arithmetic and text functions of the
  evaluator, and the page numbers a B-tree insertion is handed.
- The comment on `is_full` (src/btree/page.rs:41-43) calls its bound conservative; it is exactly for entries
  of at most an equal share of the page, a key of 53 bytes from pages of 4096 bytes on
  (`BTreeCodec.NotFullNeverTruncated`, `BTreeCodec.LongKeysNeverFit`), and an insertion of a longer one can be
  cut off on writing (`BTreeRefinement.LongInsertIsCutOff`).

## Model

| member | source | states |
|---|---|---|
| JoinTheorems.ExecuteEquiJoin | src/executor/select/joins.rs:10-55 | Running the dispatch on an equality: with all keys defined, whichever algorithm the sizes select returns the rows of the reference nested-loop join for Inner, Left, Right and Full; with at most 1000 rows on a side the hash join's exact sequence, above that the merge join's items, identifiers included |
| JoinAlgorithms.HashJoin | src/executor/select/algorithms.rs:6-154 | The hash join as it runs (table, probe, the two padding passes) returns its specified sequence of rows |
| JoinAlgorithms.HashInnerIsNestedLoop | src/executor/select/algorithms.rs:40-63 | An inner hash join is the nested loop, row for row and in order, undefined keys included |
| JoinAlgorithms.HashLeftIsNestedLoop | src/executor/select/algorithms.rs:40-63 | A left hash join is the nested loop, in order, when every left key is defined |
| JoinAlgorithms.HashLeftLosesUndefinedKeys | src/executor/select/algorithms.rs:48-61 | A left hash join loses exactly the padded rows of the left rows whose key is undefined, no more |
| JoinAlgorithms.HashLeftAgreesIff | src/executor/select/algorithms.rs:48-61 | Left hash join and nested loop agree if and only if every left key is defined |
| JoinAlgorithms.HashRightRows | src/executor/select/algorithms.rs:65-109 | A right hash join gives the nested loop's rows, undefined keys included |
| JoinAlgorithms.HashFullRows | src/executor/select/algorithms.rs:65-151 | A full hash join gives the nested loop's rows, undefined keys included |
| JoinAlgorithms.HashJoinCorrect | src/executor/select/algorithms.rs:6-154 | Hash join and nested loop give the same bag of rows in all four join types |
| JoinAlgorithms.BuildTable | src/executor/select/algorithms.rs:21-38 | The table maps each key to the right rows with that key, in order, and to nothing else |
| JoinAlgorithms.BucketIsProbe | src/executor/select/algorithms.rs:48-55 | Looking a key up in the table finds exactly the nested loop's matches, in its order |
| JoinAlgorithms.HashUnmatchedRight | src/executor/select/algorithms.rs:65-109 | The pass over right rows pads exactly those no left row has the key of |
| JoinAlgorithms.HashUnmatchedLeft | src/executor/select/algorithms.rs:111-151 | The pass over left rows pads exactly those without a match |
| JoinAlgorithms.ReferenceBag | src/executor/select/joins.rs:92-168 | Each of the four reference joins is its left part (matches, or a padded row) plus its unmatched right rows |
| MergeJoins.MergeJoin | src/executor/select/algorithms.rs:156-331 | The sort-merge join, duplicate runs, match flags and padding included, returns the items, identifier and row, of the nested loop over keys with the undefined ones read as the empty text |
| MergeJoins.MergeLoop | src/executor/select/algorithms.rs:243-301 | After any number of steps the rows emitted are those owed for what both cursors have passed, and nothing behind them can still match |
| MergeJoins.MergeRun | src/executor/select/algorithms.rs:252-278 | A run of equal keys pairs every left row of it with every right row of it, and both cursors move past it |
| MergeJoins.EmitRun | src/executor/select/algorithms.rs:261-270 | One left row meets exactly its matches among all right rows, and marks them |
| MergeJoins.DrainLoops | src/executor/select/algorithms.rs:303-328 | The closing loops pad exactly the rows left over on either side |
| MergeJoins.EmptySideJoin | src/executor/select/algorithms.rs:171-205 | With an empty side nothing else is returned than, for a kept left side, every left row followed by as many empty texts as the first left row has, and, for a kept right side, every right row as it is |
| MergeJoins.StableSortCorrect | src/executor/select/algorithms.rs:239-240 | Sorting by key orders the rows and neither loses nor invents any |
| MergeJoins.MergedBagIsJoinBag | src/executor/select/algorithms.rs:239-240 | The bag of joined rows does not depend on the order of the inputs |
| OuterMergeJoins.MergeAddsClashes | src/executor/select/algorithms.rs:156-331 | In all four join types the merge join's rows, plus the padded rows that only clashes keep it from making, are the reference rows plus one row per clashing pair (an undefined key against an undefined or an empty one) |
| OuterMergeJoins.MergeAgreesIff | src/executor/select/algorithms.rs:156-331 | In all four join types merge join and reference nested loop return the same rows if and only if the rows the clashes add are the padded rows they take away |
| OuterMergeJoins.MergeLeftAgreesIff | src/executor/select/algorithms.rs:211-237 | A left merge join, over rows of any widths, agrees with the nested loop if and only if each left row has no clash, or no match and one clash whose row is the padded row |
| OuterMergeJoins.MergeRightAgreesIff | src/executor/select/algorithms.rs:211-237 | The same for a right merge join and its right rows |
| OuterMergeJoins.RowByRow | src/executor/select/algorithms.rs:211-237 | Rows that clash once all clash with the same row; so what the clashes add is the padding they take away in all exactly when it is so row by row |
| OuterMergeJoins.OuterMergeDiffers | src/executor/select/algorithms.rs:211-237 | A left row without a key and a right row with an empty one: in every join type the merge join returns other rows than the nested loop |
| OuterMergeJoins.ClashCanHide | src/executor/select/algorithms.rs:211-237 | In an outer join a clash need not show: the clashing pair's row can look like the padded row |
| JoinTheorems.MergeInnerAddsClashes | src/executor/select/algorithms.rs:211-237 | An inner merge join returns the nested loop's rows plus one row per clashing pair |
| JoinTheorems.MergeInnerAgreesIff | src/executor/select/algorithms.rs:211-237 | Inner merge join and nested loop agree if and only if no pair clashes |
| JoinReference.NestedLoopJoin | src/executor/select/joins.rs:81-181 | The nested-loop join as it runs, all six join types, returns its specified sequence |
| JoinReference.RightLoops | src/executor/select/joins.rs:122-140 | The right join walks right rows, emits matches and pads the unmatched ones in place |
| JoinReference.FullLoops | src/executor/select/joins.rs:141-168 | The full join emits left matches or padding, then the right rows never marked |
| JoinReference.CrossLoops | src/executor/select/joins.rs:169-177 | A cross or lateral join pairs every left row with every right row |
| JoinReference.LoopExchange | src/executor/select/joins.rs:122-132 | Exchanging the two loops keeps the bag of joined rows |
| JoinReference.RightJoinSplits | src/executor/select/joins.rs:122-140 | A right join is the inner join plus one padded row per unmatched right row |
| JoinTheorems.NestedLoopAgreesIff | src/executor/select/joins.rs:81-181 | The nested loop with its own pad width agrees with the reference except exactly when left rows are kept, there are no right rows and the first left row is not empty |
| JoinRows.NestedLoopRows | src/executor/select/joins.rs:81-181 | The nested loop row by row: which positions of the two inputs each result row comes from, in which order, each exactly once, with which identifier, and with how many empty texts a lonely row is padded, for all six join types |
| JoinRows.ReferenceRows | src/executor/select/algorithms.rs:6-154 | The same for the reference join: lonely left rows are padded by the width of the first right row or, with no right row, of the first left row |
| JoinRows.HashJoinIs | src/executor/select/algorithms.rs:6-154 | The same for the hash join: the probe pass, then the right rows no left row has the key of, without identifier, then the left rows without a match; a left row without a key is left out |
| JoinRows.MergeJoinIs | src/executor/select/algorithms.rs:156-331 | The same for what the merge join returns in some order: matches over keys with undefined ones read as empty, lonely left rows, lonely right rows |
| JoinRows.HashOuterOfNothing | src/executor/select/algorithms.rs:15-63 | Against an empty right side a left or full hash join returns every left row followed by as many empty texts as the first left row has |
| JoinRows.RowBagIs | src/executor/select/algorithms.rs:6-154 | The bags the theorems compare count the rows of the results |
| Parsers.ParsePrinted | src/sql/parser/expr.rs:5-866 | Running the parser on the printed form of any printable expression returns that expression, with the cursor on the token that follows |
| Parsers.ParseWhole | src/sql/parser/expr.rs:5-866 | Running the parser on a whole input: it succeeds up to the end mark if and only if the input is a text of some expression, and returns that expression. Texts are defined without the parser, as every way to write an expression: needless parentheses, keywords in any case, keywords as names and columns, ARRAY, DISTINCT |
| ParserImage.AcceptedIff | src/sql/parser/expr.rs:5-866 | The same of the grammar function: a whole input is accepted as an expression exactly if it is a text of it |
| ParserImage.ParsedIsText | src/sql/parser/expr.rs:5-866 | Any tokens accepted are, up to where reading stopped, a text of the expression returned |
| ParserImage.ReadAt | src/sql/parser/expr.rs:9-866 | The same at every precedence level: the text binds at least as tightly as the level, and before an arithmetic operator it does not end in a zone, which would have swallowed it |
| RoundTrips.ParseUndoesWriting | src/sql/parser/expr.rs:5-866 | Every text of an expression, before any follower that cannot continue it (end, `)`, `,`, THEN and so on), is read as that expression, and reading stops at the follower |
| RoundTrips.ReadText | src/sql/parser/expr.rs:9-866 | The same at every precedence level, for every follower that does not bind at that level |
| RoundTrips.ReadChain | src/sql/parser/expr.rs:9-35 | At a left-associative level the loop resumes after the left operand with that operand as its accumulator |
| RoundTrips.TextsAreUnambiguous | src/sql/parser/expr.rs:5-866 | The same tokens are never a text of two expressions |
| RoundTrips.TextStarts | src/sql/parser/expr.rs:519-866 | A text starts with a token its context does not take for something else, unless it is a keyword used as a name, which the texts rule out where it matters |
| RoundTrips.ReadComparison | src/sql/parser/expr.rs:50-308 | Comparisons, LIKE, ILIKE, IN lists, BETWEEN, IS NULL and ANY/SOME are read as themselves; they do not chain |
| RoundTrips.ReadBetween | src/sql/parser/expr.rs:265-276 | The AND of a BETWEEN is not taken for the connective |
| RoundTrips.ReadZone | src/sql/parser/expr.rs:475-517 | AT TIME ZONE takes everything up to the next operator looser than the bitwise ones as its zone |
| RoundTrips.ReadDotted | src/sql/parser/expr.rs:830-837 | A name, a dot and a column are read as that table and that column |
| RoundTrips.ReadArray | src/sql/parser/expr.rs:819-829 | The word ARRAY before a bracket makes no difference |
| RoundTrips.ReadCall | src/sql/parser/expr.rs:766-818 | Calls with arguments, `*`, DISTINCT and FILTER are read as themselves; DISTINCT is forgotten |
| RoundTrips.ReadNow | src/sql/parser/expr.rs:710-722 | NOW() is read as a call of NOW |
| RoundTrips.ReadCase | src/sql/parser/expr.rs:553-592 | Both forms of CASE are read as themselves |
| RoundTrips.ReadPrefix | src/sql/parser/expr.rs:445-473 | A sign or `~` takes one postfix operand, NOT one comparison |
| ParserImage.KeywordColumn | src/sql/parser/expr.rs:830-837 | A keyword after the dot is the column, in its own spelling, and the name before the dot the table |
| ParserImage.KeywordName | src/sql/parser/expr.rs:766-769 | A keyword without a meaning of its own is a name, in its own spelling |
| ParserImage.RedundantParentheses | src/sql/parser/expr.rs:541-552 | Parentheses may be added around any expression |
| ParserImage.ArrayWord | src/sql/parser/expr.rs:819-829 | `ARRAY[...]`, in any case, is `[...]` |
| ParserImage.DistinctForgotten | src/sql/parser/expr.rs:774-776 | A call with DISTINCT is the call without |
| ParserImage.TighterFirst | src/sql/parser/expr.rs:9-443 | Of two left-associative operators the tighter one takes the operand between them; of equally tight ones the first |
| Printer.ParseUndoesPrint | src/sql/parser/expr.rs:5-866 | Parsing the minimally parenthesised tokens of an expression before any follower that cannot continue it gives the expression back |
| Printer.PrintInjective | src/sql/parser/expr.rs:5-866 | Different expressions print differently |
| Printer.PrintableIffParsed | src/sql/parser/expr.rs:5-866 | The printable expressions are exactly those that some tokens parse to |
| Printer.ReprintIsSame | src/sql/parser/expr.rs:5-866 | Whatever tokens are accepted, the printed form of the expression built from them parses to the same expression |
| Printer.WrittenFits | src/sql/parser/expr.rs:9-866 | What the printer writes at a level is a text of the expression that may stand there |
| Printer.MeaningPrintable | src/sql/parser/expr.rs:9-866 | Whatever a text stands for can be printed: a list or CASE without an operand is never empty, calls without arguments are the time keywords only |
| Parsers.Parser.ParseExpression | src/sql/parser/expr.rs:5-7 | The parser computes the grammar function on its remaining tokens and stops where it does, errors included |
| Parsers.Parser.ParseInfix | src/sql/parser/expr.rs:9-443 | Each left-associative level, as a loop over the cursor, computes the grammar function of that level |
| Parsers.Parser.ParseNot | src/sql/parser/expr.rs:37-48 | NOT, against its grammar function |
| Parsers.Parser.ParseComparison | src/sql/parser/expr.rs:50-308 | The comparison level, against its grammar function |
| Parsers.Parser.ParseInRest | src/sql/parser/expr.rs:233-264 | IN, against its grammar function, with the error for a missing parenthesis |
| Parsers.Parser.ParseBetweenRest | src/sql/parser/expr.rs:265-276 | BETWEEN, against its grammar function |
| Parsers.Parser.ParseIsRest | src/sql/parser/expr.rs:295-305 | IS [NOT] NULL, against its grammar function |
| Parsers.Parser.ParseUnary | src/sql/parser/expr.rs:445-473 | Unary operators, against their grammar function |
| Parsers.Parser.ParsePostfix | src/sql/parser/expr.rs:475-517 | Postfix suffixes, the cursor restored after a half-read one |
| Parsers.Parser.ParseZoneLoop | src/sql/parser/expr.rs:494-514 | The AT TIME ZONE loop with its two save-and-restore exits |
| Parsers.Parser.ParsePrimaryExpr | src/sql/parser/expr.rs:519-866 | Literals, parentheses, arrays, names, calls and keywords, against their grammar function |
| Parsers.Parser.ParseCallRest | src/sql/parser/expr.rs:770-818 | Call arguments, FILTER and the rest of a call, against their grammar function |
| Parsers.Parser.ParseCaseRest | src/sql/parser/expr.rs:553-592 | CASE, against its grammar function |
| Parsers.Parser.Advance | src/sql/parser.rs:32-38 | The cursor moves one token on and stays at the end |
| Parsers.Parser.Expect | src/sql/parser.rs:40-46 | Succeeds exactly on the expected token; a failure names it |
| Parsers.Parser.ExpectKeyword | src/sql/parser.rs:48-53 | Succeeds exactly on the expected keyword, whatever its case |
| Locks.RunIsSafe | src/transaction/locks.rs:131-421 | In every state reached by acquiring, releasing and releasing all, no relation or row has entries of two transactions whose modes conflict, and no advisory key has an exclusive entry beside another transaction's |
| Locks.ConflictShape | src/transaction/locks.rs:35-73 | The conflict relation is symmetric, never crosses table and row modes, and only ForUpdate and ForNoKeyUpdate conflict with themselves |
| Locks.AcquireOutcome | src/transaction/locks.rs:131-208 | A request is refused exactly when another holder's mode conflicts; a refusal only queues it, a grant only adds the entry |
| Locks.ConflictMatrix | src/transaction/locks.rs:35-73 | The conflicts, mode against mode, as a table |
| Locks.ReleaseLeaves | src/transaction/locks.rs:164-225 | A release leaves on the relation or row exactly the entries of the other holders, each as often as before and in the old order; every other relation and row, the queue and the advisory locks are unchanged |
| Locks.ReleaseAllLeaves | src/transaction/locks.rs:227-241 | Releasing all does that on every relation and row |
| Locks.AdvisoryOutcome | src/transaction/locks.rs:354-384 | An advisory request is refused exactly when another holder has an entry and one of the two is exclusive; a grant adds the entry to that key only |
| Locks.ReleaseAdvisoryLeaves | src/transaction/locks.rs:400-412 | Releasing an advisory lock takes out the holder's first entry on the key and nothing else |
| Locks.ReleaseAllAdvisoryLeaves | src/transaction/locks.rs:415-421 | Releasing all of them leaves on every key exactly the other holders' entries |
| Locks.ReleasedIsOnNoCycle | src/transaction/locks.rs:227-241 | A transaction that released everything and acquires nothing more is on no wait-for cycle in any later state, although its queued requests stay queued |
| Locks.StaysIdle | src/transaction/locks.rs:131-421 | Nothing another transaction does gives it a lock |
| Deadlocks.DetectDeadlock | src/transaction/locks.rs:243-293 | The detector answers exactly when some transactions wait for one another in a circle, for every iteration order; in a reported pair the first waits for the second and the second, through others, for the first |
| Deadlocks.DetectCycle | src/transaction/locks.rs:295-319 | The depth-first search is sound, finishes only nodes on no closed walk, and terminates although visited roots are entered again |
| Deadlocks.DetectAnyCycle | src/transaction/locks.rs:282-293 | Trying every node finds a cycle if and only if there is one |
| Deadlocks.BuildGraph | src/transaction/locks.rs:249-280 | The graph holds exactly the blockers of the queued requests |
| Deadlocks.GraphIsWaitsFor | src/transaction/locks.rs:249-280 | Its edges are the wait-for relation of the queue and the lock tables |
| Deadlocks.ClosedWalkIsCycle | src/transaction/locks.rs:243-293 | Closed walks of the graph are the deadlock cycles of the lock state |
| LockManagers.LockManager.AcquireTableLock | src/transaction/locks.rs:131-162 | Takes the lock state through the table acquisition; granted exactly if no other holder has an entry with a conflicting mode |
| LockManagers.LockManager.ReleaseTableLock | src/transaction/locks.rs:164-172 | The other holders' entries on the relation remain, each as often as before and in order; other relations are unchanged |
| LockManagers.LockManager.AcquireRowLock | src/transaction/locks.rs:174-208 | The same for a row |
| LockManagers.LockManager.ReleaseRowLock | src/transaction/locks.rs:210-225 | The same for a row |
| LockManagers.LockManager.ReleaseAllLocks | src/transaction/locks.rs:227-241 | Removes the transaction's entries from every relation and row |
| LockManagers.LockManager.AcquireAdvisoryLock | src/transaction/locks.rs:354-384 | Granted exactly if no other holder has an entry on the key, or only shared ones and shared is wanted |
| LockManagers.LockManager.ReleaseAdvisoryLock | src/transaction/locks.rs:400-412 | Removes one entry of the holder and says whether there was one |
| LockManagers.LockManager.ReleaseAllAdvisoryLocks | src/transaction/locks.rs:415-421 | Removes the holder's entries from every key |
| LockManagers.LockManager.DetectDeadlock | src/transaction/locks.rs:243-293 | The manager reports exactly the deadlocks its tables and queue imply |
| HeapPageCodec.DecodeEncode | src/storage/heap_page.rs:131-208 | Reading back a serialized page gives its slots, flags and header, and the bytes of every normal tuple |
| HeapPageCodec.RoundTripKeeps | src/storage/heap_page.rs:131-208 | The same, field by field |
| HeapPageCodec.StoredTupleBytes | src/storage/heap_page.rs:134-151 | A tuple's bytes lie where its written pointer says and end where the previous tuple starts |
| HeapPageCodec.RereadIsValid | src/storage/heap_page.rs:131-208 | A page read back is valid again, and writing and reading it once more changes nothing |
| HeapPages.HeaderRoundTrip | src/storage/heap_page.rs:41-65 | Page headers come back whole |
| HeapPages.PointerRoundTrip | src/storage/heap_page.rs:87-99 | Line pointers come back whole |
| HeapPageCodec.HeaderLayout | src/storage/heap_page.rs:41-52 | The page header, byte by byte |
| HeapPageCodec.PointerLayout | src/storage/heap_page.rs:87-92 | A line pointer, byte by byte |
| HeapPageCodec.PageLayout | src/storage/heap_page.rs:131-170 | The page, byte by byte: header, line pointers, and each stored tuple below the previous one |
| HeapPageCodec.FreeSpaceIsZero | src/storage/heap_page.rs:131-170 | All bytes in between are zero |
| HeapPageOps.AddTupleEffect | src/storage/heap_page.rs:210-249 | An added tuple is in the first dead slot or a new one, stored from the new upper bound on; the header changes by its length, every other slot is as it was; refused, changing nothing, exactly if there is no room |
| HeapPageOps.HotUpdateEffect | src/storage/heap_page.rs:313-339 | A HOT update puts the new tuple into a new slot and redirects the old slot to it; when it is refused, and that nothing changes then |
| HeapPageOps.CompactEffect | src/storage/heap_page.rs:251-280 | Compaction keeps the slots, clears the tuples of those not live, and accounts for the bytes of the live ones |
| HeapPageOps.AddTupleKeepsValid | src/storage/heap_page.rs:210-249 | Adding keeps line pointers and tuple bytes apart |
| HeapPageOps.HotUpdateKeepsValid | src/storage/heap_page.rs:313-339 | So does a HOT update |
| HeapPageOps.CompactKeepsValid | src/storage/heap_page.rs:251-280 | So does compaction, and the space it accounts for is what the live tuples take |
| HeapPageObjects.HeapPage.Serialize | src/storage/heap_page.rs:131-170 | The byte buffer filled in place is the page's encoding |
| HeapPageObjects.HeapPage.Deserialize | src/storage/heap_page.rs:172-208 | The loops over the bytes build the decoded page |
| HeapPageObjects.HeapPage.AddTuple | src/storage/heap_page.rs:210-249 | The fields change as specified and the slot returned is the specified one |
| HeapPageObjects.HeapPage.HotUpdate | src/storage/heap_page.rs:313-339 | Likewise for a HOT update, with its three refusals |
| HeapPageObjects.HeapPage.Compact | src/storage/heap_page.rs:251-280 | Likewise for compaction, of a page with fewer tuples than line pointers too |
| HeapPageObjects.HeapPage.FollowChain | src/storage/heap_page.rs:341-363 | The loop follows redirects as specified, hop cap included |
| HotChains.ChainLeadsToNewest | src/storage/heap_page.rs:210-363 | After any run of additions and updates from an empty page, every allocated slot leads to the normal slot of the newest version of the tuple first put there, within the hop cap |
| HotChains.ChainsMeetIff | src/storage/heap_page.rs:313-363 | Two slots end in the same place exactly when they hold versions of the same tuple |
| HotChains.RedirectsPointForward | src/storage/heap_page.rs:313-339 | Redirects only point to larger slots |
| HotChains.FollowEnds | src/storage/heap_page.rs:341-363 | Following a chain ends before the hop cap is reached |
| HotChains.FollowIs | src/storage/heap_page.rs:341-363 | On any page a chain is followed to a slot exactly if redirects, no more than there are slots, lead there and it is a normal one |
| Vacuums.VacuumInvisible | src/executor/heap.rs:619-667 | VACUUM is invisible: every admissible snapshot scans the same tuples in the same order before and after |
| Vacuums.VacuumPageInvisible | src/executor/heap.rs:639-657 | One page, marked, compacted, serialized and read back, shows every admissible snapshot the same tuples |
| Vacuums.VacuumKeepsPages | src/executor/heap.rs:634-665 | Each stored page stays in serialized form and scans as before |
| Vacuums.RemovableIsInvisible | src/executor/heap.rs:35-59 | What VACUUM removes no admissible snapshot sees |
| Vacuums.HorizonIsExact | src/executor/heap.rs:645 | The horizon is exact: a snapshot that sees some writer misses nothing removable if and only if it takes every deleter below the horizon as past |
| Vacuums.VacuumLeavesClean | src/executor/heap.rs:639-657 | A vacuumed page holds nothing removable any more |
| VacuumEffects.MarkDeadEffect | src/executor/heap.rs:639-657 | Exactly the normal slots with a tuple deleted below the horizon become dead; all else stays |
| VacuumEffects.CountIsExpired | src/executor/heap.rs:639-657 | The count of reclaimed tuples is the number of those slots |
| VacuumEffects.VacuumPageEffect | src/executor/heap.rs:634-665 | A page with none of them is not written; any other is marked, compacted and written |
| VacuumEffects.VacuumRelationEffect | src/executor/heap.rs:619-667 | VACUUM of a relation does so for each of its pages and touches no other |
| VacuumLoops.VacuumStored | src/executor/heap.rs:619-667 | The page loop leaves storage and the reclaimed count as specified |
| VacuumLoops.HeapScan | src/executor/heap.rs:166-206 | The scan returns the tuples decoded from an increasing list of positions, page by page and slot by slot; the list holds every normal slot whose decoded tuple the snapshot sees, and no other |
| Vacuums.ScanPositions | src/executor/heap.rs:166-206 | The same of the specification of the scan |
| Visibility.VisibleWhen | src/executor/heap.rs:35-59 | A tuple is seen exactly if it has a writer, below the snapshot's number and not running, and no deleter that is below it and not running |
| VacuumLoops.ScanVacuumScan | src/executor/heap.rs:166-206 | Scanning, vacuuming and scanning again through storage returns the same rows |
| PageStores.PageStore.ReadPage | src/storage/ephemeral.rs:25-31 | A page never written reads as 8192 zero bytes |
| PageStores.PageStore.WritePage | src/storage/ephemeral.rs:33-37 | A written page replaces the old one and no other |
| Transactions.SnapshotSeparates | src/transaction/mod.rs:106-161 | A snapshot taken at begin counts a transaction as past exactly when it had begun and ended by then |
| Transactions.StatementSnapshot | src/transaction/mod.rs:148-152 | A statement snapshot never counts transactions that began after its owner, even ended ones |
| Transactions.StateReflectsHistory | src/transaction/mod.rs:106-146 | Counter and active map say exactly who has begun and who still runs |
| Transactions.AtMostOneVisible | src/executor/heap.rs:35-59 | Of the versions of a row, each written after the writer of the last had ended, a snapshot taken anywhere in the run sees at most one |
| Transactions.VisibleVersion | src/executor/heap.rs:35-59 | It sees exactly one when the first writer had ended by then: the version of the last writer that had |
| Transactions.PastIsDownwardClosed | src/transaction/mod.rs:106-161 | If a snapshot takes a writer as past, it takes the writer before it as past |
| Transactions.TransactionManager.Begin | src/transaction/mod.rs:106-120 | Hands out the next number, records the transaction under it, and keeps the snapshot for the two upper isolation levels; the other transactions stay |
| Transactions.TransactionManager.Finish | src/transaction/mod.rs:126-146 | Commit and rollback remove a running transaction and fail on any other |
| Transactions.TransactionManager.CreateSnapshot | src/transaction/mod.rs:154-161 | The snapshot lists exactly the running transactions |
| BTreeRuns.RunRefinesIff | src/btree/insert.rs:169-328 | After inserting any distinct small keys into an empty root page, every key is found with its tuple and no other key is, if and only if no leaf below the root was hit while full; otherwise a key is lost for good |
| BTreeRuns.TwoPagesAreAll | src/btree/insert.rs:184-328 | So after more distinct keys than two full pages take, in whatever order, some key inserted is not found |
| BTreeRuns.SearchAfterRun | src/btree/insert.rs:169-257 | From an empty root page, after any run inserting distinct small keys without hitting a full leaf below the root, searching the current root returns exactly the tuple inserted for a key, or nothing, across the root-leaf split |
| BTreeRuns.RunSplits | src/btree/insert.rs:198-249 | Any distinct small keys, one more than a page takes, split the root leaf |
| BTreeRuns.SplittingRunExists | src/btree/insert.rs:198-249 | For every page size there is such a run from an empty store, with page numbers that are fresh |
| BTreeRuns.InsertRefinesIff | src/btree/insert.rs:258-289 | In a tree that refines its map, inserting a new key keeps it so if and only if the leaf reached below the root has room |
| BTreeRuns.ForgottenStays | src/btree/insert.rs:184-328 | A key that no reachable page holds stays away while other keys are inserted |
| BTreeLost.InsertKeepsAbsent | src/btree/insert.rs:184-328 | In a stored tree of any shape and depth an insertion of another key, into new pages, leaves a closed set of pages without the key closed and without it |
| BTreeLost.Untouched | src/btree/insert.rs:184-289 | An insertion writes only new pages and pages on its way down, so a page whose child was split is still what it was |
| BTreeLost.FullLeafForgets | src/btree/insert.rs:270-328 | When a leaf below the root is hit while full, no page that can be reached afterwards holds its first key |
| BTreeLost.AbsentNotFound | src/btree/search.rs:18-60 | A key held by no page of a closed set is not found from any of them, at any depth |
| BTreeLost.ReadIsStorable | src/btree/insert.rs:62-132 | Whatever bytes are stored, the page read from them fits its field widths |
| BTrees.SearchDeeper | src/btree/search.rs:18-44 | A search that ends within a depth ends the same within any larger one |
| BTrees.InsertDeeper | src/btree/insert.rs:184-289 | Likewise for an insertion |
| BTreeLaws.InsertWithRoomBelow | src/btree/insert.rs:184-257 | In a tree of any depth, an insertion whose leaf has room rewrites that leaf and no other page |
| BTreeLaws.InsertStep | src/btree/insert.rs:258-288 | On an inner page: if the child was not split that is all; otherwise its first entry for the child is redirected to the new page, its key kept, and the page is written or, if full, split |
| BTreeLaws.InsertStops | src/btree/insert.rs:192-197 | A leaf, or a page without entries, which becomes one, takes the tuple |
| BTreeLaws.FullLeafInsert | src/btree/insert.rs:198-249 | A full leaf is split in the middle, the tuple put left if it is below the right half's first key; the fields of both halves and of the new root, and that no other page changes |
| BTreeLaws.SplitLeafIs | src/btree/insert.rs:199-218 | The halves of a full leaf field by field |
| BTreeLaws.FullInnerPage | src/btree/insert.rs:291-328 | The halves of a full inner page and the new root field by field, and that no other page changes |
| BTreeLaws.RepointIs | src/btree/insert.rs:273-278 | Only the first entry that points to the child is redirected |
| BTreeLaws.ChildIs | src/btree/insert.rs:330-343 | The child is that of the last leading entry not above the key, or the first one's |
| BTreeLaws.SearchAnswers | src/btree/search.rs:18-44 | A search answers from the leaf these children lead to, at any depth |
| BTreeLaws.MatchingIs | src/btree/search.rs:29-35 | with exactly its entries of that key, in order |
| BTreeLaws.TooDeep | src/btree/search.rs:18-44 | Beyond the depth looked at there is no answer; a meta page answers nothing |
| BTreeLayout.HeaderLayout | src/btree/insert.rs:5-33 | The page header, byte by byte |
| BTreeLayout.EntryLayout | src/btree/insert.rs:36-57 | Each entry, byte by byte, where it starts |
| BTreeLayout.RestIsZero | src/btree/insert.rs:5-60 | All bytes behind the last entry that fits are zero |
| BTreeLayout.HeaderRead | src/btree/insert.rs:62-91 | Which fields any bytes are read as; fewer than 16 are an empty leaf |
| BTreeLayout.KindsRead | src/btree/insert.rs:67-74 | Unknown kinds are read as leaves |
| BTreeLayout.EntriesRead | src/btree/insert.rs:96-122 | From any bytes the entries are read one after another, up to the count announced or the first that has no length or does not fit |
| BTreeSplits.FullLeafLosesKey | src/btree/insert.rs:270-328 | When the leaf is full its parent entry is overwritten, the left half is cut off and the leaf's first key is no longer found, at every page size |
| BTreeRefinement.InsertSplits | src/btree/insert.rs:198-249 | Inserting into a full root leaf leaves two leaves under a new root, each key on its side of the separator |
| BTreeRefinement.InsertBelowRoot | src/btree/insert.rs:253-269 | Inserting below a root adds the key to the leaf it descends to and changes nothing else |
| BTreeRefinement.InsertWithRoom | src/btree/insert.rs:253-257 | Inserting into a leaf with room adds the key and touches no other page |
| BTreeRefinement.SearchTwoLevels | src/btree/search.rs:18-60 | Search descends to the leaf that holds the key's side and returns exactly its entry |
| BTreeRefinement.ZeroPageIsEmptyLeaf | src/btree/insert.rs:62-91 | A page never written, or all zero, is an empty leaf |
| BTreeCodec.PageRoundTrip | src/btree/insert.rs:5-132 | Decoding an encoded page gives back type, level, siblings and the keys that fitted |
| BTreeCodec.PageRoundTripIff | src/btree/insert.rs:5-132 | A page comes back whole exactly when it is no meta page, has no sibling 0, carries no oids and all its keys fit |
| BTreeCodec.FittingPrefixIsLongest | src/btree/insert.rs:38-42 | The kept keys are the longest prefix that fits |
| BTreeCodec.NotFullNeverTruncated | src/btree/page.rs:41-43 | Entries within an equal share of the page are never cut off as long as there are no more than a full page has |
| BTreeCodec.LongKeysNeverFit | src/btree/page.rs:41-43 | The bound is exact for every page size: a full page of larger entries never fits |
| BTreeCodec.MaxEntryIs | src/btree/page.rs:41-43 | The share is below the 64 bytes counted on, and 63 bytes, a key of 53, from pages of 4096 bytes on |
| BTreeRefinement.LongInsertIsCutOff | src/btree/insert.rs:253-257 | Inserting a long key into a stored leaf of long keys that is not full writes a page that comes back without its last key |
| BTreeRefinement.LongKeysFitBefore | src/btree/insert.rs:38-42 | Before that insertion, with entries one byte over their share, the leaf was stored whole |
| BTreeCodec.EntriesRoundTrip | src/btree/insert.rs:36-57 | The entry loops undo each other |
| BTreePages.BinarySearch | src/btree/page.rs:46-49 | In a sorted list the binary search finds the key or the place where it belongs; in any list a key reported is there |
| BTreePages.InsertSortedInto | src/btree/page.rs:45-51 | Insertion adds exactly the tuple, keeps a sorted page sorted, and puts a new key at its lower bound |
| BTreePages.InsertSortedStrict | src/btree/page.rs:45-51 | A new key goes between the smaller and the larger keys |
| BTreeObjects.SerializePage | src/btree/insert.rs:5-60 | The buffer filled at a moving position is the page's encoding |
| BTreeObjects.DeserializePage | src/btree/insert.rs:62-132 | The loop over the bytes builds the decoded page |
| BTreeObjects.DescendTo | src/btree/search.rs:46-60 | The loop picks the last child whose key is not above the search key, else the first |
| BTreeObjects.SearchPage | src/btree/search.rs:18-44 | The recursion collects what the specified search answers |
| BTreeObjects.InsertLeaf | src/btree/insert.rs:194-257 | Leaf insertion, the leaf split and the new root, written to storage as specified, wherever the library search places a key already there |
| BTreeSplits.SplitPages | src/btree/insert.rs:291-328 | Splitting a full inner page, read back from storage: the halves hold its entries in order, the right half's first entry points to the new child, and a new root one level up separates them by that entry's key |
| BTreeSplits.SplitRoutes | src/btree/insert.rs:291-328 | From the new root every key still reaches the child it reached from the page before the split, except the keys of the middle entry, which reach the new child; equal keys and single entries included |
| BTreeSplits.SplitCutsMiddleChild | src/btree/insert.rs:304-306 | No key reaches the child the middle entry pointed to any more, unless another entry points to it |
| BTreeSplits.FullRootIff | src/btree/insert.rs:224-237 | A root of two entries, as every new root is, is full exactly at page sizes below 192 |
| BTreeSplits.FullRootInsert | src/btree/insert.rs:258-328 | There an insertion into a full leaf below it splits the root: every key then leads to the leaf's right half, except keys below the separator when the right leaf was split |
| BTreeObjects.InsertRecursive | src/btree/insert.rs:184-289 | The recursion rewrites storage and returns the new page as specified, with the key already present or not |
| BTreeObjects.InsertMultipage | src/btree/insert.rs:169-182 | An insertion through the root leaves storage and the current root as specified, in a tree of any depth |
| BTreeObjects.InsertAllAndSearch | src/btree/insert.rs:169-289 | The running code end to end: inserting a whole run into an empty root page and then searching finds exactly the tuple inserted under the key, or nothing |
| BTreeObjects.RepresentedIsSearchable | src/btree/insert.rs:184-197 | Along such a run the leaf reached for a new key is always sorted and free of it |
| WriteAheadLog.RunKeepsValid | src/wal/mod.rs:320-372 | Over any run positions increase, records do not overlap, every record stays readable byte for byte, only records longer than a segment cross one, and the flush position is a record end not beyond the current one and never moves back |
| WriteAheadLog.EnsuredIsDurable | src/wal/mod.rs:365-372 | After ensure_flushed(lsn), whatever came before and comes later, every record that started at or before lsn lies whole below the flush position and can still be read |
| WriteAheadLog.FlushedWhole | src/wal/mod.rs:347-372 | Records are flushed whole or not at all |
| WriteAheadLog.AppendKeepsValid | src/wal/mod.rs:320-345 | An append overwrites nothing of the earlier records |
| WriteAheadLog.FitsWhen | src/wal/mod.rs:337-342 | The copy stays inside its page exactly for records no longer than a page |
| WriteAheadLog.StartInSegment | src/wal/mod.rs:328-331 | A record stays inside its segment exactly when it is no longer than a segment |
| WriteAheadLog.OffsetIsRemainder | src/wal/mod.rs:327-341 | A position's offset and segment number, defined by repeated subtraction, are the source's remainder and quotient |
| WriteAheadLog.WAL.Append | src/wal/mod.rs:320-345 | The record starts where the log ends if the rest of the segment takes it, and otherwise at the next segment; log end, storage and history change as specified and the record is readable |
| WriteAheadLog.StartsWhere | src/wal/mod.rs:328-331 | A record starts where the log ends exactly if the remainder of that position plus its size is at most a segment; otherwise it starts at the least multiple of the segment size above, even from a boundary |
| WriteAheadLog.AppendEffect | src/wal/mod.rs:333-345 | The record's bytes stand on its segment's page at the remainder of its position; all other bytes and pages are unchanged, zeros where the page was shorter |
| WriteAheadLog.RecordsAreAdjacent | src/wal/mod.rs:320-345 | Over any run the records are the data appended, in order, each starting where the one before ends unless it would have crossed a segment |
| WriteAheadLog.WAL.Flush | src/wal/mod.rs:347-355 | The flush position becomes the current one, and the flush is counted |
| WriteAheadLog.WAL.EnsureFlushed | src/wal/mod.rs:365-372 | Flushes exactly when something is unflushed and lsn is not below the flush position; either way the records up to lsn are flushed whole |
| Checksums.ComputeCrc | src/wal/mod.rs:123-136 | The nested bit loop computes the checksum |
| PolynomialDivision.CrcIsRemainder | src/wal/mod.rs:123-136 | The checksum is the CRC-32 of RFC 1952 and ITU-T V.42: the complement of the remainder, modulo x^32+x^26+x^23+x^22+x^16+x^12+x^11+x^10+x^8+x^7+x^5+x^4+x^2+x+1, of the message times x^32 with its first 32 bits complemented, for every payload |
| PolynomialDivision.DivisionIsFeed | src/wal/mod.rs:124-134 | Long division of the bits is feeding them to the register one by one |
| Checksums.BurstsAreDetected | src/wal/mod.rs:123-136 | Changes confined to 32 consecutive bits, at any bit position in a payload of any length, always change the checksum |
| Checksums.FourBytesAreDetected | src/wal/mod.rs:123-136 | So does any change to up to four consecutive bytes |
| Checksums.LongerBurstsAreMissed | src/wal/mod.rs:123-136 | 32 is the best possible: every payload of at least five bytes has a neighbour, changed within 33 consecutive bits, with the same checksum |
| Checksums.ShiftIsInjective | src/wal/mod.rs:128-132 | The shift step is a bijection on 32-bit words |
| Checksums.ShiftIsLinear | src/wal/mod.rs:128-132 | It is linear over exclusive or |
| Checksums.FeedIsShifts | src/wal/mod.rs:124-134 | Feeding up to 32 bits is mixing them in at once and shifting |
| Checksums.RegisterIsFeed | src/wal/mod.rs:124-134 | The byte-wise register is the bit-wise one |
| LogRecords.RecordRejectsBursts | src/wal/mod.rs:82-121 | A header made for a payload, written and read back, accepts among the payloads that differ from it within 32 consecutive bits exactly that payload |
| LogRecords.HeaderRoundTrip | src/wal/mod.rs:96-116 | Record headers come back whole |
| LogRecords.HeaderLayout | src/wal/mod.rs:82-106 | The stored header, byte by byte: length with header, transaction, info, manager, checksum |
| LogRecords.VerifyCrc | src/wal/mod.rs:118-120 | Verification compares the stored checksum with the payload's |
| Partitions.PrunedScanIsFullScan | src/executor/partition/pruning.rs:8-27 | Filtering only the pruned partitions gives the same rows, in the same order, as filtering all of them |
| Partitions.PruningKeepsHome | src/executor/partition/pruning.rs:8-27 | For any WHERE expression that holds on a row, the partition the row is routed to survives pruning, for range, list and hash |
| Partitions.EqualityHolds | src/executor/partition/pruning.rs:29-55 | Where the WHERE clause holds, the column it was found to pin has the value it was found to have |
| PartitionLaws.PinnedIsFirst | src/executor/partition/pruning.rs:29-55 | What pruning finds is the first condition `column = literal`, text or number, among those joined by AND, if there is one |
| PartitionLaws.PrunedTo | src/executor/partition/pruning.rs:8-27 | Then only the first partition accepting its value is left, if the column is a partition column |
| PartitionLaws.NotPruned | src/executor/partition/pruning.rs:8-27 | Otherwise all partitions are, in order |
| Partitions.HarmlessPruningIsSafe | src/executor/partition/pruning.rs:12-19 | With several partition columns, a filter of any form that pins one that does not route is pruned safely when both names resolve to one field, the literal routes nowhere, or everything routable goes to the literal's partition |
| Partitions.PruningByOtherColumn | src/executor/partition/pruning.rs:12-19 | For a plain equality with a text or number literal that condition is exact |
| Partitions.PruningLosesRow | src/executor/partition/pruning.rs:12-19 | Otherwise a row can be lost: two list partitions routed by one column, a filter on the other |
| Partitions.Route | src/executor/partition/mod.rs:90-126 | The first accepting partition in order: it accepts and no earlier one does; none when none accepts |
| PartitionLaws.RoutedTo | src/executor/partition/mod.rs:90-126 | A value goes to the first partition that accepts it |
| PartitionLaws.RangeAccepts | src/executor/partition/mod.rs:93-105 | A range bound takes the texts before its first value, the empty text if it has none, and that value itself if it is inclusive |
| PartitionLaws.ListAccepts | src/executor/partition/mod.rs:106-114 | A list bound takes the values listed |
| PartitionLaws.HashAccepts | src/executor/partition/mod.rs:115-124 | A hash bound takes the values whose hash leaves its remainder |
| PartitionLaws.HashIs | src/executor/partition/mod.rs:128-134 | The hash is the sum of the bytes, each times 31 as often as bytes follow it, modulo 2^32 |
| PartitionLaws.Utf8Decodes | src/executor/partition/mod.rs:128-134 | The bytes are the UTF-8 form of the text (section 3 of RFC 3629): decoding them gives its code points |
| Partitions.PartitionManager.FindPartitionForValue | src/executor/partition/mod.rs:90-126 | The search over the partitions finds the routed one, unless it divides by a modulus 0 first |
| Partitions.PartitionManager.HashValue | src/executor/partition/mod.rs:128-134 | Wrapping at every byte is the same as reading the bytes as digits in base 31 and reducing once |
| Partitions.PartitionManager.AddPartition | src/executor/partition/mod.rs:66-68 | A new partition is tried last |
| Evaluation.AndHolds | src/server/eval.rs:53-57 | AND is strict: it holds exactly when both sides evaluate to "true" |
| Evaluation.EqualsHolds | src/server/eval.rs:43-46 | An equality holds exactly when both sides have the same value |
| EvaluationLaws.OrHolds | src/server/eval.rs:59-63 | OR holds exactly when both sides evaluate to "true" or "false" and one of them to "true" |
| EvaluationLaws.LogicValue | src/server/eval.rs:54-112 | AND, OR and NOT of truth values |
| EvaluationLaws.NoLogicValue | src/server/eval.rs:54-112 | On anything else they have no value |
| EvaluationLaws.ComparisonsHold | src/server/eval.rs:48-53 | The six comparisons: equal, or ordered by the first character that differs |
| EvaluationLaws.LikeHolds | src/server/eval.rs:95-104 | LIKE asks whether the pattern without its percent signs occurs somewhere; ILIKE the same in lower case |
| EvaluationLaws.PercentsGo | src/server/eval.rs:96 | Taking the percent signs out keeps the other characters, in order |
| EvaluationLaws.NullHolds | src/server/eval.rs:125-132 | IS NULL holds of blank texts and of NULL in any case; IS NOT NULL of the others; without a value neither has one |
| EvaluationLaws.InHolds | src/server/eval.rs:245-256 | IN holds exactly when one of the listed expressions has the value, NOT IN when none has |
| EvaluationLaws.BetweenHolds | src/server/eval.rs:225-244 | BETWEEN includes both ends, compares texts unless all three are numbers, and can be negated |
| EvaluationLaws.CaseTakes | src/server/eval.rs:150-173 | CASE is the result of the first arm whose condition equals the operand, or holds where there is none |
| EvaluationLaws.CaseStops | src/server/eval.rs:159 | An arm whose condition has no value leaves CASE without one |
| EvaluationLaws.CaseElse | src/server/eval.rs:168-173 | When no arm is taken it is the ELSE, or NULL |
| EvaluationLaws.FirstArgument | src/server/eval.rs:193-222 | COUNT is 1; aggregates and unknown functions are their first argument |
| EvaluationLaws.ConcatAppends | src/server/eval.rs:214-221 | CONCAT appends the values of its arguments |
| EvaluationLaws.TextFunction | src/server/eval.rs:174-213 | The text functions get their arguments in order |
| EvaluationLaws.ArithmeticIs | src/server/eval.rs:64-133 | Arithmetic and signs get their operands in order; a cast changes nothing |
| EvaluationLaws.LiteralIs | src/server/eval.rs:10-27 | What each kind of literal evaluates to |
| EvaluationLaws.ColumnIs | src/server/eval.rs:28-43 | A column is the row's value at the first field of that name, ignoring ASCII case |
| EvaluationLaws.FilterKeeps | src/server/eval.rs:260-265 | Filtering keeps exactly the rows for which the condition is "true" or "t", in order |
| Order.TextOrder | src/server/eval.rs:50-53 | One text is below another if it has the smaller character where they first differ, or ends there |
| Evaluation.FieldIndex | src/server/eval.rs:28-35 | A name resolves to the first field equal to it ignoring ASCII case |
| BufferPools.BufferPool.FindVictim | src/buffer_cache/mod.rs:177-204 | The sweep picks the first unpinned unused buffer in clock order, else the first used once, else the lowest unpinned slot, else 0; each unpinned buffer loses one use per pass, and the hand moves past the victim |
| ClockReference.SweepIs | src/buffer_cache/mod.rs:177-204 | The victim, the usage counts and the hand are those of a sweep done tick by tick: pass what is pinned, take one use off what is used, take what is not |
| BufferPools.VictimIsFree | src/buffer_cache/mod.rs:177-204 | The victim is unpinned if and only if some buffer is; a swept victim has no usage left; on falling through every unpinned buffer had been used at least twice and lost exactly two; pinned ones are untouched |
| BufferPools.UsedBuffersGoLast | src/buffer_cache/mod.rs:182-193 | No unpinned buffer used fewer than two times is passed over for a victim that was used more |
| BufferPools.EnoughUsage | src/buffer_cache/mod.rs:182-193 | No unpinned buffer runs out of usage before the sweep stops |
| BufferPools.BufferPool.FetchPage | src/buffer_cache/mod.rs:96-127 | A fetch changes pool, map and storage as specified; only an unpinned dirty victim is written back |
| ClockReference.FetchHits | src/buffer_cache/mod.rs:96-105 | A page in the pool gets one more use and one more pin; nothing else changes |
| ClockReference.FetchMisses | src/buffer_cache/mod.rs:106-127 | A page that is not takes the slot the sweep finds, clean, used once and pinned once; the page replaced is forgotten only if it was dirty and unpinned |
| BufferPools.FetchReturnsPage | src/buffer_cache/mod.rs:96-127 | From a coherent pool the slot returned holds the page, read from storage on a miss |
| BufferPools.FetchStaysCoherentIff | src/buffer_cache/mod.rs:111-125 | A miss leaves the pool coherent exactly when the victim was written back or was not the mapped copy of its page |
| BufferPools.StaleFetch | src/buffer_cache/mod.rs:96-127 | After a clean eviction the evicted page's map entry leads to another page |
| BufferPools.PinnedBuffersSurvive | src/buffer_cache/mod.rs:96-127 | Unless a miss finds every buffer pinned, pinned buffers keep their contents and pins |
| BufferPools.AllPinnedIsOverwritten | src/buffer_cache/mod.rs:196-204 | A miss that finds every buffer pinned overwrites the first one |
| BlockRangeIndexes.LookupAfterRun | src/btree/brin_index.rs:90-113 | After any run of inserts and deletes, looking up a value that is not null returns each row as often as it was inserted with that value and not deleted |
| BlockRangeIndexes.LookupRangeAfterRun | src/btree/brin_index.rs:115-138 | After any run without nulls, a range lookup is the full scan, in order |
| BlockRangeIndexes.RangeLookupMissesNull | src/btree/brin_index.rs:115-138 | One null is enough to make a range lookup miss a row |
| BlockRangeIndexes.RunHolds | src/btree/brin_index.rs:41-148 | After any run the summaries cover their entries and the index holds what remains |
| BlockRangeLaws.SummariesAreExact | src/btree/brin_index.rs:41-88 | After any run each summary covers its blocks, counts nulls and values, and holds exactly the least and the greatest value ever inserted; its distinct count counts repetitions |
| BlockRangeLaws.InsertEffect | src/btree/brin_index.rs:41-88 | An insert appends to its range and to no other, and adds the missing ranges |
| BlockRangeLaws.DeleteEffect | src/btree/brin_index.rs:140-148 | A delete takes out the first occurrence in its range and leaves all else, the summaries too |
| BlockRangeLaws.Visits | src/btree/brin_index.rs:90-138 | Which ranges a lookup and a range lookup visit |
| BlockRangeLaws.VisitIs | src/btree/brin_index.rs:90-138 | A lookup returns the wanted entries of the ranges visited, range after range |
| BlockRangeLaws.MatchingIs | src/btree/brin_index.rs:96-112 | of each range exactly those wanted, in order |
| BlockRanges.LookupIsScanIff | src/btree/brin_index.rs:90-113 | Looking up a value is a full scan for it exactly when it is not null or each range holding it has no bounds or bounds around it |
| BlockRanges.LookupRangeIsScanIff | src/btree/brin_index.rs:115-138 | A range lookup is a full scan exactly when every range that holds a null text between the limits overlaps them |
| BlockRanges.InsertKeepsValid | src/btree/brin_index.rs:41-88 | An insert widens the summary around the value and keeps it around the others |
| BlockRanges.DeleteKeepsValid | src/btree/brin_index.rs:140-148 | A delete leaves the summaries covering what remains |
| BlockRanges.InsertAdds | src/btree/brin_index.rs:84-87 | An insert adds exactly its entry |
| BlockRanges.DeleteRemoves | src/btree/brin_index.rs:140-148 | A delete removes exactly one occurrence, whichever range it is found in first |
| BlockRangeIndexes.BrinIndex.InsertEntry | src/btree/brin_index.rs:41-88 | The fields change as specified and stay valid |
| BlockRangeIndexes.BrinIndex.LookupValue | src/btree/brin_index.rs:90-113 | The loops collect what the lookup specifies |
| BlockRangeIndexes.BrinIndex.LookupBetween | src/btree/brin_index.rs:115-138 | The loops collect what the range lookup specifies |
| BlockRangeIndexes.BrinIndex.Delete | src/btree/brin_index.rs:140-148 | Trying the ranges in any order removes one occurrence if there is one and says so |
| Jsonb.SetThenGetIff | src/types/jsonb.rs:72-171 | Reading a path after writing it returns the new value exactly when the path can be written |
| Jsonb.ResolvingIsSettable | src/types/jsonb.rs:72-88 | A path that resolves can be written |
| Jsonb.SetOldIsIdentity | src/types/jsonb.rs:127-171 | Writing back what a path holds changes nothing |
| Jsonb.SecondSetWinsIff | src/types/jsonb.rs:127-171 | A second write overrides the first, whatever the values, exactly when the path is rewritable |
| Jsonb.SettableIsRewritable | src/types/jsonb.rs:127-171 | Every path that can be written is rewritable |
| Jsonb.WriteKeepsPathIff | src/types/jsonb.rs:127-171 | A write to one path leaves what another one holds, whatever the value written, exactly when the two part above the first scalar on the way, an array write counting at the index it lands on |
| Jsonb.SettableKeeps | src/types/jsonb.rs:127-171 | On a path that can be written, going to another key or another index is enough |
| Jsonb.OtherPathsAreUnaffected | src/types/jsonb.rs:127-171 | So a write to a path that can be written leaves what a diverging path holds |
| Jsonb.UnreadableWriteMayKeep | src/types/jsonb.rs:168-169 | A write that cannot be read back may still keep the other path |
| Jsonb.SetIsInjective | src/types/jsonb.rs:127-171 | Different values written leave different results |
| Jsonb.WritingBeyondTheEnd | src/types/jsonb.rs:149-162 | Beyond an array's end it does not: the value is appended at another index |
| Jsonb.ContainsIsTransitive | src/types/jsonb.rs:97-109 | Containment is transitive |
| JsonbShapes.ContainsByPaths | src/types/jsonb.rs:97-109 | An object without arrays and repeated keys is contained in a value exactly if each of its paths leads in the value to the same scalar, or to an object where it has one |
| JsonbShapes.ObjectContains | src/types/jsonb.rs:99-103 | An object contains another if for each member of that its own first member of that key contains the value; other members do not matter |
| JsonbShapes.ArrayContainsIff | src/types/jsonb.rs:104-106 | An array contains another if each element of that lies in one of its own |
| JsonbShapes.ScalarContains | src/types/jsonb.rs:107 | Anything else contains only what equals it |
| Jsonb.ContainsItself | src/types/jsonb.rs:97-109 | A value with unique keys contains itself |
| Jsonb.RepeatedKeys | src/types/jsonb.rs:97-103 | With a repeated key, which parsing never builds, a value need not contain itself |
| Jsonb.ContainsItselfIff | src/types/jsonb.rs:97-109 | A value contains itself exactly when the first member of each key contains itself and the others of its key, and each array element contains itself or lies in another one |
| Jsonb.SetKeepsUniqueKeys | src/types/jsonb.rs:127-171 | Updates never repeat a key |
| Jsonb.JsonbSet | src/types/jsonb.rs:127-171 | The update as it runs, editing a copied list in place, returns the specified value |
| JsonbShapes.ObjectStep | src/types/jsonb.rs:72-145 | Reading and writing a member: the first of that key, and no other changes |
| JsonbShapes.MissingMember | src/types/jsonb.rs:72-148 | A missing member is not found; a write adds it at the end |
| JsonbShapes.ArrayStep | src/types/jsonb.rs:81-160 | Reading and writing an element: a write takes a step that is no index for element 0, a read finds nothing |
| JsonbShapes.MissingElement | src/types/jsonb.rs:81-167 | Beyond the end nothing is found; a write appends |
| JsonbShapes.BelowScalar | src/types/jsonb.rs:86-170 | Below a scalar nothing is found; a write replaces it |
| JsonbShapes.ShownIndex | src/types/jsonb.rs:83 | The decimal form of a number below 2^64, with or without a plus sign, is that index |
| JsonbShapes.IndexShape | src/types/jsonb.rs:83 | Leading zeros do not matter, and nothing but digits is an index |

## Left out

- OuterMergeJoins.MergeAgreesIff: for full joins this condition, on bags of rows, is the only one given; left and right joins also have one row by row.
- JoinAlgorithms.HashJoin: keys are functions of a row to an optional text, so the resolution of column names inside the ON expression is not modelled; its Cross and Lateral cases, which behave as Inner, are covered by the specification only.
- Joins with USING and the error paths of `execute_join`: thin loops over column positions.
- MergeJoins.MergeJoin: the order of the items returned, by key, is not stated.
- ParserImage.AcceptedIff: texts without casts, subqueries, EXTRACT and the DATE_ functions, `?` parameters and window clauses, which the source reads but which end in a not-modelled error here; negated IN and BETWEEN have no syntax in this parser. Which error a rejected input ends in is given by the methods against their grammar functions only.
- RoundTrips.ReadText: a follower that binds to a name, `(`, `[`, `.`, FILTER or OVER, is excluded behind every primary, also behind those it does not continue.
- Parsers.Parser.ParseExpression: computes the grammar of the constructs modelled; subqueries, casts, EXTRACT, the DATE_ functions, `?` parameters and window clauses end in a not-modelled error wherever they occur.
- Parsers.Parser.ParseInRest: IN with a subquery ends in a not-modelled error, because SELECT statements are not modelled.
- Parsers.Parser.ParsePostfix: a `::` cast ends in a not-modelled error, because data types are not modelled.
- Parsers.Parser.ParsePrimaryExpr: CAST, EXTRACT, the DATE_ functions, `?` parameters and nested SELECT end in a not-modelled error.
- Parsers.Parser.ParseCallRest: a window clause ends in a not-modelled error.
- Parsers.Parser.ParseInfix: one method stands for the source's eight copies of the same loop, one per left-associative level.
- Statement, DDL and DML grammar, and the tokenizer with its string escapes.
- Locks.RunIsSafe: each operation is one step; interleavings inside an operation, which the source excludes by mutexes except between its separate tables, are not modelled. PostgreSQL's own conflict matrix is not the reference: Exclusive and AccessExclusive do not conflict with themselves in this code.
- HotChains.ChainLeadsToNewest: redirects do not survive serialization (their targets are zeroed) or compaction (they are not renumbered), so the claim ends there.
- HeapPageObjects.HeapPage.AddTuple: a tuple longer than the free space underflows the source's subtraction and is required not to happen; HotUpdate likewise.
- `tuple_update`, `prune` and index maintenance of the heap; row values are compared as decoded tuples, before `decode_tuple_values`.
- Vacuums.VacuumInvisible: pages in serialized form, no two concurrent vacuums; the buffer pool between storage and scan is left out.
- Transactions.SnapshotSeparates: begin is one step (number and snapshot together); the window between them is not modelled. Ended means committed or rolled back, because the source keeps no commit log. The scan-level `Snapshot::is_visible` is not used for scans and is left out.
- BTreeRuns.RunRefinesIff: distinct keys whose entries keep to an equal share of the page (keys of 1 to 53 bytes from 4096 bytes on), pages from 128 bytes, which take two entries, to below 4 MiB, where a full page has a 16-bit key count; a key inserted twice is covered by the methods against their specification only.
- BTreeLost.InsertKeepsAbsent: an inner page of the set must be a root or internal page, as all that are ever written are; overflow pages, which nothing creates, are excluded.
- BTreeObjects.SearchPage: recursion is bounded by a depth parameter, which only says how deep one looks (BTrees.SearchDeeper); a cyclic tree, on which the source does not terminate, answers nothing here.
- BTreeObjects.InsertRecursive: recursion is bounded likewise. Where the library's binary search inserts among equal keys or in an unsorted list is not fixed; the method reports the place, and a sorted leaf stays sorted.
- BTreePages.InsertSortedInto: the same for one list.
- WriteAheadLog.RunKeepsValid: appends are serialized and the number of segments stays below 2^32; recovery, archiving and the transaction counter are left out.
- BufferPools.BufferPool.FetchPage: counters are unbounded, and pinning, unpinning, flushing and invalidation are left out.
- Partitions.PrunedScanIsFullScan: one partition column (repetitions allowed); the case of several is HarmlessPruningIsSafe, whose condition is necessary for plain equalities (PruningByOtherColumn) but not for filters that no row with another home passes anyway.
- Partitions.PartitionManager.FindPartitionForValue: a hash bound with modulus 0 before the first accepting one, on which the source panics, is required not to occur.
- BlockRangeIndexes.BrinIndex.InsertEntry: block numbers whose range would overflow 32 bits are required not to occur.
- Jsonb.ContainsItselfIff: scalars are compared by value, taking their printed form as injective; numbers are the text they print as. Deletion along a path is left out.
- Server loop, wire protocol, authentication, file storage, auditing, statistics, cost estimates, aggregates and window functions: input and output, or thin state with easy claims.
