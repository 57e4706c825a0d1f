# RuSQL: proofs about its engine, its wire and its tools

This project models parts of the RuSQL repository in Dafny 4.11 and proves what they promise: the MySQL-compatible collation and LIKE, the B+Tree index, the
row locks and the read snapshots of the engine; the MySQL wire format and the line protocol of its server; the command queue that the MCP server and the desktop
apps share; and the algorithms the tools use (foreign-key paths, the OR rewrite, the statement splitter, CSV, the drawing of a tree).
`dafny verify dfyconfig.toml` checks everything.

## How it is built

Code that changes things in place is a method with loops, or a class whose methods change its fields, and is proved against a function that says what it
computes; what the repository promises is then proved about that function. Code that several processes or threads run at once is a state machine of its steps,
and its promises are lemmas about every run.

| files | what they model |
|---|---|
| `Utf8`, `Weights`, `Collation`, `Keys`, `Like`, `LikeFacts` | decoding, weights, comparison, sort key, key and LIKE of the default collation |
| `Assoc`, `BTree`, `BTreeInsert`, `BTreeRemove`, `BTreeScan`, `BTreeIndex` | the index: a B+Tree over any total preorder of keys |
| `IndexKeys`, `NumberKeys` | the order of its keys, and when it is a total preorder |
| `WaitGraph`, `LockManager`, `LockRuns` | row locks, the wait-for graph and its check for deadlocks |
| `Snapshots` | row versions, what a snapshot reads, rollback and vacuum |
| `ResultText`, `BoxTable` | cells and tables as text, three readers of them |
| `Streams`, `Packets`, `Prepared`, `PreparedFacts`, `WireTypes`, `WireColumns` | the MySQL wire: packets, rows, prepared statements, column types |
| `LineReaders`, `Answers` | the line protocol, and a table on its whole way from the server to the client |
| `UiQueue`, `UiQueueSafety`, `UiQueueRuns` | the queue of interface commands under its lock file |
| `FkPath`, `OrRewrite`, `StatementSplit`, `StatementSplitFacts`, `StatementNesting`, `Csv`, `NodeTree`, `TreeLayout` | algorithms on structure |

`Common` holds what they share. A file without its own table row in this list belongs to the line before it.

## Where the code does not do what is said of it

Each of these is a lemma with a concrete input or run, next to the condition under which the promise holds.

- Deadlocks: the comment at `code/backend/core/src/engine/lock_manager.cpp:93-102` says a cycle is always found by the request that closes it. A release erases
  the arrow of a sleeper that has not woken; a new holder can go to sleep for one of its locks before it looks again, and the sleeper then turns its arrow
  without a check (`LockRuns.DeadlockUnseen`). A run stays free of cycles exactly when no sleeper turns to a holder that waits for it (`LockRuns.RunIsAcyclic`).
- Vacuum: `code/backend/core/include/engine/executor/executor.hpp:576-581` says a purged version was ended before the oldest open snapshot could have begun. The
  horizon is the oldest open id, so a version that an older, since committed transaction ended is taken from under a younger open snapshot
  (`Snapshots.VacuumTakesWhatIsRead`); a vacuum is harmless exactly when it takes nothing visible (`Snapshots.VacuumSeen`).
- Repeatable reads: an autocommit statement takes its id before it waits for locks and writes afterwards (`Snapshots.LateStatementIsRead`). BEGIN takes its id and
  its copy of the open transactions under their lock, but lets go of it before it takes it again to enter its id; one that begins in between sees the id below its
  cutoff and not in its copy (`Snapshots.UncommittedIsRead`). A snapshot is safe from the others exactly when nobody was in either state when it was taken
  (`Snapshots.SafeExactlyWhenAlone`).
- Index order of numbers: whole numbers compare exactly, everything else as doubles, ties by bytes; -9007199254740993, -9007199254740992 and
  -9007199254740992.0 go round in a circle (`NumberKeys.NumberColumnsCanGoRound`). On a set of keys the order is total exactly when no three of them are
  tangled like these (`NumberKeys.NumbersInOrderExactly`), so it is for whole numbers only, for none, and for whole numbers that are exact doubles.
- LIKE: U+0000 has no entry in the weight table, so the walk over code points gives it implicit weights, while the ASCII table ignores it; the two walks
  agree on a value for all ASCII patterns exactly when it holds no ignored character (`LikeFacts.WalksAgreeExactly`).
- Wire types: a row too short for a typed column is skipped by the check but sent as an empty text, which no type reads (`WireColumns.SentIsSound`).
- Prepared statements: the unsigned flag is read and not used, a TIME is read as a date with a time, a TIMESTAMP, a YEAR and a BIT by other types' rules, a DATE
  without its length byte, microseconds are dropped, a DATETIME of length 0 is NULL, a text of 2^24 bytes or more is empty (`PreparedFacts.UnsignedTurnsNegative`,
  `SpanRead`, `TimestampRead`, `DateWithLengthByte`, `MomentRead`, `LongTextIsLost`). Every other value arrives (`PreparedFacts.ValueExactly`).
- OR rewrite: no guard looks for an OR of a CASE expression (or of a name or text in other quotes); the clause is cut there (`OrRewrite.CaseIsCut`). The branches
  are the disjuncts exactly when no test outside groups holds such an OR (`OrRewrite.BranchesAreTerms`).
- Splitter: the comments at `code/frontend/src-tauri/src/main.rs:400-401` say a body is not split. The END of a CASE expression closes the body for the splitter,
  and a column called begin opens one (`StatementNesting.CaseCutsBody`, `StatementNesting.NameStopsCutting`); its counter is the nesting of bodies exactly when
  there is no such word (`StatementNesting.AgreeEverywhere`, `StatementNesting.AgreeAtSemicolons`).
- Queue: a result its sender has not collected yet is dropped when another command is sent (`UiQueueRuns.ResultCanBeLost`).
- Splitter: with comments, splitting the output again can give something else (`StatementSplitFacts.CommentsCanBreakIt`); it gives the same exactly when every
  statement but the last is closed and the last is not cut (`StatementSplitFacts.SplitAgainExactly`).
- CSV: a field with a newline, or a row that is written as a blank line, does not survive the import (`Csv.FileRoundTrip`).
- Responses: a body line equal to the end mark cuts a response (`LineReaders.ResponseRoundTrip`); a printed table never has one (`Answers.TableIsPlain`).

## What is assumed

- The weight table of `code/backend/core/src/collation_data.inc` is any table that is `Weights.Sound` (runs sorted and disjoint, at most eight weights each, inside
  the pool), `Weights.AsciiSound` (ASCII code points with at most one weight, printable ones with exactly one, equal for the cases of a letter and
  different otherwise) and, for the differences of the two LIKE walks, `LikeFacts.NulHasNoRun`. The runs begin at line 4 of that file.
- Texts of tables, statements and lines are strings of characters, one character a byte on the wire; the collation, keys and packets work on bytes.
- A socket is a stream that each call cuts anywhere. Unique ids are unique; a file is replaced in one step.
- The comparison of an index is a total preorder (`Assoc.Total`), as an assumption of the theorems about the tree; the lemmas of `NumberKeys` show where the one
  the engine passes is one.
- How floating-point bits are printed and how texts are read as doubles is a parameter; `IndexKeys.Exact` says that plain numbers of up to fifteen digits are
  read exactly, `NumberKeys.ExactTo53` that whole numbers up to 2^53 are, and `NumberKeys.FarApart` that a number beyond 2^63 and one written with two signs
  (which the double parser reads as 0) stand as doubles as they do as numbers.
- Characters that are alphabetic or blank in the Unicode sense are a parameter of the splitter (`SaneClasses`); which words of a text are names is a parameter of
  `StatementNesting`, whose lemmas hold for every choice.
- Transactions that end a row version hold its row lock, so the version is a current one (`Snapshots`).

## Model

| member | source | states |
|---|---|---|
| Utf8.Decode | code/backend/core/src/collation.cpp:99-138 | moves on by at least one byte and never past the end; the code point read is the one whose encoding stands there, or U+FFFD for one byte |
| Utf8.DecodeIsExact | code/backend/core/src/collation.cpp:99-138 | the decoder reads a code point exactly where its shortest encoding stands (surrogates included), and U+FFFD for a single byte exactly where no encoding stands |
| Utf8.EncodedIsWellFormed | code/backend/core/src/collation.cpp:99-138 | where the encoding of a code point up to 0x10FFFF stands, the decoder reads it and stops right behind it, whatever follows |
| Utf8.CodePoints | code/backend/core/src/collation.cpp:232-238 | the code points of a text are those the decoder reads one after the other to the end |
| Utf8.CodePointsOfEncoded | code/backend/core/src/collation.cpp:232-238 | the code points of the UTF-8 text of any code points are those code points |
| Weights.RunsUpTo | code/backend/core/src/collation.cpp:31-45 | the binary search finds how many runs start at or before a code point |
| Weights.FromRuns | code/backend/core/src/collation.cpp:31-45 | writes exactly the weights of the run that holds the code point; -1 exactly when no run does; nothing else in the buffer changes |
| Weights.LookupAt | code/backend/core/src/collation.cpp:31-45 | at most one run holds a code point, so the weights do not depend on how the run is found |
| Weights.ImplicitIsInjective | code/backend/core/src/collation.cpp:48-59 | no two code points up to 0x10FFFF have the same implicit weights, across the three bases |
| Weights.JamoOfComposed | code/backend/core/src/collation.cpp:62-77 | splitting a composed Hangul syllable gives its jamo |
| Weights.ComposedOfJamo | code/backend/core/src/collation.cpp:62-77 | composing the jamo of a syllable gives the syllable |
| Weights.FillJamo | code/backend/core/src/collation.cpp:62-77 | the weights of the jamo, one after the other, within the room of the buffer |
| Weights.FillWeights | code/backend/core/src/collation.cpp:62-77 | writes the weights of a code point from its run, its jamo or its implicit weights, and never more than 24 |
| Weights.AsciiTable.constructor | code/backend/core/src/collation.cpp:80-91 | the table gives every ASCII code point the one weight it has, and none to those that have none and to U+0000 |
| Collation.NextCharWeights | code/backend/core/src/collation.cpp:141-172 | the weights of a text from a position on are those of the next code point and those behind it |
| Collation.Cursor.Refill | code/backend/core/src/collation.cpp:141-172 | the buffer holds the weights of the next character that is not ASCII, and the rest of the text follows |
| Collation.Cursor.Next | code/backend/core/src/collation.cpp:141-172 | yields exactly the weights of the decoded code points, one a call, and false exactly at the end |
| Collation.Compare | code/backend/core/src/collation.cpp:242-251 | the comparison is NULL first, then the lexicographic order of the weights |
| Collation.Equal | code/backend/core/src/collation.cpp:253 | the shortcut for identical bytes does not change the answer of the comparison |
| Collation.OrderIsTotalPreorder | code/backend/core/src/collation.cpp:242-251 | antisymmetric in sign, transitive, NULL below every other text |
| Collation.SameIsSameWeights | code/backend/core/src/collation.cpp:242-253 | two texts are one value exactly when both are NULL, or neither is and their weights are the same |
| Collation.SortKey | code/backend/core/src/collation.cpp:255-265 | the sort key is the weights as big-endian 16-bit numbers |
| Collation.BigEndianKeepsOrder | code/backend/core/src/collation.cpp:255-265 | big-endian bytes keep the order of the weights |
| Collation.SortKeyOrder | code/backend/core/src/collation.cpp:255-265 | for texts other than NULL the unsigned byte order of the sort keys has the sign of the comparison |
| Keys.AsciiOfWeight | code/backend/core/src/collation.cpp:175-187 | the table holds the printable characters that are not upper case, in order of their weights |
| Keys.FindPlain | code/backend/core/src/collation.cpp:267-299 | looking a weight up finds its printable character exactly when it has one |
| Keys.PlainIfAll | code/backend/core/src/collation.cpp:267-299 | the weights give a text back exactly when every one of them has a character |
| Keys.Key | code/backend/core/src/collation.cpp:267-299 | whichever of its four shapes it takes, the key is the one the weights alone determine |
| Keys.KeyIffSame | code/backend/core/src/collation.cpp:267-299 | two texts have the same key exactly when they are equal in the collation, NULL included |
| Keys.KeyStart | code/backend/core/src/collation.cpp:267-299 | the first byte of a key tells NULL, a plain text and weight bytes apart |
| Keys.PrintableKey | code/backend/core/src/collation.cpp:267-299 | for printable ASCII the key by the weights is the text in lower case, which is what the fast path makes |
| Like.SameWeights | code/backend/core/src/collation.cpp:189-194 | the test of two code points is equality of their weights |
| Like.Turn | code/backend/core/src/collation.cpp:204-230 | one turn of the walk keeps the answer: it goes on, tries the last star again, or ends |
| Like.WalkStar | code/backend/core/src/collation.cpp:204-230 | a new star makes the earlier one needless, so going back only to the last star misses no match |
| Like.WalkBack | code/backend/core/src/collation.cpp:204-230 | a dead end sends the walk back to the last star, which takes one character more |
| Like.LikeAscii | code/backend/core/src/collation.cpp:204-230 | the byte walk answers true exactly when the recursive LIKE relation holds, and ends |
| Like.LikeCodePoints | code/backend/core/src/collation.cpp:301-327 | the walk over code points answers true exactly when the recursive LIKE relation holds, and ends |
| Like.LikeText | code/backend/core/src/collation.cpp:301-327 | LIKE on two texts is the relation, by bytes when both are ASCII and by code points otherwise |
| LikeFacts.WhereTestsDiffer | code/backend/core/src/collation.cpp:189-230 | the tests of the two walks on ASCII characters differ exactly for U+0000 against another ignored character |
| LikeFacts.WalksAgreeExactly | code/backend/core/src/collation.cpp:189-230 | the two walks agree on a value for every ASCII pattern exactly when the value holds no ignored character |
| LikeFacts.WalksDiffer | code/backend/core/src/collation.cpp:189-230 | for a value with an ignored character, a pattern on which the two walks disagree |
| LikeFacts.LikeByCodePoints | code/backend/core/src/collation.cpp:301-327 | whichever walk answers, a text is LIKE a pattern exactly when it is not NULL and the relation holds of the code points |
| LikeFacts.LiteralMatches | code/backend/core/src/collation.cpp:301-327 | a pattern of escaped characters matches exactly the texts that match it character by character |
| LikeFacts.LikeLiteralIsSame | code/backend/core/src/collation.cpp:242-327 | a text that is LIKE a pattern without signs is equal in the collation to the text the pattern spells, without U+0000 and NULL |
| Assoc.PutIsMap | code/backend/core/src/storage/btree.cpp:176-233 | putting into a sorted list changes what is found at the keys equal to the one put, and nowhere else |
| Assoc.DropIsMap | code/backend/core/src/storage/btree.cpp:491-530 | dropping from a sorted list leaves nothing at the keys equal to the one dropped, and all the others |
| BTree.ArePartitionPoints | code/backend/core/src/storage/btree.cpp:144-155 | on rising keys the two places the code finds by halving are the ones the model finds, and there is only one such place |
| BTree.NodeKeysRise | code/backend/core/src/storage/btree.cpp:144-155 | the keys of every node of a tree rise, so the partition points of its nodes are what the search needs |
| BTree.PathParts | code/backend/core/src/storage/btree.cpp:144-173 | for the child chosen for a key, all that stands left of it is smaller and all that stands right of it is greater |
| BTree.CutChain | code/backend/core/src/storage/btree.cpp:210-229 | an internal node cut at a key gives two nodes in order with the key between them |
| BTree.JoinChain | code/backend/core/src/storage/btree.cpp:410-459 | two neighbours in order with the separator between them make one node in order |
| BTreeInsert.InsertNode | code/backend/core/src/storage/btree.cpp:176-233 | the node, or the two nodes it was cut into with the key between them, are trees of the same height, balanced, not too full or too empty, and hold the list with the entry put |
| BTreeInsert.PlaceOfKey | code/backend/core/src/storage/btree.cpp:211-215 | the key that comes up from a child goes exactly where the child stood |
| BTreeRemove.RemoveNode | code/backend/core/src/storage/btree.cpp:491-530 | the result is a tree with at most one key less at its top, or its only child, and holds the list without the key; no node becomes empty below another |
| BTreeRemove.RebalanceOk | code/backend/core/src/storage/btree.cpp:468-489 | borrowing or merging, nothing is lost and the order and the sizes are restored |
| BTreeRemove.MoveRightOk | code/backend/core/src/storage/btree.cpp:354-378 | a key moved from the left sibling: both nodes are in order and full enough, and hold together what they held |
| BTreeRemove.MoveLeftOk | code/backend/core/src/storage/btree.cpp:382-405 | a key moved from the right sibling: both nodes are in order and full enough, and hold together what they held |
| BTreeRemove.MergeOk | code/backend/core/src/storage/btree.cpp:410-459 | two siblings merged are one node that is not too full and holds what both held |
| BTreeIndex.SearchNode | code/backend/core/src/storage/btree.cpp:157-173 | the search down one path finds what the whole list of entries has for the key |
| BTreeScan.FromNode | code/backend/core/src/storage/btree.cpp:255-273 | the walk from a key on passes over subtrees and loses nothing: the entries from the key on, with or without it, in order |
| BTreeScan.ToNode | code/backend/core/src/storage/btree.cpp:276-299 | the walk up to a key stops early, at an equal separator too when the key is excluded, and loses nothing |
| BTreeScan.CollectNode | code/backend/core/src/storage/btree.cpp:314-325 | the walk over the whole tree gives every entry once, from left to right |
| BTreeScan.PickedExactly | code/backend/core/src/storage/btree.cpp:255-299 | an entry is in a scan exactly when it is in the index and its key is on the side asked for |
| BTreeScan.PickedSorted | code/backend/core/src/storage/btree.cpp:255-299 | a scan of a sorted list is sorted |
| BTreeScan.ScansCoverAll | code/backend/core/src/storage/btree.cpp:255-299 | a scan up to a key and one from it, of which one includes it, are together the whole list: nothing twice, nothing missed |
| BTreeScan.RangeIsTwoScans | code/backend/core/src/storage/btree.cpp:235-299 | a range is what the scan from its lower and the scan to its upper end have in common |
| BTreeIndex.RangeCollect | code/backend/core/src/storage/btree.cpp:235-253 | passing over subtrees loses nothing: the result is the values (or the keys) of all entries in the range, in order |
| BTreeIndex.Index.Search | code/backend/core/src/storage/btree.cpp:563-568 | searching is looking the key up in the list of entries |
| BTreeIndex.Index.Insert | code/backend/core/src/storage/btree.cpp:570-592 | inserting puts the entry into the list and keeps the tree a balanced B+Tree |
| BTreeIndex.Index.Remove | code/backend/core/src/storage/btree.cpp:594-599 | removing drops the key from the list and keeps the tree a balanced B+Tree |
| BTreeIndex.Index.RangeSearch | code/backend/core/src/storage/btree.cpp:601-607 | a range search gives the values between the bounds, both included, in order |
| BTreeIndex.Index.RangeKeys | code/backend/core/src/storage/btree.cpp:639-645 | the same for the keys |
| BTreeIndex.Index.ScanFrom | code/backend/core/src/storage/btree.cpp:609-615 | the entries from a key on, the key included or not |
| BTreeIndex.Index.ScanTo | code/backend/core/src/storage/btree.cpp:617-623 | the entries up to a key, the key included or not |
| BTreeIndex.Index.CollectAll | code/backend/core/src/storage/btree.cpp:632-637 | all entries, in strictly increasing order |
| BTreeIndex.TreeIsSorted | code/backend/core/src/storage/btree.cpp:176-233 | the entries of the leaves are in strictly increasing order |
| BTreeIndex.HeightIsLogarithmic | code/backend/core/src/storage/btree.cpp:13-17 | every leaf is at one depth, and a tree of height h > 0 holds at least 2 * MIN_KEYS * (MIN_KEYS + 1)^(h-1) entries |
| BTreeIndex.Index.HeightBound | code/backend/core/src/storage/btree.cpp:563-599 | an index that keeps its invariant is no higher than the logarithm of what it holds |
| BTreeIndex.RunIsMap | code/backend/core/src/storage/btree.cpp:563-599 | a list that takes any inserts and removals stays sorted, and a key finds what the last step that named an equal key said |
| BTreeIndex.Run | code/backend/core/src/storage/btree.cpp:563-599 | the tree that takes the same inserts and removals is balanced and holds that list |
| BTreeIndex.SearchAfter | code/backend/core/src/storage/btree.cpp:563-599 | after any inserts and removals the tree itself finds what the last step that named an equal key said |
| BTreeIndex.RangeAfter | code/backend/core/src/storage/btree.cpp:563-607 | after any inserts and removals a range search gives exactly the values that some key of the range would find |
| IndexKeys.IsPlainUint | code/backend/core/src/storage/btree.cpp:32-39 | recognises exactly the texts of at most fifteen digits without a leading zero |
| IndexKeys.PlainOrderIsNumeric | code/backend/core/src/storage/btree.cpp:29-39 | "shorter first, then by text" is the order of the numbers |
| IndexKeys.CmpKeys | code/backend/core/src/storage/btree.cpp:84-115 | keys of several columns compare by their NUL-separated segments, the first that differ deciding; the shortcut for plain keys agrees |
| IndexKeys.MixedInOrder | code/backend/core/src/storage/btree.cpp:68-81 | a column of unknown type: empty, then numbers by value and bytes, then texts in the collation: three keys never contradict each other |
| NumberKeys.NumberSegmentIs | code/backend/core/src/storage/btree.cpp:54-67 | a column of numbers orders by the exact values of two whole numbers, else by doubles, and equal ones by bytes; the shortcut for plain numbers agrees |
| NumberKeys.NumbersInOrderExactly | code/backend/core/src/storage/btree.cpp:54-67 | for every set of keys of a column of numbers: the comparison is a total preorder on it exactly when no three of its keys are tangled (two whole numbers whose doubles disagree with their values, and a key between them that is no whole number) |
| NumberKeys.TangledGoRound | code/backend/core/src/storage/btree.cpp:54-67 | three tangled keys compare in a circle |
| NumberKeys.WhenUntangled | code/backend/core/include/engine/numeric_text.hpp:110-122 | no keys are tangled when all are whole numbers, when none is, or when each whole one is read as exactly its value |
| NumberKeys.NumberColumnsCanGoRound | code/backend/core/src/storage/btree.cpp:54-67 | -9007199254740993, -9007199254740992 and -9007199254740992.0 are tangled and compare in a circle |
| NumberKeys.KeysInOrder | code/backend/core/src/storage/btree.cpp:54-115 | keys of several columns are in order on every set whose columns of numbers hold no three tangled segments |
| NumberKeys.KeysAreOrdered | code/backend/core/src/storage/btree.cpp:54-115 | keys of text columns and of columns of unknown type are totally preordered on all texts, which is what the tree needs |
| NumberKeys.WholeKeysAreOrdered | code/backend/core/src/storage/btree.cpp:54-115 | an index of one column of numbers that holds whole numbers only has a total order |
| NumberKeys.SmallKeysAreOrdered | code/backend/core/src/storage/btree.cpp:54-115 | so has one of any numbers whose whole ones are at most 2^53 |
| WaitGraph.CreatesCycle | code/backend/core/src/engine/lock_manager.cpp:393-403 | true exactly when following the wait-for arrows from the holder leads back to the asking transaction; ends on every graph |
| WaitGraph.TurnedArrow | code/backend/core/src/engine/lock_manager.cpp:119-142 | turning one arrow of a graph without cycles makes one exactly when the check would have said so |
| LockManager.Manager.TryGrant | code/backend/core/src/engine/lock_manager.cpp:42-88 | grants exactly when no other transaction is in the way, and else names one that is; the new lock table is the granted one |
| LockManager.Manager.Acquire | code/backend/core/src/engine/lock_manager.cpp:111-126 | the first part of a request is one step of the protocol; a deadlock found is recorded |
| LockManager.Manager.Retry | code/backend/core/src/engine/lock_manager.cpp:129-142 | one turn of the waiting loop is one step of the protocol |
| LockManager.Manager.ReleaseAll | code/backend/core/src/engine/lock_manager.cpp:179-193 | a release takes away all locks of the transaction and every arrow from and to it, and nothing else |
| LockRuns.LockLasts | code/backend/core/src/engine/lock_manager.cpp:42-193 | in every run a lock, exclusive or shared, lasts until its own transaction releases |
| LockRuns.NoTwoOwners | code/backend/core/src/engine/lock_manager.cpp:42-193 | in no run do two transactions have a row at once unless both share it |
| LockRuns.StepKeepsAcyclic | code/backend/core/src/engine/lock_manager.cpp:111-193 | every step keeps the wait-for graph free of cycles, but for a sleeper that turns to a new holder: then exactly when that holder does not wait for it |
| LockRuns.RunIsAcyclic | code/backend/core/src/engine/lock_manager.cpp:90-143 | a run is free of cycles at all times exactly when no sleeper turns to a holder that waits for it |
| LockRuns.DeadlockUnseen | code/backend/core/src/engine/lock_manager.cpp:90-143 | a run, every request ready to wait, that ends with two transactions sleeping for each other and nobody told of a deadlock |
| LockRuns.OnlyATimeoutEndsIt | code/backend/core/src/engine/lock_manager.cpp:129-142 | that deadlock ends only by the deadline of one of the two |
| LockRuns.DeadlockIsReal | code/backend/core/src/engine/lock_manager.cpp:119-123 | in runs whose requests all wait, a reported deadlock is a circle of sleepers, each wanting a row the next one holds |
| Snapshots.InsertSeen | code/backend/core/src/engine/executor/executor_ddl.cpp:40-52 | another's new version changes what a snapshot reads exactly when the snapshot takes the writer for committed |
| Snapshots.EndSeen | code/backend/core/src/engine/executor/executor_ddl.cpp:40-52 | ending a current version changes what a snapshot reads exactly when it reads the version and takes the writer for committed |
| Snapshots.RollbackSeen | code/backend/core/src/engine/executor/executor_txn.cpp:174-206 | a snapshot reads the same after a rollback exactly when it reads nothing of what is erased, and of what is revived only what it reads already |
| Snapshots.OpenUndoneUnseen | code/backend/core/src/engine/executor/executor_txn.cpp:174-206 | so it does after the rollback of a transaction it does not take for committed |
| Snapshots.VacuumSeen | code/backend/core/src/engine/executor/executor_ddl.cpp:68-79 | a snapshot reads the same after a vacuum exactly when none of the versions taken was visible to it |
| Snapshots.LowHorizonIsSafe | code/backend/core/src/engine/executor/executor_ddl.cpp:68-79 | a horizon not above anything the snapshot saw open takes nothing the snapshot reads |
| Snapshots.ReadsRepeatExactly | code/backend/core/src/engine/executor/executor_ddl.cpp:40-66 | over every run and for every snapshot whose transaction does not write: it reads the same versions all the time exactly when no step concerns it, each kind of step by its own condition |
| Snapshots.SafeExactlyWhenAlone | code/backend/core/src/transaction/txn_manager.cpp:304-318 | the others cannot change what a snapshot reads, however they go on without a vacuum, exactly when nobody else had an id outside the set of open transactions when it was taken |
| Snapshots.ReadsRepeat | code/backend/core/src/transaction/txn_manager.cpp:304-318 | on every run from a snapshot taken alone it reads the same exactly when no vacuum takes what it reads |
| Snapshots.VacuumTakesWhatIsRead | code/backend/core/src/engine/executor/executor_ddl.cpp:68-79 | a run in which a vacuum by the oldest open id takes the version an open snapshot reads |
| Snapshots.LateStatementIsRead | code/backend/core/src/engine/executor/executor_update.cpp:225-232 | a run in which an autocommit statement that took its id before a snapshot writes after it, and the snapshot reads the change |
| Snapshots.UncommittedIsRead | code/backend/core/src/engine/executor/executor_txn.cpp:31-38 | a run in which one has its id but is not in the set of open transactions yet when another begins, and the snapshot of the other reads rows that are later rolled back |
| ResultText.EscapeCell | code/backend/core/include/engine/result_text.hpp:21-37 | the loop writes the escaped value: ends of blanks, backslash, newline and bar, everything else as it is |
| ResultText.UnescapeCell | code/backend/core/include/engine/result_text.hpp:54-68 | the walk by index undoes the five escapes and leaves a lone backslash |
| ResultText.FindUnescapedBar | code/backend/core/include/engine/result_text.hpp:71-77 | where the piece begun ends: at the next bar no backslash stands before |
| ResultText.EngineSplitRow | code/backend/core/include/engine/result_text.hpp:81-96 | the cells of a row line: pieces between unescaped bars, trimmed and unescaped, empty pieces left out |
| ResultText.ServerSplitRow | code/mcp/mcp_server.py:137-153 | the same cells as the reader of the engine |
| ResultText.ClientSplitRow | code/frontend/src-tauri/src/main.rs:342-359 | the same cells as the reader of the engine |
| ResultText.EscapeRoundTrip | code/backend/core/include/engine/result_text.hpp:21-68 | unescaping an escaped value gives it back; no newline and no cell boundary is left in between |
| ResultText.EscapeHasNoBlankEnds | code/backend/core/include/engine/result_text.hpp:21-37 | an escaped value has no blank at its ends, so padding does not eat into it |
| ResultText.PaddedCell | code/backend/core/include/engine/result_text.hpp:81-96 | a cell written with any padding is read back |
| BoxTable.MakeWidths | code/backend/server/src/mysql.cpp:839-844 | every column is as wide as its widest escaped cell |
| BoxTable.MakeBoxTable | code/backend/server/src/mysql.cpp:839-861 | the printed table: bars, header, rows, each cell padded to the width of its column |
| BoxTable.MakeEmptyTable | code/backend/core/include/engine/result_text.hpp:41-51 | the table of a result without rows is the printed table of its header |
| BoxTable.BoxIsAligned | code/backend/server/src/mysql.cpp:839-861 | header, rows and bars have the same length |
| BoxTable.Lines | code/backend/server/src/mysql.cpp:702-716 | the lines of a text, none behind a newline at its end |
| BoxTable.ParseTable | code/backend/server/src/mysql.cpp:718-741 | the loop reads the header and the rows the lines of a box say |
| BoxTable.RowRoundTrip | code/backend/server/src/mysql.cpp:839-861 | the reader of a row line gives the cells back for every width and all bytes |
| BoxTable.TableRoundTrip | code/backend/server/src/mysql.cpp:718-861 | a printed table is read back exactly when it has a column: header and rows, short rows filled up and long ones cut |
| BoxTable.BoxRoundTrip | code/backend/server/src/mysql.cpp:718-861 | for a header that is not empty and rows of its length, what was printed is what is read, with rows and without |
| BoxTable.ClientParse | code/frontend/src-tauri/src/main.rs:375-387 | the loop of the desktop client over the lines of an answer |
| BoxTable.ReadersAgree | code/frontend/src-tauri/src/main.rs:375-387 | where the second line is the first row line, the desktop client reads what the MySQL side reads |
| Answers.TableIsPlain | code/backend/server/src/main.cpp:158-165 | a printed table has no line that reads as the end mark, whatever its cells hold |
| Answers.AnswerArrives | code/backend/client/src/main.cpp:88-100 | the console client reads the answer with a table as status, body lines and time, and leaves what follows it in the stream |
| Answers.ReadBlock | code/frontend/src-tauri/src/main.rs:204-217 | the reader of the desktop client: the lines up to the end mark without carriage returns at their ends, what follows is left |
| Answers.BlockRoundTrip | code/frontend/src-tauri/src/main.rs:204-217 | a response is read whole by it, and the next one met at its beginning, exactly when no line of it reads as the end mark |
| Answers.JoinedComeApart | code/frontend/src-tauri/src/main.rs:287-302 | lines without newlines, none empty or ending in a carriage return, come apart again after they were joined |
| Answers.Exchange | code/frontend/src-tauri/src/main.rs:287-302 | status and body of the answer: the lines between status and time joined, nothing when fewer than two lines came |
| Answers.SendTable | code/frontend/src-tauri/src/main.rs:287-387 | from the rows at the server to the rows at the desktop client: printed, framed, cut anywhere, read, joined, taken apart and parsed, the table is the same |
| LineReaders.ServerReader.ReadLine | code/backend/server/src/main.cpp:168-191 | delivers the next finished line of buffer and stream without one carriage return; without one it withholds everything |
| LineReaders.ClientReader.ReadLine | code/backend/client/src/main.cpp:56-85 | delivers the next line with its newline, at the end of the stream an unfinished one once; nothing is dropped |
| LineReaders.ServeAll | code/backend/server/src/main.cpp:168-191 | for every cutting of the stream the lines delivered are those of the whole stream, and the unfinished tail stays |
| LineReaders.ReadAll | code/backend/client/src/main.cpp:56-85 | for every cutting of the stream the lines delivered are those of the whole stream |
| LineReaders.ServerGetsLines | code/backend/server/src/main.cpp:168-191 | lines sent with a newline each arrive one for one, but for a carriage return at their end |
| LineReaders.ClientKeepsAll | code/backend/client/src/main.cpp:56-85 | the lines the client delivers, put together, are the stream |
| LineReaders.SendResponse | code/backend/server/src/main.cpp:148-165 | the whole response is appended to the stream however send cuts it |
| LineReaders.ReadResponse | code/backend/client/src/main.cpp:88-100 | reads the lines up to the end mark and leaves what follows |
| LineReaders.ResponseRoundTrip | code/backend/client/src/main.cpp:88-100 | a response is read back whole, and the next one met at its beginning, exactly when no line of it reads as the end mark |
| Packets.AppendLenEnc | code/backend/server/src/mysql.cpp:107-123 | appends the length-encoded form of the number |
| Packets.LenEncRoundTrip | code/backend/server/src/mysql.cpp:493-501 | reading gives the number back exactly for numbers below 2^24 |
| Packets.LenEncStart | code/backend/server/src/mysql.cpp:107-123 | the first byte tells the length of the form and is never 0xfb or 0xff |
| Packets.LenEncPrefixFree | code/backend/server/src/mysql.cpp:107-123 | no encoding is the beginning of another |
| Packets.MakeRowPacket | code/backend/server/src/mysql.cpp:824-831 | the loop over one row writes the cells of the columns, a missing one empty |
| Packets.RowRoundTrip | code/backend/server/src/mysql.cpp:824-831 | a client of the protocol reads every row back cell by cell, NULL and the empty text apart |
| Streams.WriteAll | code/backend/server/src/mysql.cpp:75-84 | sends all bytes, in order, however send cuts them |
| Packets.ReadExact | code/backend/server/src/mysql.cpp:64-73 | takes exactly the bytes asked for from the front of the stream, however recv cuts them |
| Packets.WritePacket | code/backend/server/src/mysql.cpp:96-103 | appends header and payload |
| Packets.ReadPacket | code/backend/server/src/mysql.cpp:86-94 | takes the packet at the front of the stream, and no more |
| Packets.FrameRoundTrip | code/backend/server/src/mysql.cpp:86-103 | a packet is read back exactly when its payload is shorter than 2^24 bytes |
| Packets.Exchange | code/backend/server/src/mysql.cpp:86-103 | any packets that short arrive one by one as they were written, for every cutting |
| Prepared.CountPlaceholders | code/backend/server/src/mysql.cpp:461-471 | the number of question marks with an even number of quotes before them that no backslash precedes |
| Prepared.BindParams | code/backend/server/src/mysql.cpp:473-491 | the k-th placeholder becomes the k-th value, or stays when there is none |
| Prepared.UnboundIsQuery | code/backend/server/src/mysql.cpp:473-491 | the pieces with the placeholders between them are the query: binding changes nothing else |
| Prepared.BoundQuery | code/backend/server/src/mysql.cpp:473-491 | the bound query is the query read position by position, each placeholder replaced by its value and every other character kept |
| Prepared.ValueStands | code/backend/server/src/mysql.cpp:473-491 | the value of each placeholder stands exactly where the text before the placeholder ends |
| Prepared.PlaceholdersAre | code/backend/server/src/mysql.cpp:461-491 | the placeholders by position are as many as those that are counted |
| Prepared.ReadTypes | code/backend/server/src/mysql.cpp:524-537 | the type bytes of the payload, text where it gives none |
| Prepared.TakeValue | code/backend/server/src/mysql.cpp:549-676 | one value is read as its type says, NULL when the payload is too short, and no byte outside it is read |
| Prepared.ParseExecuteParams | code/backend/server/src/mysql.cpp:513-681 | as many values as parameters for every payload |
| PreparedFacts.IntegerRead | code/backend/server/src/mysql.cpp:557-598 | what is read of an integer: the unsigned flag makes no difference, so the upper half of an unsigned range becomes negative |
| PreparedFacts.UnsignedTurnsNegative | code/backend/server/src/mysql.cpp:524-562 | a TINYINT UNSIGNED of 200 is read as -56 |
| PreparedFacts.MomentRead | code/backend/server/src/mysql.cpp:632-655 | what is read of a DATETIME: its microseconds are passed over, and without a date it is NULL |
| PreparedFacts.TimestampRead | code/backend/server/src/mysql.cpp:656-676 | a TIMESTAMP is read as a text of its bytes |
| PreparedFacts.SpanRead | code/backend/server/src/mysql.cpp:632-655 | a TIME is read as a date with a time that its bytes are not, or as NULL |
| PreparedFacts.ValueExactly | code/backend/server/src/mysql.cpp:549-676 | for every value of the binary protocol: it is read as its literal and the reader stops where it ends exactly when it is an integer below half its range (no YEAR), a floating-point number, a DATETIME with a date and without microseconds, or a text shorter than 2^24 bytes (no BIT) |
| PreparedFacts.ParamsExactly | code/backend/server/src/mysql.cpp:513-681 | the parameters of a payload arrive, each as its literal and in its place, exactly when all values are such ones |
| PreparedFacts.ExecutedQuery | code/backend/server/src/mysql.cpp:473-681 | with such values for the placeholders, what is executed is the query with the literal of the k-th value at the position of the k-th placeholder, and nothing else changed |
| PreparedFacts.QuotingRoundTrip | code/backend/server/src/mysql.cpp:656-676 | doubling quotes loses nothing and leaves quotes only in pairs |
| PreparedFacts.LongTextIsLost | code/backend/server/src/mysql.cpp:493-501 | a text of 2^24 bytes or more is read as an empty one |
| PreparedFacts.TextBackExactly | code/backend/server/src/mysql.cpp:493-501 | a text is read back as its literal exactly when it is shorter than 2^24 bytes |
| PreparedFacts.DateWithLengthByte | code/backend/server/src/mysql.cpp:617-631 | a date with a length byte before it, as the other temporal types have, is read as another date |
| WireTypes.DigitsOnly | code/backend/server/src/mysql.cpp:334-340 | true exactly for a stretch that is not empty and holds digits only |
| WireTypes.NumberCell | code/backend/server/src/mysql.cpp:345-362 | true exactly for the numerals: sign, digits, optional fraction, optional exponent |
| WireTypes.NumberGrammar | code/backend/server/src/mysql.cpp:345-362 | the recogniser accepts exactly the texts of the grammar |
| WireTypes.IntegerIsNumber | code/backend/server/src/mysql.cpp:342-362 | the integer cells are exactly the numerals without fraction and exponent |
| WireTypes.DateGrammar | code/backend/server/src/mysql.cpp:364-366 | a date cell is four digits, two and two with dashes |
| WireTypes.DateTimeGrammar | code/backend/server/src/mysql.cpp:368-373 | a datetime cell is a date, a time of day and an optional fraction |
| WireTypes.TimeGrammar | code/backend/server/src/mysql.cpp:368-379 | a time cell is an optional sign, one to three digits of hours, minutes, seconds and an optional fraction |
| WireColumns.Fits | code/backend/server/src/mysql.cpp:386-392 | true exactly when every cell present that is not NULL passes the check |
| WireColumns.ValueType | code/backend/server/src/mysql.cpp:427-443 | an arithmetic result is an integer, double or decimal column exactly as its cells say, or text |
| WireColumns.WireTypeFor | code/backend/server/src/mysql.cpp:383-444 | the declared type when all cells are what it reads, else text; for an arithmetic result what its cells allow |
| WireColumns.AnnouncedIsSound | code/backend/server/src/mysql.cpp:383-444 | a column announced as anything but text holds no cell its type does not read |
| WireColumns.SentIsSound | code/backend/server/src/mysql.cpp:815-831 | every value sent in a typed column is what its type reads exactly when no row is too short for the column |
| WireColumns.DecimalsShowAll | code/backend/server/src/mysql.cpp:427-443 | a column announced as DECIMAL shows every digit behind the point, up to thirty |
| WireColumns.IntegersAreNumbers | code/backend/server/src/mysql.cpp:342-362 | a column of integer cells is a column of number cells |
| UiQueue.PollLoop | code/frontend/src-tauri/src/main.rs:1603-1620 | the polling loop takes exactly the pending commands the instance may take, and emits an event for each |
| UiQueue.CompleteLoop | code/frontend/src-tauri/src/main.rs:1538-1547 | completing marks the first command with the id as done and changes nothing else |
| UiQueueSafety.FindUpdated | code/mcp/mcp_server.py:1675-1697 | a change does to each command what is said of it, whatever else is in the list |
| UiQueueSafety.ClaimsAre | code/frontend/src-tauri/src/main.rs:1603-1620 | a poll emits an event for exactly the pending commands it may take |
| UiQueueSafety.InvStep | code/mcp/mcp_server.py:1638-1697 | every step of senders, instances and windows keeps the invariant of the shared file |
| UiQueueRuns.RunKeepsInv | code/mcp/mcp_server.py:1638-1697 | the invariant holds at every time of every interleaving |
| UiQueueRuns.LeavesExactly | code/mcp/mcp_server.py:1675-1697 | a command leaves the file exactly when its sender removes it or, once done, when another is sent |
| UiQueueRuns.ChangesExactly | code/frontend/src-tauri/src/main.rs:1538-1620 | a command that stays changes only by being taken by an instance that may, or completed |
| UiQueueRuns.AppearsExactly | code/mcp/mcp_server.py:1675-1697 | a command appears only when its sender writes it |
| UiQueueRuns.NoDeadlock | code/mcp/mcp_server.py:1638-1672 | while a critical section is under way some step of one can be taken |
| UiQueueRuns.ClaimedOnceByItsTarget | code/frontend/src-tauri/src/main.rs:1603-1620 | over every run no command is taken twice, and one that names an instance only by it |
| UiQueueRuns.NeverComesBack | code/mcp/mcp_server.py:1675-1697 | a command that left the file never comes back |
| UiQueueRuns.StatusOnlyRises | code/frontend/src-tauri/src/main.rs:1538-1620 | over every run the status only goes from pending over in progress to done, and the request stays as it was |
| UiQueueRuns.NoCommandIsLost | code/mcp/mcp_server.py:1675-1697 | over every run a command whose sender still waits is in the file unless it has been completed |
| UiQueueRuns.ReturnsAnAnswer | code/mcp/mcp_server.py:1675-1697 | what a sender returns, other than a timeout, was written by an instance that took its command |
| UiQueueRuns.ResultCanBeLost | code/mcp/mcp_server.py:1678 | a run in which a result that its sender has not collected is dropped by the next sender |
| FkPath.FkJoinPath | code/mcp/mcp_server.py:1070-1088 | a connected chain of foreign keys from start to goal with the fewest edges; none exactly when no chain exists |
| FkPath.Visit | code/mcp/mcp_server.py:1070-1088 | one turn of the search keeps what is known of the queue and of the tables seen |
| FkPath.ChainReaches | code/mcp/mcp_server.py:1070-1088 | a chain reaches its end in as many steps as it has edges |
| FkPath.NextLevel | code/mcp/mcp_server.py:1070-1088 | when only tables at distance d + 1 wait, everything within d + 1 edges has been seen |
| FkPath.SeenIsClosed | code/mcp/mcp_server.py:1070-1088 | when nothing waits, whatever a chain reaches has been seen |
| OrRewrite.MatchingParen | code/mcp/mcp_server.py:457-467 | finds the parenthesis that closes the one at the start, or -1 |
| OrRewrite.UnparenLoop | code/mcp/mcp_server.py:488-492 | takes off exactly the pairs of parentheses around the whole clause |
| OrRewrite.SplitLoop | code/mcp/mcp_server.py:470-485 | cuts at the words no parenthesis holds |
| OrRewrite.SplitsIntoTerms | code/mcp/mcp_server.py:470-492 | the clause of any condition is cut into its top-level disjuncts, in order, exactly when no test outside groups holds an OR outside parentheses |
| OrRewrite.BranchesAreTerms | code/mcp/mcp_server.py:488-513 | the branches of the rewrite are the disjuncts exactly under that condition |
| OrRewrite.CaseIsCut | code/mcp/mcp_server.py:495-513 | a CASE with an OR in it is rewritten into two branches of which neither is a condition |
| OrRewrite.BranchesKeepTruth | code/mcp/mcp_server.py:495-513 | then, for every row, the condition is true exactly when some branch is, under three-valued logic |
| OrRewrite.UnionSelectsTheSame | code/mcp/mcp_server.py:495-513 | the UNION of the branches has the same distinct rows as the OR, for every table and output |
| OrRewrite.OrRewriteClause | code/mcp/mcp_server.py:508-513 | the part of the tool behind its guards on the SELECT: branches exactly when there are at least two and no AND splits the clause |
| StatementSplit.Token | code/frontend/src-tauri/src/main.rs:402-496 | one turn of the loop: how far it gets, the depth after it and what it adds |
| StatementSplit.SplitQueriesSmart | code/frontend/src-tauri/src/main.rs:402-496 | the loop gives the statements of the input by tokens, comments left out, trimmed, blank ones left out |
| StatementSplitFacts.OutputIsTrimmed | code/frontend/src-tauri/src/main.rs:402-496 | every statement is trimmed and not empty, for every input |
| StatementSplitFacts.RawShape | code/frontend/src-tauri/src/main.rs:402-496 | nothing but the cutting semicolons is lost, and every statement but the last ends outside strings with the counter of the splitter at 0 |
| StatementSplitFacts.SplitAgain | code/frontend/src-tauri/src/main.rs:402-496 | for input without comments, the output joined with semicolons splits into itself |
| StatementSplitFacts.EachIsOne | code/frontend/src-tauri/src/main.rs:402-496 | each statement by itself is one statement |
| StatementSplitFacts.CutsExactly | code/frontend/src-tauri/src/main.rs:402-496 | a semicolon between statements cuts exactly when an even number of quotes stands before it and the counter of the splitter is 0 there |
| StatementSplitFacts.CutsOfText | code/frontend/src-tauri/src/main.rs:402-496 | of a text without comments: a semicolon cuts exactly outside strings where the counter is 0 |
| StatementNesting.CutsByCounter | code/frontend/src-tauri/src/main.rs:439-483 | the same over the words of the text: the counter goes up at a BEGIN that is followed by neither WORK nor the end, down at an END that no IF, WHILE, LOOP, REPEAT or CASE follows |
| StatementNesting.AgreeEverywhere | code/frontend/src-tauri/src/main.rs:439-475 | whatever words are names: the counter is the nesting of bodies everywhere exactly when no opening BEGIN is a name and no END inside a body is a name or closes a CASE expression |
| StatementNesting.AgreeAtSemicolons | code/frontend/src-tauri/src/main.rs:439-475 | where no BEGIN is a name: the counter is the nesting at every semicolon exactly when no semicolon stands in a body in which such an END stood before |
| StatementNesting.CutsAtStatementEnds | code/frontend/src-tauri/src/main.rs:400-496 | of a text without comments and without such words: no semicolon in a string or a body cuts, and every other one does |
| StatementNesting.CaseCutsBody | code/backend/core/include/engine/statement_split.hpp:8-10 | "BEGIN CASE END;" and any text behind it: the semicolon cuts though the body is open |
| StatementNesting.NameStopsCutting | code/backend/core/include/engine/statement_split.hpp:8-10 | "SELECT begin FROM t;" and any text behind it: the semicolon does not cut though no body is open |
| StatementSplitFacts.CommentsCanBreakIt | code/frontend/src-tauri/src/main.rs:402-496 | with comments splitting again can give something else |
| StatementSplitFacts.ReadBackExactly | code/frontend/src-tauri/src/main.rs:402-496 | trimmed texts joined with semicolons are split back into themselves exactly when all but the last are closed and the last is not cut |
| StatementSplitFacts.SplitAgainExactly | code/frontend/src-tauri/src/main.rs:402-496 | for every input, comments or not, the output joined and split again is the same exactly under that condition on the output |
| StatementSplitFacts.EachIsOneExactly | code/frontend/src-tauri/src/main.rs:402-496 | for every input a statement of the output is one statement by itself exactly when nothing in it cuts |
| TreeLayout.Board.Place | code/frontend/src/components/BTreeView.tsx:35-47 | every node of the snapshot gets its box: leaves at the cursor, the others centred over their first and last child |
| TreeLayout.Layout | code/frontend/src/components/BTreeView.tsx:32-50 | the boxes and the size of the board |
| TreeLayout.BoxSpan | code/frontend/src/components/BTreeView.tsx:35-47 | a parent stands within the span of its children |
| TreeLayout.BoxInside | code/frontend/src/components/BTreeView.tsx:35-47 | every box stands in the strip of its tree and the row of its depth |
| TreeLayout.BoxesApart | code/frontend/src/components/BTreeView.tsx:32-50 | two boxes of one row keep the gap between them |
| TreeLayout.DrawnOnBoard | code/frontend/src/components/BTreeView.tsx:32-50 | every box is between gutter and margin, and between the top and the bottom margin |
| TreeLayout.DrawnApart | code/frontend/src/components/BTreeView.tsx:32-50 | no two boxes overlap |
| TreeLayout.WideParentLeaves | code/frontend/src/components/BTreeView.tsx:35-47 | a node with more keys than gaps between its children can leave the board |
| Csv.ParseRow | code/frontend/src-tauri/src/main.rs:1103-1123 | the loop reads the fields of a line |
| Csv.RowRoundTrip | code/frontend/src/App.tsx:3060-3065 | a row is read back as the fields that were written, for every list that is not empty |
| Csv.ImportRows | code/frontend/src-tauri/src/main.rs:1075-1100 | the rows the import sends: the lines behind the header that are not blank |
| Csv.FileRoundTrip | code/frontend/src/App.tsx:3060-3065 | an exported file is imported as its rows exactly when no field holds a newline, no row is written as a blank line and the file is not empty |
| Csv.BlankRow | code/frontend/src-tauri/src/main.rs:1090-1092 | a row is written as a blank line exactly when it has no field, or one of white space without line breaks |

## Left out

- The parser, planner and executor of SQL, the redo log, the undo file and recovery: they would need the semantics of SQL and of files.
- Gap locks and predicate reads of the lock manager: they never block a lock of a row; `register_gap_conflict` adds arrows as a request for a row does.
- The signal of the lock manager's condition variable: a sleeper may look again at any time, which covers every wake; KILL ends a wait as its deadline does.
- One holder of several that share a row is named as the one in the way; which one is left open, as in the hash set of the code.
- `all_values` of the index: the values of what `BTreeIndex.Index.CollectAll` gives.
- The copying of trees, and the mutex of the index: every call is one step.
- BTreeRemove.RemoveNode: the fallback for a child that became empty (`code/backend/core/src/storage/btree.cpp:510-519`) is not written out, because the contract shows it is not reached.
- Values of rows in `Snapshots` are opaque; which rows a statement matches and the indexes a rollback rebuilds are not modelled.
- Snapshots.ReadsRepeat: says nothing of transactions that write themselves.
- A rollback is one step in `Snapshots`: its id leaves the set before its rows are undone, but under the locks of their tables. Rows that are deleted for good while
  no transaction is open are not modelled.
- The tab-separated branch of `parse_table` and the table parser of the MCP server: only their row readers are modelled.
- Headers of an imported CSV file: `Csv.FileRoundTrip` is about the rows, for a header line without a newline; the INSERT text is not modelled.
- The guards of `_or_rewrite` that look at the SELECT with regular expressions: a clause that passes them is where `OrRewrite.OrRewriteClause` begins.
- OrRewrite.BranchesKeepTruth: is about tokens; how a clause is cut into tokens, and the masking of the AND of BETWEEN by a regular expression, are taken as given.
- The breaking of a stale lock file, failed reads and writes, and clocks: a sender gives up at any time after its last look.
- A poll's events are emitted as one step, the one that changes its copy of the commands, before the write.
- Authentication, the SHOW answers, `wire_error`, the compatibility shims, rendering and charts: dispatch on text, or interface.
