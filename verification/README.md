# baza: a verification model

baza is a small SQL engine: a tokenizer and parser, an evaluator for WHERE
chains, an interpreter for the queries, and a columnar store in memory. This
project models its logic in Dafny 4.11 and proves what the engine is meant to
guarantee, and, where the code does not, exactly when it does.

`dafny verify dfyconfig.toml` checks the whole project.

## What is modelled

- **Storage** (`Storage`, with the heap-free facts in `Cells` and `RowWrites`).
  A `Table` has columns with one `array` of slots each, a `rowCount` and a
  capacity that doubles from 64. A slot of a string column is a pointer into
  `Memory`, whose field `blocks` maps each live address to its text. `Valid`
  says that the columns are aligned, that every buffer has exactly
  `rowCapacity` slots, and that growth has copied at most twice as many slots
  per column as rows were inserted; `Owns` says that the live blocks of the table
  are exactly the pairwise distinct pointers in the slots below `rowCount`.
- **Queries that change it** (`Interpreter`, `RowLoops`, `Statements`,
  `Database`). The loops of INSERT, UPDATE, DELETE and CREATE are methods over
  those classes. Each is proved against a function on a plain sequence of rows
  (`Queries`, `Assignments`, `RowLists`), and `DataBase.RunQueries` carries this
  over whole runs: the database behaves as a list of tables that are sequences of
  rows, and no string block is leaked, shared or freed twice. What each query
  does to its table and what it answers is proved in `QueryMeaning`; when a DELETE
  or an UPDATE does what its text says, in `DeleteOrder` and `QueryLaws`.
- **WHERE chains** (`Filters`, `FilterMeaning`, `IntLists`, `Values`,
  `ChainReading`). Chains are folded left to right over linked lists of row
  numbers with -1 in the head of an empty list. The list computed is related to
  the truth of the chain on each row, and to the order that DELETE relies on; what
  a single condition asks of a row is proved in `FilterMeaning`.
- **LIKE** (`Like`). The one-pass matcher is compared with the recursive LIKE
  predicate of section 8.5 of ISO/IEC 9075-2. For soundness, completeness and
  exactness the patterns on which each holds are characterised exactly.
- **Tokenizer and parser** (`Tokens`, `StrLists`, `SqlLists`, `Parser`). The
  splitters cut a copy of the text in place; strtok is taken from section
  7.24.5.8 of ISO C11. Lists, WHERE chains and the clauses of SELECT are parsed
  from linked lists of tokens, and what is printed is read back.

C strings are sequences of bytes other than NUL; plain `char` is signed and 8
bits wide where the code looks at its value. Row numbers wrap at 2^64 where the
code subtracts them. `strtoll` is the parameter `conv`, a function of the text.

## Where the code departs from the obvious claim

- A filtered DELETE leaves exactly the rows its WHERE is false of if and only if
  its list of matches is strictly ascending (`DeleteOrder.DeleteExactly`), that
  is, if no row was added to the list by a later filter than a row below it in
  the table (`DeleteOrder.AscendingExactly`). AND-only chains always give such
  lists; `QueryLaws.OrDeletesWrongRow` has an OR that does not, and with
  `QueryLaws.OrDeletesHalfway` DELETE even stops half-way
  (`DeleteOrder.SucceedsExactly`).
- AND and OR have the same precedence (`ChainReading.ChainReadingExactly`).
- LIKE accepts too much unless nothing but `%` follows the first `%`, and
  misses matches unless the pattern has a particular shape (`Like`).
- `!=` parses, but its comparison function is missing: on a table with rows
  the program calls through a null pointer, unless an earlier filter fails
  (`Filters.CrashesExactly`). The model calls that `Crash`, and `Queries.Safe`
  excludes it. A chain on an empty table survives.
- CREATE is not all-or-nothing and does not refuse a name that is taken; the
  first table of a name stays the one that is found
  (`Queries.CreateAlwaysAddsATable`, `Queries.NamesStayBoundForever`).
- `src/storage.h:105-107` promises NULL from `table_column_get_list` when a name
  is unknown, and suggests the order of the list. The code skips unknown names
  and returns the order of the table (`src/storage.c:124-130`); the model follows
  the code. So the i-th value of a SET goes into the column with the i-th name if
  and only if all names are columns, in table order (`Assignments.PairedExactly`);
  otherwise values change places or are dropped, and the answer can still be OK
  (`QueryLaws.SwappedNamesSwapValues`, `QueryLaws.UnknownNameShiftsValues`).
- INT32 columns hold the low 32 bits of the number (`Values.Int32Exactly`).
- The clause loop of SELECT goes round for ever on a token that no clause
  begins with, and on an ORDER BY without a direction. A WHERE that ends behind a
  column reads a missing token (`Parser.CrashesExactly`, `Parser.ClausesBefore`).

## Model

| member | source | states |
|---|---|---|
| `CText.StrIEq` | src/util/str.c:9-21 | two strings are equal exactly when they have the same length and agree letter by letter up to case |
| `CText.SameLetter` | src/util/str.c:9-21 | two bytes count as the same letter exactly when they are equal or a pair A-a, ..., Z-z |
| `CText.FirstIndex` | src/interpreter.c:105-106 | the first place of a character, or the end of the string when it does not occur |
| `Like.FilterFuncLike` | src/interpreter.c:88-131 | the two-cursor loop computes the greedy matcher it is compared with below, in bounds and with an end |
| `Like.SoundUpToACut` | src/interpreter.c:93-131 | for ASCII texts a true answer means that the string matches the whole pattern, or the pattern cut just in front of one of its `%` |
| `Like.NoFalsePositivesExactly` | src/interpreter.c:93-131 | a pattern never accepts an ASCII string wrongly if and only if it is ASCII and has nothing but `%` behind its first `%`; for every other pattern a wrongly accepted string is constructed |
| `Like.FirstOccurrenceSuffices` | src/interpreter.c:105-106 | the exchange argument: taking the first occurrence of the character behind `%` loses no match |
| `Like.SegmentsComplete` | src/interpreter.c:93-131 | no match is lost on patterns made of `%c` segments that end in a `%` |
| `Like.NoFalseNegativesExactly` | src/interpreter.c:93-131 | a pattern refuses no string that SQL LIKE accepts if and only if it has no `%`, or a part without `%` followed by segments `%c` (c ordinary, any number of `_` behind it) and a final `%`; for every other pattern a refused string is constructed |
| `Like.ExactOnAsciiExactly` | src/interpreter.c:93-131 | the matcher is SQL LIKE on all ASCII strings if and only if the pattern is ASCII and no `%` stands before its last character |
| `Like.ExactOnBytesExactly` | src/interpreter.c:127-129 | on all byte strings the matcher is SQL LIKE if and only if the pattern is ASCII, ends in `%` and has no other `%`; the signed test at the end overlooks a last byte above 127 |
| `Values.Int32Exactly` | src/interpreter.c:412-417 | an INT32 column stands for the literal it was given if and only if the literal fits 32 signed bits |
| `Values.StrCmpOrders` | src/interpreter.c:24-26 | strcmp is the byte-lexicographic order: its sign says equal, before or behind |
| `Values.CallFilterFunc` | src/interpreter.c:139-146 | a call through the table of comparison functions decides what the operator says; there is no entry for `!=`; what each operator says of cell and value is Values.ComparisonsFollowOrder and Values.LikeReadsCellAgainstPattern |
| `Values.SupportedExactly` | src/interpreter.c:139-146 | of the operators that parse, `!=` alone has no comparison function |
| `Values.LikeReadsCellAgainstPattern` | src/interpreter.c:79-135 | LIKE takes the cell for the text and the value for the pattern: on numbers it is equality; on strings it is the LIKE predicate of SQL on ASCII texts and patterns without an inner `%`, loses no match for the patterns of greedy shape, and a true answer on ASCII texts is a match up to a cut of the pattern |
| `Values.NumberIsSigned` | src/interpreter.c:19-24 | an integer literal stands for the one number in the signed 32- or 64-bit range that is congruent to the 64-bit word that was read |
| `Values.ComparisonsFollowOrder` | src/interpreter.c:15-77 | `=`, `<`, `>`, `<=`, `>=` are the comparisons of one total order per type |
| `RowLists.DeleteAscending` | src/interpreter.c:499-510 | for a strictly ascending list of valid row numbers the loop that deletes at number minus delete_count removes exactly the listed rows, keeps the order of the others, and never goes out of bounds |
| `RowLists.DeletesExactlyAscending` | src/interpreter.c:499-510 | a list of distinct valid row numbers is deleted correctly from every table of that size if and only if it is strictly ascending; for one table and one chain see DeleteOrder.DeleteExactly |
| `RowLists.DescendingPairDeletesWrongRow` | src/interpreter.c:499-510 | given the list [2, 1] the loop deletes rows 2 and 0; QueryLaws.OrListsOutOfOrder shows a WHERE that gives it |
| `RowLists.RemovedAtMostListed` | src/interpreter.c:503-507 | every corrected deletion removes a row numbered at most as listed, and all are hit only by an ascending list |
| `RowLists.SurvivorsSelect` | src/interpreter.c:491-517 | the surviving rows are the old rows at the unlisted numbers, in their order |
| `IntLists.UnionMeaning` | src/util/intlist.c:96-119 | OR lists every row of either side once |
| `IntLists.IntersectMeaning` | src/util/intlist.c:121-136 | AND lists the common rows once, ascending if the left list was |
| `IntLists.UnionAscendingExactly` | src/util/intlist.c:103-116 | OR of two ascending lists is ascending if and only if each row it adds lies behind all rows listed before |
| `IntLists.AscendingUnique` | src/util/intlist.c:121-136 | ascending lists with the same rows are the same list |
| `IntLists.IntList.constructor` | src/util/intlist.c:6-27 | a list of one value, which is the empty list when the value is the sentinel -1 |
| `IntLists.IntList.Push` | src/util/intlist.c:29-41 | appends in place; the sentinel of an empty list is overwritten |
| `IntLists.IntList.PushOnce` | src/util/intlist.c:103-107 | appends unless the value is there |
| `IntLists.IntList.Contains` | src/util/intlist.c:85-93 | membership |
| `IntLists.Union` | src/util/intlist.c:96-119 | the linked result holds the union sequence; the same list twice gives NULL |
| `IntLists.Intersection` | src/util/intlist.c:121-136 | the linked result holds the intersection sequence; the same list twice gives NULL |
| `Filters.FindSeqMeaning` | src/storage_internal.c:165-179 | a match list is ascending and holds exactly the rows whose cell passes |
| `Filters.ComparisonsPartition` | src/interpreter.c:15-77 | the match lists of `<`, `=` and `>` are disjoint and cover all rows; `<=` and `>=` are the unions |
| `Filters.ChainMeaning` | src/interpreter.c:156-240 | the list computed for a chain that can be evaluated has no duplicates, stays below row_count, and holds a row exactly when the left-to-right AND/OR value on that row is true |
| `Filters.ChainIsLeftToRight` | src/interpreter.c:205-230 | the value is the left-to-right fold of the single filters |
| `Filters.UsualReadingExactly` | src/interpreter.c:205-230 | for lists of outcomes, left-to-right evaluation agrees with AND-before-OR if and only if no AND follows an OR; ChainReading.ChainReadingExactly says it of chains |
| `Filters.AndOnlyMeaning` | src/interpreter.c:205-230 | an AND-only chain gives an ascending list of the rows that pass every filter |
| `Filters.AndOnlyCanonical` | src/interpreter.c:205-230 | reordering the filters of an AND-only chain gives the identical list |
| `Filters.DeleteLeavesUnmatched` | src/interpreter.c:491-517 | deleting by an ascending chain list leaves exactly the rows the chain is false of, in order |
| `Filters.AndOnlyDelete` | src/interpreter.c:491-517 | hence every DELETE with a single filter or an AND-only chain is exact |
| `Assignments.ListedColumnsMeaning` | src/storage.c:107-133 | exactly the columns whose name is listed; which value each of them gets is the subject of Assignments.PairedExactly |
| `Assignments.AssignMeaning` | src/interpreter.c:403-443 | each target column of the row gets its value, the others keep theirs |
| `Assignments.AssignTwice` | src/interpreter.c:403-443 | writing the same values again changes nothing |
| `Assignments.UpdateRowsMeaning` | src/interpreter.c:565-575 | exactly the listed rows are assigned |
| `Assignments.UpdateOrderIrrelevant` | src/interpreter.c:565-575 | any permutation of the row list gives the same table |
| `Assignments.ChainStatus` | src/interpreter.c:156-190 | whether a chain can be evaluated does not depend on the cells |
| `Assignments.AssignTyped` | src/interpreter.c:403-443 | an assignment of converted values keeps the table well typed |
| `Assignments.FilteredUpdate` | src/interpreter.c:551-581 | for any AND/OR chain, exactly the rows it is true of get the new values, the table stays well typed, and the same UPDATE run again changes nothing |
| `Cells.StoredBitsRead` | src/interpreter.c:412-428 | what an integer column stores is read back as the number the literal stands for in that column |
| `Cells.CellIsSigned` | src/interpreter.c:19-24 | the slot of an integer column reads as the one number in its signed range that is congruent to the stored word |
| `Cells.OwnedWithout` | src/storage_internal.c:28-46 | freeing the blocks of one table leaves another table the owner of its own |
| `Cells.OwnedElsewhere` | src/interpreter.c:429-434 | changes to blocks that a table does not own do not touch its ownership |
| `Cells.WriteString` | src/interpreter.c:429-434 | a string slot that gets a fresh block owns exactly it; all owning pointers stay distinct |
| `Cells.WriteNumber` | src/interpreter.c:412-428 | a number never changes ownership |
| `Cells.RemoveRowOwned` | src/storage_internal.c:125-162 | deleting a row by shifting pointers frees the strings of that row and leaves the others with one owner each |
| `Cells.RemoveRowRows` | src/storage_internal.c:150-162 | shifting every column is removal of one row from the sequence of rows |
| `Cells.RowsAgree` | src/storage_internal.c:68-91 | rows depend on the live blocks of their own strings only |
| `Cells.FreeNextColumn` | src/storage_internal.c:28-46 | freeing the next column frees blocks that are live and not freed before |
| `RowWrites.WriteNumberStep` | src/interpreter.c:412-428 | writing one integer column keeps what the columns written before say, and all ownership |
| `RowWrites.WriteStringStep` | src/interpreter.c:429-434 | writing one string column frees the old block, owns the new one, and keeps what the columns written before say |
| `RowWrites.AppendedRow` | src/interpreter.c:445-489 | the written slots of a new row read as the converted values, and the rows before as they were |
| `RowWrites.ReplacedRow` | src/interpreter.c:403-443 | the written slots of an old row read as that row with the values assigned |
| `RowWrites.ReplacedOwned` | src/interpreter.c:429-434 | after a replaced row the table owns exactly one block per string cell again |
| `Storage.Memory.Strdup` | src/interpreter.c:433 | a block at an address that was not live |
| `Storage.Memory.Free` | src/storage_internal.c:28-46 | only live blocks are freed |
| `Storage.Column.ReallocData` | src/storage_internal.c:48-65 | the old slots are kept, the new ones hold anything |
| `Storage.Column.RowDelete` | src/storage_internal.c:150-162 | the shifting loop removes one slot, frees its string once and leaves the slots above alone |
| `Storage.Column.FreeStrings` | src/storage_internal.c:28-46 | frees the strings of the rows in use, each once, and no stale slot |
| `Storage.Column.Find` | src/storage_internal.c:165-179 | the loop over the slots pushes exactly the rows that pass, in ascending order |
| `Storage.CapacityIsDoubled` | src/storage_internal.c:219-227 | a capacity is 64 doubled some number of times |
| `Storage.Table.GrowthIsAmortised` | src/storage.c:151-163 | in every valid state the slots copied per column by growth are at most twice the rows ever inserted, and row_count stays below the length of every buffer; Database.DataBase.RunQueries ties the count to the INSERTs of a run |
| `Storage.Table.ColumnById` | src/storage_internal.c:229-238 | the first column with that id, or NULL |
| `Storage.Table.ColumnFind` | src/storage_internal.c:240-249 | the first column of that name, or NULL |
| `Storage.Table.ColumnGetRow` | src/storage.c:135-149 | the column of that id when row nth has a slot, which is then inside the buffer, also for nth == row_count; NULL otherwise |
| `Storage.Table.ColumnNew` | src/storage_internal.c:252-278 | refuses non-empty tables and known names; otherwise the column goes behind the last one |
| `Storage.Table.Realloc` | src/storage_internal.c:219-227 | every column grows and keeps its slots |
| `Storage.Table.RowAdd` | src/storage.c:151-163 | one more row, with growth by doubling when full; the old rows are unchanged |
| `Storage.Table.ShiftColumns` | src/storage_internal.c:280-293 | every column is shifted, so that the columns stay aligned |
| `Storage.Table.RowDelete` | src/storage_internal.c:280-293 | out of bounds nothing changes; otherwise one row of the sequence goes, and exactly its strings are freed |
| `Storage.Table.FreeAll` | src/storage_internal.c:207-217 | frees exactly what the table owns |
| `Storage.Table.SetSlot` | src/interpreter.c:417-418 | one slot of one column changes |
| `Interpreter.FilterInterpret` | src/interpreter.c:156-240 | the loop over the chain returns the chain list, or the error of the first filter that cannot be evaluated |
| `Interpreter.FilterStep` | src/interpreter.c:162-235 | one filter: resolve the column, convert the value, find, combine; which column and value that are is FilterMeaning.ResolvesExactly |
| `Interpreter.FindRows` | src/interpreter.c:174-190 | the match list of one filter |
| `Interpreter.ValidateValueTypes` | src/interpreter.c:243-270 | OK exactly when there is a value for each column and every integer value converts; it stops at the first that does not |
| `Interpreter.InsertValues` | src/interpreter.c:403-443 | after validation it cannot fail, and it writes every column and its string ownership |
| `Interpreter.Exchange` | src/interpreter.c:429-434 | replace frees the old block before the new one is made; an insert frees nothing |
| `RowLoops.InsertRow` | src/interpreter.c:445-489 | a row is appended with the converted values and counted, or an error changes nothing |
| `RowLoops.AppendRow` | src/interpreter.c:470-475 | growing and writing is appending one row |
| `RowLoops.ReplaceRow` | src/interpreter.c:403-443 | one row of an UPDATE is one point update, and ownership is kept |
| `RowLoops.DeleteListed` | src/interpreter.c:499-510 | the delete loop on the table is the delete loop on its sequence of rows |
| `RowLoops.DeleteAll` | src/interpreter.c:519-533 | deletes row 0 as often as there were rows, which empties the table |
| `RowLoops.UpdateListed` | src/interpreter.c:565-575 | the loop assigns exactly the listed rows |
| `RowLoops.UpdateAll` | src/interpreter.c:583-604 | the loop assigns every row |
| `Statements.InterpretInsert` | src/interpreter.c:445-489 | the INSERT on the columns is the INSERT on the sequence of rows, whose meaning is QueryMeaning.InsertMeans |
| `Statements.InterpretDelete` | src/interpreter.c:491-549 | the DELETE on the columns is the DELETE on the sequence of rows, whose meaning is QueryMeaning.DeleteMeans |
| `Statements.ListColumns` | src/storage.c:107-133 | the columns named, in the order of the table |
| `Statements.InterpretUpdate` | src/interpreter.c:606-635 | the UPDATE on the columns is the UPDATE on the sequence of rows, whose meaning is QueryMeaning.UpdateMeans |
| `Statements.InterpretUpdateFiltered` | src/interpreter.c:551-581 | filter, validate, then write |
| `Statements.InterpretUpdateAll` | src/interpreter.c:583-604 | validate, then write every row |
| `Queries.ApplyToTableTyped` | src/interpreter.c:445-635 | a statement changes rows only and keeps the table well typed |
| `Queries.UpdateIsAllOrNothing` | src/interpreter.c:551-604 | an UPDATE that returns an error changed nothing; one that returns OK wrote its values, in the rows its filters are true of, into the listed columns one by one in table order |
| `Queries.WritesAreAllOrNothing` | src/interpreter.c:445-604 | read off the model that RowLoops.InsertRow and RowLoops.ReplaceRow meet: no failing INSERT or UPDATE changes the database, and none touches another table |
| `Queries.CreateAlwaysAddsATable` | src/interpreter.c:351-400 | read off the model that Database.DataBase.InterpretCreate meets: CREATE adds a table whatever it returns, and fails exactly on an unknown type, leaving the new table without columns |
| `Queries.NamesStayBound` | src/storage_internal.c:334-387 | a duplicate CREATE does not change which table a name denotes: lookup is first-wins and ids are never reused |
| `Queries.NamesStayBoundForever` | src/storage_internal.c:334-387 | ... over every run of queries |
| `Queries.OnlyRowsChange` | src/interpreter.c:445-635 | read off the model that Database.DataBase.Execute meets: INSERT, DELETE and UPDATE keep every name, id and column |
| `Database.DataBase.constructor` | src/storage_internal.c:389-392 | an empty database holds no string |
| `Database.DataBase.TableGet` | src/storage_internal.c:367-376 | the first table of that name |
| `Database.DataBase.TableGetById` | src/storage_internal.c:378-387 | an id finds the table that has it |
| `Database.DataBase.StillNothingLeaked` | src/storage_internal.c:125-162 | after a statement on one table every live block belongs to some table |
| `Database.DataBase.Restored` | src/interpreter.c:637-652 | a statement on one table leaves all other tables, their strings and the invariant of the database as they were |
| `Database.DataBase.Execute` | src/interpreter.c:445-635 | INSERT, DELETE and UPDATE act on the database as on its model |
| `Database.DataBase.AppendTable` | src/storage_internal.c:334-365 | the new table is linked last, with the next id |
| `Database.DataBase.InterpretCreate` | src/interpreter.c:351-400 | CREATE acts on the database as on its model, where its meaning is QueryMeaning.CreateMeans |
| `Database.DataBase.InterpretQuery` | src/interpreter.c:637-652 | every query is one step of the model and keeps the invariant: aligned columns, distinct owners, nothing leaked |
| `Database.DataBase.RunQueries` | src/interpreter.c:637-652 | every run goes through the states of the model and keeps the invariant; the rows a table counts as inserted are the INSERTs of the run on it that returned OK, and growth has copied at most twice as many slots per column |
| `Database.DataBase.Deinit` | src/storage_internal.c:394-402 | in every reachable state, freeing all tables frees every live string exactly once: none is left |
| `Database.AddColumns` | src/interpreter.c:380-395 | the columns of a CREATE, in order, with consecutive ids |
| `Tokens.RunLength` | src/util/str.c:160-168 | the longest prefix without delimiter |
| `Tokens.RunsAppend` | src/util/str.c:155-173 | the runs of a text that is cut at a delimiter are those of its two parts |
| `Tokens.SplittersAgree` | src/util/str.c:175-234 | on every text without quotes the quote-aware splitter gives the maximal runs of non-delimiters, as strtok does |
| `Tokens.QuoteFreePart` | src/util/str.c:185-223 | a quote-free beginning is split into its runs, whatever follows behind a delimiter |
| `Tokens.QuotedRoundTrip` | src/util/str.c:175-234 | any list of texts, quoted or bare, laid out with any gaps of delimiters, is read back as it was |
| `Tokens.QuotesInsideStay` | src/util/str.c:186-207 | a token keeps its quotes, and what delimiters stand between them, unless they are its first and its last character |
| `Tokens.OpenQuoteStays` | src/util/str.c:186-223 | a quote that is never closed takes the rest of the text into its token, and stays unless it stands there alone |
| `StrLists.StrList.constructor` | src/util/str.c:89-99 | a list of one string |
| `StrLists.StrList.Empty` | src/util/str.c:74-87 | the empty list |
| `StrLists.StrList.Push` | src/util/str.c:113-126 | appends in place; an empty head is filled |
| `StrLists.StrList.Link` | src/util/str.c:251-258 | linking two lists keeps both orders and makes no cycle |
| `StrLists.Merge` | src/util/str.c:240-259 | the result holds the strings of the first list and then those of the second, on the same nodes, each node once |
| `StrLists.StrContains` | src/util/str.c:23-31 | membership of a character |
| `StrLists.PushToken` | src/util/str.c:201-207 | a token that is not empty is pushed without the pair of quotes around it; the text behind is untouched |
| `StrLists.CutTokens` | src/util/str.c:185-223 | the loop with two cursors that overwrites delimiters stays in bounds, ends, and cuts the tokens of the specification |
| `StrLists.StrlistFromSplitQuoted` | src/util/str.c:175-234 | the list holds exactly the tokens of the quote-aware splitter |
| `StrLists.Strtok` | src/util/str.c:160-168 | delivers the next run and goes on behind it |
| `StrLists.StrlistFromSplit` | src/util/str.c:155-173 | the list holds exactly the maximal runs of non-delimiters |
| `SqlLists.SplitTwice` | src/parser.c:90-114 | splitting at white space and then each token at commas is splitting at both |
| `SqlLists.ToTheBracket` | src/parser.c:100-119 | the loop over the tokens stops at the closing bracket with everything before it listed |
| `SqlLists.BracketedList` | src/parser.c:69-127 | whatever white space and commas stand between the brackets, the list holds what they separate and the tokens behind the bracket are left |
| `SqlLists.BracketedRoundTrip` | src/parser.c:69-127 | every layout of ( v1 , ... , vn ) is tokenized and extracted as exactly [v1, ..., vn] |
| `SqlLists.RefusedExactly` | src/parser.c:69-127 | a list is refused if and only if brackets are expected and the first token does not begin with one; the tokens are read past their end if and only if a list that is not refused never ends |
| `SqlLists.CommaListExactly` | src/parser.c:100-119 | a list without brackets takes exactly the given tokens if and only if all but the last end in a comma |
| `SqlLists.CommaList` | src/parser.c:69-127 | a column list with commas in front of its white space is read as its names |
| `SqlLists.CutBracket` | src/parser.c:104-108 | the closing bracket is cut off in place, the tokens behind are untouched |
| `SqlLists.MergeSplit` | src/parser.c:113-114 | the pieces of a token go behind what is listed |
| `SqlLists.OpenList` | src/parser.c:74-95 | the first token must begin with the bracket |
| `SqlLists.ExtractSqlList` | src/parser.c:69-127 | the method returns the list, the error or the crash of the specification, and the token behind the list |
| `Parser.OpsExactly` | src/parser.c:165-183 | the conversion accepts each operator in any letter case and nothing else |
| `Parser.RelsExactly` | src/parser.c:199-206 | likewise AND and OR, as relations between filters |
| `Parser.SortsExactly` | src/parser.c:347-363 | the direction of an ORDER BY is read from ASC and DESC in any letter case and from nothing else |
| `Parser.ParsesExactly` | src/parser.c:255-341 | the parser returns a chain and a rest if and only if the tokens in front of the rest spell the chain and the rest does not begin with AND or OR |
| `Parser.PrintedSpells` | src/parser.c:273-333 | the texts of a printed chain spell it, whatever is quoted |
| `Parser.FilterTextRoundTrip` | src/parser.c:255-341 | any chain, its columns and values quoted or, where they can be, bare, its words in any letter case, laid out with any gaps, is tokenized and parsed back to itself and exactly the tokens behind it |
| `Parser.OneClauseARound` | src/parser.c:610-629 | it makes no difference that ORDER BY is tried in the round that has read a WHERE |
| `Parser.ClausesRead` | src/parser.c:610-629 | any sequence of well-formed WHERE and ORDER BY clauses is read, whatever follows; which of them counts is Parser.LaterClauseWins |
| `Parser.LaterClauseWins` | src/parser.c:610-629 | a clause that stands last replaces the one of its kind and leaves the other, so that the last WHERE and the last ORDER BY count |
| `Parser.ClausesBefore` | src/parser.c:610-629 | every run of the clause loop reads well-formed clauses and then ends as the tokens left say: done when there are none, crashed on a WHERE that ends behind a column, fatal on one that breaks off elsewhere, in error on an unknown direction, and stuck on anything that begins no clause |
| `Parser.ParseFilters` | src/parser.c:255-341 | the loop over the tokens returns the chain and the token behind it, or the error or crash of the specification |
| `Parser.TryParseWhere` | src/parser.c:485-512 | NULL without WHERE; a malformed one ends the program |
| `Parser.TryParseOrder` | src/parser.c:520-560 | consumes four tokens or none |
| `Parser.ParseRound` | src/parser.c:610-629 | one round consumes tokens, or the loop would go round for ever |
| `Parser.ParseClauses` | src/parser.c:607-629 | the loop ends with the clauses of the specification |
| `RowLists.ExactOnNumbersIsAscending` | src/interpreter.c:499-510 | if the loop deletes row numbers correctly from the table of row numbers, the list was ascending (a sum argument) |
| `Filters.FindColumn` | src/storage_internal.c:240-249 | the first column of that name, or none |
| `Filters.Resolve` | src/interpreter.c:163-195 | a filter resolves to a column of a known type and a value of that type, or to the error returned; which ones is FilterMeaning.ResolvesExactly |
| `FilterMeaning.LiteralDenotes` | src/interpreter.c:174-190 | a value converts to what it denotes in its column: the text itself, or the signed 32- or 64-bit number of the integer read; and it fails to exactly when an integer cannot be read |
| `FilterMeaning.ResolvesExactly` | src/interpreter.c:163-195 | a condition is about the first column of its name and the value that its text denotes there, or fails with the error for an unknown column or a bad value |
| `FilterMeaning.PassesComparison` | src/interpreter.c:15-77 | a row passes `=`, `<`, `<=`, `>` or `>=` if and only if the cell of the named column compares so with the value that the text denotes in the type of that column |
| `FilterMeaning.PassesLike` | src/interpreter.c:79-135 | a row passes LIKE if and only if the cell of the named column equals the number, or answers to the text as a pattern |
| `FilterMeaning.PassesNothing` | src/interpreter.c:163-195 | no row passes a condition on an unknown column, with a value that does not convert, or with `!=` |
| `Filters.Literal` | src/interpreter.c:174-190 | the value of a filter or of a SET has the type of its column |
| `Assignments.ListedColumns` | src/storage.c:107-133 | ascending positions in the table, so no column is a target twice |
| `IntLists.PushNew` | src/util/intlist.c:103-116 | one loop of the union adds what is not there yet |
| `IntLists.PushCommon` | src/util/intlist.c:121-136 | the loop of the intersection adds what both lists have |
| `Interpreter.CombineLists` | src/interpreter.c:205-235 | the first list is taken as it is, AND intersects, OR unites |
| `Interpreter.InsertValue` | src/interpreter.c:408-436 | one column of one row, by its type |
| `Interpreter.InsertNumber` | src/interpreter.c:412-428 | stores the low 32 or all 64 bits, or fails without writing |
| `Interpreter.InsertString` | src/interpreter.c:429-434 | the slot owns a fresh copy, and what it owned is freed if the row is an old one |
| `RowLoops.AllMetas` | src/storage.c:118-123 | without names all columns are listed |
| `RowLoops.UpdateEach` | src/interpreter.c:565-575 | the loop over the list of matches ends in the table that updating all listed rows gives |
| `RowLoops.UpdateNext` | src/interpreter.c:565-575 | one round of the loop: after one listed row is assigned, updating the rows still listed gives the same table as before |
| `Statements.UpdateMatches` | src/interpreter.c:560-575 | nothing is written unless every value converts |
| `Storage.Table.GrowIfFull` | src/storage.c:151-163 | the capacity doubles when the table is full, and what is copied is accounted for |
| `Storage.Table.ReallocColumns` | src/storage_internal.c:219-227 | each column gets a new buffer of its own with the old slots |
| `Storage.Table.ShiftColumn` | src/storage_internal.c:280-293 | one column is shifted, the others are untouched |
| `Storage.Table.TakeOut` | src/storage_internal.c:280-293 | one row leaves the grid and its strings are freed |
| `Storage.Table.Append` | src/storage_internal.c:262-275 | a column behind the last one |
| `Database.DataBase.Lookup` | src/storage.c:198-212 | lookup by name and then by id reaches the table of the model |
| `Database.DataBase.ExecuteAt` | src/interpreter.c:637-652 | a statement changes the table it names and no other one |
| `Database.DataBase.FreeTable` | src/storage_internal.c:207-217 | what is left after freeing a table belongs to the tables behind it |
| `Database.BuildTable` | src/interpreter.c:351-400 | the columns and types asked for, or no column if a type is unknown |
| `Database.ConvertTypes` | src/interpreter.c:351-400 | the types up to the first unknown one |
| `Queries.FindTable` | src/storage_internal.c:367-376 | the first table of that name, or none |
| `Queries.ApplyTyped` | src/interpreter.c:637-652 | every query keeps every table well typed |
| `Queries.RunOneMore` | src/interpreter.c:637-652 | a run is its queries one after the other |
| `StrLists.Strdup` | src/util/str.c:89-99 | copies the text up to the NUL |
| `StrLists.SeekQuote` | src/util/str.c:189-191 | the next quote or the end |
| `StrLists.SkipDelims` | src/util/str.c:211-212 | the text behind the delimiters |
| `StrLists.SeekEnd` | src/util/str.c:186-196 | past a quoted part to its closing quote, or to the end |
| `StrLists.CutToken` | src/util/str.c:198-217 | ends the token, pushes it, and skips the delimiters |
| `StrLists.EndRun` | src/util/str.c:160-168 | a NUL ends the run; the search goes on behind it |
| `SqlLists.ListToken` | src/parser.c:100-119 | one token of the list: its pieces are appended, and the loop goes on behind it unless it was the last |
| `SqlLists.ExtractFrom` | src/parser.c:100-119 | the loop lists tokens until the last one, or the tokens run out |
| `Parser.ParsesOne` | src/parser.c:288-325 | the parser returns exactly one filter if and only if the tokens in front spell it and no relation follows |
| `Parser.ParsesMore` | src/parser.c:316-340 | the parser returns a longer chain if and only if the tokens spell its first filter and a relation, and the rest of them parses to the other filters |
| `Parser.ParseFilter` | src/parser.c:271-304 | takes column, operator and value; rejects an unknown operator and a missing value, and reads a missing operator unchecked |
| `Parser.ParseNextFilter` | src/parser.c:267-340 | one round of the loop: a filter and the relation behind it are taken off the tokens, or the chain ends |
| `Parser.ClauseFound` | src/parser.c:610-629 | whatever one round of the loop accepts is a well-formed clause, and the loop goes on behind it |
| `Parser.LongerInFront` | src/parser.c:267-340 | tokens spell a longer chain exactly when they spell its first filter, a relation, and then the rest of it |
| `Queries.TypesExactly` | src/storage.c:65-76 | the column types of a CREATE are read from their names in any letter case and from nothing else |
| `Filters.EvaluatesExactly` | src/interpreter.c:156-240 | a chain has a list of rows if and only if each filter has a known column, a convertible value and a comparison function (unless the table is empty) and each relation is one; otherwise the first bad filter decides the outcome |
| `Filters.CrashesExactly` | src/interpreter.c:139-190 | the call through the missing entry for `!=` is made exactly when the table has rows and such a filter comes before every other failure |
| `Filters.ChainFolds` | src/interpreter.c:162-235 | a chain is evaluated filter by filter |
| `ChainReading.NoAndAfterOrReadsUsually` | src/interpreter.c:205-230 | for a chain without AND behind an OR, the rows listed are those of the usual AND-before-OR reading |
| `ChainReading.Misread` | src/interpreter.c:205-230 | for any other relations there is a chain and a one-row table whose row the usual reading accepts and the list misses |
| `ChainReading.ChainReadingExactly` | src/interpreter.c:205-230 | chains with given relations read as usual on every table if and only if no AND stands behind an OR |
| `DeleteOrder.DeletePicks` | src/interpreter.c:499-510 | the delete loop moves rows without looking at them |
| `DeleteOrder.DeleteExactly` | src/interpreter.c:491-517 | for the chain and the table at hand, DELETE leaves exactly the rows the chain is false of if and only if the list of matches ascends |
| `DeleteOrder.SinceIsTruth` | src/interpreter.c:205-230 | a row has a filter that added it exactly when the chain is true of it |
| `DeleteOrder.ListedByAge` | src/util/intlist.c:96-136 | the list of any chain is ordered by the filter that added the row, and by number among those that one filter added |
| `DeleteOrder.AscendingExactly` | src/interpreter.c:205-230 | the list of any chain ascends if and only if no row was added by a later filter than a row below it in the table |
| `DeleteOrder.DeleteExactlyInOrder` | src/interpreter.c:491-517 | so DELETE is exact if and only if the rows were added in order |
| `DeleteOrder.SucceedsExactly` | src/interpreter.c:499-510 | the delete loop succeeds, with one row gone for each that is listed, if and only if no row is listed at a place beyond its number; otherwise it stops there with an index out of bounds |
| `Assignments.PairedExactly` | src/interpreter.c:403-443 | the i-th value of a SET goes into the column with the i-th name, for every i, if and only if all names are columns of the table, in table order |
| `Assignments.InOrderIsPaired` | src/storage.c:107-133 | with the names in table order the i-th column listed is the one the i-th name finds |
| `Assignments.AssignAsNamed` | src/interpreter.c:403-443 | then every named column of the row holds the literal of its value, and the others keep theirs |
| `QueryLaws.UpdateWritesAsNamed` | src/interpreter.c:551-604 | an UPDATE with its names in table order writes, in exactly the rows its filters are true of, each value into the column it was given for |
| `QueryLaws.SwappedNamesSwapValues` | src/interpreter.c:606-635 | SET b = u, a = v makes a equal u and b equal v |
| `QueryLaws.UnknownNameShiftsValues` | src/interpreter.c:606-635 | SET z = u, a = v with an unknown z makes a equal u and drops v, and answers OK |
| `QueryLaws.RunKeepsColumnsDistinct` | src/storage_internal.c:252-278 | every run of queries keeps the column names of a table distinct |
| `QueryLaws.DeleteIsExactInOrder` | src/interpreter.c:491-517 | a filtered DELETE that cannot be evaluated changes nothing; any other is exact if and only if its list ascends, that is, its rows were added in order |
| `QueryLaws.OrListsOutOfOrder` | src/util/intlist.c:96-119 | WHERE a = w OR a = x lists the last row, which holds w, before the row that holds x |
| `QueryLaws.OrDeletesWrongRow` | src/interpreter.c:499-510 | DELETE with that WHERE removes the first row instead of the second |
| `QueryLaws.OrDeletesHalfway` | src/interpreter.c:499-510 | and where x is in the first row it stops half-way with an index out of bounds and leaves a row its WHERE is true of |
| `QueryMeaning.ConvertibleExactly` | src/interpreter.c:465-475 | the values of a row are accepted if and only if there is one for each column and all convert, and then they become the values they denote |
| `QueryMeaning.InsertMeans` | src/interpreter.c:445-489 | INSERT is OK if and only if each column has a value that converts, and then adds one row that holds, column by column, what the values denote; otherwise, and in any other table, nothing changes |
| `QueryMeaning.DeleteMeans` | src/interpreter.c:491-549 | DELETE without filters empties its table; with filters it is OK, and leaves exactly the rows they are false of, if and only if the rows were listed in order, and removes as many rows as are listed whenever it is OK; it changes no other table |
| `QueryMeaning.UpdateAnswers` | src/interpreter.c:551-604 | the answer of an UPDATE is the error of its filters, a type error unless each listed column has a value that converts, or OK |
| `QueryMeaning.UpdateMeans` | src/interpreter.c:551-635 | an UPDATE that fails changes nothing; one that is OK changes exactly the rows its filters are true of, and if the names are in table order the column of the i-th name holds what the i-th value denotes; that columns have distinct names is no condition on runs, see QueryLaws.RunKeepsColumnsDistinct |
| `QueryMeaning.CreateMeans` | src/interpreter.c:351-400 | CREATE links a new and empty table of that name behind the others, with the columns, the types spelled and fresh ids; or without columns, and an error, if some type is unknown |
| `QueryMeaning.CreateBindsNewNames` | src/storage_internal.c:334-376 | after CREATE its name finds the new table exactly when the name was unknown, and other names find what they did |
| `QueryMeaning.DeleteThenInsert` | src/interpreter.c:445-549 | after DELETE without filters and an INSERT that converts, the table holds exactly the row inserted |
| `Storage.FindId` | src/storage_internal.c:229-238 | the first column with that id, or none |
| `Storage.Table.DropRow` | src/storage_internal.c:280-293 | the row inside the bounds goes, with its strings |
| `Parser.CrashesExactly` | src/parser.c:267-279 | a missing token is read exactly when the tokens are complete filters with relations and then one column more |
| `Parser.RejectsExactly` | src/parser.c:267-340 | the parser rejects exactly the tokens that break off behind complete filters with relations: at once, at an unknown operator, or behind an operator |
| `Parser.WhereColumnCrashes` | src/parser.c:279-285 | WHERE and a column crash |
| `Parser.OrderWithoutDirectionSticks` | src/parser.c:520-560 | ORDER BY and a column without a direction keep the clause loop going round |
| `Parser.TokenIs` | src/parser.c:489-536 | there is a token and it is the keyword, in any letter case |
| `Parser.OrderTerms` | src/parser.c:540-556 | column and direction, if both tokens are there |

## Left out

- `src/cli-main.c`, all printing and `str_count_utf8_glyphs`: input and output only.
- SELECT: the interpreter evaluates the filters as DELETE does and prints the rows; ORDER BY and the column list are ignored by it.
- The head of SELECT (`src/parser.c:567-604`) and the token parsing of CREATE, INSERT, DELETE and UPDATE (`src/parser.c:648-909`): keywords in a fixed order around the parts that are modelled.
- Quotes and commas that the parser leaves inside of INSERT and SET values: no round trip holds for them.
- Failing allocations, and the exits through FATAL except for a malformed WHERE.
- Freeing and live-block accounting for the lists of tokens, filters and row numbers; only cell strings are accounted for.
- The lists of columns and of tables are fields of type `seq`, so that the links between columns, and between tables, are not modelled; neither are `src/util/columnlist.c` (sequences) and `src/util/result.c` (an enumeration).
- The filters of a chain are a sequence; that the parser links them in place is not captured.
- Lookup of a table by its id is done once per statement; the code repeats it in every storage call, with the same outcome.
- A realloc is an allocation and a copy, whether or not the allocator could grow the buffer in place.
- Row counts, capacities, ids and token lengths are unbounded naturals; the 64-bit wrap-around is modelled only where the delete loop subtracts.
- CREATE links its table after its columns have been added instead of before; nobody looks at it in between.
- Queries.Safe: does not describe what happens on the inputs it excludes, because the program then reads past a list, calls a null pointer or exits: a value list that ends before the columns do, with every value there is convertible; an INSERT into a table without columns, such as the one a failed CREATE leaves bound to its name; an UPDATE without a matching column; a CREATE with fewer types than columns or with a column name given twice; `!=` on a table with rows.
- RowLists.DeletesExactlyAscending, and the results on DELETE that build on it: fewer than 2^64 rows, because row numbers are 64 bits wide.
- `basetype_size` and the void pointers of the slots: a slot is a natural number, the bits that are stored.
