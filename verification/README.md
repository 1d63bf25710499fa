# A verified model of nkit's dynamic tables, indexes, grouping and codecs

nkit keeps typed tables in memory, with indexes that follow every change of the rows, groups them with aggregates, reads
JSON into dynamic values and converts between code pages. Its bundled SQL shell prints and reads CSV and quoted strings.
This project models those parts in Dafny and proves what they are for.

## How the model is laid out

Every mutating class of the program is a Dafny class with the same fields and loops; each of its methods is proved
against a function on values, and the properties are lemmas about those functions and about whole runs of them.

| Files | What they model |
|---|---|
| `Types.dfy`, `Comparator.dfy`, `ComparatorTable.dfy`, `CellOrder.dfy` | key items and their order, and what a key says about the cells of its row; the comparators compiled for parts of three columns, the table they are registered in and the chunk-by-chunk walk |
| `OrderedMap.dfy`, `Buckets.dfy`, `IndexSpec.dfy` | the ordered map of an index, the bisection that renumbers buckets, one notification as a function |
| `TableSpec.dfy`, `TableRuns.dfy`, `RefCounts.dfy`, `Worlds.dfy`, `Sharing.dfy`, `KeyStrings.dfy` | a table state, one step of it, runs; index agreement over runs; string reference counts over runs, of one table and of many that share their strings; the strings that index keys point to |
| `Walks.dfy`, `Table.dfy`, `Iteration.dfy` | the rows that a walk over an index sees; the classes `SharedTable`, `TableIndex` and `ConstIterator`, updated in place, refining the above |
| `GroupSpec.dfy`, `Aggregates.dfy`, `GroupTables.dfy`, `Grouping.dfy` | aggregators and what they mean, the group map, the batch and the incremental table, and what the table says cell by cell; the classes `GroupIndex` and `GroupedTableBuilder` |
| `Utf.dfy`, `Transcode.dfy` | UCS-4, UTF-8 and UTF-16; the `Transcoder` of a code page |
| `Numbers.dfy`, `Json.dfy` | the classification of number literals; the container stack machine `DynamicConstructor` |
| `Csv.dfy`, `Quoting.dfy`, `Tokenizer.dfy` | the shell's CSV printer, reader and import loop; its C-style quoting, in-place unescaping and tokenizer |

`State` (in `TableSpec.dfy`) is a table: column types, rows, subscribed indexes, string counts. `Op` is one call with its
arguments; `Step` is its effect, which is nothing when the call refuses its arguments. An index `Agrees` with the rows when
its keys ascend, no bucket is empty and each bucket holds, once each, exactly the rows with its key. It is `Exact` when it
equals the index that `BuildIndex` would make now; that is agreement plus sorted buckets (`ExactIsSortedAgreement`).

## Where the code falls short of what it is for

Each of these is proved with an exact condition or a concrete case.

- `SetRow` and `SetCellValue` re-add a row at the end of its bucket without sorting. Agreement survives the call, but a
  later insert or delete bisects an unsorted bucket and can misnumber rows (`SetThenInsertBreaks`). The bucket stays
  sorted exactly when the row number exceeds all others in its new bucket (`ChangeIndex`); a renumbering is right exactly
  when bisection splits every bucket (`StepInSync`).
- `SetRow` with fewer arguments than columns writes defaults over the remaining cells without releasing their strings
  (`ShortSetRowLeaks`); counts are conserved exactly when no such cell is a string (`StepConserves`).
- `GetLowerOrEqual` starts where `GetLower` does, at the first row that is not less. It walks the rows its name asks for,
  those not greater, exactly when every row has the key (`LowerOrEqualExact`; `LowerOrEqualMisses` is a case).
- BOOL and DATE_TIME inherit an addition that does nothing: SUM stays zero and is the total exactly when every cell is
  zero (`SumOfFlagsOrDates`, `FlagSumLost`).
- DATE_TIME inherits a minimum and maximum that do nothing: MIN stays at 2^64 - 1 and MAX at zero, right exactly when
  every date is that value (`ExtremesOfDates`, `DatesExact`, `DateExtremesLost`).
- MIN and MAX of FLOAT start from 2^63 and its negation: MIN is the least cell exactly when some cell is not above its
  start, MAX the greatest exactly when some cell is not below (`MinExact`, `MaxExact`, `FloatExtremesLost`). For the other
  types this always holds of a non-empty group (`ExtremesInWidth`).
- Code page bytes survive a round trip exactly under `Survives` (`SharedUnitLost` is a case that does not); UTF-8 input
  returns unchanged exactly when it is in shortest form, provided the code page has no high surrogates (`OverlongLost`).
- A negative integer literal below -2^63 becomes an unsigned value modulo 2^64 (`NegativeBecomesUnsigned`), and `errno`,
  once ERANGE, turns every later 64-bit unsigned literal into a floating value (`UnsignedInRun`, `ErangeSpoilsNext`).
- A short literal with an exponent and no fraction loses it: it becomes the integer of its leading digits, its own value
  exactly when the mantissa or the exponent is zero (`ParseExponentLiteral`, `ParseLongExponent`, `ExponentExact`,
  `ExponentLost`).
- The keys of an index point to strings that they do not count, those of the row that opened the bucket. They stay live
  through a row operation exactly when none was held only by the row that goes (`KeysHeldExact`); otherwise the next
  lookup compares a freed string (`KeyStringFreed`).
- A backslash at the end of an argument escapes the argument's own terminator: the code goes on behind it, over the rest
  of the line or out of the buffer (`ResolveRuns`, `LeftoverBackslash`). An argument is safe exactly when it ends in an
  even number of backslashes (`ResolveExact`, `InsideExact`, `ArgsExact`).
- The CSV separator is kept in a `char`. Where `char` is signed, one of 128 or more is never recognised when reading
  (`SeparatedFieldBack`, `RowsRoundTrip`, `HighSeparatorLost`), and 255 is taken for the end of the file: the import then
  never ends, and it ends with every other separator (`ImportTerminates`).
- For a row with too few fields the import means to fill the rest with NULL, but its index is one too small: the last
  field read is lost and the last column keeps the previous row's value. Printed rows come out padded exactly when none
  is short (`RaggedRowsExact`; `ShortRowLosesField` is a case).

## Model

| member | source | states |
|---|---|---|
| KeyOrder.LexTotal | src/nkit/dynamic.h:222-223 | any two keys of the map are equal on the indexed columns or ordered one way only, as `std::map` demands |
| KeyOrder.LexTransitive | src/nkit/dynamic.h:222-223 | the key order is transitive; with LexTotal a strict weak order for every mask |
| CellOrder.ItemMeans | src/dynamic/dynamic_table.cpp:27-54 | two key items are equal if and only if their cells have equal values, strings by their texts, and one is below the other if and only if its cell is smaller |
| CellOrder.SameKey | src/dynamic/dynamic_table.cpp:996-1007 | two rows have the same key if and only if their cells in every key column have equal values |
| CellOrder.KeyBefore | src/nkit/dynamic.h:187-205 | the key of one row is less than that of another if and only if, at the first key column where their cells differ, it has the smaller cell, or the greater one for a negative sign |
| Comparators.CompareTextSign | src/dynamic/dynamic_table_index_comparators.cpp:102-120 | the sign of a string comparison decides byte-lexicographic order, and zero means equal |
| Comparators.CompareItemSign | src/dynamic/dynamic_table_index_comparators.cpp:27-120 | for every signed type the item comparator is negative exactly below in that direction and zero exactly on equality |
| Comparators.PartDecides | src/dynamic/dynamic_table_index_comparators.cpp:123-153 | a compiled comparator of one to three columns decides signed lexicographic order and equality on them |
| Comparators.LexSplit | src/nkit/dynamic.h:187-205 | lexicographic order splits at any column into order before it, or equality before it and order after it |
| Comparators.ChunkDecides | src/nkit/dynamic.h:187-205 | once everything before a chunk is equal, a chunk that differs decides the whole key, one that does not extends the equality |
| Comparators.IndexCompare.constructor | src/nkit/dynamic.h:166-169 | a new comparator has no parts |
| Comparators.IndexCompare.AppendPartCompare | src/nkit/dynamic.h:171-185 | a part is added at the end of those present, and refused exactly when all 22 places are taken |
| Comparators.IndexCompare.Call | src/nkit/dynamic.h:187-205 | with the parts of a mask, the chunk walk answers true exactly when the first key is signed-lexicographically less |
| ComparatorTable.MaskTextInjective | src/dynamic/dynamic_table_index_comparators.cpp:251-257 | two masks with the same concatenated text are the same mask |
| ComparatorTable.ComparatorsMap.SetMap | src/dynamic/dynamic_table_index_comparators.cpp:271-278 | registration aborts exactly when this combination was registered before; otherwise it adds exactly it |
| ComparatorTable.ComparatorsMap.Set1 | src/dynamic/dynamic_table_index_comparators.cpp:281-302 | registers exactly both signs of the type and of those after it in the chain |
| ComparatorTable.ComparatorsMap.Set2 | src/dynamic/dynamic_table_index_comparators.cpp:306-355 | registers exactly the signed pairs reachable from its two types, none twice |
| ComparatorTable.ComparatorsMap.Set2Second | src/dynamic/dynamic_table_index_comparators.cpp:319-323 | registers exactly the signed pairs with a fixed first type |
| ComparatorTable.ComparatorsMap.Set2Signs | src/dynamic/dynamic_table_index_comparators.cpp:325-333 | registers exactly the four sign combinations of one pair |
| ComparatorTable.ComparatorsMap.Set3 | src/dynamic/dynamic_table_index_comparators.cpp:361-484 | registers exactly the signed triples reachable from its three types, none twice |
| ComparatorTable.ComparatorsMap.Set3Second | src/dynamic/dynamic_table_index_comparators.cpp:376-381 | registers exactly the signed triples with a fixed first type |
| ComparatorTable.ComparatorsMap.Set3Third | src/dynamic/dynamic_table_index_comparators.cpp:383-387 | registers exactly the signed triples with fixed first and second types |
| ComparatorTable.ComparatorsMap.Set3Signs | src/dynamic/dynamic_table_index_comparators.cpp:389-438 | registers exactly the eight sign combinations of one triple |
| ComparatorTable.ComparatorsMap.InitComparators | src/dynamic/dynamic_table_index_comparators.cpp:716-743 | never aborts, and registers every sign and type combination of length one to three and nothing else |
| ComparatorTable.SubMask | src/dynamic/dynamic_table_index_comparators.cpp:188-190 | the text looked up is the text of that part of the mask |
| ComparatorTable.AppendPart | src/dynamic/dynamic_table_index_comparators.cpp:191-196 | a part is found exactly when all its types are registered and there is room, and its own comparator is appended |
| ComparatorTable.GetComparator | src/dynamic/dynamic_table_index_comparators.cpp:178-213 | succeeds exactly for masks of registered types of at most 66 columns, and assembles the comparators of its parts |
| OrderedMap.BoundsSplit | src/dynamic/dynamic_table.cpp:1124-1168 | lower and upper bound cut the ascending keys at "not less" and "greater" |
| OrderedMap.FindSpec | src/dynamic/dynamic_table.cpp:1190-1204 | an entry is found exactly when its key is in the map, at its lower bound |
| OrderedMap.Canonical | src/dynamic/dynamic_table.cpp:1103-1113 | two ascending maps that answer every lookup alike are the same map |
| Buckets.BisectSorted | src/dynamic/dynamic_table.cpp:1052-1055 | on a sorted bucket the halving search returns the first place not below the row number |
| Buckets.RaiseExact | src/dynamic/dynamic_table.cpp:1076-1080 | incrementing from the bisected place renumbers the bucket rightly if and only if that place splits the bucket |
| Buckets.LowerExact | src/dynamic/dynamic_table.cpp:1052-1057 | decrementing from the bisected place renumbers rightly if and only if that place splits the bucket |
| Buckets.StableSortSpec | src/dynamic/dynamic_table.cpp:1084-1086 | the sort keeps the row numbers and orders distinct ones strictly |
| IndexSpec.InsertAgrees | src/dynamic/dynamic_table.cpp:1063-1087 | adding a row at the end of its bucket keeps the index in agreement, with that row added |
| IndexSpec.UnlinkAgrees | src/dynamic/dynamic_table.cpp:1029-1043 | in an agreeing index a row is found under its key, and removing it, with its bucket if that is left empty, keeps agreement |
| IndexSpec.InsertRowExact | src/dynamic/dynamic_table.cpp:1063-1087 | an insert in the middle keeps agreement if and only if bisection splits every bucket; sorted buckets stay sorted |
| IndexSpec.LowerRowExact | src/dynamic/dynamic_table.cpp:1045-1059 | the renumbering after a deletion keeps agreement if and only if bisection splits every bucket; sorted buckets stay sorted |
| IndexSpec.InsertSortedExact | src/dynamic/dynamic_table.cpp:1084-1086 | without the sort, buckets stay sorted if and only if the row number exceeds all others in its bucket |
| IndexSpec.AgreeingUnique | src/dynamic/dynamic_table.cpp:1103-1113 | rows and keys determine the sorted agreeing index |
| IndexSpec.BuildAgrees | src/dynamic/dynamic_table.cpp:1103-1113 | an index built from scratch agrees with the rows and has sorted buckets |
| IndexSpec.BuildUnique | src/dynamic/dynamic_table.cpp:1103-1113 | an index is the one built from scratch if and only if it agrees and is sorted |
| TableRuns.ExactIsSortedAgreement | src/dynamic/dynamic_table.cpp:1103-1113 | the same for all indexes of a table |
| TableRuns.AppendIndex | src/dynamic/dynamic_table.cpp:609-646 | an appended row keeps every index in agreement and sorted |
| TableRuns.InsertIndex | src/dynamic/dynamic_table.cpp:736-771 | an inserted row shifts the rows as the renumbering shifts the buckets, if and only if bisection splits them |
| TableRuns.DeleteIndex | src/dynamic/dynamic_table.cpp:649-674 | the same for a deleted row; sorted buckets always qualify |
| TableRuns.ChangeIndex | src/dynamic/dynamic_table.cpp:685-733 | a changed row keeps agreement always, and sortedness if and only if its number exceeds all other rows with its new key |
| TableRuns.UncoveredColumn | src/dynamic/dynamic_table.cpp:786-806 | an index that does not cover the changed column agrees after the change exactly when it did before |
| TableRuns.StepInSync | src/dynamic/dynamic_table.cpp:609-812 | one operation keeps all indexes in agreement if and only if every renumbering in it splits its buckets |
| TableRuns.RunInSync | src/dynamic/dynamic_table.cpp:609-812 | over any run the indexes agree after every step if and only if every step's renumbering is safe |
| TableRuns.RunFromSorted | src/dynamic/dynamic_table.cpp:609-812 | over any run in which each insert and delete starts from sorted buckets the indexes always agree |
| TableRuns.RunExact | src/dynamic/dynamic_table.cpp:609-771 | over any run without cell changes every index stays equal to the one built from scratch |
| TableRuns.ExactBuckets | src/dynamic/dynamic_table.cpp:1103-1113 | each bucket is the non-empty, strictly ascending list of exactly the rows with its key |
| TableRuns.ExactCovers | src/dynamic/dynamic_table.cpp:1103-1113 | every row is in one bucket and in no other |
| TableRuns.BisectMisses | src/dynamic/dynamic_table.cpp:1076-1078 | bisection does not split the bucket 1, 0 at 1 |
| TableRuns.ReaddedLast | src/dynamic/dynamic_table.cpp:1084 | row 0, moved to the bucket of row 1, comes after it |
| TableRuns.SetThenInsertBreaks | src/dynamic/dynamic_table.cpp:685-771 | a concrete table whose index is exact, agrees after `SetRow`, and no longer agrees after the insert that follows |
| RefCounts.StepOutside | src/dynamic/dynamic_table.cpp:609-812 | an operation changes the handles outside the table by exactly the strings in cells overwritten by defaults |
| RefCounts.StepConserves | src/dynamic/dynamic_table.cpp:609-812 | an operation conserves all outside handles if and only if no unreleased cell holds a string; cells are always counted |
| RefCounts.RunConserves | src/dynamic/dynamic_table.cpp:609-812 | over any run the count of every string is its outside handles plus its cells if and only if each step conserves |
| RefCounts.FullWidthConserves | src/dynamic/dynamic_table.cpp:706-726 | full-width rows conserve |
| RefCounts.ShortSetRowLeaks | src/dynamic/dynamic_table.cpp:721-724 | a concrete short `SetRow` after which a string in no cell is still counted |
| RefCounts.ReleaseAllCount | src/dynamic/dynamic_table.cpp:487-500 | clearing lowers each string's count by exactly the cells that held it |
| RefCounts.AcquireAllCount | src/dynamic/dynamic_table.cpp:566-586 | cloning raises each string's count by exactly the cells of the clone that hold it |
| KeyStrings.HeldAfter | src/dynamic/dynamic_table.cpp:609-812 | how many cells hold a string after a row operation |
| KeyStrings.KeysHeldExact | src/dynamic/dynamic_table.cpp:1029-1087 | after a row operation every string that a key points to is in a cell if and only if none of them was held only by the row that goes |
| KeyStrings.AddingKeepsHeld | src/dynamic/dynamic_table.cpp:1063-1087 | appending and inserting never leave a key without its strings |
| KeyStrings.KeyStays | src/dynamic/dynamic_table.cpp:1029-1043 | while another row has the key of a deleted one its entry stays |
| KeyStrings.KeyStringFreed | src/dynamic/dynamic_table.cpp:1029-1043 | a concrete table of two equal texts: after the first row is deleted the key points to a string that no cell holds and no count keeps |
| Worlds.ActHandles | src/dynamic/dynamic_table.cpp:487-812 | with many tables sharing strings, a row operation, a clear or a clone changes the handles outside all tables by exactly the strings left unreleased |
| Worlds.ActConserves | src/dynamic/dynamic_table.cpp:487-812 | so clears and clones conserve, and a row operation if and only if it leaves no string unreleased |
| Worlds.WorldConserves | src/dynamic/dynamic_table.cpp:487-812 | over any run of row operations, clears and clones on any tables, every count is the outside handles plus all cells, if and only if each step conserves |
| Sharing.Operated | src/dynamic/dynamic_table.cpp:609-812 | a row operation of one table object on a shared heap is that row action of the world, and every other table stays in order |
| Sharing.Cleared | src/dynamic/dynamic_table.cpp:487-507 | clearing one table object is the clear action of the world |
| Sharing.DeleteRowOf | src/dynamic/dynamic_table.cpp:649-674 | the frame of the delete method is enough for this: all tables on the heap stay in order |
| Sharing.AppendRowOf | src/dynamic/dynamic_table.cpp:609-646 | the same for the append, whether it is accepted or not |
| Sharing.CloneOf | src/dynamic/dynamic_table.cpp:561-589 | a clone joins the tables on the heap as the clone action of the world |
| Table.TableIndex.Create | src/dynamic/dynamic_table.cpp:931-977 | an index is created exactly when all its column types are registered; its walk then lists every row once by the cells of the indexed columns, ascending, or descending where `minus` is set, rows with equal cells in table order |
| Table.TableIndex.MakeKey | src/dynamic/dynamic_table.cpp:996-1007 | the key is the items of the row's cells in the indexed columns; `CellOrder.SameKey` and `CellOrder.KeyBefore` say what it tells of them |
| Table.TableIndex.Build | src/dynamic/dynamic_table.cpp:1103-1113 | the loop over the rows makes the from-scratch index |
| Table.TableIndex.NotifyRowInsert | src/dynamic/dynamic_table.cpp:1063-1087 | the in-place map equals the notification function of the old one |
| Table.TableIndex.NotifyRowDelete | src/dynamic/dynamic_table.cpp:1029-1060 | the same for a withdrawn row that is present |
| Table.TableIndex.RaiseBucket | src/dynamic/dynamic_table.cpp:1076-1080 | the increment loop raises the bucket from the bisected place on |
| Table.TableIndex.LowerBucket | src/dynamic/dynamic_table.cpp:1052-1057 | the decrement loop lowers the bucket from the bisected place on |
| Table.TableIndex.IsIndexedColumn | src/dynamic/dynamic_table.cpp:1096-1100 | the search finds exactly the covered columns |
| Table.SharedTable.Validate | src/dynamic/dynamic_table.cpp:846-862 | accepts exactly a non-empty argument list whose types equal those of the columns it reaches |
| Table.SharedTable.GetDefault | src/dynamic/dynamic_table.cpp:887-893 | a default is zero, the current time for a date, or a new empty string that is counted once |
| Table.SharedTable.MakeRow | src/dynamic/dynamic_table.cpp:617-633 | a new row takes the arguments, then defaults, and acquires each string it holds |
| Table.SharedTable.NotifyInsertAll | src/dynamic/dynamic_table.cpp:636-643 | every subscribed index is told of the row |
| Table.SharedTable.NotifyDeleteAll | src/dynamic/dynamic_table.cpp:654-659 | the row is withdrawn from every subscribed index |
| Table.SharedTable.AppendRow | src/dynamic/dynamic_table.cpp:609-646 | one row is added at the end, the arguments and then defaults, and no other changes; the table is the Append step of the table before, or unchanged when refused |
| Table.SharedTable.InsertRow | src/dynamic/dynamic_table.cpp:736-771 | the same before an existing row, whose number the new row takes; the Insert step |
| Table.SharedTable.DeleteRow | src/dynamic/dynamic_table.cpp:649-674 | exactly the given row is taken out of the storage; the Delete step |
| Table.SharedTable.RemoveRow | src/dynamic/dynamic_table.cpp:654-673 | DeleteRow once its guard has passed |
| Table.SharedTable.ReleaseRow | src/dynamic/dynamic_table.cpp:660-668 | every string of the row is released once |
| Table.SharedTable.ExchangeRow | src/dynamic/dynamic_table.cpp:702-727 | columns with arguments release the old string and acquire the new one; the rest only acquire defaults |
| Table.SharedTable.SetRow | src/dynamic/dynamic_table.cpp:685-733 | the given row becomes the arguments and then defaults, and no other changes; the SetRow step |
| Table.SharedTable.ChangeRow | src/dynamic/dynamic_table.cpp:695-732 | SetRow once its guards have passed |
| Table.SharedTable.NotifyDeleteCovering | src/dynamic/dynamic_table.cpp:786-793 | only the indexes that cover the column withdraw the row |
| Table.SharedTable.NotifyInsertCovering | src/dynamic/dynamic_table.cpp:804-810 | only the indexes that cover the column announce it again |
| Table.SharedTable.SetCellValue | src/dynamic/dynamic_table.cpp:774-812 | true exactly for a cell in range and a value of its type; that cell then holds the value, every other cell of every row is as before, and the table is the SetCell step of the table before |
| Table.SharedTable.ChangeCell | src/dynamic/dynamic_table.cpp:784-811 | SetCellValue once its guards have passed: the value is written to that cell and to no other |
| Table.SharedTable.Subscribe | src/dynamic/dynamic_table.cpp:815-820 | a new index is added, a known one is not repeated |
| Table.SharedTable.UnSubscribe | src/dynamic/dynamic_table.cpp:823-832 | a subscribed index is dropped and told so; otherwise nothing changes |
| Table.SharedTable.CreateIndex | src/nkit/dynamic/impl_table.h:627-636 | a created index is subscribed, and its walk lists the rows by their cells as `minus` says, those with equal cells in table order |
| Table.SharedTable.Clear | src/dynamic/dynamic_table.cpp:487-507 | every cell's string is released and the table is empty, with no index |
| Table.SharedTable.Clone | src/dynamic/dynamic_table.cpp:561-589 | a clone has the same types and rows, or for a full clone new strings with the same texts, and every cell of it is counted |
| Table.SharedTable.AppendRowUnsafe | src/dynamic/dynamic_table.cpp:896-917 | one row is added and its strings are acquired |
| Table.SharedTable.SetRowUnsafe | src/dynamic/dynamic_table.cpp:920-927 | one row is overwritten; no count changes |
| Iteration.ConstIterator.constructor | src/nkit/dynamic.h:235-252 | an iterator at an entry has the rows from there on still to visit |
| Iteration.ConstIterator.Next | src/nkit/dynamic.h:254-277 | one step drops exactly the first of the rows still to visit |
| Iteration.Equal | src/nkit/dynamic.h:1017-1022 | an iterator equals the end exactly when it has no rows left |
| Iteration.Walk | src/nkit/dynamic.h:254-277 | stepping to the end terminates and sees exactly the rows that were still to visit, in order |
| Iteration.Begin | src/nkit/dynamic.h:310-313 | all rows of the index are still to visit |
| Iteration.End | src/nkit/dynamic.h:315-318 | no row is |
| Walks.WalkIsStableSort | src/nkit/dynamic.h:235-277 | a walk over a current index is the stable sort of the table: every row once, by key, equal keys by row number |
| Walks.WalkSorted | src/nkit/dynamic.h:235-277 | the same on cells: a walk over a current index lists every row once by its cells in the indexed columns in the signed order, equal cells by row number |
| Iteration.GetLower | src/dynamic/dynamic_table.cpp:1124-1140 | starts at the lower bound of the arguments' key; empty for a dropped index or arguments that do not fit |
| Iteration.GetGrater | src/dynamic/dynamic_table.cpp:1152-1168 | starts at the upper bound |
| Iteration.GetEqual | src/dynamic/dynamic_table.cpp:1190-1204 | starts at the equal entry, and is at the end when there is none |
| Iteration.ArgumentsFound | src/dynamic/dynamic_table.cpp:1190-1204 | its entry exists if and only if some row has, in each indexed column, the value of the argument there |
| Iteration.GetLowerOrEqual | src/dynamic/dynamic_table.cpp:1170-1177 | starts where GetLower starts |
| Iteration.GetGraterOrEqual | src/dynamic/dynamic_table.cpp:1180-1187 | starts where GetLower starts |
| Walks.BoundedWalk | src/dynamic/dynamic_table.cpp:1124-1168 | from the lower bound the walk sees exactly the rows not below the key, from the upper bound exactly those above, both in stable order |
| Walks.LowerOrEqualExact | src/dynamic/dynamic_table.cpp:1170-1177 | the walk from GetLowerOrEqual sees the rows not greater than the key if and only if every row has that key |
| Walks.LowerOrEqualMisses | src/dynamic/dynamic_table.cpp:1170-1177 | a concrete table with a lesser row that the walk misses |
| Walks.EqualFound | src/dynamic/dynamic_table.cpp:1190-1204 | an equal entry is found if and only if some row has that key |
| Walks.LookupCells | src/dynamic/dynamic_table.cpp:1124-1204 | on cells: the walk from the lower bound sees exactly the rows whose cells do not come before the arguments, from the upper bound exactly those that the arguments come before, and an equal entry is found if and only if some row has cells equal to the arguments |
| GroupSpec.GroupsRight | src/dynamic/dynamic_table.cpp:315-333 | one group per distinct key, in strictly increasing order, each aggregate the left fold over exactly that group's rows in source order |
| Aggregates.CountMeans | src/nkit/dynamic/impl_table.h:141-144 | COUNT is the number of rows modulo 2^64 |
| Aggregates.SumMeans | src/nkit/dynamic/impl_table.h:126-129 | SUM is the total wrapped to 64 bits for INTEGER, modulo 2^64 for UNSIGNED_INTEGER, over reals for FLOAT, and zero for BOOL and DATE_TIME |
| Aggregates.SumOfFlagsOrDates | src/nkit/dynamic/impl.h:441-444 | SUM over BOOL or DATE_TIME is the total if and only if every cell is zero |
| Aggregates.FlagSumLost | src/nkit/dynamic/impl.h:441-444 | one true flag sums to zero |
| Aggregates.MinMeans | src/nkit/dynamic/impl_table.h:131-134 | except over DATE_TIME, MIN is the least of the cells and the start value |
| Aggregates.MaxMeans | src/nkit/dynamic/impl_table.h:136-139 | except over DATE_TIME, MAX is the greatest of the cells and the start value |
| Aggregates.MinExact | src/nkit/dynamic/impl_table.h:96-99 | MIN is the least cell if and only if some cell is not above the start value |
| Aggregates.MaxExact | src/nkit/dynamic/impl_table.h:100-103 | MAX is the greatest cell if and only if some cell is not below the start value |
| Aggregates.ExtremesInWidth | src/nkit/dynamic/impl_integer.h:452-482 | for the integer types and BOOL they always are, in a non-empty group |
| Aggregates.ExtremesOfDates | src/nkit/dynamic/impl.h:463-473 | over DATE_TIME both keep their start value |
| Aggregates.DatesExact | src/nkit/dynamic/impl.h:463-473 | they are the least and the greatest date if and only if the group is not empty and every date is the start value |
| Aggregates.DateExtremesLost | src/nkit/dynamic/impl.h:463-473 | a concrete date for which both are wrong |
| Aggregates.FloatExtremesLost | src/nkit/dynamic/impl_float.h:152-164 | concrete cells beyond 2^63 and below its negation for which MIN and MAX are wrong |
| GroupSpec.CountsSum | src/dynamic/dynamic_table.cpp:380-403 | the counts of all groups sum to the height of the source |
| GroupSpec.FeedRowOk | src/dynamic/dynamic_table.cpp:336-359 | feeding a row keeps the grouped table at one row per key, holding the keys' cells in some order |
| GroupSpec.RefreshOk | src/dynamic/dynamic_table.cpp:405-417 | overwriting in key order keeps that too, and the rows become those of the map |
| GroupSpec.RefreshPermutes | src/dynamic/dynamic_table.cpp:405-427 | the overwrite keeps every key column's multiset of cells, so each string is in as many cells as before and counts stay exact |
| GroupSpec.MapStringsHeld | src/dynamic/dynamic_table.cpp:351-356 | every string held as a map key is also held by a counted cell |
| GroupSpec.BuilderRefinesBatch | src/nkit/dynamic.h:954-964 | rows fed one by one, with results taken at any points between, end in the table that `Group` makes of them |
| GroupTables.GroupTableRight | src/dynamic/dynamic_table.cpp:380-427 | column by column: each row of a grouped table holds the cells of its group's first row and then, in the order of the aggregators, their folds over the source rows with equal cells; rows ascend by their cells, and every source row has one |
| GroupTables.BuilderTable | src/nkit/dynamic.h:954-964 | the builder's next result is that table for the rows fed, whatever results were taken in between |
| GroupSpec.BuilderConserves | src/dynamic/dynamic_table.cpp:351-356 | over any such run every string's count stays its outside handles plus its cells |
| Grouping.GroupIndex.FillKey | src/dynamic/dynamic_table.cpp:339-349 | the key holds the row's items in the grouping columns |
| Grouping.GroupIndex.UpdateGroup | src/dynamic/dynamic_table.cpp:315-333 | true exactly for a new key; the map is the fed map |
| Grouping.GroupIndex.UpdateIndex | src/dynamic/dynamic_table.cpp:336-359 | map, grouped table and counts are those after feeding the row |
| Grouping.GroupIndex.UpdateFromTable | src/dynamic/dynamic_table.cpp:361-377 | only the map is fed |
| Grouping.GroupIndex.BuildFrom | src/dynamic/dynamic_table.cpp:380-403 | the grouped table of the source: one row per combination of cells that occurs in the grouping columns, in their order, the first row's cells and then each aggregate folded over the rows with those cells; each string acquired |
| Grouping.GroupIndex.CollectGroups | src/dynamic/dynamic_table.cpp:386-391 | the loop over the source feeds all its rows in order |
| Grouping.GroupIndex.FillTable | src/dynamic/dynamic_table.cpp:393-400 | the loop over the map appends its rows in key order |
| Grouping.GroupIndex.Build | src/dynamic/dynamic_table.cpp:405-417 | the grouped table becomes the rows of the map in key order; nothing else changes |
| Grouping.GroupIndex.OverwriteRows | src/dynamic/dynamic_table.cpp:409-414 | the loop overwrites every row |
| Grouping.GroupIndex.MakeRow | src/dynamic/dynamic_table.cpp:419-426 | the cells of the key, in order, then the results, in order |
| Grouping.GroupedTableBuilder.Validate | src/dynamic/dynamic_table.cpp:864-884 | accepts exactly a non-empty argument list whose types equal those of the columns it reaches, and then holds the arguments' cells |
| Grouping.GroupedTableBuilder.InsertRow | src/nkit/dynamic.h:954-959 | an accepted row is fed once; a refused one leaves the index as it was |
| Grouping.GroupedTableBuilder.GetResult | src/nkit/dynamic.h:961-964 | the result is the grouped table of everything accepted so far, row by row and cell by cell, as for BuildFrom |
| Utf.Ucs4ToUtf8 | src/encoding/transcode.cpp:281-348 | encodes exactly the values below 2^31, in one to six bytes |
| Utf.SizeOfEncoding | src/encoding/transcode.cpp:471-494 | the size read off the first byte is the number of bytes written |
| Utf.DecodeEncode | src/encoding/transcode.cpp:372-450 | decoding inverts encoding for all 0 < x < 2^31, whatever follows |
| Utf.ZeroDoesNotDecode | src/encoding/transcode.cpp:378 | zero is written but not read back |
| Utf.DecodedSymbol | src/encoding/transcode.cpp:372-450 | what decodes lies within the size of its first byte and has an encoding no longer than it; the same length means the same bytes |
| Utf.PrefixFree | src/encoding/transcode.cpp:281-348 | no encoding is a prefix of another |
| Utf.EncodeOrder | src/encoding/transcode.cpp:281-348 | encodings are ordered bytewise as the code points are (section 2 of RFC 2279) |
| Utf.Utf16RoundTrip | src/encoding/transcode.cpp:351-369 | UTF-16 inverts exactly outside 0xD800 to 0xDBFF, 0xFFFE, 0xFFFF and above 0x10FFFF (sections 2.1 and 2.2 of RFC 2781) |
| Utf.Utf16Order | src/encoding/transcode.cpp:351-369 | a value of 16 bits is its own unit, a greater one a high and a low surrogate, and pairs are ordered as their values are (section 2.1 of RFC 2781) |
| Utf.Utf16Canonical | src/encoding/transcode.cpp:246-278 | units that decode are written again as the same units |
| Transcode.Transcoder.constructor | src/encoding/transcode.cpp:84-91 | the 256-way table is the inverse of the code page in which the last byte of a unit wins |
| Transcode.Transcoder.AddMapping | src/encoding/transcode.cpp:228-232 | one unit is remapped and no other, although units share table slots |
| Transcode.Transcoder.GetChar | src/encoding/transcode.cpp:234-243 | the greatest byte that maps to the unit, or nothing when none does |
| Transcode.Transcoder.ToUtf8 | src/encoding/transcode.cpp:209-225 | succeeds exactly when every byte's unit converts, and concatenates the encodings |
| Transcode.Transcoder.FromUtf8Symbol | src/encoding/transcode.cpp:153-169 | one symbol: its size and the byte of its unit, or a refusal |
| Transcode.Transcoder.FromUtf8 | src/encoding/transcode.cpp:191-201 | the loop terminates and converts symbol by symbol, or refuses |
| Transcode.CodePageRoundTrip | src/encoding/transcode.cpp:191-225 | a string comes back from UTF-8 if and only if each of its bytes maps to a non-zero unit that converts and that no higher byte has |
| Transcode.Utf8RoundTrip | src/encoding/transcode.cpp:191-225 | accepted UTF-8 comes back if and only if it is in shortest form, for a code page without high surrogates |
| Transcode.OverlongLost | src/encoding/transcode.cpp:191-225 | the two bytes C1 81 are accepted and come back as one |
| Transcode.SharedUnitLost | src/encoding/transcode.cpp:228-232 | a byte whose unit a higher byte has too comes back as that byte |
| Numbers.ParseIntegerLiteral | src/dynamic/dynamic_json.cpp:184-217 | an integer literal becomes a signed value if and only if it lies in -2^63 to 2^63 - 1, and exactly that value; what the other literals become |
| Numbers.NegativeBecomesUnsigned | src/dynamic/dynamic_json.cpp:209-217 | the literal one below the signed range becomes 2^63 - 1, unsigned |
| Numbers.ParseExponentLiteral | src/dynamic/dynamic_json.cpp:198-207 | a literal of at most 18 characters without sign, with an exponent and no fraction, becomes the integer of its leading digits |
| Numbers.ParseLongExponent | src/dynamic/dynamic_json.cpp:198-217 | a longer one becomes that integer if it has 19 characters and is, as text, not after the limit of its sign, and otherwise the floating value of its text |
| Numbers.FractionIsDouble | src/dynamic/dynamic_json.cpp:196-201 | a literal with a fraction becomes the floating value of its whole text, whatever its length |
| Numbers.ExponentExact | src/dynamic/dynamic_json.cpp:198-207 | that integer is the literal's own value if and only if the mantissa or the exponent is zero |
| Numbers.ExponentLost | src/dynamic/dynamic_json.cpp:198-207 | 1e5 becomes 1 |
| Numbers.ErangeStays | src/dynamic/dynamic_json.cpp:213 | in a run of literals, ERANGE is found exactly when it was there at the start or an earlier literal raised it |
| Numbers.UnsignedInRun | src/dynamic/dynamic_json.cpp:209-217 | a literal of a run becomes unsigned if and only if its value calls for it and ERANGE was neither there nor raised before; otherwise it becomes floating |
| Numbers.ErangeSpoilsNext | src/dynamic/dynamic_json.cpp:213 | 2^63 is unsigned on its own, and floating after a literal of twenty nines |
| Numbers.CompareDigits | src/dynamic/dynamic_json.cpp:202-204 | comparing digit strings of one length as text compares their values |
| Numbers.Boundaries | src/dynamic/dynamic_json.cpp:35-43 | the boundary texts write the limits of 64 signed bits |
| Json.StoreFills | src/dynamic/dynamic_json.cpp:135-155 | where a value is expected, a scalar handler puts it in the slot of the key or at the end of the list, and nowhere else |
| Json.StartFills | src/dynamic/dynamic_json.cpp:242-263 | a started container is empty, sits in that slot and becomes the one being filled |
| Json.EndFills | src/dynamic/dynamic_json.cpp:271-282 | after an end event the enclosing container is filled on, with its own kind and with the finished child in place |
| Json.KeyFills | src/dynamic/dynamic_json.cpp:265-269 | a key makes its slot the current one and leaves the value of a repeated key until it is overwritten |
| Json.RunValue | src/dynamic/dynamic_json.cpp:135-318 | the events of any tree, run where a value is expected, store exactly its value and restore the stack |
| Json.RunBefore | src/dynamic/dynamic_json.cpp:135-318 | after the first n items or members the container holds exactly those |
| Json.RunDocument | src/dynamic/dynamic_json.cpp:135-318 | a whole document gives exactly its value with an empty stack if and only if its root is an array or an object; another root is refused |
| Json.KeysKept | src/dynamic/dynamic_json.cpp:265-269 | the keys of the result are exactly those of the members |
| Json.LastMemberCounts | src/dynamic/dynamic_json.cpp:265-269 | of several members with one key the last one's value is kept |
| Json.Rebuilds | src/dynamic/dynamic_json.cpp:135-318 | a document that writes a value with distinct keys, in any order, is rebuilt as that value |
| Json.PathStep | src/dynamic/dynamic_json.cpp:242-269 | writing through a pointer to a slot changes that slot of its container and nothing else |
| Json.DynamicConstructor.constructor | src/dynamic/dynamic_json.cpp:55-60 | the initial state: the root is the container and its kind is undefined |
| Json.DynamicConstructor.OnNull | src/dynamic/dynamic_json.cpp:135-144 | refines the scalar handler |
| Json.DynamicConstructor.OnBoolean | src/dynamic/dynamic_json.cpp:146-155 | the same; any non-zero value is true |
| Json.DynamicConstructor.OnNumber | src/dynamic/dynamic_json.cpp:220-229 | the same with the number classified by what `errno` holds, which is updated |
| Json.DynamicConstructor.OnString | src/dynamic/dynamic_json.cpp:231-240 | the same with the text |
| Json.DynamicConstructor.OnStartMap | src/dynamic/dynamic_json.cpp:242-263 | refines the start of a map |
| Json.DynamicConstructor.OnStartArray | src/dynamic/dynamic_json.cpp:284-305 | refines the start of an array |
| Json.DynamicConstructor.OnMapKey | src/dynamic/dynamic_json.cpp:265-269 | refines the key handler |
| Json.DynamicConstructor.EndContainer | src/dynamic/dynamic_json.cpp:271-282 | refines the end handlers, which have one body |
| Json.DynamicConstructor.Feed | src/dynamic/dynamic_json.cpp:343-354 | the handlers called in turn, numbers classified in turn, until one refuses, end in the state of the run |
| Json.DynamicConstructor.Dispatch | src/dynamic/dynamic_json.cpp:329-341 | each event goes to its handler |
| Json.DynamicFromDocument | src/dynamic/dynamic_json.cpp:343-373 | a document with an array or object root yields its value, another an undefined value |
| Csv.CsvPrinter.OutputCsv | 3rd/sqlite3/shell.c:656-689 | appends the field, quoted with doubled quotes when it must be, and the separator if asked |
| Csv.CsvPrinter.OutputRow | 3rd/sqlite3/shell.c:856-859 | appends the fields of a row, separated, and a line feed |
| Csv.PrintedPlain | 3rd/sqlite3/shell.c:632-672 | a field is printed without quotes if and only if it is not empty and has only visible ASCII characters other than the two quotes and the separator |
| Csv.CsvReader.ReadQuotedText | 3rd/sqlite3/shell.c:1847-1882 | the two-character look-back loop refines the quoted reader; every line feed consumed is counted |
| Csv.CsvReader.RemoveQuote | 3rd/sqlite3/shell.c:1865 | the buffer is cut before its last quote |
| Csv.CsvReader.ReadPlainText | 3rd/sqlite3/shell.c:1883-1893 | the unquoted loop refines the plain reader |
| Csv.CsvReader.ReadOneField | 3rd/sqlite3/shell.c:1838-1896 | returns the field, or null at the end of the input or before a buffer exists; counts lines and error messages |
| Csv.FieldBack | 3rd/sqlite3/shell.c:1838-1896 | a printed field before a line feed, a CR LF or the end of the input reads back as itself with that terminator and no error, for every separator that does not take the line end apart |
| Csv.SeparatedFieldBack | 3rd/sqlite3/shell.c:1838-1896 | before a separator it does so if and only if the separator is below 128 and not a quote after a quoted field (section 2 of RFC 4180) |
| Csv.CrLfFieldBack | 3rd/sqlite3/shell.c:1860-1893 | a printed field before CR LF reads back as itself, without the CR, ended by the line feed and with no error, if and only if CR is not the separator (section 2 of RFC 4180) |
| Csv.LoneCR | 3rd/sqlite3/shell.c:1889-1892 | a line of a CR alone keeps it |
| Csv.UnterminatedField | 3rd/sqlite3/shell.c:1872-1877 | quoted content that is never closed is read to the end of the input, with doubled quotes made single, and reported once |
| Csv.NeverSeparator | 3rd/sqlite3/shell.c:2169 | with a separator of 128 or more every field ends at a line feed or the end of the input |
| Csv.CsvReader.BindRow | 3rd/sqlite3/shell.c:2242-2253 | the loop over the columns refines the row reader |
| Csv.CsvReader.SkipFields | 3rd/sqlite3/shell.c:2254-2262 | extra fields are skipped up to one that does not end at the separator |
| Csv.CsvReader.Import | 3rd/sqlite3/shell.c:2240-2271 | terminates and inserts exactly the rows that the import function names |
| Csv.RowsBack | 3rd/sqlite3/shell.c:2240-2271 | printed rows, with either line end, are imported unchanged, whatever was bound before |
| Csv.RowImported | 3rd/sqlite3/shell.c:2242-2262 | a printed row of any number of fields binds its fields up to the columns; of too few, the last field and the missing ones become NULL and the last column keeps its old value |
| Csv.RowsImported | 3rd/sqlite3/shell.c:2240-2271 | printed rows of any widths, with either line end, are imported one for one in that way |
| Csv.BoundRowPadded | 3rd/sqlite3/shell.c:2246-2252 | a row comes out as its fields padded with NULL if and only if it has all its columns |
| Csv.RaggedRowsExact | 3rd/sqlite3/shell.c:2240-2271 | printed rows are imported without extra fields and padded with NULL if and only if no row is short |
| Csv.ShortRowLosesField | 3rd/sqlite3/shell.c:2246-2252 | two of four fields after a full row: the second is lost and the fourth column keeps the old value |
| Csv.RowsRoundTrip | 3rd/sqlite3/shell.c:2240-2271 | printed rows of several columns, with lines ended by LF or by CR LF, are imported unchanged if and only if the separator is below 128 |
| Csv.CrSeparatedRows | 3rd/sqlite3/shell.c:2240-2271 | rows ended by CR LF with CR for a separator are imported unchanged too: it begins an extra field that is skipped |
| Csv.HighSeparatorLost | 3rd/sqlite3/shell.c:2240-2271 | a concrete row of two letters that is not imported as printed with the separator 200 |
| Csv.ImportLosesFirst | 3rd/sqlite3/shell.c:2246-2252 | otherwise every imported row has NULL in its first column |
| Csv.ImportTerminates | 3rd/sqlite3/shell.c:2240-2271 | the import of any input ends if and only if the separator is not 255, and then inserts the rows of the import function |
| Csv.ImportNeverEnds | 3rd/sqlite3/shell.c:2254-2258 | with 255 the loop over extra fields is reached and never left, for every input |
| Quoting.OutputCString | 3rd/sqlite3/shell.c:566-592 | writes the quoted text of the string |
| Quoting.OutputChar | 3rd/sqlite3/shell.c:569-590 | writes the escape of one character |
| Quoting.PrintedVisible | 3rd/sqlite3/shell.c:566-592 | printed text is visible ASCII and spaces |
| Quoting.PrintedPlain | 3rd/sqlite3/shell.c:566-592 | it is the text itself if and only if that is such text without double quotes and backslashes |
| Quoting.PrintedControls | 3rd/sqlite3/shell.c:574-583 | a tab, a line feed and a CR are printed as a backslash with t, n and r |
| Quoting.EscapeBack | 3rd/sqlite3/shell.c:1641-1670 | an escaped character resolves to itself and takes exactly its escape, whatever follows |
| Quoting.ResolveBack | 3rd/sqlite3/shell.c:1641-1670 | unescaping inverts escaping |
| Quoting.OctalEscape | 3rd/sqlite3/shell.c:1652-1664 | a backslash with one, two or three octal digits, as many as there are up to three, is the byte of the number they write, modulo 256 |
| Quoting.OtherEscape | 3rd/sqlite3/shell.c:1646-1651 | before any other character a backslash gives that character, but a line feed, tab and CR for n, t and r |
| Quoting.QuoteEndBack | 3rd/sqlite3/shell.c:1919-1922 | the scan stops at the closing quote of printed text and at none inside it |
| Quoting.QuotedArgument | 3rd/sqlite3/shell.c:1913-1933 | printed text in a line, after any white space, is one argument with the value printed |
| Quoting.LineBack | 3rd/sqlite3/shell.c:1913-1933 | a line of printed strings has exactly those strings as its arguments |
| Quoting.CommandBack | 3rd/sqlite3/shell.c:1913-1933 | a command name followed by printed strings has exactly the name and those strings as its arguments |
| Quoting.WordsApart | 3rd/sqlite3/shell.c:1914-1931 | a byte between two words makes them two arguments if and only if it is a space or one of the codes 9 to 13 |
| Quoting.SingleQuoted | 3rd/sqlite3/shell.c:1916-1926 | text in single quotes is one argument as it stands, backslashes and double quotes included |
| Quoting.ResolveExact | 3rd/sqlite3/shell.c:1641-1670 | a string has a backslash that escapes nothing if and only if it ends in an odd number of backslashes |
| Quoting.ArgsExact | 3rd/sqlite3/shell.c:1911-1933 | a line has such an argument if and only if one of its arguments, not in single quotes, ends in an odd number of backslashes |
| Tokenizer.ReadPiece | 3rd/sqlite3/shell.c:1644-1665 | reads one escape, with one to three octal digits, and a zero behind a backslash as well |
| Tokenizer.ResolveBackslashes | 3rd/sqlite3/shell.c:1641-1670 | on any buffer that it does not leave, the in-place loop leaves the buffer that the function names; the write index never passes the read index |
| Tokenizer.ResolveRuns | 3rd/sqlite3/shell.c:1641-1670 | a string without a left-over backslash is resolved in place and nothing else changes; otherwise the loop takes the terminator for an escaped character and goes on behind it |
| Tokenizer.InsideExact | 3rd/sqlite3/shell.c:1641-1670 | on a buffer that ends with the terminator the code stays inside if and only if the string ends in an even number of backslashes |
| Tokenizer.SkipSpacesFrom | 3rd/sqlite3/shell.c:1914 | stops at the first byte that is not white space |
| Tokenizer.FindQuote | 3rd/sqlite3/shell.c:1919-1922 | stops at the unescaped delimiter or at a zero |
| Tokenizer.FindSpace | 3rd/sqlite3/shell.c:1929 | stops at white space or at a zero |
| Tokenizer.TakeArgument | 3rd/sqlite3/shell.c:1916-1932 | the argument is cut out and unescaped as the buffer function says |
| Tokenizer.TakeBack | 3rd/sqlite3/shell.c:1916-1932 | an argument with a value is taken with it, and the rest of the line is untouched |
| Tokenizer.Tokenize | 3rd/sqlite3/shell.c:1911-1933 | on any buffer that it does not leave, the loop returns the pointers and leaves the buffer that the function names |
| Tokenizer.TokensBack | 3rd/sqlite3/shell.c:1911-1933 | when all arguments of a line have values, the pointers point at exactly those, in order |
| Tokenizer.LineTokens | 3rd/sqlite3/shell.c:1911-1933 | so it is for every line none of whose arguments ends in a left-over backslash |
| Tokenizer.CommandTokens | 3rd/sqlite3/shell.c:1911-1933 | a command with printed strings, tokenized in its buffer, yields its name and exactly those strings |
| Tokenizer.LeftoverBackslash | 3rd/sqlite3/shell.c:1928-1932 | a concrete line of three words of which the second ends in a backslash: two are found and the third is zeroed |

## Left out

- Table.SharedTable.SetCellValue: needs row and column both in range or both out of it; the guard joins its two tests with `&&` (src/dynamic/dynamic_table.cpp:778), so a mixed call reads outside the row.
- Table.TableIndex.NotifyRowDelete: needs the row to be in the index, as the assertions in src/dynamic/dynamic_table.cpp:1036-1040 do.
- Table.SharedTable.DeleteRow: needs the row to be found in every index, for those assertions; agreement implies it (`IndexSpec.UnlinkAgrees`).
- Table.SharedTable.SetRow: the same; and, as for AppendRow and InsertRow, the caller holds the strings it passes in during the call.
- Grouping.GroupedTableBuilder.InsertRow: full-width rows only; with a short one the cells of the previous call stay (src/dynamic/dynamic_table.cpp:873-881).
- Table.TableIndex.Create: at most 63 columns, the size of a key (src/nkit/dynamic.h:136); the comparator alone would accept 66.
- Table.SharedTable.CreateIndex: the same.
- Iteration.GetLower: like GetGrater, GetEqual, GetLowerOrEqual and GetGraterOrEqual, needs arguments of the types of the indexed columns (`ArgsFit`). The code takes any types unconverted and would read the wrong member of the key union.
- Aggregates.MinMeans: like MaxMeans and the keys, FLOAT is the type `real`, so NaN, signed zero and rounding are not modelled.
- Aggregates.SumMeans: FLOAT sums are over `real`, so their rounding is not modelled. INTEGER sums wrap; in C++ the overflow of a signed addition (src/nkit/dynamic/impl_integer.h:155-158) is undefined, and wrapping is assumed.
- Json.DynamicConstructor.OnNumber: a floating value is represented by its literal, whether `strtod` finds it out of range is given with the call, and a literal is shorter than the buffer of 1024.
- Csv.CsvReader.Import: the method needs a separator other than 255, for which the program does not end (`ImportTerminates` proves it on `ImportWithin`); the interrupt flag, database errors and the progress messages are not modelled.
- Csv.CsvReader.SkipFields: the same.
- Csv.RowsRoundTrip: a separator that is a quote or a line feed is excluded, since a row then does not end where it should, and so is the empty one (zero), which the import refuses.
- Tokenizer.ResolveBackslashes: like ReadPiece, FindQuote, FindSpace, SkipSpacesFrom, TakeArgument and Tokenize, needs the buffer not to be left (the function has a value); a read outside a buffer has no meaning to model.
- Raw string pointers inside the keys of a `TableIndex`: in the index those keys are modelled by the texts they compare by, so a lookup never sees the freed string of `KeyStringFreed`; `KeyStrings` follows the pointers beside the index. Grouped keys and cells do carry pointers, and a pointer is never reused for another string.
- Table.SharedTable.AppendRowUnsafe: full-width rows only, as its callers pass them; the code fills short ones with defaults (src/dynamic/dynamic_table.cpp:911-914).
- Changes of a string's text through a handle that a caller keeps (src/nkit/dynamic/impl_string.h:290-300): texts are immutable here, while in the program such a change can alter an indexed cell without any notification.
- `std::map`, `std::lower_bound` and `std::stable_sort` are modelled by their algorithms or their results, not by their library code; the order in which indexes in a set are notified is their subscription order.
- A `Dynamic *` into the JSON tree is a path from the root; reallocation of list storage is not modelled.
- The `Operation` dispatch arrays, storage blocks and reference counting of tables as values.
- Parsing of table, index and aggregate definitions: column numbers, signs and aggregators are given.
- `DeleteRow(set)`, a stub; `SetIndexSet`; column names.
- The byte counts that `utf8_to_ucs4` reports for five and six byte sequences are modelled but nothing is proved about them.
- `FromUtf8` with a callback, `Transcode` between two code pages, and the lookup of a transcoder by name.
- The yajl parser, the JSON printers and `DynamicPath`.
- Loggers, sockets, files, clocks, XML and the rest of the shell.
