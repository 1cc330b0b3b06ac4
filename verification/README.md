# An id index over a CSV file, verified

This project models an SQL processor that stores every table in a CSV file and
answers `WHERE id = n` through an in-memory B+ tree. Ids are stored nowhere: the id
of a row is its ordinal among the non-blank data lines, and the tree maps it to the
byte offset of that line. The tree is a cache. It is built lazily by scanning the
file, kept up to date by INSERT, and thrown away whenever something goes wrong. What
has to hold is that this cache never lies about the file, whatever happened before,
and that text which goes in as SQL comes out again as the same rows.

## How it is organised

| file | part of the system |
|---|---|
| `BTreeModel.dfy`, `BTreeLaws.dfy`, `BTreeHeights.dfy` | the B+ tree as a value: insertion with splits, search, shape, map and height laws |
| `BPlusTree.dfy` | the tree on the heap: nodes with arrays shifted and split in place, `next` links, growing root |
| `Text.dfy`, `CsvCodec.dfy`, `CsvGrammar.dfy`, `CsvFile.dfy` | C string helpers, CSV quoting and parsing, the grammar of lines, the file as bytes cut into lines by `fgets` |
| `IndexSpec.dfy`, `TableIndexes.dfy` | what a table's index should be, and the entries and registry on the heap |
| `Ast.dfy`, `RowBuilder.dfy`, `Query.dfy` | statements, building the row of an INSERT, the two ways to answer a SELECT |
| `Engine.dfy`, `EngineLaws.dfy`, `RunLaws.dfy`, `Executor.dfy` | the executor as a state machine, the laws of its steps and of its runs, the executor on the heap |
| `InsertLaws.dfy`, `SelectLaws.dfy` | which INSERTs are accepted and what they store, what a SELECT answers, and what either is refused with |
| `SqlLexer.dfy`, `SqlLayout.dfy`, `SqlParser.dfy`, `SqlRoundTrip.dfy`, `SqlComplaints.dfy` | lexer and parser, what they accept, printing and reading back, what they complain about and where |
| `EndToEnd.dfy` | SQL text in, rows out |

Code that changes things step by step is written that way: classes for tree nodes,
trees, index entries, the registry, the lexer, the parser and the database, and loops
over strings, lists and arrays. Each such method is proved equal to a function of its
input or old state, and the laws are proved about those functions. Three chains of
refinement carry the results: `BPlusTree.BPlusTree` to `BTreeModel` to a finite map;
`TableIndexes.Registry` and `Executor.Database` to the state machine of `Engine`; the
incrementally grown tree to the tree of a fresh scan.

## What the model takes for granted

- One `char` is one byte, and a C string holds no NUL. A file may hold NUL bytes: what
  `fgets` leaves in the buffer is then read up to the first one (`CsvFile.UpToNul`).
- Ids, offsets and counts are unbounded, which is right as long as a table has fewer
  than INT_MAX rows and a file fits `long`. `parse_int_strict` does keep the `int` range.
- Allocation may fail at any point. For each statement a `Supply` says how many tree
  nodes, and how many escaped fields of the appended row, are allocated before an
  allocation fails, and at which stage memory for anything else runs out, if it does:
  at the start, for a new registry entry, in the scan of a rebuild, or behind it. A
  statement gives up at its first failure, so this covers every pattern of failure.
  That these are the stages, and that from the first byte written on an INSERT allocates
  nothing but escaped fields and tree nodes, is read off the code;
  `EngineLaws.HaltsWriteNothing` then shows what a failure at a stage leaves behind.
- Error texts are kept as categories, except in the two parsers: for CSV lines the text,
  for statements what was expected at which token.
- A loaded schema is an input: at least one column, none of them called `id`.
- Where the C code writes several loops in one function, the loops are methods of
  their own. Lists grow by value; only the registry is an array that is copied when
  its capacity doubles.

## Where the promise and the code part

- A row longer than 4095 bytes is cut by the line buffer when it is read again. So
  appending commutes with scanning, and INSERT keeps cache and file in agreement, if
  and only if the encoded row fits (`CsvFile.AppendThenScan`,
  `EngineLaws.InsertKeepsAgreement`); `CsvFile.LongRowIsCut` gives a file and a row that
  does not, and `EngineLaws.LongInsertLosesAgreement` an INSERT.
- `execute_insert` invalidates the index when the registration fails, but not when
  `append_row_csv` runs out of memory in mid-row. What was written stays in the file and
  the loaded index does not know it. Cache and file then agree if and only if no field
  had been written yet (`CsvFile.CutAppendScans`, `EngineLaws.InsertKeepsAgreement`);
  `EngineLaws.CutInsertLosesAgreement` shows the INSERT of a two-column row that loses
  agreement, and `EngineLaws.AgreementIsRestored` what regains it.
- Over a whole run both kinds of unfit INSERT matter only until the entry of the table is
  next unloaded, and only to that table: `RunLaws.AgreementLaw` is the exact law. Ids that
  were there are never answered wrongly, whatever is inserted later (`RunLaws.IdsEndure`);
  but a later row can make the file fail to scan, and then, once the index is unloaded,
  they are not answered at all (`RunLaws.LookUpCanFail`).
- `execute_select` allocates `selected_indexes` with one slot per schema column, but
  writes one for each name of the SELECT list. It stays inside if and only if all columns
  are selected, or the list is no longer than the schema, or one of its first
  |schema| + 1 names is unknown (`Query.SlotsSuffice`); `SELECT id, name` on a table whose
  only column is `name` writes a second slot (`Query.TooManySlots`).
- `lex_string` means to refuse unclosed literals but looks only at the last byte, so a
  lone quote is an empty literal (`SqlLayout.UnclosedLiteralsAreRead`).
  `SqlLayout.AcceptsExactly` says exactly which texts get through, and
  `SqlRoundTrip.ReadsExactlyWhatIsWritten` shows that no statement is ever affected,
  because a statement must end in a semicolon.
- Unquoted CSV fields are trimmed on reading, so a row comes back in a normal form:
  exactly, when each value is trimmed already or needs quotes.
- The diagrams of the repository show leaves with one key; in the code no leaf but the
  root has fewer than two.

## Model

| member | source | states |
|---|---|---|
| `BTreeLaws.PutKeeps` | src/index/bptree.c:139-297 | insertion below any balanced node, in any key order: a duplicate is reported exactly when the key is there; otherwise the one or two resulting subtrees have the old height, 1 to 3 keys per node (leaves at least 2 after a split), every separator the smallest key to its right, and together the old pairs with the new one in its sorted place |
| `BTreeLaws.InsertRefinesMap` | src/index/bptree.c:333-376 | on any B+ tree a fresh key adds exactly its binding, through every cascade of splits up to a new root, and a present key is rejected; the result is a B+ tree again |
| `BTreeLaws.LookupIsMapGet` | src/index/bptree.c:385-407 | the search path finds exactly what the map of all pairs holds, found or not |
| `BTreeLaws.EveryRunRefinesMap` | src/index/bptree.c:333-407 | after any sequence of insertions, duplicates included, a search for any key answers what the first binding of that key says |
| `BTreeLaws.InsertCountsNodes` | src/index/bptree.c:202-205 | an insertion allocates exactly as many nodes as the tree gains |
| `BTreeHeights.HeightBounds` | src/index/bptree.c:22-22 | a balanced tree of height h >= 1 over n keys has 2^(h+1) <= n <= 3 * 4^h, for every key order |
| `BTreeHeights.AscendingPut` | src/index/bptree.c:202-296 | inserting a key larger than all others keeps every node off the right spine at exactly 2 keys (3 children), whatever splits |
| `BTreeHeights.ExactHeight` | src/index/bptree.c:202-296 | a tree packed in that way has 3^h < n <= 3^(h+1) |
| `BTreeHeights.VisitsOnePerLevel` | src/index/bptree.c:389-391 | a search in a balanced tree visits exactly one node per level |
| `IndexSpec.IndexLookupCost` | src/index/table_index.c:105-116 | the index over n >= 2 rows has the height h with 3^h < n <= 3^(h+1), and every look-up visits h + 1 nodes: the ceiling of log3 n |
| `BPlusTree.Node.FindChildIndex` | src/index/bptree.c:139-147 | the loop returns the number of keys not larger than the key sought |
| `BPlusTree.Node.MakeRoomInLeaf` | src/index/bptree.c:188-195 | the shifting loops leave the old pairs with the new one inserted at its place |
| `BPlusTree.Node.SplitLeaf` | src/index/bptree.c:202-224 | four pairs become two valid leaves of two, linked in the chain, or the allocation failed and nothing is promised of the node |
| `BPlusTree.Node.InsertIntoLeaf` | src/index/bptree.c:173-225 | a duplicate changes nothing; otherwise, memory permitting, the leaf becomes what the value model says and the chain gains at most one leaf, right behind this one |
| `BPlusTree.Node.CutBranch` | src/index/bptree.c:282-295 | two keys and three children stay, the middle key is handed up, the last key and two children move |
| `BPlusTree.Node.AbsorbSplit` | src/index/bptree.c:256-296 | a branch that takes in the right half of a split child, and may split in turn, represents the subtrees of the value model and owns only what it owned before and new nodes |
| `BPlusTree.Node.InsertIntoInternal` | src/index/bptree.c:237-297 | the same contract as for leaves, through the recursive descent: only objects below the chosen child, this node and new objects change |
| `BPlusTree.BPlusTree.Insert` | src/index/bptree.c:333-376 | duplicates leave every object as it was; failure spoils at most this tree; success yields the tree of the value model, and the map gains exactly the new binding |
| `BPlusTree.BPlusTree.Search` | src/index/bptree.c:385-407 | the loop over the heap returns the map's answer after visiting as many nodes as the value model says |
| `BPlusTree.LeafPairsAreEntries` | src/index/bptree.c:208-219 | the arrays of the leaves in chain order hold exactly the pairs of the tree |
| `BPlusTree.ChainVisitsEveryLeaf` | src/index/bptree.c:215-219 | following `next` from the leftmost leaf meets every leaf once, in order, the last one links to nothing, and the pairs met are the sorted pairs of the map |
| `Text.TrimWhitespace` | src/common/util.c:149-174 | the two index loops compute the text without its outer white space |
| `Text.TrimCuts` | src/common/util.c:149-174 | what is cut off at either end is white space and nothing else |
| `Text.TrimmedEnds` | src/common/util.c:149-174 | what is left begins and ends with a visible character, and is empty exactly when the text is all white space |
| `Text.TrimIdempotent` | src/common/util.c:149-174 | trimming twice is trimming once |
| `Text.StripLineEndings` | src/common/util.c:177-193 | trailing CR and LF are removed, and nothing else |
| `Text.IndexOf` | src/common/util.c:232-245 | the first position of the value, or -1 exactly when it does not occur |
| `Text.StringsEqualIgnoreCase` | src/common/util.c:118-146 | equality of length and of every letter up to case |
| `Text.IgnoringCaseMeans` | src/common/util.c:118-146 | the same texts but for case are those that agree letter by letter, in the 26 letters written out, and exactly elsewhere |
| `Text.CharacterClasses` | src/common/util.c:149-193 | white space is the six characters of section 7.4.1.10 of ISO/IEC 9899:2011; digits and line ends, one by one |
| `Text.ParsesExactly` | src/common/util.c:286-306 | a text is read as n if and only if it is white space, a sign or none, zeros and the printed magnitude of n, with n from -2147483648 to 2147483647; every other text is refused |
| `Text.DecimalReadBack` | src/common/util.c:286-306 | a printed integer is read back as itself if it fits an `int`, and refused otherwise |
| `Text.DecimalForm` | src/execution/executor.c:374-385 | a printed integer is a minus sign or none and digits without a leading zero |
| `CsvCodec.CsvEscapeField` | src/storage/storage.c:168-208 | the two loops write the field, quoted with doubled quotes exactly when it is empty or holds a quote, comma, CR or LF |
| `CsvCodec.EscapeForm` | src/storage/storage.c:168-208 | a field is written as it is exactly when it is not empty and holds no quote, comma, CR or LF, and quoted otherwise |
| `CsvCodec.CsvParseLine` | src/storage/storage.c:66-165 | the cursor loop with its two flags computes the fields or the complaint of the parsing function |
| `CsvGrammar.ParsesByGrammar` | src/storage/storage.c:66-165 | any line, whoever wrote it: it is read as fields if and only if it is a comma-join of spellings of them - text that does not begin with a quote, trimmed, inner quotes kept, or a quoted doubled value and the blanks behind it; it is unterminated exactly when it ends in an open quote, and refused for an unexpected character exactly when something else stands behind a closing quote |
| `CsvCodec.RowRoundTrip` | src/storage/storage.c:66-208 | parsing an encoded non-empty row gives as many fields, each the normal form of the original |
| `CsvCodec.NormIdempotent` | src/storage/storage.c:66-165 | the normal form is its own normal form |
| `CsvCodec.NormIsExact` | src/storage/storage.c:66-165 | the round trip is exact for a value if and only if it needs quotes or has no outer white space |
| `CsvFile.AppendRow` | src/storage/storage.c:219-311 | the file gains a newline if its last line has none, then the encoded row, and the reported offset is where the row starts; when memory runs out behind k fields, failure is reported and exactly those k fields are in the file |
| `CsvFile.AppendStartsLine` | src/storage/storage.c:249-277 | the new row starts a line of its own, and a newline is put in front of it only if it is needed for that |
| `CsvFile.ScanAfterAppend` | src/storage/storage.c:356-410 | scanning an extended file gives the old scan followed by the scan of the extension, wherever the scan started |
| `CsvFile.AppendThenScan` | src/storage/storage.c:219-410 | for any file that scans and any row: the appended file scans to the old list and one entry, the normal form at the reported offset, if and only if the encoding is at most 4095 bytes |
| `CsvFile.LongRowMiscounts` | src/storage/storage.c:356-410 | a longer row makes the file fail to scan or count as more than one row |
| `CsvFile.LongRowIsCut` | src/storage/storage.c:356-410 | a one-column file and a value of 4096 bytes for which appending and scanning do not commute |
| `CsvFile.CutAppendScans` | src/storage/storage.c:279-304 | after an append that memory cuts off behind k fields the file scans to what it scanned to before if and only if k is 0; otherwise it fails to scan or has more rows |
| `CsvFile.LongCommasBreakScan` | src/storage/storage.c:356-410 | a quoted value whose closing quote lies behind the line buffer makes any file it is appended to fail to scan |
| `CsvFile.AppendKeepsRows` | src/storage/storage.c:219-410 | whatever is appended to whatever file, of any length, earlier rows and offsets stay |
| `CsvFile.OffsetsLeadToRows` | src/storage/storage.c:314-350 | reading at the offset of a scanned row returns that row, even where lines overrun the buffer |
| `CsvFile.OffsetsIncrease` | src/storage/storage.c:356-410 | offsets of rows strictly increase |
| `IndexSpec.GrowGivesTreeOf` | src/index/table_index.c:105-155 | inserting scanned rows one by one succeeds exactly when all nodes of the final tree can be allocated, from any intermediate row on |
| `IndexSpec.RebuildGivesLoaded` | src/index/table_index.c:124-159 | loading an entry fails for lack of file, memory or a parsable line, in that order of precedence, and otherwise gives the tree of all rows with next id N + 1 |
| `IndexSpec.RegisterNextRow` | src/index/table_index.c:209-235 | registering the next row gives, node for node, the entry that a rebuild of the longer file would give, for exactly the allocations the larger tree needs |
| `TableIndexes.TableIndex.RebuildIndex` | src/index/table_index.c:137-156 | the scanning loop with its callback computes the specified entry, and unloads on every failure |
| `TableIndexes.TableIndex.Register` | src/index/table_index.c:224-234 | the entry changes as specified; after a failed insertion it stays loaded with a tree nobody may trust |
| `TableIndexes.Registry.Append` | src/index/table_index.c:69-94 | the old entries keep their places, the new one is unloaded, stands last under its own name and shares nothing with the others; the array grows only when it is full |
| `TableIndexes.Registry.MakeRoom` | src/index/table_index.c:69-80 | a full array is replaced by one of twice the size, or of 4 slots, into which the loop has copied every entry; one with room is left alone |
| `TableIndexes.Registry.GetOrCreate` | src/index/table_index.c:58-95 | there is one entry per name: an existing one is returned, a new one is unloaded, no other entry changes while the array is copied to a larger one |
| `TableIndexes.Registry.LoadUnlessHalted` | src/index/table_index.c:124-159 | without memory for a new entry there is none; a scan that breaks off leaves the entry unloaded; otherwise the entry is loaded as specified |
| `TableIndexes.Registry.RegisterRow` | src/index/table_index.c:209-235 | a forced failure is reported once and changes no entry; otherwise only this table's entry changes, as specified |
| `TableIndexes.Registry.FindRow` | src/index/table_index.c:238-251 | loads the entry if needed and if memory allows it at every stage, and answers exactly what its map holds |
| `TableIndexes.Registry.GetNextId` | src/index/table_index.c:197-206 | loads the entry if needed and if memory allows it at every stage, and reports the next id the specification gives |
| `TableIndexes.Registry.IsLoaded` | src/index/table_index.c:191-194 | true exactly for a table whose entry is loaded |
| `TableIndexes.Registry.Invalidate` | src/index/table_index.c:178-188 | exactly this table's entry becomes unloaded, even with a spoiled tree; a name without entry gets none |
| `TableIndexes.Registry.Reset` | src/index/table_index.c:162-175 | no entries, no pending forced failure |
| `RowBuilder.ValidationError` | src/execution/executor.c:53-89 | there is no complaint exactly when counts match and every pair is acceptable |
| `RowBuilder.FirstComplaint` | src/execution/executor.c:53-89 | the complaint is the count, or else about the first pair with the column `id`, an unknown column or a line end in its value, in that order |
| `RowBuilder.BuildRow` | src/execution/executor.c:99-165 | a row is built exactly when no column is named twice; every value is in the slot of its column, every other slot is empty |
| `RowBuilder.FirstDuplicate` | src/execution/executor.c:99-165 | a column named twice is reported where it first comes up again |
| `RowBuilder.BuildInsertRow` | src/execution/executor.c:99-165 | the loop with its `assigned` array computes that row or that complaint |
| `RowBuilder.OrderDoesNotMatter` | src/execution/executor.c:99-165 | with the same (column, value) pairs in any other order the statement is refused as well, or builds the same row |
| `Engine.RowOfIgnoresOrder` | src/execution/executor.c:53-165 | the same with the validation included: in any order of its (column, value) pairs an INSERT comes to the same row or to none |
| `InsertLaws.RowOfMeans` | src/execution/executor.c:53-165 | an INSERT has a row exactly when counts match, every column is in the schema and not `id`, no value has a line end and no column comes twice; then each value stands in its column and the other cells are empty |
| `InsertLaws.BadInsertRefused` | src/execution/executor.c:178-201 | a bad statement is refused with the complaint about its first bad pair before anything is touched |
| `InsertLaws.InsertNeedsIndex` | src/execution/executor.c:198-205 | a good statement whose index cannot be loaded fails for the file, for memory or for a line that does not parse, with the entry unloaded and nothing written |
| `InsertLaws.DuplicateRefused` | src/execution/executor.c:206-211 | a column named twice is refused once the index is there, and nothing is written |
| `InsertLaws.LoadedInsertStops` | src/execution/executor.c:206-218 | with the index loaded a good statement stops, with nothing changed, for lack of other memory or of the file |
| `InsertLaws.ForcedInsertFails` | src/execution/executor.c:222-230 | a forced failure leaves the row in the file, the entry unloaded and the flag cleared |
| `Query.BuildSelectIndexes` | src/execution/executor.c:240-293 | every selected name is resolved to its schema position, `id` to the internal id; the first unknown name is reported; `slots` counts the slots of the index array written by then |
| `Query.SlotsSuffice` | src/execution/executor.c:606-612 | every write stays inside the allocated slots if and only if all columns are selected, or the list is no longer than the schema, or the names up to the first one too many include an unknown one |
| `Query.TooManySlots` | src/execution/executor.c:606-612 | SELECT id, name on a table with the one column `name` writes two slots where one was allocated |
| `Query.LinearIsAllRows` | src/execution/executor.c:680-740 | an unfiltered linear SELECT succeeds exactly when the file scans and all rows have the schema's width, and then shows row i with id i |
| `Query.FilterPicksRows` | src/execution/executor.c:322-329 | WHERE column = value shows exactly those rows of the unfiltered SELECT whose cell is that value, in their order and with their ids, and fails exactly when that SELECT fails, with the same error |
| `Query.HitsAreExact` | src/execution/executor.c:322-329 | the rows it shows are all those with that cell and no others, each once, in increasing order |
| `SelectLaws.SelectAllRows` | src/execution/executor.c:580-766 | a SELECT without WHERE answers if and only if its selection resolves and is not empty, memory lasts, the file scans and every row has the width of the schema; then row i is shown with id i, cell by cell what was asked for; otherwise the first obstacle is named; nothing changes |
| `SelectLaws.SelectMatchingRows` | src/execution/executor.c:580-766 | with WHERE c = v and c at place p of the schema exactly the rows whose field p is v are shown, in order and under their ids, under the same condition and with the same obstacles |
| `SelectLaws.SelectRefused` | src/execution/executor.c:240-319 | an unknown column in the list or in WHERE, or an empty selection, is refused by name with nothing changed |
| `SelectLaws.KeyMustBeInteger` | src/execution/executor.c:516-519 | a key that is not the text of an `int` is refused with nothing changed, whatever file and index hold |
| `SelectLaws.SelectRowById` | src/execution/executor.c:506-571 | WHERE id = n where cache and file agree: exactly row n, cell by cell what was asked for, nothing if there is none, a complaint if its width is wrong |
| `SelectLaws.LoadedLookUpStops` | src/execution/executor.c:521-544 | with the index loaded a look-up stops, with nothing changed, for lack of other memory or, if it finds the id, of the file |
| `SelectLaws.LookUpLoadsIndex` | src/index/table_index.c:124-159 | a look-up that is answered leaves the index loaded, and changes nothing if it was |
| `Query.IndexRefinesLinear` | src/execution/executor.c:506-571 | for any bytes on which the linear SELECT succeeds and any k, the index path shows exactly its row k, or nothing |
| `Query.IndexSelectSucceeds` | src/execution/executor.c:506-571 | the index path needs only its own row to have the right width |
| `Query.PrintedIdIsUsable` | src/execution/executor.c:374-385 | the text printed for an id parses to that id and selects the row it was printed for |
| `Executor.SelectByScan` | src/execution/executor.c:680-740 | the scanning loop, with its running id and its filter, computes the specified answer |
| `Executor.Database.ExecuteInsert` | src/execution/executor.c:178-237 | files, entries and forced flag end as the INSERT step of the state machine says, with the same outcome, wherever memory runs out, the append cut in mid-row included |
| `Executor.Database.ExecuteIndexSelect` | src/execution/executor.c:506-571 | answer and state are those of the state machine's look-up |
| `Executor.Database.ExecuteSelect` | src/execution/executor.c:580-766 | answer and state are those of the SELECT step of the state machine, on either path, wherever memory runs out, and `slots` is how much of the index array has been written |
| `Executor.Database.Perform` | src/execution/executor.c:769-785 | any sequence of statements, invalidations, forced failures and resets on the objects is the same run of the state machine |
| `RunLaws.StepEffects` | src/index/table_index.c:162-256 | each step of a run is its statement, or an invalidation, a reset, a forced failure or a rewriting, with exactly the effect of that |
| `EngineLaws.InsertOutcomes` | src/execution/executor.c:178-237 | an INSERT leaves the files alone, or appends exactly its row and is registered with the tree of a rebuild, or appends it, reports failure and leaves the entry unloaded, or appends a part of it, reports failure and leaves the entry loaded without it; state, statement and memory decide beforehand which; other tables are untouched |
| `EngineLaws.InsertKeepsAgreement` | src/execution/executor.c:178-237 | the exact condition beforehand under which an INSERT loses the agreement of its table: its row is too long, or memory for fields runs out behind the first, and it gets to the append and, unless cut off, registers its row |
| `EngineLaws.InsertKeepsConsistent` | src/execution/executor.c:178-237 | the same for all tables at once; and by outcome: a row inserted must fit one line buffer, a row cut off must have no field written, anything else keeps agreement |
| `EngineLaws.InsertStaysBehind` | src/execution/executor.c:178-237 | once the file holds more than the loaded index knows, or does not scan, every INSERT leaves it so or unloads the index |
| `EngineLaws.CutInsertLosesAgreement` | src/execution/executor.c:212-218 | a two-column INSERT whose second field finds no memory: the first field is in the file, the loaded index has no such row; an invalidation or a reset restores agreement |
| `EngineLaws.LongInsertLosesAgreement` | src/execution/executor.c:212-236 | an INSERT of one value of 4096 bytes succeeds and cache and file part, until an invalidation |
| `EngineLaws.AgreementIsRestored` | src/index/table_index.c:162-188 | agreement lost in one table is regained by invalidating it, agreement lost anywhere by a reset |
| `EngineLaws.FailedRegistrationRecovers` | src/execution/executor.c:222-230 | when the row is in the file and its registration failed, forced or out of memory, the entry is unloaded and the next access finds the row under the id it would have had |
| `RunLaws.AgreementLaw` | src/execution/executor.c:178-237 | after any run the entry of a table is the one a scan of its file would give if and only if after each unfit INSERT into this table (too long, or cut in mid-row) the entry has been unloaded at some time; until then the index is behind the file |
| `RunLaws.EveryRunStaysConsistent` | src/execution/executor.c:178-237 | in every state of every run, whatever fails and whatever goes into other tables, each table without an unfit INSERT has, if its entry is loaded, the one a scan of its file would give |
| `EngineLaws.HaltsWriteNothing` | src/execution/executor.c:178-237 | memory for other things that runs out at any stage makes no difference to an INSERT or stops it with all files as they were and the entry as it was or just loaded |
| `RunLaws.LoadedEntryMeans` | src/index/table_index.c:124-159 | such an entry maps exactly ids 1..N to the offsets at which the N rows can be read, and its next id is N + 1 |
| `EngineLaws.SelectByIdIsExact` | src/execution/executor.c:506-571 | where cache and file agree the index path answers what the file says for that id, or that memory ran out |
| `RunLaws.PathsAgreeAfterEveryRun` | src/execution/executor.c:506-766 | from a start with nothing loaded, after every run in which unfit INSERTs into this table, if any, were followed by an unloading: the query by id shows exactly the row that the same query without WHERE shows at that position |
| `RunLaws.RowsSurviveRuns` | src/storage/storage.c:219-311 | no run, failures and overlong rows included, removes, moves or changes a row of a table, unless a step rewrites the file itself |
| `RunLaws.ScanningSurvivesRuns` | src/storage/storage.c:356-410 | a file that scans does so after every run that does not rewrite it and puts no unfit INSERT into this table |
| `RunLaws.IdsEndure` | src/execution/executor.c:506-571 | from any state whose entry is right about some rows, after any run short of rewriting the table, unfit INSERTs included: a look-up of one of these ids answers its row if the index is or can be loaded, and fails otherwise; it never answers anything else |
| `RunLaws.LookUpCanFail` | src/storage/storage.c:356-410 | a concrete run after which id 1 is no longer answered: the INSERT of a value whose closing quote one `fgets` does not reach, then an invalidation |
| `RunLaws.InsertedRowEndures` | src/execution/executor.c:178-237 | after an INSERT of a row that fits the line buffer and any later run short of rewriting the table: id N + 1 answers the normal form of the inserted row and every earlier id what it did before, if the index is or can be loaded; otherwise the look-up fails. The file still scans unless an unfit INSERT went into this table |
| `RunLaws.RunsAreIsolated` | src/index/table_index.c:44-188 | a whole run of steps on other tables, failures included, leaves the file, map, next id and loaded flag of a table alone |
| `SqlLexer.Lexer.LexWord` | src/sql/lexer.c:85-119 | the loop takes the longest word and makes it a number or an identifier by its first byte |
| `SqlLexer.Lexer.LexString` | src/sql/lexer.c:122-202 | the loop reads up to the closing quote or the end, undoubles quotes, and accepts by the last byte alone |
| `SqlLexer.Lexer.LexSql` | src/sql/lexer.c:205-308 | the whole loop computes the specified tokens with their positions, or the first error |
| `SqlLexer.WordAlphabet` | src/sql/lexer.c:23-32 | words are made of the letters, digits, underscore and bytes from 0x80 on, from their first character on |
| `SqlLayout.LexUndoesLayout` | src/sql/lexer.c:205-308 | every way to write a token list, with any blanks that keep neighbours apart, is read back as those tokens at their positions |
| `SqlLayout.AcceptedIsLayout` | src/sql/lexer.c:122-308 | every accepted text is such a layout of its own tokens, or becomes one when a closing quote is added at its end |
| `SqlLayout.AcceptsExactly` | src/sql/lexer.c:122-308 | a text is accepted if and only if it is a layout, or a layout without its last quote that still ends in a quote |
| `SqlLayout.RefusesExactly` | src/sql/lexer.c:122-308 | a text is refused with an error at a position if and only if it is a layout up to there and then comes a character that begins no token, or a quote whose literal neither closes nor ends in a quote |
| `SqlLayout.UnclosedLiteralsAreRead` | src/sql/lexer.c:173-178 | concrete unclosed literals that are accepted, and one that is refused |
| `SqlParser.Parser.ParseItems` | src/sql/parser.c:156-229 | the comma loops read the longest list of identifiers or of values, or stop at the offending token |
| `SqlParser.Parser.ParseInsertStatement` | src/sql/parser.c:271-318 | the cursor machine ends where, with the statement or the complaint that, the specification says |
| `SqlParser.Parser.ParseSelectStatement` | src/sql/parser.c:321-370 | the same for SELECT, with its optional WHERE and the refusal of AND and OR |
| `SqlParser.Parser.Parse` | src/sql/parser.c:373-426 | the same for a whole token list, up to the semicolon and the end |
| `SqlRoundTrip.AcceptsExactlyTheGrammar` | src/sql/parser.c:271-426 | a token list is parsed as a statement if and only if it spells that statement by the grammar: keywords in any mix of cases, names as words, values as literals, numbers or words |
| `SqlRoundTrip.RefusalIsLocal` | src/sql/parser.c:72-129 | a refusal is final at the token it blames: whatever follows, the answer is the same, so no statement begins with the tokens up to it |
| `SqlComplaints.InsertHeadComplains` | src/sql/parser.c:271-285 | a statement that is neither, and an INSERT up to its table name: what is expected at the first token that does not fit |
| `SqlComplaints.InsertColumnsComplain` | src/sql/parser.c:286-300 | the same for the list of columns, however long, and VALUES |
| `SqlComplaints.InsertValuesComplain` | src/sql/parser.c:301-318 | the same for the list of values, however long, and the end of the statement |
| `SqlComplaints.SelectHeadComplains` | src/sql/parser.c:321-350 | the same for a SELECT up to its table name |
| `SqlComplaints.SelectTailComplains` | src/sql/parser.c:232-370 | the same for its condition, AND and OR behind it included, and the end of the statement |
| `SqlRoundTrip.ReadSql` | src/app/main.c:398-410 | lexer and parser objects together compute the specified statement or none |
| `SqlRoundTrip.ReadsExactlyWhatIsWritten` | src/sql/parser.c:373-426 | lexer and parser read a statement from a text if and only if the text is a layout of a spelling of it |
| `SqlRoundTrip.PrintedIsRead` | src/sql/parser.c:271-426 | every statement with valid names, keywords included, and any values, printed as literals or, where they are words, as bare numbers and names, with keywords in any case, comes back as itself |
| `SqlRoundTrip.ReadIsPrintable` | src/sql/parser.c:373-426 | every statement that is ever read can be printed, so printing and reading are inverse on all of them |
| `EndToEnd.ExecuteText` | src/app/main.c:382-432 | reading and executing one SQL text on the objects is the specified step |
| `EndToEnd.InsertTextInserts` | src/app/main.c:382-432 | every text of an INSERT into a known table inserts if and only if the statement is accepted, the index can be used, the row is not cut off and its registration succeeds; then exactly its row is appended to the file |
| `EndToEnd.SelectTextSelects` | src/app/main.c:382-432 | every text of a SELECT from a known table gives the answer and the state of the executor, on which the laws of `SelectLaws` hold |
| `EndToEnd.OtherTextsDoNothing` | src/app/main.c:382-432 | a text that writes no statement, or one on an unknown table, is refused as such and changes nothing |
| `EndToEnd.InsertedTextIsFound` | src/app/main.c:382-432 | an INSERT of any values that fit the line buffer, printed in any style, followed by any run short of rewriting the table, is answered by the query for its id, printed in that style, with exactly the normal form of its row, or that query fails because it has no index to use |

## Left out

- The command line, the interactive loop and reading SQL from files or standard input (src/app/main.c): input and dispatch only.
- Timing and data generation of the benchmark; its rewriting of a CSV file followed by a registry reset is a step of the state machine.
- Loading schemas (src/storage/schema.c): directory walking and meta files; a loaded schema is an input.
- Rendering result tables and headers: formatting only.
- File handles, `errno`, errors of seeking, reading and writing, and other processes that edit a file. A write error in mid-row would end like the append cut off by memory, with the same effect on agreement.
- Freeing memory: the model keeps only that a freed tree is empty again.
- Single allocations of lists, buffers and copies of names: only the stage of a statement at which one of them fails is modelled. A scan that breaks off is modelled by its clean-up, whatever it had read by then.
- `string_list_push` and `push_token`: lists are values that grow by one, so their capacity and reallocation are not modelled.
- `trim_whitespace` and `strip_line_endings` return a new text; that they work in place in the caller's buffer is not modelled.
- BPlusTree.BPlusTree.Insert: after a failed split nothing is stated about the contents of the tree, because the code leaves an overfull node; only unloading such a tree is safe, and that is what the executor does.
- Executor.Database.ExecuteSelect: for a list that overruns the slots the model answers as if the array were long enough, because what the program does then is undefined; `slots` says when that is.
- EndToEnd.InsertedTextIsFound: for tables of fewer than INT_MAX rows.
