# Verification of the embedded relational engine

The engine is a relational database over 64 KiB pages. This project models its
parts with the most state and branching, in the form the code has them (objects
with fields and loops for code that updates in place, functions for code that
computes), and proves what they promise over every input and every run.

| part | files |
|---|---|
| Key-value checkpoint protocol: keys, manifest codec, page loading, the protocol as a state machine, its refinement of a machine with one durable byte string, the provider object | Keys, Manifest, PageLoading, CheckpointProtocol, CheckpointRefinement, KeyValueProvider |
| Joins, sorting, pagination: hash join against the nested-loop join, chains of joins with key push-down, stable sorts by several keys, streamed pages | HashJoin, JoinEngine, JoinKinds, JoinQuery, QueryLaws, Sorting, PlainSelect, Pagination |
| Rows and secondary indexes: agreement over runs, writes under a journal, the journal's undo records, reads from index keys alone | Filters, TableIndexes, TableRegistry, Statements, Database, Journal, CoveringReads |
| Optimistic transactions: overlay, captured row versions, validation, replay, commit, transactions without other writers | Overlay, Transactions, Database, Staging, StagedRuns |
| Page allocator and memories: ledger codec, allocator on bytes, flat and page-keyed memory | UnclaimedPages, Allocator, PagedMemory |
| SQL lexer: the cursor object, its specification, round trip in both directions | Tokens, Lexing, Lexer, LexerRoundTrip |
| Shared | Wrappers, Bytes, Pages, Sequences, Values |

How outside behaviour enters the model:

- The page hash is an arbitrary function. No collision is assumed except where a
  theorem about damage says so, and then only for the pages actually damaged.
- The key-value store has one writer per database name and atomic writes per key. A
  failing batch write applies any subset, a failing head write may or may not apply,
  and batch answers come in any order. Other databases may write at any time.
- The largest host allocation and the word size are parameters; refused allocations
  are events of a run.
- Which writes of records and index pages the host lets succeed is a parameter; a refused
  one may leave anything behind, and the journal restores the state it was opened in.
- Value order, joined-row filters, sanitizing, the checks of a row and the work on the
  rows that reference it are parameters: arbitrary functions of what the code gives them.

Where the code does less than one would expect of it, the code is kept, a lemma gives
an input, and the exact condition is proved:

- Printing tokens and tokenizing the text should return the tokens. A minus sign directly
  followed by a line comment is read as part of the comment
  (`LexerRoundTrip.RoundTrip`, `LexerRoundTrip.MinusBeforeLineComment`).
- Growing the memory should hand out the new page. The last page number is computed in
  32 bits, so beyond 2^32 pages the reserved schema page is handed out
  (`Allocator.GrownPageIsNew`, `Allocator.WrappedGrowthHandsOutSchemaPage`); release
  builds wrap as modelled.
- A page cut while scanning should be the page of the filtered rows. When a row makes the
  filter fail after the page is full, the scan has stopped and returns the page instead of
  the error (`Pagination.StreamedIsFiltered`, `Pagination.HiddenError`).
- A select should be ordered by all its order keys. Columns are selected first, so a key on
  an unselected column orders nothing (`PlainSelects.OrderedIffKeysSelected`,
  `PlainSelects.SelectThenSort`, `PlainSelects.UnselectedKeyIsIgnored`).
- Rolling back a journal should restore the memory. A refused write across the end of an
  allocated page is recorded and cannot be written back (`Journals.RollbackIff`,
  `Journals.CrossingWriteBlocksRollback`).
- A commit should find every change of a captured row. Captured rows are typed records,
  which leave out foreign-key columns, so a change of those alone is not found
  (`Transactions.ChangesAreSeenIff`, with its input in `Transactions.HiddenChange`).
- A transaction alone should not conflict with itself. The overlay keeps patches as given
  and the commit stores sanitized rows, so an operation on a row that sanitizing altered
  when it was last staged does conflict (`StagedRuns.SelfConflictIff`,
  `StagedRuns.SecondUpdateConflicts`).

## Model

| member | source | states |
|---|---|---|
| CheckpointRefinement.CrashSafety | crates/wasi-dbms/wasi-dbms-key-value-memory/src/provider.rs:53-310 | After every run of openings (answered in any part, so that they fail or fall back), grows, writes, reads, imports, exports, refused allocations, flushes, partial page batches, failed head writes, crashes and writes of other databases, all answers were those of a machine with one durable byte string and the one before it, which serves fallbacks (once a failed flush may have overwritten that one, fallbacks serve what is left of it); reopening succeeds, writable, with exactly the durable bytes (the published checkpoint, or the one being published when the head write was in doubt and took effect) |
| CheckpointRefinement.RunRefines | crates/wasi-dbms/wasi-dbms-key-value-memory/src/provider.rs:53-310 | Over any run from related states, fallback sessions included, the concrete machine and the ideal one give equal answers and end in related states |
| CheckpointRefinement.StepRefines | crates/wasi-dbms/wasi-dbms-key-value-memory/src/provider.rs:53-310 | One event of any kind keeps the machines related and gives equal answers |
| CheckpointRefinement.SlotIsolation | crates/wasi-dbms/wasi-dbms-key-value-memory/src/provider.rs:199-208 | The page writes of a flush touch neither the head key nor a page key of the published checkpoint |
| CheckpointRefinement.PageWritesKeepPublished | crates/wasi-dbms/wasi-dbms-key-value-memory/src/provider.rs:212-226 | After any subset of the page writes, in any order, the head and the published checkpoint read as before |
| CheckpointRefinement.CandidateLoads | crates/wasi-dbms/wasi-dbms-key-value-memory/src/provider.rs:188-226 | Writing only the dirty pages makes the whole logical memory loadable under the candidate checkpoint |
| CheckpointRefinement.PublishedHead | crates/wasi-dbms/wasi-dbms-key-value-memory/src/provider.rs:209-235 | After the head write the head names the candidate and the old checkpoint, and both load: the new memory and the old durable bytes |
| CheckpointRefinement.CacheCoherence | crates/wasi-dbms/wasi-dbms-key-value-memory/src/provider.rs:159-235 | In every reachable state with a writable handle, a page that is not dirty lies inside the published checkpoint and is stored at its published slot with the recorded hash |
| CheckpointRefinement.BothCheckpointsSurvive | crates/wasi-dbms/wasi-dbms-key-value-memory/src/provider.rs:178-237 | After any run, a successful flush and any further events up to the next flush, both checkpoints of the head are stored intact |
| CheckpointRefinement.DamageFallsBack | crates/wasi-dbms/wasi-dbms-key-value-memory/src/provider.rs:59-71 | With damage limited to the pages a flush wrote and no hash collision on them, opening returns the flushed memory if and only if nothing changed, else the previous non-empty snapshot read-only, else an error |
| CheckpointRefinement.FallbackOverRuns | crates/wasi-dbms/wasi-dbms-key-value-memory/src/provider.rs:53-71 | The same after any run, a flush and any further events without a flush |
| CheckpointRefinement.ReadOnlyEpisode | crates/wasi-dbms/wasi-dbms-key-value-memory/src/provider.rs:53-89 | After any run, an opening that the store answers in any part gives the durable bytes writable, or a read-only handle only when the current checkpoint is not answered, or an error only when the head or the current checkpoint is not answered; no call on the read-only handle changes the store, so reopening still yields the durable bytes |
| CheckpointRefinement.UnansweredFallsBack | crates/wasi-dbms/wasi-dbms-key-value-memory/src/provider.rs:59-71 | Between a flush and the next, opening while only the previous checkpoint is answered returns exactly the bytes durable before that flush, read-only, or an error when there were none |
| CheckpointRefinement.KeysAreBuilt | crates/wasi-dbms/wasi-dbms-key-value-memory/src/manifest.rs:213-227 | Every key a flush writes or a load asks for passes the checks of the key builder |
| CheckpointRefinement.FallbackIsReadOnly | crates/wasi-dbms/wasi-dbms-key-value-memory/src/provider.rs:149-157 | No sequence of calls on a fallback handle changes the store or the handle |
| CheckpointRefinement.OtherDatabaseKeeps | crates/wasi-dbms/wasi-dbms-key-value-memory/src/provider.rs:424-446 | A write by a database of another name changes neither the head, nor the durable bytes, nor what the previous checkpoint loads as |
| CheckpointRefinement.CleanMeansDurable | crates/wasi-dbms/wasi-dbms-key-value-memory/src/provider.rs:178-183 | Without dirty pages the cache equals the durable bytes, so a flush that writes nothing loses nothing |
| KeyValueProvider.MemoryProvider.WithStore | crates/wasi-dbms/wasi-dbms-key-value-memory/src/provider.rs:53-89 | For any answers at all (in any order, missing, untrue): the current checkpoint writable if its answers are accepted, else a non-empty previous one read-only if its answers are, else an error; the store is never changed |
| KeyValueProvider.TruthfulOpening | crates/wasi-dbms/wasi-dbms-key-value-memory/src/provider.rs:53-89 | When each batch answer is truthful or does not come: the current checkpoint, writable, if and only if all its batches came and it is intact; else a non-empty previous one, read-only, under the same condition; else an error |
| KeyValueProvider.MemoryProvider.ImportSnapshot | crates/wasi-dbms/wasi-dbms-key-value-memory/src/provider.rs:98-127 | Refuses a non-empty memory, misaligned bytes and a refused allocation without a change; otherwise replaces the memory, all pages dirty and nothing published |
| KeyValueProvider.MemoryProvider.GrowMemory | crates/wasi-dbms/wasi-dbms-key-value-memory/src/provider.rs:261-291 | Adds zero pages marked dirty and returns the old size, or refuses without a change |
| KeyValueProvider.MemoryProvider.WriteBytes | crates/wasi-dbms/wasi-dbms-key-value-memory/src/provider.rs:300-310 | Overwrites in bounds and marks exactly the touched pages dirty; an empty write marks none |
| CheckpointProtocol.GrowIff | crates/wasi-dbms/wasi-dbms-key-value-memory/src/provider.rs:261-291 | Growing succeeds if and only if the provider is writable, the growth is granted, the pages number at most 0xFFFFFFFF and their bytes fit one allocation; then exactly the zero pages are added, all dirty; the error otherwise, by arithmetic |
| CheckpointProtocol.ImportIff | crates/wasi-dbms/wasi-dbms-key-value-memory/src/provider.rs:98-127 | The same for importing: whole pages into an empty writable provider, within the same bounds |
| CheckpointProtocol.WriteIff | crates/wasi-dbms/wasi-dbms-key-value-memory/src/provider.rs:300-310 | The same for writing, byte by byte and page by page |
| KeyValueProvider.MemoryProvider.ReadBytes | crates/wasi-dbms/wasi-dbms-key-value-memory/src/provider.rs:293-298 | Copies the bytes of an in-bounds range, or fails leaving the buffer alone |
| KeyValueProvider.MemoryProvider.ExportSnapshot | crates/wasi-dbms/wasi-dbms-key-value-memory/src/provider.rs:92-95 | Returns the logical memory, unflushed changes included, unless poisoned or the copy cannot be allocated |
| KeyValueProvider.MemoryProvider.BuildCandidate | crates/wasi-dbms/wasi-dbms-key-value-memory/src/provider.rs:188-208 | The loop over dirty pages builds the candidate checkpoint: other slot or slot 0, and the hash of the page |
| CheckpointProtocol.CandidateIs | crates/wasi-dbms/wasi-dbms-key-value-memory/src/provider.rs:188-208 | The checkpoint of a flush, page by page: dirty pages swap slots (new ones use slot 0) and get the hash of their bytes, others keep both |
| KeyValueProvider.MemoryProvider.WriteBatches | crates/wasi-dbms/wasi-dbms-key-value-memory/src/provider.rs:212-226 | The batch loop writes each dirty page once at its target, up to a failing batch of which any subset takes effect |
| KeyValueProvider.MemoryProvider.FlushInner | crates/wasi-dbms/wasi-dbms-key-value-memory/src/provider.rs:178-237 | Flushing in place, with its loops and fault points, is the flush of the protocol: same cache, same store, same answer |
| KeyValueProvider.KeyValueStore.SetMany | crates/wasi-dbms/wasi-dbms-key-value-memory/src/store.rs:20-20 | A failing batch write applies exactly the listed entries, each atomically |
| PageLoading.LoadMemory | crates/wasi-dbms/wasi-dbms-key-value-memory/src/provider.rs:317-384 | Loading succeeds if and only if every batch answer holds each requested key exactly once with a full page of the recorded hash; the memory then holds those pages; the closing omission check never fires |
| PageLoading.LoadBatch | crates/wasi-dbms/wasi-dbms-key-value-memory/src/provider.rs:340-382 | The same for one batch, for any answer of the store, leaving the pages of other batches alone |
| PageLoading.OrderIrrelevant | crates/wasi-dbms/wasi-dbms-key-value-memory/src/provider.rs:351-374 | Whether a batch loads, and what it loads, does not depend on the order of the answer |
| PageLoading.TruthfulLoad | crates/wasi-dbms/wasi-dbms-key-value-memory/src/provider.rs:317-384 | With truthful or missing answers, loading succeeds exactly when all of them came and the checkpoint is intact |
| PageLoading.HonestLoad | crates/wasi-dbms/wasi-dbms-key-value-memory/src/provider.rs:317-384 | Against a truthful store, loading succeeds exactly when the checkpoint is stored intact and returns the stored pages |
| Manifests.DecodeOfEncode | crates/wasi-dbms/wasi-dbms-key-value-memory/src/manifest.rs:84-159 | Decoding the encoding of a valid manifest returns it |
| Manifests.EncodeOfDecode | crates/wasi-dbms/wasi-dbms-key-value-memory/src/manifest.rs:121-207 | A byte string that decodes is the encoding of the decoded manifest, which is valid |
| Manifests.MarkerIsNoPageCount | crates/wasi-dbms/wasi-dbms-key-value-memory/src/manifest.rs:242-254 | The no-previous marker is never a page count that passes validation |
| Manifests.LengthNeverOverflows | crates/wasi-dbms/wasi-dbms-key-value-memory/src/manifest.rs:84-159 | For validated counts the length arithmetic of the codec stays within the host word |
| Manifests.EncodeManifest | crates/wasi-dbms/wasi-dbms-key-value-memory/src/manifest.rs:84-119 | The appending loops produce the specified encoding |
| Manifests.ManifestFormat | crates/wasi-dbms/wasi-dbms-key-value-memory/src/manifest.rs:84-119 | The bytes of a manifest: the magic, both page counts, then a slot and a hash per page, little-endian |
| Manifests.DecodeManifest | crates/wasi-dbms/wasi-dbms-key-value-memory/src/manifest.rs:121-207 | The cursor loops read what the specification of decoding says, with the same error for every malformed input |
| Manifests.DecodeOutcome | crates/wasi-dbms/wasi-dbms-key-value-memory/src/manifest.rs:121-207 | Which bytes decode, and what is wrong with the others: header, counts against both limits, length, slots, in this order |
| Keys.HeadKeysInjective | crates/wasi-dbms/wasi-dbms-key-value-memory/src/manifest.rs:209-211 | Head keys of different databases differ |
| Keys.HeadIsNotPage | crates/wasi-dbms/wasi-dbms-key-value-memory/src/manifest.rs:209-227 | No head key is a page key, whatever the databases, page and slot |
| Keys.PageKeysInjective | crates/wasi-dbms/wasi-dbms-key-value-memory/src/manifest.rs:213-227 | A page key determines its database, page and slot |
| Keys.KeySpacesDisjoint | crates/wasi-dbms/wasi-dbms-key-value-memory/src/provider.rs:424-446 | Databases with different names own disjoint sets of keys |
| Keys.KeyFormat | crates/wasi-dbms/wasi-dbms-key-value-memory/src/manifest.rs:213-227 | The text of the keys: lower-case hexadecimal names, decimal page and slot numbers |
| HashJoins.HashJoin | crates/wasm-dbms/wasm-dbms/src/join.rs:332-392 | The build and probe loops return, as a sequence, what the nested-loop join of references returns, for all four join types |
| JoinEngine.RefJoinAgrees | crates/wasm-dbms/wasm-dbms/src/join.rs:332-392 | The join of row references stands for the nested-loop join of rows: left order, then right order, null keys never match, unmatched left rows in place, unmatched right rows last; every reference has one entry per side, in bounds |
| JoinKinds.JoinKeeps | crates/wasm-dbms/wasm-dbms/src/join.rs:332-392 | One join of each kind, by indexes: every matching pair, the unmatched left rows of a left or full join and the unmatched right rows of a right or full join, padded with NULL, each once, by left row and then right row, unmatched right rows last |
| JoinKinds.LastJoinKeeps | crates/wasm-dbms/wasm-dbms/src/join.rs:125-187 | The same for the last join of a query over the rows of the joins before it, which the joined references stand for |
| JoinKinds.MatchesIff | crates/wasm-dbms/wasm-dbms/src/join.rs:342-376 | Two rows match when both have their key column and it holds the same value, not NULL |
| JoinKinds.ResolvedIff | crates/wasm-dbms/wasm-dbms/src/join.rs:395-401 | A field is a table and a column around its first dot, or a bare column of the default table |
| JoinKinds.KeyIff | crates/wasm-dbms/wasm-dbms/src/join.rs:146-155 | A join key is the first column of its name in the first table of its name |
| JoinQueries.LoadRightRows | crates/wasm-dbms/wasm-dbms/src/join.rs:248-313 | Loads every right row when unmatched ones are kept, none without left keys, else exactly the rows with a key, or with a left key when those are pushed down (at most 64, leading an index); the matches of each left row stay the same, in table order |
| JoinQueries.PrunedJoin | crates/wasm-dbms/wasm-dbms/src/join.rs:248-301 | An inner or left join over any loaded rows with the same matches equals the join over the whole table |
| JoinQueries.DistinctKeys | crates/wasm-dbms/wasm-dbms/src/join.rs:268-280 | The keys to push down are the non-null left keys, each once |
| JoinQueries.JoinTables | crates/wasm-dbms/wasm-dbms/src/join.rs:126-162 | Through any chain of joins the references stand for the nested-loop joins of the complete tables and stay valid |
| JoinQueries.ProjectionFitsHeader | crates/wasm-dbms/wasm-dbms/src/join.rs:462-496 | Every projected row has exactly one value per header column |
| JoinQueries.MaterializeRow | crates/wasm-dbms/wasm-dbms/src/join.rs:480-496 | The nested loops produce the projection of the joined row |
| JoinQueries.Execute | crates/wasm-dbms/wasm-dbms/src/join.rs:101-235 | The whole query fails on the first unknown table, then on a rejected filter, then on the first row the filter cannot evaluate; otherwise it returns the projection of the filtered, ordered and cut nested-loop joins of the complete tables |
| QueryLaws.UnknownTableIff | crates/wasm-dbms/wasm-dbms/src/join.rs:107-113 | The reported table is the first unknown one of the query |
| QueryLaws.FindValueIs | crates/wasm-dbms/wasm-dbms/src/join.rs:439-456 | An order field has the value of the first column of its name in the first table that offers it |
| QueryLaws.OrderValueIs | crates/wasm-dbms/wasm-dbms/src/join.rs:418-437 | A qualified order field is looked up in tables of its name, a bare one in all tables |
| QueryLaws.ProjectedCells | crates/wasm-dbms/wasm-dbms/src/join.rs:462-498 | The result has exactly the selected cells, table by table in column order, under a header that names them |
| Pagination.FilterKeeps | crates/wasm-dbms/wasm-dbms/src/database.rs:859-884 | Filtering keeps exactly the matching rows, in order |
| Pagination.FirstFailure | crates/wasm-dbms/wasm-dbms/src/database.rs:859-884 | Filtering fails exactly if some row cannot be evaluated, with the error of the first such row |
| Sorting.SortRows | crates/wasm-dbms/wasm-dbms/src/database.rs:893-895 | One stable pass per key from last to first gives the one stable sort by all keys, and a permutation of the rows the loop receives |
| Sorting.SortedByKeys | crates/wasm-dbms/wasm-dbms/src/database.rs:540-568 | Of two rows in a sorted result the first is sooner by the first key on which they differ (a missing value first, then by value in the direction of the key), or they tie on all keys and keep their input order |
| PlainSelects.SelectAndSort | crates/wasm-dbms/wasm-dbms/src/database.rs:889-895 | Column selection and then the order-by loop return the stored rows stably sorted by the keys on selected columns, with the selected columns |
| PlainSelects.OrderedCoveringPage | crates/wasm-dbms/wasm-dbms/src/database.rs:686-731 | An ordered covering read scans every entry in range: sorting and cutting then give the page of the sorted full read, limit zero included |
| PlainSelects.SelectThenSort | crates/wasm-dbms/wasm-dbms/src/database.rs:336-351 | Sorting selected rows by all keys is selecting from the stored rows sorted by the keys whose columns are selected: other keys order nothing |
| PlainSelects.OrderedIffKeysSelected | crates/wasm-dbms/wasm-dbms/src/database.rs:889-895 | For every table content the rows come in the order of all keys if and only if every order column that the table has is selected (given one pair of values that the order tells apart) |
| PlainSelects.SelectedKeysSort | crates/wasm-dbms/wasm-dbms/src/database.rs:889-895 | With the order columns of the table selected, the rows returned are the stored rows sorted by all keys |
| PlainSelects.UnselectedKeyIsIgnored | crates/wasm-dbms/wasm-dbms/src/database.rs:889-895 | Two rows ordered by an unselected column come back in stored order although sorting them first would swap them |
| Sorting.PassesCompose | crates/wasm-dbms/wasm-dbms/src/join.rs:192-194 | Two stable sorts in a row are one stable sort by the later comparison, then the earlier one |
| Sorting.StableSortIsUnique | crates/wasm-dbms/wasm-dbms/src/join.rs:418-436 | Sortedness, stability and the input determine the output |
| Sorting.StableSortSorts | crates/wasm-dbms/wasm-dbms/src/join.rs:430-435 | The library sort is modelled by an insertion sort that is sorted and stable |
| Sorting.StableSortPermutes | crates/wasm-dbms/wasm-dbms/src/join.rs:430-435 | A stable sort returns exactly the rows it was given, with multiplicity |
| Sorting.ByKeysPreorder | crates/wasm-dbms/wasm-dbms/src/database.rs:1182-1196 | Comparing by all keys and directions, missing values least in both directions, is a total preorder |
| Sorting.SortCommutes | crates/wasm-dbms/wasm-dbms/src/join.rs:418-436 | Sorting references gives references to the sorted rows |
| Pagination.StreamPage | crates/wasm-dbms/wasm-dbms/src/database.rs:859-887 | The scan loop with early exit returns exactly: the page of the rows that match before the first failing row, if no row fails or the page is full before it (limit zero needs one row of the page to be found); else the error of that row |
| Pagination.StreamedIsFiltered | crates/wasm-dbms/wasm-dbms/src/database.rs:859-887 | Streaming equals filtering all rows, dropping the offset and taking the limit if and only if no row fails or the page is not full before the first that does |
| Pagination.HiddenError | crates/wasm-dbms/wasm-dbms/src/database.rs:866-886 | The exception is real: a page of one row hides the error of the second row |
| Pagination.CutPage | crates/wasm-dbms/wasm-dbms/src/database.rs:897-910 | Dropping the offset and truncating after the sort cuts the same page |
| Pagination.PageRows | crates/wasm-dbms/wasm-dbms/src/database.rs:897-909 | The page skips offset rows and takes at most limit of the rest, in order |
| Pagination.PageOfFirst | crates/wasm-dbms/wasm-dbms/src/database.rs:686-695 | Cutting the page from the first offset plus limit rows is cutting it from all rows |
| TableIndexes.RunKeepsAgreement | crates/wasm-dbms/wasm-dbms/src/database.rs:1065-1137 | Over every run of inserts, deletes and rewrites (in place or moved, key changed or not) every index stays in agreement with the rows |
| TableIndexes.ChangeKeepsAgreement | crates/wasm-dbms/wasm-dbms/src/database.rs:1065-1137 | One change keeps agreement, and each entry it has to remove is in its index |
| TableIndexes.OneEntryPerRow | crates/wasm-dbms/wasm-dbms/src/database.rs:1065-1137 | Agreement means: as many entries as rows, exactly one for each row with its key and current address, and no two entries for one address |
| TableIndexes.CompleteKeepsKey | crates/wasm-dbms/wasm-dbms/src/database.rs:1210-1221 | The stored record has the key of the values it was made from, columns missing in the values counting as NULL in both |
| TableIndexes.UntouchedRows | crates/wasm-dbms/wasm-dbms/src/database.rs:1315-1399 | A run leaves every row alone that none of its changes starts from |
| TableRegistries.TableRegistry.LedgerDelete | crates/wasm-dbms/wasm-dbms-memory/src/table_registry/index_ledger/index_tree.rs:604-651 | Removes one entry, or reports that it is missing exactly when it is |
| TableRegistries.TableRegistry.LedgerUpdate | crates/wasm-dbms/wasm-dbms-memory/src/table_registry/index_ledger/index_tree.rs:652-661 | Deleting and reinserting replaces the pointer of one entry |
| TableRegistries.TableRegistry.InsertIndex | crates/wasm-dbms/wasm-dbms/src/database.rs:1065-1082 | The loop over the indexes adds the entry of the row to each of them |
| TableRegistries.TableRegistry.DeleteIndex | crates/wasm-dbms/wasm-dbms/src/database.rs:1085-1101 | The loop removes the entry of the row from each index |
| TableRegistries.TableRegistry.UpdateIndex | crates/wasm-dbms/wasm-dbms/src/database.rs:1107-1137 | The loop replaces the old entry by the new one in each index, whether the key or only the address changed |
| TableRegistries.TableRegistry.InsertRow | crates/wasm-dbms/wasm-dbms/src/database.rs:1299-1309 | Record and index entries together are one insert at a free address; with agreement only a failing write can stop it |
| TableRegistries.TableRegistry.UpdateRow | crates/wasm-dbms/wasm-dbms/src/database.rs:1366-1388 | Record and index entries together are one rewrite; a missing entry cannot occur |
| TableRegistries.TableRegistry.DeleteRow | crates/wasm-dbms/wasm-dbms/src/database.rs:1435-1446 | Record and index entries together are one delete; a missing entry cannot occur |
| Statements.PatchedLookup | crates/wasm-dbms/wasm-dbms/src/database.rs:1343-1350 | Patching sets exactly the patched columns that the row has, each to its last value in the patch |
| Statements.UpdateFrame | crates/wasm-dbms/wasm-dbms/src/database.rs:1329-1397 | An update leaves every row that it did not select where and as it was |
| Statements.UpdateStores | crates/wasm-dbms/wasm-dbms/src/database.rs:1329-1397 | An update stores the patched, sanitized version of every selected row and changes no row count |
| Statements.DeleteRemoves | crates/wasm-dbms/wasm-dbms/src/database.rs:1413-1450 | A delete removes exactly the selected rows |
| Databases.CollectRecords | crates/wasm-dbms/wasm-dbms/src/database.rs:1003-1062 | By an index path or by a scan, the rows to work on are the selected ones, each once, read before any change |
| Databases.CollectCandidates | crates/wasm-dbms/wasm-dbms/src/database.rs:1015-1047 | The index path: candidates that pass the rest of the filter are exactly the matching rows |
| Databases.Database.Insert | crates/wasm-dbms/wasm-dbms/src/database.rs:1273-1313 | Adds one sanitized row with its index entries if and only if the table is known, the row is not refused and every write works; else the error of the first of these, and at the outermost level an unchanged database |
| Databases.Database.Update | crates/wasm-dbms/wasm-dbms/src/database.rs:1315-1399 | Rewrites exactly the selected rows with their index entries, one record after the other, following the references to each; returns their number; tables that do not reference this one are unchanged; a failure is that of the first record that is refused, cannot be written or whose references fail, and at the outermost level leaves the database unchanged |
| Databases.Database.Delete | crates/wasm-dbms/wasm-dbms/src/database.rs:1401-1451 | Removes exactly the selected rows with their index entries, after their references are gone (cascade) or when there are none (restrict); returns their number; a failure is that of the first record that cannot be deleted |
| Databases.Database.End | crates/wasm-dbms/wasm-dbms/src/database.rs:192-207 | Ending an atomic section commits or restores at the outermost level and does nothing when nested |
| Journals.RollbackIff | crates/wasm-dbms/wasm-dbms/src/transaction/journal.rs:51-81 | After any run of journaled writes, refused ones included, and page growth, rollback restores every byte and leaves grown pages zero if and only if every recorded region lies within its page, that is, if no write went over the end of an allocated page; otherwise it fails |
| Journals.RollbackNeedsFit | crates/wasm-dbms/wasm-dbms/src/transaction/journal.rs:51-61 | For any memory and records, rollback succeeds only if every recorded region lies within its page |
| Journals.FitsIffNeverCrosses | crates/wasm-dbms/wasm-dbms/src/transaction/journal.rs:63-81 | All records of a run fit exactly if no call goes over the end of a page that is allocated at its time; one over the end of an unallocated page records nothing |
| Journals.CrossingWriteBlocksRollback | crates/wasm-dbms/wasm-dbms/src/transaction/journal.rs:63-81 | A write across the end of its page is refused but stays recorded, and rollback then fails, whatever follows |
| Journals.JournaledWriter.WriteAt | crates/wasm-dbms/wasm-dbms/src/transaction/journal.rs:145-148 | Records the bytes of the region, then writes it or is refused |
| Journals.JournaledWriter.Rollback | crates/wasm-dbms/wasm-dbms/src/transaction/journal.rs:51-61 | The reverse loop writes the records back, last first, up to the first that is refused |
| CoveringReads.CoveringEqualsScan | crates/wasm-dbms/wasm-dbms/src/database.rs:645-734 | With agreement and a range that misses no matching row, a covering read returns the same multiset of projected rows as a filtered full scan, whatever the order of entries and rows |
| CoveringReads.ScanIsFilter | crates/wasm-dbms/wasm-dbms/src/database.rs:859-884 | The full scan of that theorem is the filter loop over the stored rows in scan order, followed by column selection |
| CoveringReads.CoveredAgrees | crates/wasm-dbms/wasm-dbms/src/database.rs:697-724 | A row rebuilt from an index key passes the filter exactly when the stored row does and shows the same selected columns |
| CoveringReads.RetainFewer | crates/wasm-dbms/wasm-dbms/src/database.rs:336-351 | Selecting columns from a covered row is selecting them from the stored row |
| CoveringReads.CoveringScan | crates/wasm-dbms/wasm-dbms/src/database.rs:686-731 | Without a limit, or when rows are reordered, the scan returns all covered rows; otherwise it stops at offset plus limit of them, or at the largest count of the host; nothing for limit zero |
| CoveringReads.CoveringPage | crates/wasm-dbms/wasm-dbms/src/database.rs:841-858 | The page cut from the bounded scan is the page of the full covering read |
| Filters.LeafLaws | crates/wasm-dbms/wasm-dbms-api/src/dbms/query/filter.rs:316-359 | What each filter on one column says of a row whose cell there is given |
| Filters.OrderLaws | crates/wasm-dbms/wasm-dbms-api/src/dbms/query/filter.rs:316-359 | Over ordered values exactly one of less, equal and greater holds; at most, at least, unequal, in, null and not null are made of them |
| Filters.MissingColumn | crates/wasm-dbms/wasm-dbms-api/src/dbms/query/filter.rs:316-359 | No filter on a column matches a row without it |
| Filters.ConnectiveLaws | crates/wasm-dbms/wasm-dbms-api/src/dbms/query/filter.rs:352-356 | Conjunction, disjunction and complement |
| Filters.MatchesSeesItsColumns | crates/wasm-dbms/wasm-dbms-api/src/dbms/query/filter.rs:316-359 | A filter looks only at the columns it mentions |
| Transactions.Transaction.Insert | crates/wasm-dbms/wasm-dbms/src/transaction.rs:28-38 | Stages an insert and its overlay entry, or refuses a row without its primary key and changes nothing |
| Transactions.Transaction.Update | crates/wasm-dbms/wasm-dbms/src/transaction.rs:49-76 | Stages an update with one filter per captured row version, and one overlay entry per captured key |
| Transactions.Transaction.Delete | crates/wasm-dbms/wasm-dbms/src/transaction.rs:87-107 | Stages a delete with its behaviour, one filter per captured row version, and one overlay entry per captured key |
| Transactions.CapturedExactly | crates/wasm-dbms/wasm-dbms/src/transaction.rs:110-121 | A captured-row filter admits exactly the stored rows that agree with the captured version on its columns |
| Transactions.ChangesAreSeenIff | crates/wasm-dbms/wasm-dbms-macros/src/table/record.rs:269-346 | A captured row is read as a typed record, which has no foreign-key columns: every change of a captured row is found at commit if and only if all columns of the table are captured |
| Transactions.ValidatedFilter | crates/wasm-dbms/wasm-dbms/src/database.rs:120-139 | Validation conflicts unless each filter selects exactly one row, and combines the filters in order; no filters give no filter |
| Transactions.DisjunctionMatches | crates/wasm-dbms/wasm-dbms/src/database.rs:138-138 | The combined filter admits a row exactly when one of the filters does |
| Transactions.ReplaySelectsCaptured | crates/wasm-dbms/wasm-dbms/src/database.rs:1475-1499 | Whatever other writers did, the replay selects the addresses whose rows agree with a captured version, and nothing else; without captured rows it selects nothing |
| Transactions.ConflictIffVersionGone | crates/wasm-dbms/wasm-dbms/src/database.rs:120-139 | Under unique primary keys, validation conflicts if and only if some captured version agrees with no stored row |
| Transactions.ValidatedVersionsAreStored | crates/wasm-dbms/wasm-dbms/src/database.rs:120-139 | After validation each captured version is held at exactly one address |
| Databases.CaptureRows | crates/wasm-dbms/wasm-dbms/src/database.rs:498-523 | Staging captures every selected row once as a typed record, paired with its primary-key value; under unique keys the holders of the versions are the selected rows |
| Overlays.ReplayRow | crates/wasm-dbms/wasm-dbms/src/transaction/overlay/table.rs:205-239 | The replay loop follows the key of a row across updates and drops it at a delete or a reinsert |
| Overlays.ReplayConcat | crates/wasm-dbms/wasm-dbms/src/transaction/overlay/table.rs:205-239 | Replaying two lists of operations is replaying one after the other |
| Overlays.ViewAfterChanges | crates/wasm-dbms/wasm-dbms/src/transaction/overlay/table.rs:174-203 | More updates and deletes act on exactly the rows seen before them, stored or inserted |
| Overlays.ViewAfterInsert | crates/wasm-dbms/wasm-dbms/src/transaction/overlay/table.rs:174-203 | Inserting a row under a new key adds exactly that row to the rows seen |
| Stagings.CaptureVisible | crates/wasm-dbms/wasm-dbms/src/database.rs:498-523 | Inside a transaction a statement captures exactly the visible rows that its filter admits, as typed records, whatever the order of their cells |
| Stagings.OverlayShowsNext | crates/wasm-dbms/wasm-dbms/src/transaction/overlay/table.rs:205-254 | One staged operation turns the rows seen into what it says: those with captured keys patched or gone, the inserted one added; operations on other tables change nothing |
| StagedRuns.CommitFollowsOverlay | crates/wasm-dbms/wasm-dbms/src/database.rs:1467-1499 | Without other writers, after each replayed operation the stored rows and the rows the transaction saw after staging it are the two sides of the same versions: patched as given, and stored as sanitized |
| StagedRuns.SelfConflictIff | crates/wasm-dbms/wasm-dbms/src/database.rs:120-139 | After any replayed run of inserts, updates and deletes on this and unrelated tables, an operation conflicts if and only if it captures the key of a row whose present version was staged with values that sanitizing alters |
| StagedRuns.ConflictIffAltered | crates/wasm-dbms/wasm-dbms/src/database.rs:120-139 | The same on versions: a conflict is a captured version whose stored row differs from the row seen in a captured column |
| StagedRuns.StagedByAlters | crates/wasm-dbms/wasm-dbms/src/database.rs:1329-1365 | A version differs from its stored row exactly if sanitizing altered the values its operation had stored; earlier alterations are out, as they would have conflicted |
| StagedRuns.AltersIff | crates/wasm-dbms/wasm-dbms/src/database.rs:983-1000 | Sanitizing alters values exactly if it changes the value of a captured column; the order of cells, as of a generated key at the end, does not count |
| StagedRuns.NoSelfConflict | crates/wasm-dbms/wasm-dbms/src/database.rs:120-139 | Without a sanitizer that changes values no operation of a transaction alone conflicts |
| StagedRuns.SecondUpdateConflicts | crates/wasm-dbms/wasm-dbms-api/src/dbms/sanitize/null_if_empty.rs:19-26 | The exception is real: with a text that is stored as NULL when empty, setting it to the empty text and updating the row again conflicts |
| StagedRuns.UpdateRows | crates/wasm-dbms/wasm-dbms/src/database.rs:1329-1397 | The rows stored after an update of captured versions are the others and the new versions as stored |
| Databases.Database.ValidatedTransactionFilter | crates/wasm-dbms/wasm-dbms/src/database.rs:120-139 | The check at commit time, with its three outcomes |
| Databases.Database.Replay | crates/wasm-dbms/wasm-dbms/src/database.rs:1467-1499 | Replays one operation; it fails only for a reason, and with a conflict exactly when some filter does not select one row |
| Databases.Database.Commit | crates/wasm-dbms/wasm-dbms/src/database.rs:1453-1515 | Either every operation takes effect in order, or the first that cannot be replayed in the state it meets gives the error and the database is as before; in particular an empty transaction commits, and a conflict is a filter that does not select one row |
| Databases.ReplayedUpdateIsExact | crates/wasm-dbms/wasm-dbms/src/database.rs:1486-1499 | A replayed update rewrites exactly the rows that still are captured versions, each stored once, and tables that do not reference this one are unchanged; with no captured rows nothing changes |
| Databases.ReplayedDeleteIsExact | crates/wasm-dbms/wasm-dbms/src/database.rs:1473-1485 | A replayed delete removes exactly the rows that still are captured versions; with no captured rows nothing changes |
| Allocator.AllocatorConservation | crates/wasm-dbms/wasm-dbms-memory/src/memory_access.rs:42-61 | From an empty provider, after any run of claims, releases (rejected ones too), writes and reopens by callers that touch only their pages: reserved, held and free pages partition the memory, the stored ledger is the free list, free pages are zero |
| Allocator.RunRealizes | crates/wasm-dbms/wasm-dbms-memory/src/memory_access.rs:42-61 | The same from any state, with the answers of a stack allocator |
| Allocator.StepRealizes | crates/wasm-dbms/wasm-dbms-memory/src/memory_access.rs:42-61 | One operation on the bytes is one step of the stack allocator |
| Allocator.ClaimHandsOut | crates/wasm-dbms/wasm-dbms-memory/src/memory_access.rs:42-51 | A claimed page is not reserved, was not held, and is all zero |
| Allocator.GrownPageIsNew | crates/wasm-dbms/wasm-dbms-memory/src/memory_manager.rs:147-160 | Growing hands out the page it added if and only if its number fits 32 bits |
| Allocator.WrappedGrowthHandsOutSchemaPage | crates/wasm-dbms/wasm-dbms-memory/src/memory_manager.rs:77-83 | With all 32-bit page numbers in use, growing hands out and scrubs the schema page |
| Allocator.LedgerWritten | crates/wasm-dbms/wasm-dbms-memory/src/memory_manager.rs:206-241 | A ledger that fits is read back whatever its page held before, and no other page changes |
| Allocator.PageZeroed | crates/wasm-dbms/wasm-dbms-memory/src/memory_manager.rs:162-175 | Zeroing scrubs the whole page and nothing else |
| Allocator.MemoryManager.Claim | crates/wasm-dbms/wasm-dbms-memory/src/memory_access.rs:42-51 | Claiming in place is the specified change of the bytes |
| Allocator.MemoryManager.Unclaim | crates/wasm-dbms/wasm-dbms-memory/src/memory_access.rs:56-61 | Releasing in place is the specified change of the bytes; a full ledger rejects after scrubbing |
| Allocator.MemoryManager.constructor | crates/wasm-dbms/wasm-dbms-memory/src/memory_manager.rs:39-55 | Opening adds the reserved pages only when they are missing |
| UnclaimedPagesLedger.CapacityIsExact | crates/wasm-dbms/wasm-dbms-memory/src/unclaimed_pages.rs:28-32 | A ledger fits a 16-bit size exactly up to the capacity, and then fits its page with padding |
| UnclaimedPagesLedger.DecodeOfEncode | crates/wasm-dbms/wasm-dbms-memory/src/unclaimed_pages.rs:94-128 | Decoding an encoded ledger returns it, whatever stale bytes follow |
| UnclaimedPagesLedger.DecodeOfZeros | crates/wasm-dbms/wasm-dbms-memory/src/unclaimed_pages.rs:103-128 | A page of zeros is the empty ledger |
| UnclaimedPagesLedger.EncodeLedger | crates/wasm-dbms/wasm-dbms-memory/src/unclaimed_pages.rs:94-101 | The encoding loop writes the count and the entries |
| UnclaimedPagesLedger.LedgerFormat | crates/wasm-dbms/wasm-dbms-memory/src/unclaimed_pages.rs:94-101 | The bytes of a ledger: the count and the pages, four bytes each, little-endian |
| UnclaimedPagesLedger.AlignUpIs | crates/wasm-dbms/wasm-dbms-memory/src/unclaimed_pages.rs:28-32 | Padding goes up to the next multiple of 32 |
| UnclaimedPagesLedger.Ledger.Push | crates/wasm-dbms/wasm-dbms-memory/src/unclaimed_pages.rs:74-82 | Pushes on top, or is rejected exactly at capacity |
| UnclaimedPagesLedger.Ledger.Pop | crates/wasm-dbms/wasm-dbms-memory/src/unclaimed_pages.rs:65-67 | Pops the last page pushed, or nothing from an empty ledger |
| PagedMemories.PagedMemory.Read | crates/wasm-dbms/wasm-dbms-bench/src/provider.rs:40-64 | The chunk loop reads across page boundaries what the flat memory holds, misses no page, and fails out of bounds |
| PagedMemories.PagedMemory.Write | crates/wasm-dbms/wasm-dbms-bench/src/provider.rs:66-93 | The chunk loop writes what the flat memory writes |
| PagedMemories.PagedMemory.Grow | crates/wasm-dbms/wasm-dbms-bench/src/provider.rs:30-38 | Pages stay exactly those below the count, and new pages are zero |
| PagedMemories.PagedRun | crates/wasm-dbms/wasm-dbms-bench/src/provider.rs:30-93 | Any run on the page-keyed memory answers as the flat memory does and ends with the same bytes |
| PagedMemories.RunBoth | crates/wasm-dbms/wasm-dbms-memory/src/provider.rs:62-107 | The two providers, started with the same bytes, answer alike over every run that fits 64 bits and stay equal |
| LexerRoundTrip.RoundTrip | crates/wasm-dbms/wasm-dbms-sql/src/lexer.rs:190-203 | Tokenizing a printed document (any spelling of each token, whitespace or comments between tokens) succeeds and returns its tokens and one final end marker if and only if no minus sign is directly followed by a line comment |
| LexerRoundTrip.LexDocument | crates/wasm-dbms/wasm-dbms-sql/src/lexer.rs:190-203 | For every printable document the exact lexemes with their offsets; a minus sign directly before a line comment is swallowed by it |
| LexerRoundTrip.MinusBeforeLineComment | crates/wasm-dbms/wasm-dbms-sql/src/lexer.rs:263-267 | The exception is real: a minus sign before a line comment prints to a text without tokens |
| LexerRoundTrip.LexTiles | crates/wasm-dbms/wasm-dbms-sql/src/lexer.rs:190-403 | Every text that tokenizes is covered in order by spelled tokens and trivia, with one end marker at its end |
| Lexing.TokenIsSpelled | crates/wasm-dbms/wasm-dbms-sql/src/lexer.rs:293-403 | The characters a token was read from are a spelling of it |
| Lexing.SpellingIsRead | crates/wasm-dbms/wasm-dbms-sql/src/lexer.rs:293-403 | A spelling followed by a separator or the end of the text is read back as its token |
| Lexing.ErrorIsExplained | crates/wasm-dbms/wasm-dbms-sql/src/lexer.rs:257-378 | A text is refused only for a reason visible where the error points: an unclosed comment, string or identifier, an empty identifier, a malformed or oversized number, a backtick, a named placeholder, or a character that starts nothing |
| Lexing.QuotedIsDoubled | crates/wasm-dbms/wasm-dbms-sql/src/lexer.rs:338-353 | What a quoted token covers is its content with doubled quotes, and the closing quote |
| Lexing.QuotedReadsDoubled | crates/wasm-dbms/wasm-dbms-sql/src/lexer.rs:338-353 | Content with doubled quotes is read back |
| Lexing.SpellingFindsKeyword | crates/wasm-dbms/wasm-dbms-sql/src/lexer.rs:51-56 | A reserved word in any case is found as itself |
| Lexing.CharacterClasses | crates/wasm-dbms/wasm-dbms-sql/src/lexer.rs:257-403 | Whitespace, digits, word characters and case folding by code point |
| Tokens.PositionIsTrue | crates/wasm-dbms/wasm-dbms-sql/src/lexer.rs:231-241 | The counted position is the true line and column: lines end at newlines, columns count characters since |
| Lexers.Tokenize | crates/wasm-dbms/wasm-dbms-sql/src/lexer.rs:190-203 | The loop returns the specified tokens, each with the line and column of its first character, or the first error at the position of its construct; it terminates on every text |
| Lexers.Lexer.Bump | crates/wasm-dbms/wasm-dbms-sql/src/lexer.rs:231-241 | Consumes one character and keeps line and column true |
| Lexers.Lexer.SkipTrivia | crates/wasm-dbms/wasm-dbms-sql/src/lexer.rs:257-272 | The loop stops after whitespace and comments, or reports an unterminated comment at its start |
| Lexers.Lexer.SkipBlockComment | crates/wasm-dbms/wasm-dbms-sql/src/lexer.rs:274-291 | Stops after the first terminator |
| Lexers.Lexer.NextToken | crates/wasm-dbms/wasm-dbms-sql/src/lexer.rs:293-335 | Reads the specified token or reports the specified error |
| Lexers.Lexer.Quoted | crates/wasm-dbms/wasm-dbms-sql/src/lexer.rs:338-353 | The loop returns the content with doubled quotes undone |
| Lexers.Lexer.Number | crates/wasm-dbms/wasm-dbms-sql/src/lexer.rs:356-378 | Integers, decimals, malformed and oversized numbers |
| Lexers.Lexer.Word | crates/wasm-dbms/wasm-dbms-sql/src/lexer.rs:390-403 | Reads the longest word; a keyword in any case, else an identifier |

## Left out

- The store adapter, host bindings, file-backed providers and the example guest: foreign calls and I/O.
- Error message texts: errors that differ only in their text are told apart by a constructor each, or merged.
- Refused allocations while opening and inside a flush: a flush that cannot allocate is the case of no page written; opening is modelled with memory available.
- The free-segment and page ledgers: the record store is a map from address to row that may fail to write at any time.
- TableRegistries.TableRegistry.LedgerDelete: an index is a multiset of entries; the search in the tree and along its leaves is not modelled.
- TableRegistries.TableRegistry.LedgerUpdate: the same multiset in place of the tree.
- Databases.Database.End: restores a saved copy of the tables; Journals.RollbackIff proves on bytes when the undo records give that copy back, but the layout of tables in bytes is not modelled.
- Databases.Database.Insert: the values are those after auto-increment columns are filled; the journal is a saved copy of the tables.
- Databases.Database.Update: the work on referencing tables is a function that fails or changes them alone, their rows are not counted, and a chain of references that leads back to the same table is not covered; the journal is a saved copy.
- Databases.Database.Delete: the same about referencing tables and the journal.
- Databases.Database.Replay: the same about referencing tables.
- Databases.Database.Commit: the failure half rests on the saved copy of the tables.
- Databases.CaptureRows: captures stored rows, as the first operation of a transaction does; Stagings.CaptureVisible captures the rows that later ones see.
- Databases.CollectRecords: the access planner is any choice of candidates that its check completes to the filter.
- Transactions.Transaction.Update: the overlay is its list of operations; the overlay of the indexes is not modelled.
- Transactions.Transaction.Delete: the same about the overlay of the indexes.
- StagedRuns.SelfConflictIff: a transaction that also updates or deletes rows of tables which this table references is not covered, as the work on referencing rows is arbitrary; neither is a primary key with a sanitizer that changes sanitized keys again.
- StagedRuns.CommitFollowsOverlay: the same about referenced tables and key sanitizers.
- StagedRuns.ConflictIffAltered: the same.
- StagedRuns.NoSelfConflict: the same.
- JoinQueries.LoadRightRows: a select returns the matching rows in table order, which a covering or indexed read of the right table may not do.
- JoinQueries.JoinTables: the same about the order of selects.
- JoinQueries.Execute: the same about the order of selects; the filter on joined rows is any function that may fail.
- Filters.MatchesSeesItsColumns: pattern and JSON filters, which can fail, are not among the filters on single rows.
- CoveringReads.CoveringEqualsScan: the planned range is any that contains every matching entry; how the planner finds it is not modelled.
- Eager relations, distinct and aggregates, migrations, drift checks, SQL parsing and planning after the lexer: no property here needs them.
- Sorting.SortRows: about the rows the loop receives; PlainSelects.SelectThenSort says what that means for the stored rows.
- PagedMemories.RunBoth: runs whose offsets, lengths and sizes fit 64 bits; sums beyond that are not modelled.
- CoveringReads.CoveringPage: an index with more entries than the host word can count is not modelled.
- Allocator.AllocatorConservation: holds while all page numbers fit 32 bits, which is where the code stops keeping it.
- Keywords are modelled by their spelling, and keyword variants are not named.
