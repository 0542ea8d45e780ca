# A retrieval-augmented question answerer over project documents, in Dafny

The system answers questions about a software project from its documentation.
Its ETL stage (`process_documents`) walks a data directory. It hands every file
whose lower-cased extension appears in `LOADER_MAPPING` to that loader, and
collects the documents in walk order, skipping files whose loader raises. If
nothing was collected it stops. Otherwise it splits the documents into chunks
and indexes them in a vector index; if building the index fails it raises
before the table is touched. It then replaces the content of the
PostgreSQL table `document_chunks` with one row per chunk, where row
`faiss_index = i` holds chunk `i`.

Its query stage runs a chat loop. The loop leaves on `sair`, `exit` or `quit`
(compared after lower-casing only), skips blank lines and treats every other
line as a question. For a question, `search_documents` takes the ids of the
nearest chunks. It answers "no relevant document" when none of them is
non-zero. Otherwise it fetches the rows whose `faiss_index` is one of the ids
(`IN`), joins them into a context and asks the hosted model with a fixed
prompt. If that call raises, the error message becomes the answer.

Modules:

- `Wrappers` holds the `Option` type.
- `Text` covers `str.lower`, `str.isspace`/`strip`, `rfind` and `join`.
- `Paths` covers POSIX `os.path.splitext` and `os.path.join`.
- `ChunkStore` holds the documents and the table. The table is a class with
  committed rows and the rows of the open transaction, and it enforces
  `VARCHAR(512)`, `INTEGER`, `UNIQUE` and the end of the `id SERIAL`
  sequence.
- `EtlOrchestrator` holds the loader table, the collection loops, the
  persistence loop and `process_documents`.
- `QueryHandler` holds the prompt, the guard, the `IN` join, the context,
  the input classification and the chat loop.

The loaders, the splitter, the vector search and the hosted model are
function-typed parameters. Every property is proved for all of them.

## Model

| member | source | states |
|---|---|---|
| Text.LastIndex | etl_orchestrator.py:62 | the last position of a character, or -1: the character is there and nowhere after it |
| Text.LastIndexConcat | etl_orchestrator.py:61-62 | the last occurrence in a concatenation is in the second part if it occurs there, else in the first |
| Text.JoinAppend | query_handler.py:80 | joining two non-empty lists equals joining their joins with one separator between |
| Text.JoinLength | query_handler.py:80 | the joined text's length is the parts' total length plus one separator per gap (length only) |
| Text.JoinStartsWithFirst | query_handler.py:80 | the joined text begins with the first part |
| Text.OffsetNext | query_handler.py:80 | each part starts one separator after the end of the previous one |
| Text.JoinPart | query_handler.py:80 | the joined text holds part `i`, unchanged, at its offset |
| Text.JoinSeparator | query_handler.py:80 | between part `i` and part `i + 1` the joined text holds exactly the separator |
| Text.JoinEnd | query_handler.py:80 | the joined text ends where the last part ends: nothing follows it |
| Paths.SplitExt | etl_orchestrator.py:62 | `os.path.splitext`: root and extension concatenate back to the path |
| Paths.Ext | etl_orchestrator.py:62 | the extension is a suffix of the path and is empty or starts with a dot |
| Paths.ExtIsExtension | etl_orchestrator.py:62 | a non-empty extension is a dotted final suffix with no dot or separator after the dot, preceded in the last component by a character that is not a dot |
| Paths.ExtUnique | etl_orchestrator.py:62 | any suffix of that shape is the extension `splitext` finds, so the extension is unique |
| Paths.StemExtension | etl_orchestrator.py:62 | a stem without separators, then a dot and ordinary characters: that dotted suffix is the extension |
| Paths.LeadingDotIsNotExtension | etl_orchestrator.py:62 | a hidden name whose only dot is its first character has no extension |
| Paths.ExtAfterSeparator | etl_orchestrator.py:61-62 | a directory prefix ending in `/` does not change the extension of the name after it |
| Paths.ExtOfJoinedPath | etl_orchestrator.py:61-62 | the joined path the loader receives has the same extension as the file name that selected it |
| Paths.ExtOfLower | etl_orchestrator.py:62 | lower-casing commutes with taking the extension |
| Paths.JoinPath | etl_orchestrator.py:61 | `os.path.join`: the name ends the path; an absolute name replaces the root; otherwise the root is a prefix, followed directly by the name when it is empty or ends in `/`, else by exactly one `/` |
| ChunkStore.StoreVarchar | etl_orchestrator.py:43 | `VARCHAR(512)`: a fitting string is stored unchanged; a longer one is accepted exactly when its excess is all spaces and then stored cut to 512 characters; otherwise refused |
| ChunkStore.ChunkTable.constructor | etl_orchestrator.py:41-47 | the created table is empty, valid and has no open changes, and its `id SERIAL` sequence starts at 1 |
| ChunkStore.ChunkTable.Truncate | etl_orchestrator.py:96 | `TRUNCATE … RESTART IDENTITY`: the transaction sees an empty table and the `id` sequence back at 1; committed rows and sequence unchanged |
| ChunkStore.ChunkTable.Insert | etl_orchestrator.py:100-103 | accepted iff the `id SERIAL` sequence (an `INTEGER` sequence) still has a value, the source fits `VARCHAR(512)`, the index is in `INTEGER` range and not yet present (`UNIQUE`); an accepted row is appended and the sequence advances, a refused insert changes nothing |
| ChunkStore.ChunkTable.Commit | etl_orchestrator.py:104 | the committed rows and sequence become the transaction's |
| ChunkStore.ChunkTable.Rollback | etl_orchestrator.py:108-110 | the transaction is left uncommitted and the server aborts it, so its changes, the sequence restart included, are dropped and the committed rows stay |
| EtlOrchestrator.LoaderFor | etl_orchestrator.py:62-64 | a loader is chosen iff the lower-cased extension is a key of `LOADER_MAPPING`, and it is that key's loader; a chosen file has a genuine extension |
| EtlOrchestrator.LoadFile | etl_orchestrator.py:61-69 | no loader: nothing; the loader, called on the joined path, returns documents: exactly those; it raises: nothing |
| EtlOrchestrator.CollectDir | etl_orchestrator.py:60-69 | the inner loop collects the contributions of a directory's files in listing order |
| EtlOrchestrator.CollectDocuments | etl_orchestrator.py:59-69 | the outer loop collects every directory's contributions in walk order |
| EtlOrchestrator.ChunkRow | etl_orchestrator.py:97-103 | the row of chunk `i` has index `i`, the chunk's text unchanged, and its `source` metadata (cut to 512 characters when longer) or `desconhecido` |
| EtlOrchestrator.ChunkRows | etl_orchestrator.py:97-103 | one row per chunk, row `i` with index `i` and chunk `i`'s text |
| EtlOrchestrator.ChunkRowsStep | etl_orchestrator.py:97-103 | one more chunk appends its own row at the end |
| EtlOrchestrator.Persist | etl_orchestrator.py:92-110 | succeeds iff every chunk's source fits its column and there are at most 2147483647 chunks (the restarted `id` sequence's values); on success the table is exactly row `i` for chunk `i` and the sequence is past the last row; on failure the previous content and sequence stay |
| EtlOrchestrator.ProcessDocuments | etl_orchestrator.py:56-110 | no index and the table untouched iff nothing was collected, or when building the index fails (always for no chunks); otherwise the index is the split chunks and the table mirrors them, or keeps its old rows when persistence fails |
| EtlOrchestrator.LoaderMappingKeys | etl_orchestrator.py:26-31 | the loader table has exactly the thirteen extensions |
| EtlOrchestrator.SelectionIgnoresCase | etl_orchestrator.py:62-63 | names equal after lower-casing get the same loader |
| EtlOrchestrator.NoExtensionNoLoader | etl_orchestrator.py:62-63 | a name without extension gets no loader |
| EtlOrchestrator.UpperCaseExtensionSelected | etl_orchestrator.py:62-64 | `README.MD` goes to the Markdown loader |
| EtlOrchestrator.LastExtensionSelects | etl_orchestrator.py:62-64 | `settings.ini.example` goes to the code loader through `.example` |
| EtlOrchestrator.UnknownExtensionSkipped | etl_orchestrator.py:62-63 | `notes.csv` has no loader |
| EtlOrchestrator.HiddenFileSkipped | etl_orchestrator.py:62-63 | `.yml` has no extension and no loader |
| EtlOrchestrator.DirDocsStep | etl_orchestrator.py:60-67 | one more file appends exactly its contribution |
| EtlOrchestrator.DirDocsAppend | etl_orchestrator.py:60-67 | a directory's documents split along its file list |
| EtlOrchestrator.WalkDocsAppend | etl_orchestrator.py:59-67 | the walk's documents split along the walk |
| EtlOrchestrator.FileInWalk | etl_orchestrator.py:59-67 | a file's documents sit after every earlier file's and before every later file's |
| EtlOrchestrator.EntryInWalk | etl_orchestrator.py:59-67 | a directory's documents sit between those of the directories walked before and after it |
| EtlOrchestrator.FileInDir | etl_orchestrator.py:60-67 | within a directory, a file's documents sit between those of the files listed before and after it |
| EtlOrchestrator.LoadedFileContributes | etl_orchestrator.py:63-67 | a selected file whose loader returns documents contributes exactly those documents |
| EtlOrchestrator.FailedLoadContributesNothing | etl_orchestrator.py:65-69 | a file whose loader raises contributes nothing |
| EtlOrchestrator.UnselectedFileContributesNothing | etl_orchestrator.py:63 | a file without a loader contributes nothing, whatever the loaders do |
| EtlOrchestrator.SkippedFileIsTransparent | etl_orchestrator.py:63-69 | a skipped file changes nothing for the files around it |
| EtlOrchestrator.DirDocsEmpty | etl_orchestrator.py:71-73 | a directory yields nothing iff none of its files contributes |
| EtlOrchestrator.NothingCollected | etl_orchestrator.py:71-73 | the run stops before splitting iff no file of the walk contributed |
| EtlOrchestrator.PersistedIndices | etl_orchestrator.py:97-103 | persisted indices are exactly `0..n-1`, row `i` has index `i`, all distinct |
| QueryHandler.PromptLayout | query_handler.py:36-47 | the prompt starts with the fixed instructions, holds the context at a fixed offset and the question after the fixed middle text, and ends with the fixed closing text |
| QueryHandler.GenerateAnswer | query_handler.py:48-52 | the model's text when the call succeeds; when it raises, the fixed error prefix followed by the error message |
| QueryHandler.GenerateAnswerSeesOnlyPrompt | query_handler.py:48-52 | the answer depends only on the model's reply to the prompt |
| QueryHandler.AnyNonZero | query_handler.py:65 | `ids.any()` holds iff some id is non-zero |
| QueryHandler.SelectIn | query_handler.py:73-75 | `IN`: a row is fetched iff it is in the table and its index is one of the ids; no row more often than stored |
| QueryHandler.Context | query_handler.py:80 | empty iff nothing was fetched; otherwise each row's segment at its offset, exactly `\n\n` between neighbours, nothing after the last |
| QueryHandler.SearchDocuments | query_handler.py:63-82 | all-zero ids answer "no relevant document" whatever the table and the model; otherwise the answer is the model's answer on the context of the rows whose index is one of the ids |
| QueryHandler.MissingIdsPassTheGuard | query_handler.py:65-68 | ids all `-1` pass the guard, fetch nothing, and the model gets an empty context |
| QueryHandler.NearestChunkZeroIsNoResult | query_handler.py:65-66 | with the single id 0 the answer is "no relevant document" though row 0 exists |
| QueryHandler.SelectInIgnoresRepeats | query_handler.py:68-75 | the fetched rows depend only on the set of ids |
| QueryHandler.SelectInNone | query_handler.py:73-75 | no row with a requested index means nothing is fetched |
| QueryHandler.SelectInAppend | query_handler.py:73-75 | the join distributes over a split of the table |
| QueryHandler.IdsInRangeStep | query_handler.py:68-75 | one more table position adds one requested id exactly when that position is requested |
| QueryHandler.SelectInCount | query_handler.py:73-75 | on a table indexed by position the join fetches one row per distinct id in range |
| QueryHandler.FetchedCountAfterEtl | query_handler.py:73-80 | after the ETL stage the context has one segment per distinct id naming a chunk |
| QueryHandler.FetchedRowsAreIndexedChunks | query_handler.py:73-75 | after the ETL stage every fetched row is the row of the chunk its requested id names |
| QueryHandler.SegmentLayout | query_handler.py:80 | a segment starts with the fixed prefix and the source and ends with the chunk text |
| QueryHandler.Classify | query_handler.py:103-108 | exit iff the lower-cased line is an exit word; skipped iff the line is blank, although exit words are checked first; otherwise asked as typed |
| QueryHandler.AskedQueries | query_handler.py:100-111 | each asked question is an input line, neither blank nor an exit word; no more questions than lines |
| QueryHandler.ChatLoop | query_handler.py:100-111 | the loop asks exactly the questions before the first exit word, skipping blank lines, each answered by `search_documents` with `top_k = 5` and the hosted model's reply to that question's own call |
| QueryHandler.AnswerLines | query_handler.py:100-111 | the `while True` loop itself: it asks exactly the questions before the first exit word, skipping blank lines, and answer `k` is what the given answering step returns for question `k`, told its number |
| QueryHandler.BlankIsNeverExit | query_handler.py:103-108 | a blank line, lower-cased, is never an exit word |
| QueryHandler.AskedQueriesHead | query_handler.py:100-111 | an exit line ends the session, a blank line adds nothing, any other line is asked first |
| QueryHandler.AskedQueriesStep | query_handler.py:100-111 | the same for line `i` and the lines after it |
| QueryHandler.PaddedExitIsAQuestion | query_handler.py:103 | a line containing whitespace is never an exit |
| QueryHandler.ExitIgnoresCase | query_handler.py:103 | exit words are recognised in any letter case |
| QueryHandler.ExitExamples | query_handler.py:103-108 | `SAIR` exits; `exit ` is asked as a question |
| QueryHandler.AskedQueriesAppend | query_handler.py:100-111 | lines after an exit word are never asked |

## Left out

- Lower-casing covers ASCII letters only. Among all non-ASCII characters, only U+212A lowers to a single ASCII letter (`k`). No extension key and no exit word contains `k`, so selection and exit detection are exact.
- The loaders, the text splitter (`chunk_size=1200`, `chunk_overlap=200`), the embedding model and the vector search are parameters. The index is represented by its chunks in index order.
- The hosted model (`gemini-1.5-flash`) is a parameter: for one call, any function from the prompt to a text or an error. `QueryHandler.ChatLoop` takes one such function per question, so a repeated question may get a different reply, and a call may fail while the next succeeds.
- The database connection, the environment variables and connection failures are not modelled. The constructor stands for a table that `CREATE TABLE IF NOT EXISTS` has just created. When the table already exists, `setup_database` keeps it and its rows. `EtlOrchestrator.ProcessDocuments` therefore starts from any valid table with no open changes, so that case is covered too. The `id` values themselves and the `created_at` column are not stored in the rows, since nothing reads them. The `id SERIAL` sequence is modelled, because it limits how many rows an insert accepts.
- A `NUL` character in a chunk's text, which PostgreSQL refuses, is not modelled.
- QueryHandler.SelectIn: PostgreSQL promises no order for `IN` results; the model returns storage order. The count and content lemmas do not depend on order.
- QueryHandler.ChatLoop: `print`, `input`, `KeyboardInterrupt` and `EOFError` are not modelled; end of input is the end of the line list. An exception raised by `search_documents`, for example from the database, is not modelled.
- QueryHandler.ChatLoop does not require the vector search to return exactly `top_k` ids.
- ChunkStore.ChunkTable.Insert: a refused insert leaves the sequence where it was. Whether PostgreSQL had already drawn a value is not modelled: in `process_documents` a refusal always ends the transaction, which also undoes the sequence restart.
- EtlOrchestrator.ProcessDocuments: embedding the chunks and saving the index are a parameter that says whether they succeed; the model adds only that they fail on an empty chunk list, since `FAISS.from_documents` reads the first embedding. Such a failure raises before the table is touched: the model reports `IndexFailed` with no index and the table unchanged, and does not model the exception itself.
- EtlOrchestrator.ProcessDocuments: the vector index is written to disk before the table. When persistence fails, the index on disk is the new one while the table keeps its old rows. The model reports this as `PersistFailed` with the new index; it does not model the re-raised exception or the log lines.
- `os.walk` order and directory traversal are inputs: the walk is given as a list of directories with their file names.
