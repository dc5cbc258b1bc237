# A Dafny model of the FULLCOUNT natural-language baseball query app

FULLCOUNT answers baseball questions in plain English. The web page sends
the question, and the last SQL it received, to an API. The API asks a chat
model for DuckDB SQL, strips white space and removes code fences and semicolons from the answer, runs it
read-only against a DuckDB file of views over Parquet data, and returns the
rows as records. The page then shows the rows as a sortable table, or as a
bar chart when the rows are label/number pairs. Offline jobs build the
Parquet data and the DuckDB views. One of them merges the sixteen shards
of the Chadwick player register and uploads the result to an object store.

This project models that core as pure functions over immutable data:

- `common.dfy` (`Common`): the shared data.
  - Cells are null, not-a-number, integer, string or boolean.
  - Records are ordered name/value pairs; frames are named columns and rows.
  - It also holds an option and an outcome type, the subsequence relation
    and a filter.
- `result_view.dfy` (`ResultView`): the page's view logic.
  - Choosing a chart or a table.
  - The row comparator and the sorted view of the result.
  - Toggling the sort direction.
  - Submitting a question, including the request body and the error path.
  - Resetting.
- `prompt.dfy` (`Prompt`): the fixed system prompt, line by line.
- `sql_generator.dfy` (`SqlGenerator`):
  - the two chat messages;
  - Python's `strip` and left-to-right `replace`;
  - the answer sanitiser;
  - the fallback query on failure.
- `query_executor.dfy` (`QueryExecutor`): running a query.
  - Every failure path gives an empty result.
  - Not-a-number becomes null.
  - Rows become records.
  - The connection's open/execute/close trace is recorded.
- `uploader.dfy` (`Uploader`): the upload decision. An empty frame is skipped.
- `player_map.dfy` (`PlayerMap`): the player-map job.
  - Shard URLs and skipping failed downloads.
  - Concatenating and projecting the shards onto the four required columns.
  - Dropping rows without both keys.
  - The integer cast, and the upload.
- `view_catalog.dfy` (`ViewCatalog`): the database initialiser as a catalog.
  - The catalog maps view names to definitions.
  - Three drop-then-create steps run inside one `try`.

External effects are function-typed parameters:

| effect | parameter |
|---|---|
| page's `fetch` | `Request -> FetchOutcome` |
| chat completion | `seq<Message> -> Completion` |
| query engine | `string -> Outcome<Table>` |
| CSV download | `string -> Outcome<Table>` |
| `read_parquet` binding check | `string -> bool` |

Whether the database file exists and whether a connection opens are boolean
parameters.

## Model

| member | source | states |
|---|---|---|
| ResultView.VisualizationType | frontend/app/page.tsx:12-26 | A missing or empty result is a table. Otherwise it is a bar chart exactly when the first row has two fields, the first a string and the second a number (JS counts NaN as a number). |
| ResultView.VisualizationIgnoresLaterRows | frontend/app/page.tsx:16-25 | Only the first row decides the visualisation: results with the same first row get the same choice. |
| ResultView.Get | frontend/app/page.tsx:84-85 | A row lookup is absent exactly when no field has the key. Otherwise it is the value of a field with that key. |
| ResultView.CodeUnits | frontend/app/page.tsx:88-91 | A character is one or two code units. Below U+10000 it is one unit, itself. Otherwise it is a high surrogate followed by a low surrogate that together encode the code point, as JavaScript strings store it. |
| ResultView.Utf16RoundTrip | frontend/app/page.tsx:88-91 | Decoding a string's UTF-16 code units gives back its characters, so comparing code units compares the strings themselves. |
| ResultView.SupplementaryBelowLastBmp | frontend/app/page.tsx:88-91 | A character above U+FFFF sorts below U+FFFF, as JavaScript's `<` orders them, although its code point is larger. |
| ResultView.Compare | frontend/app/page.tsx:83-95 | The comparator returns -1, 0 or 1. A row whose value is null or absent sorts after the other (1). A present value sorts before a null or absent one (-1). |
| ResultView.Insert | frontend/app/page.tsx:83-95 | One insertion step of the sort adds exactly one row, and the result holds exactly that row and the rows it was inserted into. |
| ResultView.InsertPosition | frontend/app/page.tsx:83-95 | The inserted row lands after the leading rows it does not compare below, immediately before the first row it does. A later row it does not compare below may still follow it. The other rows keep their order, so the sort is stable. |
| ResultView.StrLessAsymmetric | frontend/app/page.tsx:88-93 | JS string `<`, lexicographic on UTF-16 code units, never holds in both directions. |
| ResultView.StrLessTransitive | frontend/app/page.tsx:88-93 | JS string `<` on UTF-16 code units is transitive. |
| ResultView.PrecedesAsymmetric | frontend/app/page.tsx:88-93 | The strict order the comparator applies in either direction is asymmetric. |
| ResultView.PrecedesTransitive | frontend/app/page.tsx:88-93 | The strict order the comparator applies in either direction is transitive. |
| ResultView.InsertPermutes | frontend/app/page.tsx:83-95 | Inserting a row into the sorted prefix adds exactly that row to the multiset. |
| ResultView.InsertSorted | frontend/app/page.tsx:83-95 | Inserting a row into a list ordered by the comparator keeps it ordered. |
| ResultView.SortRows | frontend/app/page.tsx:81-95 | Sorting the rows with the comparator keeps their count and exactly their rows. Permutation and order are stated by the next two rows. |
| ResultView.SortRowsPermutes | frontend/app/page.tsx:81-95 | Sorting returns a permutation of the result rows: the same multiset and the same length. |
| ResultView.SortRowsOrders | frontend/app/page.tsx:83-95 | In the sorted rows no row is preceded by one it must precede: the ascending or descending order wherever `<` or `>` decides, and null or absent values only behind other null or absent values. |
| ResultView.SortedResults | frontend/app/page.tsx:76-98 | The view is empty without a result. Without a sort it is the result's rows in API order. |
| ResultView.SortedResultsArePermutation | frontend/app/page.tsx:76-98 | The displayed rows are a permutation of the result's rows. Under a sort they are ordered by the comparator. |
| ResultView.HandleSort | frontend/app/page.tsx:100-106 | After a click on a column the sort uses that column. It is descending exactly when the previous sort was ascending on the same column. Nothing but the sort changes. |
| ResultView.HandleSortAlternates | frontend/app/page.tsx:100-106 | Clicking the same column again flips the direction, and a third click returns to the state after the first. |
| ResultView.DecimalString | frontend/app/page.tsx:54 | The status text is non-empty, made only of decimal digits, and has no leading zero unless it is `0`. |
| ResultView.DecimalRoundTrip | frontend/app/page.tsx:54 | Reading back the status text gives the status code. |
| ResultView.SubmitRequest | frontend/app/page.tsx:38-46 | No request is made exactly when the question is blank after JS `trim`. The request carries the question verbatim. `previous_sql` is present exactly when there is a last result, and is then that result's SQL. |
| ResultView.BlankIffTrimEmpty | frontend/app/page.tsx:38 | `!question.trim()` holds exactly for blank questions, those made only of JavaScript white space; the page's blank test is this one. |
| ResultView.ErrorMessage | frontend/app/page.tsx:53-63 | A failure always yields a non-empty message. A response that is not ok gives `API request failed with status ` followed by decimal digits, without a leading zero, that read back as the status. A thrown error shows its own non-empty message, and an empty one gives `An unexpected error occurred.`. |
| ResultView.BeginSubmit | frontend/app/page.tsx:39-40 | Submitting sets loading and clears the error, and nothing else. |
| ResultView.FinishSubmit | frontend/app/page.tsx:53-66 | Settling a request ends loading. An ok response stores the data and clears the question and the sort, leaving the error as it was. Any other outcome records its error message and keeps the result, question and sort. |
| ResultView.HandleSubmit | frontend/app/page.tsx:36-67 | A blank question changes nothing. Otherwise loading ends false. A 2xx response stores the data, clears the question and the sort, and leaves no error. Any other outcome sets a non-empty error and keeps the last result, the question and the sort. |
| ResultView.SubmitThenResubmit | frontend/app/page.tsx:36-67 | After a failure, a retry posts the same body. After a success, the next question is sent as a follow-up of the SQL just received. |
| ResultView.SubmitShowsResultUnsorted | frontend/app/page.tsx:57-59 | A fresh result is displayed in the order the API returned it. |
| ResultView.HandleReset | frontend/app/page.tsx:69-74 | Reset clears the result, question, error and sort. The loading flag is kept. |
| ResultView.ResetStartsOver | frontend/app/page.tsx:69-108 | After a reset, no rows are displayed, the visualisation is a table, and the next question is sent with no previous SQL. |
| SqlGenerator.Strip | api/sql_generator.py:108 | `str.strip()` returns a slice of its input. Only whitespace is cut from either end. The result neither starts nor ends with whitespace. It is empty exactly when the input is all whitespace. |
| SqlGenerator.RemoveAll | api/sql_generator.py:108 | `str.replace(pat, "")` never lengthens the text, keeps only characters of its input, and leaves text shorter than the pattern unchanged. |
| SqlGenerator.RemoveAllDeletes | api/sql_generator.py:108 | `str.replace(pat, "")` only deletes characters: its result is a subsequence of its input. |
| SqlGenerator.RemoveAllAbsent | api/sql_generator.py:108 | Replacing a pattern that does not occur changes nothing. |
| SqlGenerator.RemoveAllChar | api/sql_generator.py:108 | Removing a one-character pattern leaves no occurrence of that character. |
| SqlGenerator.Sanitize | api/sql_generator.py:108 | The cleaned SQL never contains a semicolon. |
| SqlGenerator.SanitizeDeletesOnly | api/sql_generator.py:108 | The cleaned SQL is the stripped answer with characters deleted, never added or reordered. |
| SqlGenerator.SanitizeKeepsCleanAnswer | api/sql_generator.py:108 | An answer without backticks or semicolons comes back exactly as stripped. |
| SqlGenerator.SanitizeCanLeaveFence | api/sql_generator.py:108 | The replacement order is fixed. A semicolon inside a fence is removed last, so ``` ``;` ``` and ``` ``;`sql ``` come out as a bare fence. |
| SqlGenerator.ShownPrevious | api/sql_generator.py:103 | A non-empty previous query is shown verbatim. A missing or empty one is shown as `None`, as Python truthiness decides. |
| SqlGenerator.UserMessage | api/sql_generator.py:103 | The user message is, in order, the `Previous SQL:` label with its backtick, the shown previous query, the closing backtick with the blank line and the `New Request:` label, and the question. |
| SqlGenerator.UserMessageSentinel | api/sql_generator.py:103 | No previous query, an empty one and the literal `None` give the same message. Different questions give different messages. |
| SqlGenerator.Messages | api/sql_generator.py:99-104 | Exactly two messages are sent: the constant system prompt, then the user message. |
| SqlGenerator.SystemMessageIsConstant | api/sql_generator.py:16-104 | The system message is the same for every question and every previous query. |
| SqlGenerator.NlToSql | api/sql_generator.py:12-114 | When building the HTTP or API client fails, before the `try`, the exception escapes. Otherwise an answered completion yields the sanitised answer, and a failed call or one without content yields the fallback query. |
| SqlGenerator.SemicolonMarksFailure | api/sql_generator.py:97-114 | When the function returns, the SQL contains a semicolon exactly when generation failed. |
| QueryExecutor.CleanCell | api/db_handler.py:37 | `replace({np.nan: None})` turns not-a-number into null and leaves every other value alone. |
| QueryExecutor.ToRecord | api/db_handler.py:40 | A row becomes a record whose i-th field is the i-th column with the i-th cleaned value. |
| QueryExecutor.ToRecords | api/db_handler.py:37-40 | There is one record per result row, in row order. |
| QueryExecutor.ExecuteQuery | api/db_handler.py:13-47 | A missing file gives no rows and no connection. A failed connect gives no rows. A failed statement gives no rows. A successful one gives one record per row, with every column in order and not-a-number as null. No not-a-number is ever returned. An opened connection is closed exactly once, last. |
| QueryExecutor.RecordsAreClean | api/db_handler.py:36-40 | Cleaning the returned records again changes nothing. |
| QueryExecutor.RecordsRoundTrip | api/db_handler.py:37-40 | Reading the records back gives the result table with not-a-number as null. Every record lists the columns in order. |
| Uploader.UploadTable | utils/r2_uploader.py:36-56 | A frame with no rows or no columns is not uploaded. Any other frame is put, unchanged, under the given key. |
| PlayerMap.Shards | etl/ingest_player_map.py:9 | The shards are `0`-`9` then `a`-`f`. |
| PlayerMap.ShardsAreHexDigits | etl/ingest_player_map.py:9 | There are sixteen shards, each one character, all distinct. |
| PlayerMap.ShardUrl | etl/ingest_player_map.py:23 | A shard's URL is the register base URL with `people-`, then the shard, then `.csv`. |
| PlayerMap.ShardUrlRoundTrip | etl/ingest_player_map.py:22-23 | The shard can be read back from its URL. Different shards have different URLs. |
| PlayerMap.Downloads | etl/ingest_player_map.py:22-25 | The sixteen downloads are attempted in shard order, each from its shard's URL. |
| PlayerMap.Loaded | etl/ingest_player_map.py:22-31 | The loaded frames are exactly the successful downloads. There are none exactly when every download failed. |
| PlayerMap.LoadedAppend | etl/ingest_player_map.py:22-29 | Loading distributes over concatenation of download lists, so order is kept. |
| PlayerMap.SkipsFailedShard | etl/ingest_player_map.py:24-29 | A failed shard is skipped: the loaded frames are those before it followed by those after it. |
| PlayerMap.AllShardsLoaded | etl/ingest_player_map.py:22-26 | When every download succeeds, every frame is loaded, in shard order. |
| PlayerMap.IndexOf | etl/ingest_player_map.py:39 | Finds the first column with the given name, or reports that no column has it. |
| PlayerMap.ProjectRow | etl/ingest_player_map.py:35-39 | A row is aligned to the four required columns. A required column the frame lacks is filled with not-a-number, as `concat` does. A column the frame has takes the row's value under the first column of that name. |
| PlayerMap.ProjectTable | etl/ingest_player_map.py:35-39 | A frame's projection is its rows, each projected, in the frame's order. |
| PlayerMap.ProjectedRows | etl/ingest_player_map.py:35-39 | Every combined row has exactly the four required columns. |
| PlayerMap.ProjectedRowsAppend | etl/ingest_player_map.py:35 | Combining distributes over the shard list: earlier shards' rows come first, each shard's rows in their own order. |
| PlayerMap.Assemble | etl/ingest_player_map.py:31-44 | No loaded frame means abort. A finished assembly's table has the four required columns. Its rows are exactly the combined rows that have both keys, in order and with their multiplicity, and each has an integer `key_mlbam`. It uploads under `player_map.parquet` exactly when rows remain. |
| PlayerMap.FetchAndUpload | etl/ingest_player_map.py:13-44 | The job aborts exactly when no shard loads. A finished run's table has the four required columns. Its rows are exactly the combined rows of the loaded shards that have both keys, in order and with their multiplicity, and each has an integer `key_mlbam`. It uploads under `player_map.parquet` exactly when rows remain. |
| PlayerMap.KeptRowsPerShard | etl/ingest_player_map.py:35-40 | Dropping rows after concatenating gives each shard's kept rows, concatenated in shard order. |
| PlayerMap.ProjectedKeysNumeric | etl/ingest_player_map.py:25-39 | When every shard reads `key_mlbam` as nullable integer, every combined row's `key_mlbam` is an integer or missing. |
| PlayerMap.CastIsTotal | etl/ingest_player_map.py:25-41 | When some shard loaded, every loaded shard reads `key_mlbam` as nullable integer, and the required columns occur, the assembly finishes: the cast cannot fail. |
| Common.Filter | etl/ingest_player_map.py:40 | The kept elements are exactly the input elements that pass the test. There are never more than the input. |
| Common.FilterIsSubsequence | etl/ingest_player_map.py:40 | Filtering keeps the relative order of the input. |
| Common.Trim | api/sql_generator.py:108 | Trimming returns the slice of the input between white-space ends. The result neither starts nor ends with white space. It is empty exactly when the input is all white space. This is used with Python's set for `strip` and JavaScript's set for `trim`. |
| ViewCatalog.DropIfExists | db/duckdb_init.py:21 | `DROP VIEW IF EXISTS` removes the name and leaves every other name alone. It is a no-op when the view is absent. |
| ViewCatalog.CreateView | db/duckdb_init.py:22 | `CREATE VIEW` succeeds exactly when the name is free and the files bind. It then adds that definition and touches nothing else. |
| ViewCatalog.RunSteps | db/duckdb_init.py:16-41 | The steps fail exactly at the first step whose files do not bind. A run without failure keeps every existing name and leaves every view name defined. |
| ViewCatalog.FirstUnreadable | db/duckdb_init.py:19-35 | Finds the first step whose files do not bind, with every earlier step binding. Otherwise every step binds. |
| ViewCatalog.RunStepsEffect | db/duckdb_init.py:16-41 | The run fails exactly at the first unbindable step. The views before it are recreated from the Parquet directory, its own view is left dropped, and later views and every other name are untouched. |
| ViewCatalog.Initialize | db/duckdb_init.py:16-41 | When the connection cannot be opened, the catalog is untouched and the failure is reported. |
| ViewCatalog.ViewNames | db/duckdb_init.py:19-35 | The initialiser manages exactly the names `v_statcast`, `v_lahman_people` and `v_player_map`. |
| ViewCatalog.AllReadableNoStop | db/duckdb_init.py:16-37 | When all files bind, no step fails. |
| ViewCatalog.InitializeSucceeds | db/duckdb_init.py:11-41 | When all files bind, the run completes. The three views read `statcast_*.parquet`, `lahman_people.parquet` and `player_map.parquet` in the Parquet directory, and no other name changes. |
| ViewCatalog.InitializeFailsAt | db/duckdb_init.py:16-41 | When step k cannot bind, the run reports step k. The views before k are recreated, view k is gone, and later views and other names are as before. |
| ViewCatalog.FirstUnreadableIsLeast | db/duckdb_init.py:16-41 | The failing step is the least step that cannot bind. |
| ViewCatalog.InitializeIdempotent | db/duckdb_init.py:11-41 | Initialising twice gives the same catalog and outcome as once, whether or not a step fails. |
| ViewCatalog.InitializeForgetsOldViews | db/duckdb_init.py:19-35 | A completed run ends in the same catalog whatever definitions of the three views existed before. |

## Left out

- ResultView.JsLess: JavaScript's `<` between values of different kinds, such as a number and a string, coerces them. The model treats such pairs as unordered, so the ordering proven by `SortRowsOrders` says nothing about columns that mix kinds.
- ResultView.SortRowsOrders: the sort is modelled as a stable insertion sort driven by the page's comparator. The engine's own algorithm is not modelled. Two null or absent values compare as 1 both ways, an inconsistent comparator, so no order among those rows is claimed.
- Record field order follows the API's column order. JavaScript's reordering of integer-like keys in `Object.keys` is not modelled, and neither are duplicate column names.
- ResultView.HandleSubmit: the form handler is modelled as one atomic step from the state at submission. Edits the user makes while the request is in flight are not modelled.
- Errors raised while parsing the response body are folded into a thrown error with a message.
- Floating-point values are not modelled: numbers are integers, plus not-a-number.
- SqlGenerator.NlToSql: the chat completion is an abstract function of the messages. Whether the HTTP and API clients can be built is a boolean parameter, with no cause given. The model name, temperature, token limit and logging are not modelled.
- The HTTP endpoint (api/main.py), the bar-chart component, the page's markup, and the Statcast and Lahman ingestion scripts are not part of this model.
- QueryExecutor.ExecuteQuery: SQL itself is not interpreted. The engine's answer to a statement is a parameter.
- Uploader.UploadTable: Parquet serialisation and the object-store put are not modelled. A failed put is only logged, so it changes no outcome.
- PlayerMap.FetchAndUpload: CSV parsing is a parameter. Any exception escaping the function, a missing required column or a failed integer cast, is one `Crashed` outcome. Frames with duplicate column names are not modelled.
- ViewCatalog.Initialize: the connection is not closed when a step fails, because `con.close()` is skipped. The model does not track the connection handle, and it treats DuckDB's binding check as an abstract predicate on the path pattern.
