# Financial document analyzer: the job lifecycle, modelled in Dafny

This project models the core of the financial-document-analyzer service:
- The table of analysis jobs. Each job is an `AnalysisRecord` row keyed by its task id, with a status of queued, processing, completed or failed.
- The HTTP handlers that write that table:
  - synchronous analysis (`POST /analyze`);
  - asynchronous submission (`POST /analyze/async`);
  - deletion (`DELETE /history/{task_id}`).
- The handlers that read it:
  - job status (`GET /status/{task_id}`);
  - history listing (`GET /history`);
  - full record (`GET /history/{task_id}`).
- The queue worker's task. It marks the row processing, runs the crew, records the outcome and removes the upload. A failure makes the broker run it again, up to two more times.
- The text cleaners of the crew's tools:
  - collapse blank lines per page and join the pages;
  - remove doubled spaces;
  - the identity risk tool.

The modules follow the program:

| file | module | models |
|---|---|---|
| `common.dfy` | `Common` | `Option` and `Result` |
| `records.dfy` | `Records` | the `AnalysisRecord` row, its defaults and nullability, and the invariant every row of the table keeps |
| `requests.dfy` | `Requests` | request helpers: the `.pdf` check, Python's `str.strip` and the query default, the upload path, HTTP errors |
| `views.dfy` | `Views` | the read endpoints, as functions of the table |
| `backend.dfy` | `Backend` | the `Store` class: the table, the set of files on disk, the broker's queue and a clock |
| `api.dfy` | `Api` | the writing handlers, as methods on a `Store` |
| `worker.dfy` | `Worker` | the worker task with its retry loop |
| `lifecycle.dfy` | `Lifecycle` | what the status endpoint reports after each write path |
| `tools.dfy` | `Tools` | the text-cleaning loops, proved against one reference function `Squeeze` |

Several things are parameters, because they come from outside:
- the crew (`run_crew_sync`, `Crew.kickoff`), as an `EngineRun`: it returns a report or raises a message, and it takes a whole number of seconds;
- the fresh `uuid4` id, passed in and required to be unused;
- each failure of file I/O or the broker, as a flag or an optional error message.

Time is a natural-number clock in the `Store`. Only a crew run and the retry countdown of 5 seconds advance it.

## Model

| member | source | states |
|---|---|---|
| `Records.NewRecord` | database.py:18-30 | A new row has the given id, filename and query, status `queued` (the column default), `created_at` stamped with the current time, and result, error, completion time and duration all absent |
| `Records.StatusNameInjective` | database.py:25 | The four status strings `queued`, `processing`, `completed` and `failed` are distinct, so a status name identifies the status |
| `Records.NewRecordWellFormed` | database.py:25-30 | A new row, queued or switched to processing, satisfies the per-status field invariant |
| `Records.InsertKeepsInvariant` | database.py:22 | Writing a well-formed row under its own id keeps the table invariant: the key is the primary key `id`, one row per id, every row well formed, timestamps not in the future |
| `Records.DeleteKeepsInvariant` | database.py:22 | Removing a key keeps the table invariant |
| `Records.LaterClockKeepsInvariant` | database.py:28-29 | Time passing keeps the table invariant |
| `Backend.Store.constructor` | database.py:33-35 | A store over a fresh database file starts with no rows, no files and an empty queue; `create_all` keeps the rows of an existing file, which the model reaches by running handlers from this state |
| `Backend.Store.Put` | main.py:100-101 | Committing a row replaces exactly that key and keeps the table invariant |
| `Backend.Store.RemoveUpload` | main.py:135-140 | The upload is gone afterwards unless removing it raised; that error is swallowed |
| `Backend.Store.Advance` | worker.py:50 | The clock moves forward by the given seconds and the table invariant holds at the later time |
| `Requests.PdfByExtension` | main.py:74 | A name is accepted exactly when its last four characters, lower-cased, are `.pdf` |
| `Requests.ShortNameRejected` | main.py:74 | A name shorter than `.pdf` is rejected |
| `Requests.PdfCheckIgnoresCase` | main.py:74 | Lower-casing a name does not change whether it is accepted |
| `Requests.TrimStartMeaning` | main.py:90 | Leading-whitespace removal returns a suffix that starts with a non-space or is empty, and drops only whitespace |
| `Requests.TrimEndMeaning` | main.py:90 | Trailing-whitespace removal returns a prefix that ends with a non-space or is empty, and drops only whitespace |
| `Requests.StripIsTrimmedMiddle` | main.py:90 | `strip()` returns a contiguous slice of its input with no whitespace at either end |
| `Requests.StripEmptyIffBlank` | main.py:87 | `query.strip() == ""` holds exactly when every character of the query is whitespace |
| `Requests.StripIdempotent` | main.py:90 | Stripping twice is stripping once |
| `Requests.StripUnpadded` | main.py:90 | A string with no whitespace at either end is its own strip |
| `Requests.DefaultQueryStripped` | main.py:87-90 | The default prompt survives the final `strip()` unchanged |
| `Requests.NormaliseQueryMeaning` | main.py:87-90 | The stored query is never empty and always stripped; a blank or whitespace-only query becomes the default prompt; any other query becomes its stripped self |
| `Requests.UploadPathInjective` | main.py:78 | Distinct task ids have distinct upload paths |
| `Views.GetTaskStatus` | main.py:211-236 | NotFound exactly when the id is absent; for a well-formed row a response echoing id, status name, filename, query and creation time; analysis, completion time and duration exactly when completed; error and nullable completion time exactly when failed |
| `Views.GetAnalysisById` | main.py:279-297 | Success exactly when the id is present, returning every column of that row; otherwise a 404 naming the id |
| `Views.MatchingKeys` | main.py:258-259 | The rows the status filter selects are rows of the table |
| `Views.NewestExists` | main.py:256 | A nonempty set of rows has a newest one, by `created_at` |
| `Views.NewestOrderCons` | main.py:256 | The newest row followed by a newest-first order of the others is a newest-first order of all |
| `Views.ConsCoversKeys` | main.py:256 | That extended order lists every row once |
| `Views.ConsDistinct` | main.py:256 | That extended order has no repeats |
| `Views.ConsNewestFirst` | main.py:256 | That extended order is sorted by `created_at` descending |
| `Views.NewestFirst` | main.py:256 | A listing of a set of rows in which every row occurs exactly once, sorted by `created_at` descending |
| `Views.PrefixOfNewestOrder` | main.py:256-261 | A prefix of a newest-first order is a newest-first listing of the rows it holds, and each of them is no older than any row left out |
| `Views.NewestMatching` | main.py:256-261 | The rows SQL returns: all match the filter, no repeats, sorted newest first, as many as the bound allows, and no matching row left out is newer |
| `Views.SqlRowLimit` | main.py:255-261 | `min(limit, 100)` passed to SQL `LIMIT`: the capped limit when it is not negative, no bound otherwise |
| `Views.Page` | main.py:263-276 | `total` equals the number of entries, and each entry summarises the row at its position |
| `Views.GetAnalysisHistoryDefault` | main.py:245 | Without a `limit` parameter the listing holds the newest 20 matching rows, or all of them when fewer match |
| `Views.GetAnalysisHistory` | main.py:243-276 | `total` is the number returned: `min(limit, 100)` rows or all matching rows, whichever is fewer, and all matching rows when the limit is negative; every entry matches the filter; entries are sorted by `created_at` descending |
| `Views.NegativeLimitBypassesCap` | main.py:255 | With more than 100 rows, `limit=-1` returns every row, more than the documented maximum of 100 |
| `Views.ClampedRowLimit` | main.py:252 | The documented limit: never more than 100, and `min(limit, 100)` for a limit that is not negative |
| `Views.GetAnalysisHistoryCapped` | main.py:252-265 | The corrected listing: never more than 100 entries; identical to the listing as written for a limit that is not negative; filtered and sorted newest first |
| `Api.SyncRow` | main.py:94-131 | The row the synchronous handler leaves is well formed. After a report it is completed with result, completion time and duration. After a crash it is failed with the error and completion time, and has no duration |
| `Api.RunSync` | main.py:91-133 | While the crew runs the row is processing. Afterwards the table differs from before only at the new id, which holds `SyncRow`. The response carries the report and duration, or is a 500 with the error |
| `Api.AnalyzeDocument` | main.py:64-140 | A non-PDF name gives 400 with the table, files and clock unchanged. An upload write that raises gives 500 before any row exists. Otherwise the normalised query is stored, the run is as in `RunSync`, and the upload is removed unless removal raised |
| `Api.AnalyzeDocumentAsync` | main.py:147-204 | Nothing changes on 503 (the worker is not importable), 400 (not a PDF) or an upload write that raises. Otherwise the upload exists and the new id holds a queued row with the normalised query. A successful publish appends `(task_id, query, file_path)` to the queue and returns the status URL. A failed publish returns 500 and leaves the queued row |
| `Api.DeleteAnalysis` | main.py:300-311 | A 404 with the table unchanged when the id is absent. Otherwise exactly that id is removed and the confirmation message is returned |
| `Worker.AfterRun` | worker.py:54-93 | One execution that finds the row leaves it well formed, with completion time and duration. Completed with the report when the crew returned; failed with the error when it raised. Identity, creation time and the other outcome field are kept |
| `Worker.RunTaskBody` | worker.py:43-104 | The row is processing while the crew runs, then becomes `AfterRun` of it. When the row is absent the crew still runs and nothing is written. The upload is removed unless removal raised |
| `Worker.RunsUsed` | worker.py:95 | One delivery runs between 1 and 3 times (one run plus `max_retries=2`). Every execution before the last raised, and one that stops early returned |
| `Worker.AnalyzeDocumentTask` | worker.py:43-104 | Runs `RunsUsed(runs)` executions, with the 5-second countdown between them. The row ends as the replay of those executions, or is untouched when absent. The outcome is the last execution's. The trail records the status the table held during and after each execution. Each execution's removal of the upload may fail on its own: an execution finds the upload exactly when it existed at the start and every earlier removal raised, and the upload is left at the end only if every removal raised |
| `Worker.RunsUsedStops` | worker.py:95 | When every run before index k raised and run k returned or is the last, the delivery uses exactly k + 1 executions |
| `Worker.ReplayFinishes` | worker.py:74-93 | After one or more executions the row is well formed, keeps its id and creation time, has the last execution's terminal status, and was completed at the end of the last run |
| `Worker.CompletedIffSomeRunReturned` | worker.py:74-95 | The row ends completed exactly when one of the executions returned, and then holds that report; otherwise it is failed with the last error |
| `Worker.RetryKeepsStaleError` | worker.py:74-90 | A first execution that raises followed by one that returns leaves the row completed, holding both the report and the first error |
| `Worker.RetryReentersProcessing` | worker.py:54-89 | With the trail of statuses the task leaves in the table, a first execution that raises leaves the row `failed`, and the retry then holds it `processing` |
| `Worker.TrailPrefix` | worker.py:54-95 | The table holds two statuses per execution (during the run and after it), and those of the first k executions begin the trail |
| `Lifecycle.SubmittedJobIsQueued` | main.py:184-191 | A job just submitted asynchronously reports `queued`, its filename, its normalised query and no detail |
| `Lifecycle.WorkerOutcomeVisible` | worker.py:74-93 | After a delivery the status shows `completed` with the report when some execution returned, and otherwise `failed` with the last error |
| `Lifecycle.SyncFailureHasNoDuration` | main.py:125-131 | A failed synchronous job reports its error and completion time, and its full record has no duration |
| `Lifecycle.DeletedJobNotFound` | main.py:300-311 | After deletion the job's status is NotFound, and every other job's status and full record are unchanged |
| `Tools.Squeeze` | tools.py:43-44 | Squeezing never lengthens a string and keeps its first character |
| `Tools.ReplacePairs` | tools.py:44 | One `replace` of pairs with singles keeps the first character, never lengthens, and shortens the string whenever a pair is present |
| `Tools.SqueezeCons` | tools.py:43-44 | How squeezing treats a character before the rest of the string |
| `Tools.SqueezeNoPair` | tools.py:43 | A squeezed string contains no doubled separator |
| `Tools.SqueezeKeepsOthers` | tools.py:44 | Squeezing deletes only the separator: the other characters stay, in order |
| `Tools.SqueezeFixed` | tools.py:43 | A string with no doubled separator is left as it is |
| `Tools.SqueezeIdempotent` | tools.py:67-72 | Squeezing twice equals squeezing once |
| `Tools.SqueezeDropOne` | tools.py:70 | Deleting one character of a doubled separator does not change the squeezed result |
| `Tools.SqueezeReplacePairs` | tools.py:44 | One `replace("\n\n", "\n")` pass does not change the squeezed result, so looping until no pair remains ends at the squeeze |
| `Tools.CollapseBlankLines` | tools.py:43-44 | The loop ends with the page squeezed on newlines, which contains no `"\n\n"` |
| `Tools.ReadData` | tools.py:38-48 | The report is the concatenation, in page order, of each cleaned page followed by `"\n"` |
| `Tools.WithoutAppend` | tools.py:46 | Removing newlines distributes over concatenation |
| `Tools.ReportKeepsText` | tools.py:38-46 | The report, ignoring newlines, is the pages' text, ignoring newlines, in page order |
| `Tools.RemoveDoubleSpaces` | tools.py:64-74 | The loop ends with the input squeezed on spaces: no two consecutive spaces, every other character kept in order, and each run of spaces reduced to one |
| `Tools.RiskAssessment` | tools.py:81-90 | The risk tool returns its input unchanged |

## Left out

- PDF loading, web search, the CrewAI agents and tasks, and the language model are outside this model. Pages are a `seq<string>` input, and a crew run is an `EngineRun` parameter.
- FastAPI routing, the reading of `UploadFile`, uvicorn and the health-check endpoint `GET /` are transport with no logic beyond a constant.
- SQLAlchemy sessions and the SQLite engine are modelled as an in-memory map. A failing commit is not modelled.
- Celery and Redis are modelled as an appended queue of deliveries, plus an explicit retry loop over at most three given outcomes. Worker concurrency, result expiry, duplicate delivery and races such as delete-while-processing are not modelled.
- Wall-clock time and float durations are not modelled. `round(…, 2)` and sub-second time become whole seconds on a clock that only the crew and the retry countdown advance, so the recorded duration is the run's seconds.
- `Requests.IsPdfName`: lower-cases ASCII letters only; Python's `str.lower` also folds non-ASCII letters, which cannot turn a name into `.pdf` but is not modelled.
- `Api.AnalyzeDocument`: when writing the upload raises, the model assumes no file was created, although a partly written file could exist and would be removed by the `finally` block.
- `Api.AnalyzeDocumentAsync`: when writing the upload raises, the model assumes no file is left behind.
- The history ordering breaks ties between equal `created_at` values in an unspecified way, as SQL does. The model proves the order is newest-first, not which of two equally old rows comes first.
- The async handler's failure modes are flags, not exceptions carrying a message, because the 500 response does not depend on the message.

## Findings

| source | as written | input that shows it | evidently intended | confidence | as-written member | corrected member |
|---|---|---|---|---|---|---|
| main.py:255 | `limit = min(limit, 100)` caps only from above; SQLite treats a negative `LIMIT` as no limit | `GET /history?limit=-1` with more than 100 rows returns every row | at most 100 records (main.py:252) | not executed | `Views.NegativeLimitBypassesCap` | `Views.GetAnalysisHistoryCapped` |

Behaviours of the code that the model keeps as they are:
- Status is not forward-only: a retry runs worker.py:54-57 again after worker.py:89 wrote `failed`, so the row goes back to `processing` (`Worker.RetryReentersProcessing`).
- A job that fails and then succeeds on retry keeps its old `error` next to the new `result`, because worker.py:74-79 does not clear it (`Worker.RetryKeepsStaleError`).
- The synchronous failure path, main.py:125-131, records no duration (`Lifecycle.SyncFailureHasNoDuration`).
- An asynchronous submission whose publish fails leaves a `queued` row that nothing will process: main.py:190-191 commits it before main.py:194 publishes (`Api.AnalyzeDocumentAsync`).
- A retry finds the uploaded file only when the earlier executions failed to remove it, because worker.py:97-103 removes it on every exit (`Worker.AnalyzeDocumentTask`).
