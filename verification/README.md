# Diagnostic event table storage repository, modelled in Dafny

This project models the sequential core of `DiagnosticEventTableStorageRepository`
from the Azure Functions host. It proves properties of the model. The repository
collects diagnostic events reported by the host. Repeated reports of one error
code are folded into a single record with a hit count. On a timer, the records
are written to an Azure storage table and then removed from memory.

Three pieces of logic are modelled as pure functions:

- `EventAccumulator.AddDiagnosticEvent` is the upsert into the map from error
  code to record. `ReportAll` folds a sequence of reports, one after another.
- `LogFlush.FlushLogs` resolves the log table and runs the insert-then-remove
  loop over the keys. The table is abstracted twice. `LogTable` says how
  resolving it went. A sequence of `InsertOutcome`s holds the table's answer to
  each insert of the pass. The key order of the concurrent dictionary is
  unspecified, so the visit order is a parameter: any duplicate-free listing of
  the keys.
- `TableNames.NormalizedTableName` derives the table name. It filters the app
  name to `[0-9A-Za-z ,]`, prepends `MSDiagnosticEvents`, and truncates to 63
  characters.

Files: `wrappers.dfy` (Option), `diagnostic_events.dfy` (the record, the report,
the map, and the predicates `SameContent`, `WellKeyed` and `IsSubMap`),
`event_accumulator.dfy`, `log_flush.dfy`, `table_names.dfy`.

Behaviours of the code that the model keeps as written:

- A repeated report does not refresh `Message`, `Level`, `HelpLink` or
  `Details`, so the stored content is that of the first report, not the
  latest. Only `HitCount` (+1) and `LastTimeStamp` change.
- A storage error is not isolated to one record: it ends the pass. The catch
  sits outside the loop. Keys visited earlier are already removed. The failing
  key and all later keys stay, whatever the table would have answered for them.
- Removal is unconditional. There is no compare-and-remove against a hit count
  captured at snapshot time.
- Resolving the table can throw something other than a `StorageException`.
  A null app name makes the name filter throw `ArgumentNullException`, and the
  client library may reject a table name it considers illegal. Nothing catches
  such an exception, so it escapes every pass, even on an empty map, before any
  key is visited. It is modelled as the table outcome `ResolutionThrew` and the
  status `ResolutionExceptionThrown`, with the map unchanged.
- When no table can be resolved, the loop calls `Execute` on a null table. On a
  non-empty map this throws a `NullReferenceException`, which the
  `StorageException` handler does not catch. It is modelled as the status
  `NullReferenceThrown`, with the map unchanged. It is not a silent no-op.
- The flush timer interval is the literal `60 * 1000` ms, one minute. Its
  comment says "10 mins". This disagreement is flagged here and not modelled.

## Model

| member | source | states |
|---|---|---|
| EventAccumulator.AddDiagnosticEvent | src/WebJobs.Script.WebHost/Diagnostics/DiagnosticEventTableStorageRepository.cs:105-122 | The key set afterwards is exactly the old keys plus the reported code. Every other entry is unchanged. A new code stores the freshly built record (code, message, level, help link, details, timestamp, initial hit count). A present code gets hit count +1 and the new timestamp, and keeps message, level, help link and details. No hit count decreases. Records stay filed under their own code. |
| EventAccumulator.ReportAllKeys | src/WebJobs.Script.WebHost/Diagnostics/DiagnosticEventTableStorageRepository.cs:117-122 | After any sequence of reports, the keys are the old keys plus the codes reported. Nothing is ever removed by reporting. |
| EventAccumulator.KnownCodeAccumulates | src/WebJobs.Script.WebHost/Diagnostics/DiagnosticEventTableStorageRepository.cs:117-122 | For a code already present, the hit count grows by exactly the number of further reports of it. Its content fields never change. With no further report, the record is untouched. |
| EventAccumulator.NewCodeKeepsFirstReport | src/WebJobs.Script.WebHost/Diagnostics/DiagnosticEventTableStorageRepository.cs:105-122 | For a new code, the record keeps the content of the FIRST report carrying it. Its hit count is the initial count plus one per later report of that code. |
| EventAccumulator.LastTimeStampIsLatest | src/WebJobs.Script.WebHost/Diagnostics/DiagnosticEventTableStorageRepository.cs:117-122 | The stored timestamp is that of the last report carrying the code. |
| LogFlush.FlushKeys | src/WebJobs.Script.WebHost/Diagnostics/DiagnosticEventTableStorageRepository.cs:91-97 | The loop leaves a sub-map of its input: it only deletes, and never alters a surviving record. Keys it was not asked to visit survive. It hands over no more records than there are keys to visit; `FlushKeysMatchesReference` states the exact sequence. The loop itself raises nothing: it either completes or ends with a logged storage error. |
| LogFlush.FlushLogs | src/WebJobs.Script.WebHost/Diagnostics/DiagnosticEventTableStorageRepository.cs:64-103 | The result is always a sub-map of the input. When the table is missing or cannot be created, the map is unchanged and nothing is inserted. A `NullReferenceException` escapes exactly when the table is missing and the map is non-empty; a missing table with an empty map completes. A storage error during table creation is logged. A non-storage exception escapes exactly when resolving the table threw one, whatever the map holds. Records stay filed under their own code. |
| LogFlush.FirstStorageError | src/WebJobs.Script.WebHost/Diagnostics/DiagnosticEventTableStorageRepository.cs:88-102 | The index where the pass stops: every earlier insert was accepted, and the insert at the index failed unless the index is the end. |
| LogFlush.FlushKeysMatchesReference | src/WebJobs.Script.WebHost/Diagnostics/DiagnosticEventTableStorageRepository.cs:88-102 | The loop equals a loop-free description. With k the first failing insert, the first k keys are removed and their records handed over in visit order. Everything else is kept. The status is "storage error logged" exactly when k is before the end. |
| LogFlush.FlushAllInserted | src/WebJobs.Script.WebHost/Diagnostics/DiagnosticEventTableStorageRepository.cs:91-96 | If the table accepts every insert, each record goes to the table exactly as stored, in visit order, every stored record among them. The map ends empty and the pass completes. |
| LogFlush.FlushStopsAtFirstStorageError | src/WebJobs.Script.WebHost/Diagnostics/DiagnosticEventTableStorageRepository.cs:88-102 | If the k-th insert is the first to fail, the keys visited before it are removed. The failing key and all later keys keep their records unchanged. The error is logged, not raised. Exactly the first k records were handed over. |
| LogFlush.FlushTwiceInsertsNothing | src/WebJobs.Script.WebHost/Diagnostics/DiagnosticEventTableStorageRepository.cs:85-97 | After a fully accepted pass, a second pass inserts nothing and leaves an empty map. It raises no null reference, and it completes unless resolving the table throws. |
| TableNames.StripDisallowed | src/WebJobs.Script.WebHost/Diagnostics/DiagnosticEventTableStorageRepository.cs:129-129 | The filtered name is no longer than the input and holds only digits, ASCII letters, space and comma. |
| TableNames.NormalizedTableName | src/WebJobs.Script.WebHost/Diagnostics/DiagnosticEventTableStorageRepository.cs:127-133 | The name is at most 63 characters and starts with `MSDiagnosticEvents`. After the prefix comes a prefix of the filtered app name. The whole filtered name is kept when prefix plus filtered name fit in 63 characters; otherwise the result is exactly 63 long. Every character is allowed. |
| TableNames.StripIsSubsequence | src/WebJobs.Script.WebHost/Diagnostics/DiagnosticEventTableStorageRepository.cs:129-129 | The filtered name is an in-order subsequence of the app name. |
| TableNames.StripKeepsAllowedCharacters | src/WebJobs.Script.WebHost/Diagnostics/DiagnosticEventTableStorageRepository.cs:129-129 | Every allowed character keeps its number of occurrences. No other character survives. |
| TableNames.StripConcat | src/WebJobs.Script.WebHost/Diagnostics/DiagnosticEventTableStorageRepository.cs:129-129 | The filter works character by character: filtering a concatenation concatenates the filtered parts. |
| TableNames.StripFixesAllowed | src/WebJobs.Script.WebHost/Diagnostics/DiagnosticEventTableStorageRepository.cs:129-129 | A string of allowed characters passes unchanged. |
| TableNames.StripIdempotent | src/WebJobs.Script.WebHost/Diagnostics/DiagnosticEventTableStorageRepository.cs:129-129 | Filtering twice equals filtering once. |
| TableNames.NormalizedAllowedShortName | src/WebJobs.Script.WebHost/Diagnostics/DiagnosticEventTableStorageRepository.cs:127-133 | An app name of allowed characters that fits gets only the prefix added. |
| TableNames.NormalizedTableNameIdempotent | src/WebJobs.Script.WebHost/Diagnostics/DiagnosticEventTableStorageRepository.cs:127-133 | Normalising the part of a table name after the prefix gives back the same table name. |
| TableNames.NormalizedTableNameExample | src/WebJobs.Script.WebHost/Diagnostics/DiagnosticEventTableStorageRepository.cs:127-133 | `My-App_42` becomes `MSDiagnosticEventsMyApp42`. |

## Left out

- Concurrency is not modelled. This covers the atomicity of `ConcurrentDictionary.AddOrUpdate`, reports that race a flush, and overlapping flushes. The model is sequential.
- The timer (`_resetTimer`, `OnFlushLogs`) is not modelled. It only calls `FlushLogs`. The interval disagreement is noted above.
- The Cloud Table client is a foreign library. This covers connection-string parsing, `CloudTableClient` construction, `GetTableReference`, `CreateIfNotExists`, and the lazy caching of client and table. It is abstracted as the `LogTable` parameter. `Missing` stands for a null table. `CreationFailed` stands for a `StorageException` while getting or creating it. `ResolutionThrew` stands for any other exception while resolving it.
- An insert's outcome comes from the table service and is a parameter (`InsertOutcome`). Failures of `Execute` other than `StorageException` are not modelled.
- `Console.WriteLine` and `ILogger` output, and the `ToFormattedString` formatting of the exception, are not modelled. `Details` is an opaque optional string.
- EventAccumulator.AddDiagnosticEvent: the initial `HitCount` of a new record comes from the `DiagnosticEvent` class, which is not part of this model. It is taken as a parameter, `initialHitCount`. The width of `HitCount` is unknown for the same reason, so the `+1` is unbounded and 32-bit wrap-around is not modelled.
- A null `errorCode` is not modelled. It makes `AddOrUpdate` throw `ArgumentNullException`. The error code is a plain string, because a null one never reaches the map. `Message`, `HelpLink` and `Details` are optional strings, because the repository stores them even when they are null. A null app name reaches the model only as the table outcome `ResolutionThrew`.
- `DateTime` timestamps are integers (ticks). Only their identity matters here.
- `DrainModeStatus` is a data-transfer object with no logic and is not modelled.
- The model does not check the table name against the storage service's own naming rules. In particular, a space or comma kept by the filter is outside the alphanumeric names the service accepts.
